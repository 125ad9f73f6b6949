/** When it is safe to stop reading a StoneOS session, and what the cleaner removes. */
module HillstoneLaws {
  import opened Sequences
  import opened Utf8
  import opened Text
  import opened Hillstone

  // ----- The cleaner on consecutive pieces -----

  lemma {:induction false} CleanConcat(p: Phase, a: seq<string>, b: seq<string>)
    ensures CleanFrom(p, a + b) == CleanFrom(p, a) + CleanFrom(PhaseAfter(p, a), b)
    decreases |a|
  {
    if a == [] {
      assert a + b == b;
    } else {
      DropConcat(a, b, 1);
      var q := Advance(p, a[0]);
      CleanConcat(q, a[1..], b);
      ConcatAssoc(Output(p, a[0]), CleanFrom(q, a[1..]), CleanFrom(PhaseAfter(p, a), b));
    }
  }

  lemma TextConcat(t: string, x: string)
    requires t == "" || t[|t| - 1] == '\n'
    ensures Clean(t + x) == Clean(t) + CleanFrom(PhaseAfter(Seeking, Lines(t)), Lines(x))
  {
    LinesConcat(t, x);
    CleanConcat(Seeking, Lines(t), Lines(x));
  }

  lemma TrimChomped(l: string)
    ensures TrimEnd(ChompCr(l)) == TrimEnd(l)
    ensures forall p :: Output(p, ChompCr(l)) == Output(p, l) && Advance(p, ChompCr(l)) == Advance(p, l)
  {
  }

  // ----- Stopping early -----

  /** How much of `s` is whole lines. */
  function WholeLines(s: string): (n: nat)
    ensures n <= |s| && '\n' !in s[n..]
    ensures n == 0 || s[n - 1] == '\n'
  {
    if s == "" then 0
    else if s[|s| - 1] == '\n' then |s|
    else
      var n := WholeLines(s[..|s| - 1]);
      assert s[n..] == s[..|s| - 1][n..] + [s[|s| - 1]];
      n
  }

  /** The whole lines received so far hold a start line and, after it, the terminator. */
  ghost predicate Complete(s: string) {
    var ls := Lines(s[..WholeLines(s)]);
    exists i, j :: 0 <= i < j < |ls| && IsStart(TrimEnd(ls[i])) && TrimEnd(ls[j]) == END
  }

  lemma {:induction false} CopyingEndsExactly(ls: seq<string>)
    ensures PhaseAfter(Copying, ls) == Done <==> exists j :: 0 <= j < |ls| && TrimEnd(ls[j]) == END
    decreases |ls|
  {
    if ls != [] {
      var rest := ls[1..];
      CopyingEndsExactly(rest);
      if TrimEnd(ls[0]) == END {
        DoneStays(rest);
      } else {
        assert forall j :: 0 <= j < |rest| ==> rest[j] == ls[j + 1];
        if exists j :: 0 <= j < |ls| && TrimEnd(ls[j]) == END {
          var j :| 0 <= j < |ls| && TrimEnd(ls[j]) == END;
          assert rest[j - 1] == ls[j];
        }
      }
    }
  }

  lemma {:induction false} DoneStays(ls: seq<string>)
    ensures PhaseAfter(Done, ls) == Done
    decreases |ls|
  {
    if ls != [] { DoneStays(ls[1..]); }
  }

  lemma {:induction false} SeekingEndsExactly(ls: seq<string>)
    ensures PhaseAfter(Seeking, ls) == Done <==>
      exists i, j :: 0 <= i < j < |ls| && IsStart(TrimEnd(ls[i])) && TrimEnd(ls[j]) == END
    decreases |ls|
  {
    if ls != [] {
      var rest := ls[1..];
      assert forall j :: 0 <= j < |rest| ==> rest[j] == ls[j + 1];
      SeekingEndsExactly(rest);
      CopyingEndsExactly(rest);
      if i, j :| 0 <= i < j < |ls| && IsStart(TrimEnd(ls[i])) && TrimEnd(ls[j]) == END {
        assert rest[j - 1] == ls[j];
        if i > 0 { assert rest[i - 1] == ls[i]; }
        if !IsStart(TrimEnd(ls[0])) {
          assert 0 <= i - 1 < j - 1 < |rest| && IsStart(TrimEnd(rest[i - 1])) && TrimEnd(rest[j - 1]) == END;
        }
      }
      if PhaseAfter(Seeking, ls) == Done {
        if IsStart(TrimEnd(ls[0])) {
          var j :| 0 <= j < |rest| && TrimEnd(rest[j]) == END;
          assert IsStart(TrimEnd(ls[0])) && TrimEnd(ls[j + 1]) == END;
        } else {
          var i, j :| 0 <= i < j < |rest| && IsStart(TrimEnd(rest[i])) && TrimEnd(rest[j]) == END;
          assert IsStart(TrimEnd(ls[i + 1])) && TrimEnd(ls[j + 1]) == END;
        }
      }
    }
  }

  lemma {:induction false} NoBreakInLossy(b: Bytes)
    requires 10 !in b
    ensures '\n' !in Lossy(b)
    decreases |b|
  {
    if b != [] {
      LossyStep(b);
      NoBreakInLossy(b[Next(b).len..]);
    }
  }

  lemma {:induction false} LastBreak(b: Bytes) returns (k: nat)
    requires 10 in b
    ensures k < |b| && b[k] == 10 && 10 !in b[k + 1..]
  {
    var n := |b| - 1;
    if b[n] == 10 {
      k := n;
    } else {
      assert b == b[..n] + [b[n]];
      k := LastBreak(b[..n]);
      assert b[k + 1..] == b[..n][k + 1..] + [b[n]];
    }
  }

  /** The bytes split where their text's last whole line ends. */
  lemma SplitAtLastBreak(b: Bytes) returns (pre: Bytes, tail: Bytes)
    requires WholeLines(Lossy(b)) > 0
    ensures b == pre + [10] + tail
    ensures Lossy(b)[..WholeLines(Lossy(b))] == Lossy(pre) + "\n"
    ensures Lossy(b)[WholeLines(Lossy(b))..] == Lossy(tail)
  {
    if 10 !in b {
      NoBreakInLossy(b);
      assert false;
    }
    var k := LastBreak(b);
    pre, tail := b[..k], b[k + 1..];
    assert b == pre + [10] + tail;
    LossySplit(pre, 10, tail);
    NoBreakInLossy(tail);
    BreakIsUnique(Lossy(b), Lossy(pre) + "\n", Lossy(tail));
  }

  lemma BreakIsUnique(s: string, t: string, x: string)
    requires s == t + x && t != "" && t[|t| - 1] == '\n' && '\n' !in x
    ensures WholeLines(s) == |t| && s[..|t|] == t && s[|t|..] == x
  {
    var n := WholeLines(s);
    assert forall j :: n <= j < |s| ==> s[n..][j - n] == s[j];
    assert forall j :: |t| <= j < |s| ==> s[j] == x[j - |t|];
    assert s[|t| - 1] == t[|t| - 1];
  }

  /** With a complete configuration received, nothing that may still arrive matters. */
  lemma CompleteIsSafe(b: Bytes, more: Bytes)
    requires Complete(Lossy(b))
    ensures Clean(Lossy(b + more)) == Clean(Lossy(b))
  {
    hide Lossy, PhaseAfter, Clean, WholeLines, IsStart, TrimEnd;
    var s := Lossy(b);
    SeekingEndsExactly(Lines(s[..WholeLines(s)]));
    var pre, tail := SplitAtLastBreak(b);
    var t := Lossy(pre) + "\n";
    assert s == t + Lossy(tail);
    ConcatAssoc(pre + [10], tail, more);
    LossySplit(pre, 10, tail + more);
    AfterDone(t, Lossy(tail), Lossy(tail + more));
  }

  lemma AfterDone(t: string, x: string, y: string)
    requires t != "" && t[|t| - 1] == '\n' && PhaseAfter(Seeking, Lines(t)) == Done
    ensures Clean(t + x) == Clean(t + y)
  {
    TextConcat(t, x);
    TextConcat(t, y);
    DoneAddsNothing(Lines(x));
    DoneAddsNothing(Lines(y));
  }

  lemma OneLine(p: Phase, x: string)
    ensures CleanFrom(p, [x]) == Output(p, x)
  {
    assert [x][1..] == [];
    assert CleanFrom(Advance(p, x), []) == "";
  }

  lemma TwoLines(p: Phase, x: string, y: string)
    ensures CleanFrom(p, [x, y]) == Output(p, x) + Output(Advance(p, x), y)
  {
    OneLine(Advance(p, x), y);
    assert [x, y][1..] == [y];
  }

  lemma LastLine(x: string)
    requires x != "" && '\n' !in x
    ensures Lines(x) == [x]
  {
    var i := IndexOf(x, '\n');
  }

  lemma CommentLine(p: Phase)
    requires p != Done
    ensures Output(p, "#") == "#\n" && Lines("#\n") == ["#"]
  {
    NeedsFirstChar("#", PAGER);
    LineSplit("#", "");
    assert "#" + "\n" + "" == "#\n";
  }

  /** An unfinished line that does not end the configuration is exposed by a comment
      line after it. */
  lemma OpenTail(p: Phase, x: string)
    requires x != "" && '\n' !in x && Advance(p, x) != Done
    ensures CleanFrom(p, Lines(x + "\n#\n")) == CleanFrom(p, Lines(x)) + "#\n"
  {
    hide TrimEnd, Find, Output, Advance, CleanFrom, Lines;
    var y := x + "\n#\n";
    ConcatAssoc(x, "\n", "#\n");
    assert "\n" + "#\n" == "\n#\n";
    LineSplit(x, "#\n");
    CommentLine(Advance(p, x));
    assert Lines(y) == [ChompCr(x), "#"];
    TrimChomped(x);
    TwoLines(p, ChompCr(x), "#");
    LastLine(x);
    OneLine(p, x);
  }

  /** An unfinished terminator line is exposed by one more letter on it. */
  lemma EndTail(p: Phase, x: string)
    requires '\n' !in x && p != Done && Advance(p, x) == Done
    ensures CleanFrom(p, Lines(x + "x")) != CleanFrom(p, Lines(x))
  {
    hide Find, IsStart;
    var y := x + "x";
    assert TrimEnd(y) == y;
    LastLine(x);
    LastLine(y);
    OneLine(p, x);
    OneLine(p, y);
    EndIsNoPager();
    assert |Output(p, x)| == 4 && |Output(p, y)| != 4;
  }

  lemma RevealingText(p: Phase, x: string) returns (e: string)
    requires p != Done && '\n' !in x
    ensures e != "" && e[0] as int < 0x80
    ensures CleanFrom(p, Lines(x + e)) != CleanFrom(p, Lines(x))
  {
    if x == "" {
      e := "#\n";
      assert x + e == e;
      CommentLine(p);
      OneLine(p, "#");
    } else if Advance(p, x) != Done {
      e := "\n#\n";
      OpenTail(p, x);
    } else {
      e := "x";
      EndTail(p, x);
    }
  }

  lemma AsciiAppend(b: Bytes, e: string)
    requires e != "" && e[0] as int < 0x80
    ensures Lossy(b + Encode(e)) == Lossy(b) + e
  {
    var x, rest := e[0] as int, Encode(e[1..]);
    DecodeEncode(e[1..]);
    LossySplit(b, x, rest);
    ConcatAssoc(b, [x], rest);
    ConcatAssoc(Lossy(b), [e[0]], e[1..]);
    assert [e[0]] + e[1..] == e;
  }

  lemma TailMatters(t: string, x: string, y: string)
    requires t == "" || t[|t| - 1] == '\n'
    requires var p := PhaseAfter(Seeking, Lines(t)); CleanFrom(p, Lines(x)) != CleanFrom(p, Lines(y))
    ensures Clean(t + x) != Clean(t + y)
  {
    hide Clean;
    TextConcat(t, x);
    TextConcat(t, y);
    var c := Clean(t);
    assert Clean(t + x)[|c|..] != Clean(t + y)[|c|..];
  }

  /** A continuation that changes the result, for output that is not complete. */
  lemma IncompleteIsUnsafe(b: Bytes) returns (more: Bytes)
    requires !Complete(Lossy(b))
    ensures Clean(Lossy(b + more)) != Clean(Lossy(b))
  {
    hide Lossy, Clean, IsStart, TrimEnd, Encode;
    var s := Lossy(b);
    var n := WholeLines(s);
    var t, x := s[..n], s[n..];
    assert s == t + x;
    SeekingEndsExactly(Lines(t));
    var e := RevealingText(PhaseAfter(Seeking, Lines(t)), x);
    more := Encode(e);
    AsciiAppend(b, e);
    ConcatAssoc(t, x, e);
    TailMatters(t, x + e, x);
  }

  /** Stopping is safe, whatever may still arrive, exactly when what has been received
      is complete. */
  lemma StopIsSafeExactly(b: Bytes)
    ensures Complete(Lossy(b)) <==> forall more: Bytes :: Clean(Lossy(b + more)) == Clean(Lossy(b))
  {
    if Complete(Lossy(b)) {
      forall more: Bytes ensures Clean(Lossy(b + more)) == Clean(Lossy(b)) {
        CompleteIsSafe(b, more);
      }
    } else {
      var more := IncompleteIsUnsafe(b);
    }
  }

  // ----- Whole sessions -----

  lemma {:induction false} ReadingOnExtends(events: seq<Event>, buf: Bytes) returns (more: Bytes)
    ensures Received(events, false, buf) == Received(events, true, buf) + more
    decreases |events|
  {
    more := [];
    if events != [] {
      match events[0]
      case Data(b) =>
        if EndsWithConfigMarker(buf + b) {
          more := GrowsFrom(events[1..], buf + b);
        } else {
          more := ReadingOnExtends(events[1..], buf + b);
        }
      case Quiet => more := ReadingOnExtends(events[1..], buf);
      case Idle =>
        if buf == [] { more := ReadingOnExtends(events[1..], buf); }
      case Deadline =>
      case Closed =>
    }
  }

  lemma {:induction false} GrowsFrom(events: seq<Event>, buf: Bytes) returns (more: Bytes)
    ensures Received(events, false, buf) == buf + more
    decreases |events|
  {
    more := [];
    if events != [] {
      match events[0]
      case Data(b) =>
        var rest := GrowsFrom(events[1..], buf + b);
        more := b + rest;
      case Quiet => more := GrowsFrom(events[1..], buf);
      case Idle =>
        if buf == [] { more := GrowsFrom(events[1..], buf); }
      case Deadline =>
      case Closed =>
    }
  }

  /** A session cut short once the configuration is complete gives the configuration that
      reading it to its end gives. */
  lemma EarlyStopLosesNothing(events: seq<Event>)
    requires Complete(Lossy(Received(events, true, [])))
    ensures Clean(Lossy(Received(events, true, []))) == Clean(Lossy(Received(events, false, [])))
  {
    var more := ReadingOnExtends(events, []);
    CompleteIsSafe(Received(events, true, []), more);
  }

  /** The stop test fires on complete output: reading never runs past it. */
  lemma CompleteStops(buf: Bytes)
    requires Complete(Lossy(buf))
    ensures EndsWithConfigMarker(buf)
  {
    hide Find, TrimEnd, IsStart, Lossy, WholeLines, Lines;
    var s := Lossy(buf);
    var n := WholeLines(s);
    LinesConcat(s[..n], s[n..]);
    assert s == s[..n] + s[n..];
    var ls := Lines(s[..n]);
    var i, j :| 0 <= i < j < |ls| && IsStart(TrimEnd(ls[i])) && TrimEnd(ls[j]) == END;
    assert Lines(s)[j] == ls[j];
  }

  lemma TooFewLines(s: string, whole: string, tail: string)
    requires s == whole + tail && whole != "" && whole[|whole| - 1] == '\n' && '\n' !in tail
    requires |Lines(whole)| == 1
    requires exists l <- Lines(s) :: TrimEnd(l) == END
    ensures EndsWithConfigMarker(Encode(s))
    ensures exists more :: Clean(Lossy(Encode(s) + more)) != Clean(Lossy(Encode(s)))
  {
    hide Find, TrimEnd, WholeLines, Encode, Lossy, Clean, IsStart, Lines;
    DecodeEncode(s);
    BreakIsUnique(s, whole, tail);
    var more := IncompleteIsUnsafe(Encode(s));
  }

  /** The stop test also fires on a last line cut off after "End", which the next chunk
      may turn into another line. */
  lemma StopTestAcceptsCutLine()
    ensures var buf := Encode("#\nEnd");
            EndsWithConfigMarker(buf) && exists more :: Clean(Lossy(buf + more)) != Clean(Lossy(buf))
  {
    hide Find, Encode, Lossy, Clean, EndsWithConfigMarker;
    var s := "#\nEnd";
    CommentLine(Seeking);
    assert s == "#\n" + "End";
    LinesConcat("#\n", "End");
    LastLine("End");
    assert Lines(s)[1] == "End" && TrimEnd("End") == END;
    TooFewLines(s, "#\n", "End");
  }

  /** It also fires on such a line before the configuration starts. */
  lemma StopTestAcceptsBanner()
    ensures var buf := Encode("End\n");
            EndsWithConfigMarker(buf) && exists more :: Clean(Lossy(buf + more)) != Clean(Lossy(buf))
  {
    hide Find, Encode, Lossy, Clean, EndsWithConfigMarker;
    var s := "End\n";
    LineSplit("End", "");
    assert s == "End" + "\n" + "" && s + "" == s;
    assert Lines(s)[0] == "End" && TrimEnd("End") == END;
    TooFewLines(s, s, "");
  }

  // ----- What the cleaner removes -----

  /** The configuration lines among `body`, without padding and pager prompts. */
  function Kept(body: seq<string>): seq<string> {
    if body == [] then []
    else if IsPager(TrimEnd(body[0])) then Kept(body[1..])
    else [TrimEnd(body[0])] + Kept(body[1..])
  }

  lemma {:induction false} BannerIsDropped(banner: seq<string>)
    requires forall l <- banner :: !IsStart(TrimEnd(l))
    ensures CleanFrom(Seeking, banner) == "" && PhaseAfter(Seeking, banner) == Seeking
    decreases |banner|
  {
    if banner != [] {
      BannerIsDropped(banner[1..]);
    }
  }

  lemma {:induction false} BodyIsKept(body: seq<string>)
    requires forall l <- body :: TrimEnd(l) != END
    ensures CleanFrom(Copying, body) == Unlines(Kept(body)) && PhaseAfter(Copying, body) == Copying
    decreases |body|
  {
    if body != [] {
      BodyIsKept(body[1..]);
      if !IsPager(TrimEnd(body[0])) {
        assert Kept(body)[1..] == Kept(body[1..]);
      }
    }
  }

  lemma {:induction false} CleanIgnoresCr(p: Phase, ls: seq<string>)
    ensures CleanFrom(p, ChompAll(ls)) == CleanFrom(p, ls) && PhaseAfter(p, ChompAll(ls)) == PhaseAfter(p, ls)
    decreases |ls|
  {
    if ls != [] {
      TrimChomped(ls[0]);
      assert ChompAll(ls)[1..] == ChompAll(ls[1..]);
      CleanIgnoresCr(Advance(p, ls[0]), ls[1..]);
    }
  }

  /** Framed lines and what they become, told by what is left of them once trimmed. */
  lemma FramedSession(banner: seq<string>, start: string, body: seq<string>, end: string, tail: string)
    requires forall l <- banner + [start] + body + [end] :: '\n' !in l
    requires forall l <- banner :: !IsStart(TrimEnd(l))
    requires IsStart(TrimEnd(start))
    requires forall l <- body :: TrimEnd(l) != END
    requires TrimEnd(end) == END
    ensures Clean(Unlines(banner + [start] + body + [end]) + tail)
         == Unlines((if TrimEnd(start) == ANCHOR then [] else [TrimEnd(start)]) + Kept(body) + [END])
  {
    hide TrimEnd, Find, Lines, Unlines, CleanFrom, PhaseAfter;
    var ls := banner + [start] + body + [end];
    var text := Unlines(ls);
    UnlinesEnd(ls);
    LinesUnlines(ls);
    assert Lines(text) == ChompAll(ls);
    CleanIgnoresCr(Seeking, ls);
    TextConcat(text, tail);
    FramedLines(banner, start, body, end);
    DoneAddsNothing(Lines(tail));
  }

  lemma FramedLines(banner: seq<string>, start: string, body: seq<string>, end: string)
    requires forall l <- banner :: !IsStart(TrimEnd(l))
    requires IsStart(TrimEnd(start))
    requires forall l <- body :: TrimEnd(l) != END
    requires TrimEnd(end) == END
    ensures var ls := banner + [start] + body + [end];
            && CleanFrom(Seeking, ls)
               == Unlines((if TrimEnd(start) == ANCHOR then [] else [TrimEnd(start)]) + Kept(body) + [END])
            && PhaseAfter(Seeking, ls) == Done
  {
    hide TrimEnd, Find, Kept, Unlines, CleanFrom, PhaseAfter;
    var head := if TrimEnd(start) == ANCHOR then [] else [TrimEnd(start)];
    var a, b := banner + [start], banner + [start] + body;
    PhaseConcat(Seeking, banner, [start]);
    CleanConcat(Seeking, banner, [start]);
    BannerIsDropped(banner);
    StartLine(start);
    PhaseConcat(Seeking, a, body);
    CleanConcat(Seeking, a, body);
    BodyIsKept(body);
    UnlinesConcat(head, Kept(body));
    PhaseConcat(Seeking, b, [end]);
    CleanConcat(Seeking, b, [end]);
    EndLine(end);
    UnlinesConcat(head + Kept(body), [END]);
  }

  lemma StartLine(start: string)
    requires IsStart(TrimEnd(start))
    ensures PhaseAfter(Seeking, [start]) == Copying
    ensures CleanFrom(Seeking, [start]) == Unlines(if TrimEnd(start) == ANCHOR then [] else [TrimEnd(start)])
  {
    hide TrimEnd, Find;
    OneLine(Seeking, start);
    SingleUnlines(TrimEnd(start));
  }

  lemma EndLine(end: string)
    requires TrimEnd(end) == END
    ensures PhaseAfter(Copying, [end]) == Done && CleanFrom(Copying, [end]) == Unlines([END])
  {
    hide TrimEnd, Find;
    EndIsNoPager();
    OneLine(Copying, end);
    SingleUnlines(END);
  }

  lemma SingleUnlines(l: string)
    ensures Unlines([l]) == l + "\n" && Unlines([]) == ""
  {
    assert Unlines([l]) == l + "\n" + "";
  }

  lemma {:induction false} PhaseConcat(p: Phase, a: seq<string>, b: seq<string>)
    ensures PhaseAfter(p, a + b) == PhaseAfter(PhaseAfter(p, a), b)
    decreases |a|
  {
    if a == [] {
      assert a + b == b;
    } else {
      DropConcat(a, b, 1);
      PhaseConcat(Advance(p, a[0]), a[1..], b);
    }
  }

  // ----- What the cleaner removes, in literals -----

  /** The code points with the Unicode property White_Space. */
  const WHITE_SPACE: set<int> := {
    0x9, 0xA, 0xB, 0xC, 0xD, 0x20, 0x85, 0xA0, 0x1680, 0x2000, 0x2001, 0x2002, 0x2003, 0x2004, 0x2005, 0x2006,
    0x2007, 0x2008, 0x2009, 0x200A, 0x2028, 0x2029, 0x202F, 0x205F, 0x3000}

  predicate AllWhite(s: string) {
    forall c <- s :: c as int in WHITE_SPACE
  }

  lemma WhiteIsSpace(c: char)
    ensures c as int in WHITE_SPACE <==> IsSpace(c)
  {
  }

  /** `t` is `s` without the white space at its end. */
  predicate IsTrimmed(s: string, t: string) {
    t <= s && AllWhite(s[|t|..]) && (t == "" || t[|t| - 1] as int !in WHITE_SPACE)
  }

  lemma TrimIsTrimmed(s: string)
    ensures IsTrimmed(s, TrimEnd(s))
  {
    hide IsSpace, TrimEnd;
    var r := TrimEnd(s);
    forall c <- s[|r|..] ensures c as int in WHITE_SPACE {
      var i :| 0 <= i < |s[|r|..]| && s[|r|..][i] == c;
      assert IsSpace(s[|r| + i]);
      WhiteIsSpace(c);
    }
    if r != "" { WhiteIsSpace(r[|r| - 1]); }
  }

  lemma TrimmedIsUnique(s: string, t: string, r: string)
    requires IsTrimmed(s, t) && IsTrimmed(s, r) && |t| <= |r|
    ensures t == r
  {
    assert t == s[..|t|] && r == s[..|r|];
    forall i | |t| <= i < |s| ensures s[i] in s[|t|..] {
      assert s[|t|..][i - |t|] == s[i];
    }
    assert r != "" ==> r[|r| - 1] == s[|r| - 1];
  }

  /** Exactly the white space at the end is trimmed. */
  lemma TrimExactly(s: string, t: string)
    ensures TrimEnd(s) == t <==> IsTrimmed(s, t)
  {
    hide IsTrimmed, TrimEnd;
    var r := TrimEnd(s);
    TrimIsTrimmed(s);
    if IsTrimmed(s, t) {
      if |t| <= |r| { TrimmedIsUnique(s, t, r); } else { TrimmedIsUnique(s, r, t); }
    }
  }

  /** A line of the session: some text, and white space the terminal pads it with. */
  datatype Padded = Padded(text: string, pad: string) {
    ghost predicate WellFormed() {
      && '\n' !in text && '\n' !in pad && AllWhite(pad)
      && (text == "" || text[|text| - 1] as int !in WHITE_SPACE)
    }

    predicate Prompt() {
      Contains(text, "--More--")
    }

    predicate Starts() {
      !Prompt() && (text == "Running configuration:" || (text != "" && text[0] == '#'))
    }
  }

  function Shown(ps: seq<Padded>): seq<string> {
    seq(|ps|, i requires 0 <= i < |ps| => ps[i].text + ps[i].pad)
  }

  /** The texts of the lines that are no pager prompts. */
  function Texts(ps: seq<Padded>): seq<string> {
    if ps == [] then [] else (if ps[0].Prompt() then [] else [ps[0].text]) + Texts(ps[1..])
  }

  lemma PaddedTrims(p: Padded)
    requires p.WellFormed()
    ensures TrimEnd(p.text + p.pad) == p.text && '\n' !in p.text + p.pad
  {
    assert (p.text + p.pad)[|p.text|..] == p.pad;
    TrimExactly(p.text + p.pad, p.text);
  }

  lemma LiteralNames()
    ensures ANCHOR == "Running configuration:" && PAGER == "--More--" && END == "End"
  {
  }

  lemma StartsAsNamed(p: Padded)
    ensures p.Prompt() <==> IsPager(p.text)
    ensures p.Starts() <==> IsStart(p.text)
  {
    hide Contains;
    LiteralNames();
  }

  lemma {:induction false} TextsAreKept(ps: seq<Padded>)
    requires forall p <- ps :: p.WellFormed()
    ensures Kept(Shown(ps)) == Texts(ps)
    decreases |ps|
  {
    hide TrimEnd, Padded.WellFormed, Padded.Prompt, IsPager;
    if ps != [] {
      PaddedTrims(ps[0]);
      StartsAsNamed(ps[0]);
      assert Shown(ps)[1..] == Shown(ps[1..]);
      TextsAreKept(ps[1..]);
    }
  }

  lemma ShownLines(ps: seq<Padded>)
    requires forall p <- ps :: p.WellFormed()
    ensures forall l <- Shown(ps) :: exists p <- ps :: l == p.text + p.pad && TrimEnd(l) == p.text && '\n' !in l
  {
    hide TrimEnd, Padded.WellFormed;
    forall i | 0 <= i < |ps|
      ensures TrimEnd(Shown(ps)[i]) == ps[i].text && '\n' !in Shown(ps)[i] && ps[i] in ps
    {
      assert ps[i] in ps;
      PaddedTrims(ps[i]);
    }
  }

  /** Whatever frames the configuration in the session, the result is its lines alone:
      without the banner, the start line (unless that is itself a comment of the
      configuration), pager prompts, padding, and everything after the terminator. */
  lemma FramingIsRemoved(banner: seq<Padded>, start: Padded, body: seq<Padded>, end: Padded, tail: string)
    requires forall p <- banner + [start] + body + [end] :: p.WellFormed()
    requires start.Starts() && forall p <- banner :: !p.Starts()
    requires end.text == "End" && forall p <- body :: p.text != "End"
    ensures Clean(Unlines(Shown(banner + [start] + body + [end])) + tail)
         == Unlines((if start.text == "Running configuration:" then [] else [start.text]) + Texts(body) + ["End"])
  {
    hide *;
    FramedPieces(banner, start, body, end);
    FramedSession(Shown(banner), start.text + start.pad, Shown(body), end.text + end.pad, tail);
    TextsAreKept(body);
    LiteralNames();
  }

  lemma ShownPieces(banner: seq<Padded>, start: Padded, body: seq<Padded>, end: Padded)
    ensures Shown(banner + [start] + body + [end])
         == Shown(banner) + [start.text + start.pad] + Shown(body) + [end.text + end.pad]
  {
  }

  lemma FramedPieces(banner: seq<Padded>, start: Padded, body: seq<Padded>, end: Padded)
    requires forall p <- banner + [start] + body + [end] :: p.WellFormed()
    requires start.Starts() && forall p <- banner :: !p.Starts()
    requires end.text == "End" && forall p <- body :: p.text != "End"
    ensures var s, e := start.text + start.pad, end.text + end.pad;
            && Shown(banner + [start] + body + [end]) == Shown(banner) + [s] + Shown(body) + [e]
            && (forall l <- Shown(banner) + [s] + Shown(body) + [e] :: '\n' !in l)
            && (forall l <- Shown(banner) :: !IsStart(TrimEnd(l)))
            && IsStart(TrimEnd(s)) && TrimEnd(s) == start.text
            && (forall l <- Shown(body) :: TrimEnd(l) != END) && TrimEnd(e) == END
            && forall p <- body :: p.WellFormed()
  {
    hide Padded.WellFormed, Padded.Starts, TrimEnd, IsStart, Shown;
    var all := banner + [start] + body + [end];
    assert start in all && end in all && (forall p <- banner :: p in all) && forall p <- body :: p in all;
    ShownPieces(banner, start, body, end);
    ShownLines(banner);
    ShownLines(body);
    PaddedTrims(start);
    PaddedTrims(end);
    LiteralNames();
    forall p <- all ensures p.Starts() <==> IsStart(p.text) {
      StartsAsNamed(p);
    }
  }

  lemma StartedLines(banner: seq<string>, start: string, body: seq<string>)
    requires forall l <- banner :: !IsStart(TrimEnd(l))
    requires IsStart(TrimEnd(start))
    requires forall l <- body :: TrimEnd(l) != END
    ensures CleanFrom(Seeking, banner + [start] + body)
         == Unlines((if TrimEnd(start) == ANCHOR then [] else [TrimEnd(start)]) + Kept(body))
  {
    hide TrimEnd, Find, Kept, Unlines, CleanFrom, PhaseAfter;
    var head := if TrimEnd(start) == ANCHOR then [] else [TrimEnd(start)];
    PhaseConcat(Seeking, banner, [start]);
    CleanConcat(Seeking, banner, [start]);
    BannerIsDropped(banner);
    StartLine(start);
    CleanConcat(Seeking, banner + [start], body);
    BodyIsKept(body);
    UnlinesConcat(head, Kept(body));
  }

  /** Without the terminator the configuration is what there is of it; without a start line
      there is none. */
  lemma UnfinishedIsKept(banner: seq<Padded>, start: Padded, body: seq<Padded>)
    requires forall p <- banner + [start] + body :: p.WellFormed()
    requires start.Starts() && forall p <- banner :: !p.Starts()
    requires forall p <- body :: p.text != "End"
    ensures Clean(Unlines(Shown(banner + [start] + body)))
         == Unlines((if start.text == "Running configuration:" then [] else [start.text]) + Texts(body))
    ensures Clean(Unlines(Shown(banner))) == ""
  {
    var ls := Shown(banner) + [start.text + start.pad] + Shown(body);
    UnfinishedPieces(banner, start, body);
    hide *;
    StartedLines(Shown(banner), start.text + start.pad, Shown(body));
    TextsAreKept(body);
    LiteralNames();
    CleanLinesOf(ls);
    CleanLinesOf(Shown(banner));
    BannerIsDropped(Shown(banner));
  }

  lemma CleanLinesOf(ls: seq<string>)
    requires forall l <- ls :: '\n' !in l
    ensures Clean(Unlines(ls)) == CleanFrom(Seeking, ls)
  {
    LinesUnlines(ls);
    CleanIgnoresCr(Seeking, ls);
  }

  lemma UnfinishedPieces(banner: seq<Padded>, start: Padded, body: seq<Padded>)
    requires forall p <- banner + [start] + body :: p.WellFormed()
    requires start.Starts() && forall p <- banner :: !p.Starts()
    requires forall p <- body :: p.text != "End"
    ensures var s := start.text + start.pad;
            && Shown(banner + [start] + body) == Shown(banner) + [s] + Shown(body)
            && (forall l <- Shown(banner) + [s] + Shown(body) :: '\n' !in l)
            && (forall l <- Shown(banner) :: !IsStart(TrimEnd(l)) && '\n' !in l)
            && IsStart(TrimEnd(s)) && TrimEnd(s) == start.text
            && (forall l <- Shown(body) :: TrimEnd(l) != END)
            && forall p <- body :: p.WellFormed()
  {
    var end := Padded("End", "");
    hide Padded.Starts, TrimEnd, IsStart;
    FramedPieces(banner, start, body, end);
    var all := banner + [start] + body;
    assert Shown(all + [end])[..|all|] == Shown(all);
  }

  // ----- What has been read when reading stops -----

  /** The data among the first `n` events. */
  function DataOf(events: seq<Event>, n: nat): Bytes
    requires n <= |events|
  {
    if n == 0 then []
    else DataOf(events, n - 1) + if events[n - 1].Data? then events[n - 1].bytes else []
  }

  /** A line that is the terminator, padded or not. */
  predicate IsEndLine(l: string) {
    "End" <= l && AllWhite(l[3..])
  }

  /** Reading ends with event `k`: the session is over or out of time, it has gone quiet
      after some output, or a terminator line is in what has been read. */
  ghost predicate StopsAt(events: seq<Event>, stopOnEnd: bool, k: nat)
    requires k < |events|
  {
    match events[k]
    case Deadline => true
    case Closed => true
    case Idle => DataOf(events, k) != []
    case Data(_) => stopOnEnd && exists l <- Lines(Lossy(DataOf(events, k + 1))) :: IsEndLine(l)
    case Quiet => false
  }

  lemma EndLines(l: string)
    ensures TrimEnd(l) == END <==> IsEndLine(l)
  {
    LiteralNames();
    TrimExactly(l, "End");
    assert "End"[2] == 'd' && 'd' as int !in WHITE_SPACE;
  }

  lemma StopTest(buf: Bytes)
    ensures EndsWithConfigMarker(buf) <==> exists l <- Lines(Lossy(buf)) :: IsEndLine(l)
  {
    hide TrimEnd, IsEndLine, Lines, Lossy;
    forall l: string ensures TrimEnd(l) == END <==> IsEndLine(l) {
      EndLines(l);
    }
  }

  lemma {:induction false} ReceivedFrom(events: seq<Event>, stopOnEnd: bool, m: nat) returns (n: nat)
    requires m <= |events|
    ensures m <= n <= |events| && (forall k :: m <= k < n ==> !StopsAt(events, stopOnEnd, k))
    ensures n < |events| ==> StopsAt(events, stopOnEnd, n)
    ensures Received(events[m..], stopOnEnd, DataOf(events, m)) ==
            DataOf(events, if n < |events| then n + 1 else n)
    decreases |events| - m
  {
    hide Received, StopsAt, DataOf;
    n := m;
    if m < |events| {
      ReceivedStep(events, stopOnEnd, m);
      if !StopsAt(events, stopOnEnd, m) {
        n := ReceivedFrom(events, stopOnEnd, m + 1);
      }
    } else {
      assert events[m..] == [];
      NothingMore(stopOnEnd, DataOf(events, m));
    }
  }

  lemma NothingMore(stopOnEnd: bool, buf: Bytes)
    ensures Received([], stopOnEnd, buf) == buf
  {
  }

  lemma ReceivedStep(events: seq<Event>, stopOnEnd: bool, m: nat)
    requires m < |events|
    ensures Received(events[m..], stopOnEnd, DataOf(events, m)) ==
            if StopsAt(events, stopOnEnd, m) then DataOf(events, m + 1)
            else Received(events[m + 1..], stopOnEnd, DataOf(events, m + 1))
  {
    hide EndsWithConfigMarker, Lines, Lossy, IsEndLine;
    assert events[m..][0] == events[m] && events[m..][1..] == events[m + 1..];
    StopTest(DataOf(events, m + 1));
    assert DataOf(events, m) + [] == DataOf(events, m);
  }

  /** What reading returns: all data up to and with the first event that ends it, or all
      there is if none does. */
  lemma ReceivedExactly(events: seq<Event>, stopOnEnd: bool) returns (n: nat)
    ensures n <= |events| && forall k :: 0 <= k < n ==> !StopsAt(events, stopOnEnd, k)
    ensures n < |events| ==> StopsAt(events, stopOnEnd, n)
    ensures Received(events, stopOnEnd, []) == DataOf(events, if n < |events| then n + 1 else n)
  {
    n := ReceivedFrom(events, stopOnEnd, 0);
    assert events[0..] == events;
  }

  // ----- Cleaning twice -----

  /** The lines of a cleaned configuration. */
  function CleanLines(p: Phase, lines: seq<string>): seq<string>
    decreases |lines|
  {
    if lines == [] then []
    else
      var rest := CleanLines(Advance(p, lines[0]), lines[1..]);
      if Output(p, lines[0]) == "" then rest else [TrimEnd(lines[0])] + rest
  }

  /** Lines the cleaner keeps as they are, once it has started. */
  ghost predicate Tidy(ls: seq<string>) {
    && (forall l <- ls :: TrimEnd(l) == l && !IsPager(l) && '\n' !in l)
    && (forall j :: 0 <= j < |ls| && ls[j] == END ==> j == |ls| - 1)
  }

  lemma {:induction false} CleanLinesOfDone(lines: seq<string>)
    ensures CleanLines(Done, lines) == []
    decreases |lines|
  {
    if lines != [] { CleanLinesOfDone(lines[1..]); }
  }

  lemma TrimTwice(s: string)
    ensures TrimEnd(TrimEnd(s)) == TrimEnd(s)
  {
  }

  lemma TidyCons(t: string, rest: seq<string>)
    requires Tidy(rest) && (t == END ==> rest == [])
    requires TrimEnd(t) == t && !IsPager(t) && '\n' !in t
    ensures Tidy([t] + rest)
  {
    hide TrimEnd, Find;
    var ls := [t] + rest;
    assert forall j :: 0 < j < |ls| ==> ls[j] == rest[j - 1];
  }

  lemma OutputIsTrimmed(p: Phase, l: string)
    requires Output(p, l) != "" && '\n' !in l
    ensures var t := TrimEnd(l);
            && TrimEnd(t) == t && !IsPager(t) && '\n' !in t && Output(p, l) == t + "\n"
            && (t == END ==> Advance(p, l) == Done)
  {
    hide Find;
    TrimTwice(l);
  }

  lemma {:induction false} CleanIsTidy(p: Phase, lines: seq<string>)
    requires forall l <- lines :: '\n' !in l
    ensures CleanFrom(p, lines) == Unlines(CleanLines(p, lines))
    ensures Tidy(CleanLines(p, lines))
    decreases |lines|
  {
    hide TrimEnd, Find, Output, Advance, IsPager;
    if lines != [] {
      var l, q := lines[0], Advance(p, lines[0]);
      var rest := CleanLines(q, lines[1..]);
      CleanIsTidy(q, lines[1..]);
      if Output(p, l) != "" {
        OutputIsTrimmed(p, l);
        CleanLinesOfDone(lines[1..]);
        TidyCons(TrimEnd(l), rest);
        assert ([TrimEnd(l)] + rest)[1..] == rest;
      } else {
        assert "" + CleanFrom(q, lines[1..]) == CleanFrom(q, lines[1..]);
      }
    }
  }

  lemma {:induction false} TidyCopies(ls: seq<string>)
    requires Tidy(ls)
    ensures CleanFrom(Copying, ls) == Unlines(ls)
    decreases |ls|
  {
    hide TrimEnd, Find;
    if ls != [] {
      var rest := ls[1..];
      assert forall j :: 0 <= j < |rest| ==> rest[j] == ls[j + 1];
      TidyCopies(rest);
      if ls[0] == END {
        assert rest == [];
      }
    }
  }

  lemma {:induction false} CleanIsNoLonger(p: Phase, ls: seq<string>)
    requires Tidy(ls)
    ensures |CleanFrom(p, ls)| <= |Unlines(ls)|
    decreases |ls|
  {
    hide TrimEnd, Find;
    if ls != [] {
      assert forall j :: 0 <= j < |ls[1..]| ==> ls[1..][j] == ls[j + 1];
      CleanIsNoLonger(Advance(p, ls[0]), ls[1..]);
    }
  }

  lemma TidyLines(ls: seq<string>)
    requires Tidy(ls)
    ensures Lines(Unlines(ls)) == ls
  {
    LinesUnlines(ls);
    forall i | 0 <= i < |ls| ensures ChompCr(ls[i]) == ls[i] {
      assert TrimEnd(ls[i]) == ls[i];
    }
    assert ChompAll(ls) == ls;
  }

  lemma RecleanTidy(ls: seq<string>)
    requires Tidy(ls) && ls != []
    ensures CleanFrom(Seeking, ls) == Unlines(ls) <==> ls[0] != "" && ls[0][0] == '#'
  {
    hide TrimEnd, Find;
    var rest := ls[1..];
    assert forall j :: 0 <= j < |rest| ==> rest[j] == ls[j + 1];
    EndIsNoPager();
    if ls[0] != "" && ls[0][0] == '#' {
      TidyCopies(rest);
    } else {
      CleanIsNoLonger(Advance(Seeking, ls[0]), rest);
    }
  }

  lemma CleanOfEmpty()
    ensures Clean("") == ""
  {
  }

  lemma RecleanText(ls: seq<string>, s: string)
    requires Tidy(ls) && s == Unlines(ls)
    ensures Clean(s) == s <==> s == "" || s[0] == '#'
  {
    TidyLines(ls);
    if ls == [] {
      CleanOfEmpty();
    } else {
      RecleanTidy(ls);
      assert s == ls[0] + "\n" + Unlines(ls[1..]);
      assert s[0] == if ls[0] == "" then '\n' else ls[0][0];
    }
  }

  lemma CleanedTwice(raw: string)
    ensures Clean(Clean(raw)) == Clean(raw) <==> Clean(raw) == "" || Clean(raw)[0] == '#'
  {
    LinesHaveNoBreak(raw);
    CleanIsTidy(Seeking, Lines(raw));
    RecleanText(CleanLines(Seeking, Lines(raw)), Clean(raw));
  }

  predicate IsComment(t: string) {
    t != "" && t[0] == '#'
  }

  predicate EmptyOrComment(s: string) {
    s == "" || s[0] == '#'
  }

  /** Line `i` is the first that starts the configuration. */
  ghost predicate FirstStart(ls: seq<string>, i: nat) {
    i < |ls| && IsStart(TrimEnd(ls[i])) && forall m :: 0 <= m < i ==> !IsStart(TrimEnd(ls[m]))
  }

  /** Line `j` is the first from `k` on that is no pager prompt. */
  ghost predicate NextLine(ls: seq<string>, k: nat, j: nat) {
    k <= j < |ls| && !IsPager(TrimEnd(ls[j])) && forall m :: k <= m < j ==> IsPager(TrimEnd(ls[m]))
  }

  /** The configuration in the session starts with a comment: the start line is one, or it
      is the anchor and the next line is one, or there is nothing after it. */
  ghost predicate StartsWithComment(ls: seq<string>) {
    forall i: nat :: FirstStart(ls, i) ==>
      IsComment(TrimEnd(ls[i])) || forall j: nat :: NextLine(ls, i + 1, j) ==> IsComment(TrimEnd(ls[j]))
  }

  lemma SkipPager(ls: seq<string>)
    requires ls != [] && IsPager(TrimEnd(ls[0]))
    ensures forall j: nat :: NextLine(ls, 0, j) <==> NextLine(ls, 1, j)
  {
    hide TrimEnd, IsPager;
  }

  lemma {:induction false} FirstCopied(ls: seq<string>)
    ensures EmptyOrComment(CleanFrom(Copying, ls)) <==>
            forall j: nat :: NextLine(ls, 0, j) ==> IsComment(TrimEnd(ls[j]))
    decreases |ls|
  {
    hide TrimEnd, Find, NextLine;
    if ls == [] {
      NoNextLine();
    } else if IsPager(TrimEnd(ls[0])) {
      FirstCopied(ls[1..]);
      SkipPager(ls);
      NextLineShift(ls, 1);
      EndIsNoPager();
      assert "" + CleanFrom(Copying, ls[1..]) == CleanFrom(Copying, ls[1..]);
    } else {
      NextIsHead(ls);
    }
  }

  lemma NoNextLine()
    ensures forall j: nat :: !NextLine([], 0, j)
  {
  }

  lemma NextIsHead(ls: seq<string>)
    requires ls != [] && !IsPager(TrimEnd(ls[0]))
    ensures forall j: nat :: NextLine(ls, 0, j) <==> j == 0
  {
    hide TrimEnd, IsPager;
  }

  lemma NextLineShift(ls: seq<string>, k: nat)
    requires k <= |ls|
    ensures (forall j: nat :: NextLine(ls[k..], 0, j) ==> IsComment(TrimEnd(ls[k..][j]))) <==>
            (forall j: nat :: NextLine(ls, k, j) ==> IsComment(TrimEnd(ls[j])))
  {
    hide TrimEnd, IsPager, IsComment;
    var rest := ls[k..];
    assert forall m :: 0 <= m < |rest| ==> rest[m] == ls[k + m];
    forall j: nat ensures NextLine(rest, 0, j) <==> NextLine(ls, k, k + j) {
      if NextLine(rest, 0, j) {
        forall m | k <= m < k + j ensures IsPager(TrimEnd(ls[m])) { assert rest[m - k] == ls[m]; }
      }
      if NextLine(ls, k, k + j) {
        forall m | 0 <= m < j ensures IsPager(TrimEnd(rest[m])) { assert rest[m] == ls[k + m]; }
      }
    }
    if forall j: nat :: NextLine(rest, 0, j) ==> IsComment(TrimEnd(rest[j])) {
      forall j: nat | NextLine(ls, k, j) ensures IsComment(TrimEnd(ls[j])) {
        assert NextLine(rest, 0, j - k);
      }
    }
    if forall j: nat :: NextLine(ls, k, j) ==> IsComment(TrimEnd(ls[j])) {
      forall j: nat | NextLine(rest, 0, j) ensures IsComment(TrimEnd(rest[j])) {
        assert NextLine(ls, k, k + j);
      }
    }
  }

  lemma CleanFromStart(ls: seq<string>, i: nat)
    requires FirstStart(ls, i)
    ensures CleanFrom(Seeking, ls) ==
      (if TrimEnd(ls[i]) == ANCHOR then "" else TrimEnd(ls[i]) + "\n") + CleanFrom(Copying, ls[i + 1..])
  {
    hide TrimEnd, Find, CleanFrom, PhaseAfter;
    var banner, rest := ls[..i], ls[i + 1..];
    assert ls == banner + ([ls[i]] + rest);
    BannerIsDropped(banner);
    CleanConcat(Seeking, banner, [ls[i]] + rest);
    CleanConcat(Seeking, [ls[i]], rest);
    StartLine(ls[i]);
    SingleUnlines(TrimEnd(ls[i]));
    assert "" + CleanFrom(Seeking, [ls[i]] + rest) == CleanFrom(Seeking, [ls[i]] + rest);
  }

  lemma {:induction false} SomeStart(ls: seq<string>, n: nat) returns (i: nat)
    requires n < |ls| && IsStart(TrimEnd(ls[n]))
    ensures FirstStart(ls, i)
  {
    hide TrimEnd, IsStart;
    if m :| 0 <= m < n && IsStart(TrimEnd(ls[m])) {
      i := SomeStart(ls, m);
    } else {
      i := n;
    }
  }

  lemma CleanStartsWithComment(ls: seq<string>)
    ensures EmptyOrComment(CleanFrom(Seeking, ls)) <==> StartsWithComment(ls)
  {
    hide TrimEnd, Find, CleanFrom;
    if n :| 0 <= n < |ls| && IsStart(TrimEnd(ls[n])) {
      var i := SomeStart(ls, n);
      CleanFromStart(ls, i);
      FirstCopied(ls[i + 1..]);
      NextLineShift(ls, i + 1);
      assert forall k: nat :: FirstStart(ls, k) ==> k == i;
      var tail := CleanFrom(Copying, ls[i + 1..]);
      assert "" + tail == tail;
      assert !IsComment(ANCHOR);
    } else {
      BannerIsDropped(ls);
    }
  }

  /** Cleaning a cleaned configuration changes nothing exactly when the session holds no
      configuration or its configuration starts with a comment. */
  lemma IdempotentExactly(raw: string)
    ensures Clean(Clean(raw)) == Clean(raw) <==> StartsWithComment(Lines(raw))
  {
    CleanedTwice(raw);
    CleanStartsWithComment(Lines(raw));
  }

  /** A session on which a second pass loses everything: no comment after the start line. */
  lemma NotAlwaysIdempotent()
    ensures var raw := Unlines([ANCHOR, "hostname", END]);
            Clean(raw) == "hostname\nEnd\n" && Clean(Clean(raw)) == ""
  {
    hide Clean, Unlines, TrimEnd, Find, Kept, IsStart;
    WitnessLines();
    TwoJoined("hostname", END);
    assert "hostname" + "\n" + "End" + "\n" == "hostname\nEnd\n";
    NoStartNoConfig(["hostname", END]);
    var raw := Unlines([ANCHOR] + ["hostname"] + [END]);
    assert [ANCHOR] + ["hostname"] + [END] == [ANCHOR, "hostname", END];
    assert [] + [ANCHOR] == [ANCHOR] && raw + "" == raw && [] + ["hostname"] + [END] == ["hostname", END];
    FramedSession([], ANCHOR, ["hostname"], END, "");
  }

  lemma WitnessTrimmed()
    ensures TrimEnd(ANCHOR) == ANCHOR && TrimEnd("hostname") == "hostname" && TrimEnd(END) == END
  {
    AlreadyTrimmed(ANCHOR);
    AlreadyTrimmed("hostname");
    AlreadyTrimmed(END);
    hide TrimEnd;
  }

  lemma WitnessBreaks()
    ensures '\n' !in ANCHOR && '\n' !in "hostname" && '\n' !in END
  {
  }

  lemma WitnessLines()
    ensures TrimEnd(ANCHOR) == ANCHOR && TrimEnd("hostname") == "hostname" && TrimEnd(END) == END
    ensures IsStart(ANCHOR) && !IsStart("hostname") && !IsStart(END) && Kept(["hostname"]) == ["hostname"]
    ensures '\n' !in ANCHOR && '\n' !in "hostname" && '\n' !in END
  {
    hide *;
    WitnessTrimmed();
    WitnessBreaks();
    WitnessStarts();
    OneKept("hostname");
  }

  lemma WitnessStarts()
    ensures IsStart(ANCHOR) && !IsStart("hostname") && !IsStart(END) && !IsPager("hostname")
  {
    hide IsPager, Find, TrimEnd;
    EndIsNoPager();
    NeedsFirstChar("hostname", PAGER);
    assert !IsPager("hostname") by { NotAPager("hostname"); }
    assert |ANCHOR| == 22 && |"hostname"| == 8;
  }

  lemma NotAPager(t: string)
    requires PAGER[0] !in t
    ensures !IsPager(t)
  {
    NeedsFirstChar(t, PAGER);
  }

  lemma AlreadyTrimmed(s: string)
    requires s != "" && !IsSpace(s[|s| - 1])
    ensures TrimEnd(s) == s
  {
  }

  lemma OneKept(l: string)
    requires TrimEnd(l) == l && !IsPager(l)
    ensures Kept([l]) == [l]
  {
    hide TrimEnd, Find;
    assert [l][1..] == [] && Kept([]) == [];
  }

  lemma TwoJoined(x: string, y: string)
    ensures Unlines([x, y]) == x + "\n" + y + "\n"
  {
    SingleUnlines(y);
    assert [x, y][1..] == [y];
    ConcatAssoc(x + "\n", y, "\n");
  }

  lemma NoStartNoConfig(ls: seq<string>)
    requires forall l <- ls :: '\n' !in l && !IsStart(TrimEnd(l))
    ensures Clean(Unlines(ls)) == ""
  {
    hide TrimEnd, Find, IsStart, CleanFrom, Lines, Unlines;
    LinesUnlines(ls);
    CleanIgnoresCr(Seeking, ls);
    BannerIsDropped(ls);
  }
}
