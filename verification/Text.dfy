/** Line splitting and substring search as Rust's `str` does them. */
module Text {
  import opened Wrappers
  import opened Sequences

  /** The first position of `c` in `s`, or `|s|`. */
  function IndexOf(s: string, c: char): (i: nat)
    ensures i <= |s| && c !in s[..i]
    ensures i < |s| ==> s[i] == c
  {
    if s == "" || s[0] == c then 0
    else
      var i := 1 + IndexOf(s[1..], c);
      assert s[..i] == [s[0]] + s[1..][..i - 1];
      i
  }

  function ChompCr(line: string): (r: string)
    ensures r <= line
  {
    if line != "" && line[|line| - 1] == '\r' then line[..|line| - 1] else line
  }

  /** `str::lines`: each line loses its "\n" and one "\r" before it. A last line
      without "\n" keeps everything. */
  function Lines(s: string): seq<string>
    decreases |s|
  {
    if s == "" then []
    else
      var i := IndexOf(s, '\n');
      if i == |s| then [s] else [ChompCr(s[..i])] + Lines(s[i + 1..])
  }

  lemma {:induction false} LinesHaveNoBreak(s: string)
    ensures forall l <- Lines(s) :: '\n' !in l
    decreases |s|
  {
    if s != "" {
      var i := IndexOf(s, '\n');
      assert s[..|s|] == s;
      if i < |s| { LinesHaveNoBreak(s[i + 1..]); }
    }
  }

  /** Every line followed by "\n". */
  function Unlines(ls: seq<string>): string {
    if ls == [] then "" else ls[0] + "\n" + Unlines(ls[1..])
  }

  predicate OccursAt(s: string, p: string, i: nat) {
    i + |p| <= |s| && s[i..i + |p|] == p
  }

  /** `str::find`: where `p` first occurs in `s`. */
  function Find(s: string, p: string): (r: Option<nat>)
    ensures r.Some? ==> OccursAt(s, p, r.value) && forall j: nat :: j < r.value ==> !OccursAt(s, p, j)
    ensures r.None? ==> forall j: nat :: !OccursAt(s, p, j)
  {
    FindFrom(s, p, 0)
  }

  function FindFrom(s: string, p: string, i: nat): (r: Option<nat>)
    requires i <= |s|
    ensures r.Some? ==> i <= r.value && OccursAt(s, p, r.value)
                        && forall j: nat :: i <= j < r.value ==> !OccursAt(s, p, j)
    ensures r.None? ==> forall j: nat :: i <= j ==> !OccursAt(s, p, j)
    decreases |s| - i
  {
    if OccursAt(s, p, i) then Some(i)
    else if i == |s| then None
    else FindFrom(s, p, i + 1)
  }

  predicate Contains(s: string, p: string) {
    Find(s, p).Some?
  }

  lemma NeedsFirstChar(s: string, p: string)
    requires p != "" && p[0] !in s
    ensures !Contains(s, p)
  {
    forall i: nat ensures !OccursAt(s, p, i) {
      if i + |p| <= |s| {
        assert s[i..i + |p|][0] == s[i];
      }
    }
  }

  function StripSuffix(s: string, p: string): (r: Option<string>)
    ensures r.Some? <==> exists t: string :: s == t + p
    ensures forall t: string :: s == t + p ==> r == Some(t)
    ensures r.Some? ==> s == r.value + p
  {
    if |p| <= |s| && s[|s| - |p|..] == p then
      assert s == s[..|s| - |p|] + p;
      Some(s[..|s| - |p|])
    else None
  }

  lemma {:induction false} UnlinesConcat(a: seq<string>, b: seq<string>)
    ensures Unlines(a + b) == Unlines(a) + Unlines(b)
  {
    if a == [] {
      assert a + b == b;
    } else {
      UnlinesConcat(a[1..], b);
      var c := a + b;
      assert c[0] == a[0] && c[1..] == a[1..] + b;
      ConcatAssoc(a[0] + "\n", Unlines(a[1..]), Unlines(b));
    }
  }

  lemma {:induction false} UnlinesEnd(ls: seq<string>)
    ensures Unlines(ls) == "" || Unlines(ls)[|Unlines(ls)| - 1] == '\n'
  {
    if ls != [] { UnlinesEnd(ls[1..]); }
  }

  lemma LinesConcatStep(l: string, rest: string, b: string, s: string, t: string)
    requires '\n' !in l && s == l + "\n" + rest && t == s + b
    requires Lines(rest + b) == Lines(rest) + Lines(b)
    ensures Lines(t) == Lines(s) + Lines(b)
  {
    ConcatAssoc(l + "\n", rest, b);
    LineSplit(l, rest);
    LineSplit(l, rest + b);
    ConcatAssoc([ChompCr(l)], Lines(rest), Lines(b));
  }

  lemma FirstBreak(a: string) returns (l: string, rest: string)
    requires a != "" && a[|a| - 1] == '\n'
    ensures '\n' !in l && a == l + "\n" + rest
    ensures rest == "" || rest[|rest| - 1] == '\n'
  {
    var i := IndexOf(a, '\n');
    assert a[..|a|] == a;
    l, rest := a[..i], a[i + 1..];
  }

  /** Text that ends in a newline keeps its lines whatever is appended to it. */
  lemma {:induction false} LinesConcat(a: string, b: string)
    requires a == "" || a[|a| - 1] == '\n'
    ensures Lines(a + b) == Lines(a) + Lines(b)
    decreases |a|
  {
    if a == "" {
      assert a + b == b;
    } else {
      var l, rest := FirstBreak(a);
      LinesConcat(rest, b);
      LinesConcatStep(l, rest, b, a, a + b);
    }
  }

  lemma FirstLine(s: string, i: nat)
    requires i < |s| && s[i] == '\n' && '\n' !in s[..i]
    ensures IndexOf(s, '\n') == i
    ensures Lines(s) == [ChompCr(s[..i])] + Lines(s[i + 1..])
  {
    var k := IndexOf(s, '\n');
    assert forall j :: 0 <= j < i ==> s[j] == s[..i][j];
    assert forall j :: 0 <= j < k ==> s[j] == s[..k][j];
  }

  lemma LineSplit(l: string, rest: string)
    requires '\n' !in l
    ensures Lines(l + "\n" + rest) == [ChompCr(l)] + Lines(rest)
  {
    var s := l + "\n" + rest;
    assert s[..|l|] == l && s[|l| + 1..] == rest;
    FirstLine(s, |l|);
  }

  function ChompAll(ls: seq<string>): seq<string> {
    seq(|ls|, i requires 0 <= i < |ls| => ChompCr(ls[i]))
  }

  /** Joining lines and splitting them again only loses one "\r" per line. */
  lemma {:induction false} LinesUnlines(ls: seq<string>)
    requires forall l <- ls :: '\n' !in l
    ensures Lines(Unlines(ls)) == ChompAll(ls)
  {
    if ls != [] {
      LineSplit(ls[0], Unlines(ls[1..]));
      LinesUnlines(ls[1..]);
    }
  }

  /** Joined lines determine the lines. */
  lemma {:induction false} UnlinesInjective(a: seq<string>, b: seq<string>)
    requires forall l <- a :: '\n' !in l
    requires forall l <- b :: '\n' !in l
    requires Unlines(a) == Unlines(b)
    ensures a == b
  {
    if a != [] && b != [] {
      FirstOfUnlines(a);
      FirstOfUnlines(b);
      var i := |a[0]|;
      assert a[0] == Unlines(a)[..i] == b[0];
      assert Unlines(a[1..]) == Unlines(a)[i + 1..] == Unlines(b[1..]);
      UnlinesInjective(a[1..], b[1..]);
      assert a == [a[0]] + a[1..] && b == [b[0]] + b[1..];
    }
  }

  lemma FirstOfUnlines(a: seq<string>)
    requires a != [] && '\n' !in a[0]
    ensures IndexOf(Unlines(a), '\n') == |a[0]|
    ensures Unlines(a)[..|a[0]|] == a[0] && Unlines(a)[|a[0]| + 1..] == Unlines(a[1..])
  {
    var s := Unlines(a);
    assert s[..|a[0]|] == a[0];
    FirstLine(s, |a[0]|);
  }
}
