/** Reading a StoneOS configuration off an interactive session: collecting the output
    until the terminator shows up, then cutting the configuration out of it. */
module Hillstone {
  import opened Sequences
  import opened Utf8
  import opened Text

  const ANCHOR: string := "Running configuration:"
  const PAGER: string := "--More--"
  const END: string := "End"

  /** Unicode White_Space, which `str::trim_end` strips. */
  predicate IsSpace(c: char) {
    var n := c as int;
    || 0x9 <= n <= 0xD || n == 0x20 || n == 0x85 || n == 0xA0 || n == 0x1680
    || 0x2000 <= n <= 0x200A || n == 0x2028 || n == 0x2029 || n == 0x202F || n == 0x205F || n == 0x3000
  }

  function TrimEnd(s: string): (r: string)
    ensures r <= s
    ensures r != "" ==> !IsSpace(r[|r| - 1])
    ensures forall i :: |r| <= i < |s| ==> IsSpace(s[i])
  {
    if s != "" && IsSpace(s[|s| - 1]) then TrimEnd(s[..|s| - 1]) else s
  }

  predicate IsPager(t: string) {
    Contains(t, PAGER)
  }

  /** A line from which on the output is configuration. */
  predicate IsStart(t: string) {
    !IsPager(t) && (t == ANCHOR || (t != "" && t[0] == '#'))
  }

  datatype Phase = Seeking | Copying | Done

  /** What a line moves the cleaner to. */
  function Advance(p: Phase, line: string): Phase {
    var t := TrimEnd(line);
    match p
    case Seeking => if IsStart(t) then Copying else Seeking
    case Copying => if t == END then Done else Copying
    case Done => Done
  }

  /** What a line adds to the configuration. */
  function Output(p: Phase, line: string): string {
    var t := TrimEnd(line);
    if IsPager(t) || p == Done then ""
    else if p == Seeking && (t == ANCHOR || t == "" || t[0] != '#') then ""
    else t + "\n"
  }

  function PhaseAfter(p: Phase, lines: seq<string>): Phase
    decreases |lines|
  {
    if lines == [] then p else PhaseAfter(Advance(p, lines[0]), lines[1..])
  }

  function CleanFrom(p: Phase, lines: seq<string>): string
    decreases |lines|
  {
    if lines == [] then "" else Output(p, lines[0]) + CleanFrom(Advance(p, lines[0]), lines[1..])
  }

  /** The configuration inside the raw session output. */
  function Clean(raw: string): string {
    CleanFrom(Seeking, Lines(raw))
  }

  lemma EndIsNoPager()
    ensures !IsPager(END) && !IsPager(ANCHOR)
  {
    NeedsFirstChar(END, PAGER);
    NeedsFirstChar(ANCHOR, PAGER);
  }

  lemma {:induction false} DoneAddsNothing(lines: seq<string>)
    ensures CleanFrom(Done, lines) == ""
  {
    if lines != [] { DoneAddsNothing(lines[1..]); }
  }

  lemma NothingToClean(p: Phase)
    ensures CleanFrom(p, []) == ""
  {
  }

  lemma CleanAt(p: Phase, lines: seq<string>, k: nat, out: string)
    requires k < |lines|
    ensures out + CleanFrom(p, lines[k..])
         == out + Output(p, lines[k]) + CleanFrom(Advance(p, lines[k]), lines[k + 1..])
  {
    assert lines[k..][1..] == lines[k + 1..];
    ConcatAssoc(out, Output(p, lines[k]), CleanFrom(Advance(p, lines[k]), lines[k + 1..]));
  }

  method CleanHillstone(raw: string) returns (out: string)
    ensures out == Clean(raw)
  {
    hide TrimEnd, Find, CleanFrom, Lines;
    EndIsNoPager();
    out := "";
    var started := false;
    var lines := Lines(raw);
    assert lines[0..] == lines;
    for k := 0 to |lines|
      invariant out + CleanFrom(if started then Copying else Seeking, lines[k..]) == Clean(raw)
    {
      var t := TrimEnd(lines[k]);
      CleanAt(if started then Copying else Seeking, lines, k, out);
      if Contains(t, PAGER) {
        continue;
      }
      if !started {
        if t == ANCHOR {
          started := true;
          continue;
        }
        if t != "" && t[0] == '#' {
          started := true;
        } else {
          continue;
        }
      }
      out := out + (t + "\n");
      if t == END {
        DoneAddsNothing(lines[k + 1..]);
        return;
      }
    }
    assert lines[|lines|..] == [];
    NothingToClean(if started then Copying else Seeking);
  }

  // ----- Reading the session -----

  /** What arrives on the channel while reading. `Quiet` is a message without data,
      `Idle` an idle timeout, `Deadline` the overall one, `Closed` the end of output. */
  datatype Event = Data(bytes: Bytes) | Quiet | Idle | Deadline | Closed

  /** The stop test on what has been read so far. */
  predicate EndsWithConfigMarker(buf: Bytes) {
    exists l <- Lines(Lossy(buf)) :: TrimEnd(l) == END
  }

  /** What is in the buffer when reading stops. */
  function Received(events: seq<Event>, stopOnEnd: bool, buf: Bytes): Bytes {
    if events == [] then buf
    else
      match events[0]
      case Data(b) =>
        if stopOnEnd && EndsWithConfigMarker(buf + b) then buf + b else Received(events[1..], stopOnEnd, buf + b)
      case Quiet => Received(events[1..], stopOnEnd, buf)
      case Idle => if buf != [] then buf else Received(events[1..], stopOnEnd, buf)
      case Deadline => buf
      case Closed => buf
  }

  method ReadUntil(events: seq<Event>, stopOnEnd: bool) returns (buf: Bytes)
    ensures buf == Received(events, stopOnEnd, [])
  {
    buf := [];
    var k := 0;
    while k < |events|
      invariant k <= |events|
      invariant Received(events[k..], stopOnEnd, buf) == Received(events, stopOnEnd, [])
    {
      assert events[k..][1..] == events[k + 1..];
      match events[k] {
        case Data(b) =>
          buf := buf + b;
          if stopOnEnd && EndsWithConfigMarker(buf) {
            break;
          }
        case Quiet =>
        case Idle =>
          if buf != [] {
            break;
          }
        case Deadline => break;
        case Closed => break;
      }
      k := k + 1;
    }
  }
}
