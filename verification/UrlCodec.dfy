/** Percent encoding of path segments (section 2.1 of RFC 3986) and form fields. */
module UrlCodec {
  import opened Wrappers
  import opened Sequences
  import opened Utf8
  import opened Text

  predicate IsUnreserved(b: Byte) {
    || 'A' as int <= b <= 'Z' as int || 'a' as int <= b <= 'z' as int || '0' as int <= b <= '9' as int
    || b == '-' as int || b == '_' as int || b == '.' as int || b == '~' as int
  }

  function HexDigit(n: int): (c: char)
    requires 0 <= n < 16
    ensures c as int < 0x80 && HexValue(c as int) == Some(n)
    ensures '0' <= c <= '9' || 'A' <= c <= 'F'
  {
    if n < 10 then (48 + n) as char else (55 + n) as char
  }

  function HexValue(b: Byte): (r: Option<int>)
    ensures r.Some? ==> 0 <= r.value < 16
  {
    if 48 <= b < 58 then Some(b - 48)
    else if 65 <= b < 71 then Some(b - 55)
    else if 97 <= b < 103 then Some(b - 87)
    else None
  }

  function EscapeByte(b: Byte): string {
    if IsUnreserved(b) then [b as char] else ['%', HexDigit(b / 16), HexDigit(b % 16)]
  }

  function EscapeBytes(bs: Bytes): string {
    if bs == [] then "" else EscapeByte(bs[0]) + EscapeBytes(bs[1..])
  }

  function UrlEscape(s: string): string {
    EscapeBytes(Encode(s))
  }

  /** `u8::from_str_radix` on two bytes in base 16; it takes a leading plus sign. */
  function ParseHexPair(x: Byte, y: Byte): Option<Byte> {
    if x == '+' as int then HexValue(y)
    else
      match (HexValue(x), HexValue(y))
      case (Some(h), Some(l)) => Some(16 * h + l)
      case _ => None
  }

  predicate StartsEscape(bs: Bytes) {
    |bs| > 2 && bs[0] == '%' as int && ParseHexPair(bs[1], bs[2]).Some?
  }

  function Unescape(bs: Bytes): Bytes {
    if bs == [] then []
    else if StartsEscape(bs) then [ParseHexPair(bs[1], bs[2]).value] + Unescape(bs[3..])
    else [bs[0]] + Unescape(bs[1..])
  }

  function Decoded(s: string): string {
    Lossy(Unescape(Encode(s)))
  }

  method DecodeSegment(s: string) returns (r: string)
    ensures r == Decoded(s)
  {
    hide Encode, Lossy, ParseHexPair;
    var bytes := Encode(s);
    var out: Bytes := [];
    var i := 0;
    assert bytes[0..] == bytes;
    JoinEmpty(Unescape(bytes));
    while i < |bytes|
      invariant i <= |bytes|
      invariant out + Unescape(bytes[i..]) == Unescape(bytes)
    {
      UnescapeAt(bytes, i, out);
      if bytes[i] == '%' as int && i + 2 < |bytes| {
        var b := ParseHexPair(bytes[i + 1], bytes[i + 2]);
        if b.Some? {
          out := out + [b.value];
          i := i + 3;
          continue;
        }
      }
      out := out + [bytes[i]];
      i := i + 1;
    }
    assert bytes[|bytes|..] == [] && Unescape([]) == [] && out + [] == out;
    return Lossy(out);
  }

  lemma JoinEmpty(bs: Bytes)
    ensures [] + bs == bs
  {
  }

  lemma UnescapeAt(bytes: Bytes, i: nat, out: Bytes)
    requires i < |bytes|
    ensures out + Unescape(bytes[i..]) ==
      if i + 2 < |bytes| && bytes[i] == '%' as int && ParseHexPair(bytes[i + 1], bytes[i + 2]).Some?
      then out + [ParseHexPair(bytes[i + 1], bytes[i + 2]).value] + Unescape(bytes[i + 3..])
      else out + [bytes[i]] + Unescape(bytes[i + 1..])
  {
    hide ParseHexPair;
    var bs := bytes[i..];
    assert bs[0] == bytes[i] && bs[1..] == bytes[i + 1..];
    if i + 2 < |bytes| {
      assert bs[1] == bytes[i + 1] && bs[2] == bytes[i + 2] && bs[3..] == bytes[i + 3..];
    }
    if StartsEscape(bs) {
      ConcatAssoc(out, [ParseHexPair(bs[1], bs[2]).value], Unescape(bs[3..]));
    } else {
      ConcatAssoc(out, [bs[0]], Unescape(bs[1..]));
    }
  }

  // ----- Segments -----

  lemma EscapedByteEncoded(b: Byte)
    ensures var e := Encode(EscapeByte(b));
            e == if IsUnreserved(b) then [b] else ['%' as int, HexDigit(b / 16) as int, HexDigit(b % 16) as int]
  {
    if IsUnreserved(b) {
      assert Encode([b as char]) == EncodeChar(b as char) + Encode([]);
    } else {
      var h, l := HexDigit(b / 16), HexDigit(b % 16);
      assert ['%', h, l][1..] == [h, l] && [h, l][1..] == [l] && [l][1..] == [];
      assert Encode([l]) == [l as int] && Encode([h, l]) == [h as int] + [l as int];
    }
  }

  lemma UnescapeOneByte(b: Byte, rest: Bytes)
    ensures Unescape(Encode(EscapeByte(b)) + rest) == [b] + Unescape(rest)
  {
    EscapedByteEncoded(b);
    var e := Encode(EscapeByte(b));
    var bs := e + rest;
    if IsUnreserved(b) {
      assert bs[0] == b && bs[1..] == rest;
    } else {
      assert bs[0] == e[0] && bs[1] == e[1] && bs[2] == e[2] && bs[3..] == rest;
      assert 16 * (b / 16) + b % 16 == b;
      assert ParseHexPair(bs[1], bs[2]) == Some(b);
    }
  }

  lemma {:induction false} UnescapeEscaped(bs: Bytes)
    ensures Unescape(Encode(EscapeBytes(bs))) == bs
  {
    if bs != [] {
      UnescapeEscaped(bs[1..]);
      EncodeConcat(EscapeByte(bs[0]), EscapeBytes(bs[1..]));
      UnescapeOneByte(bs[0], Encode(EscapeBytes(bs[1..])));
      assert bs == [bs[0]] + bs[1..];
    }
  }

  /** Any string survives being put into a path segment. */
  lemma SegmentRoundTrip(s: string)
    ensures Decoded(UrlEscape(s)) == s
  {
    UnescapeEscaped(Encode(s));
    DecodeEncode(s);
  }

  // ----- Where the decoder is laxer than RFC 3986 -----

  predicate IsHexPair(x: Byte, y: Byte) {
    HexValue(x).Some? && HexValue(y).Some?
  }

  /** The decoder of section 2.1 of RFC 3986: "%" and two hexadecimal digits are one byte,
      everything else stands for itself. */
  function Strict(bs: Bytes): Bytes {
    if bs == [] then []
    else if |bs| > 2 && bs[0] == '%' as int && IsHexPair(bs[1], bs[2]) then
      [16 * HexValue(bs[1]).value + HexValue(bs[2]).value] + Strict(bs[3..])
    else [bs[0]] + Strict(bs[1..])
  }

  /** A percent sign, a plus sign and a hexadecimal digit at `i`. */
  predicate PlusEscapeAt(bs: Bytes, i: nat) {
    i + 2 < |bs| && bs[i] == '%' as int && bs[i + 1] == '+' as int && HexValue(bs[i + 2]).Some?
  }

  ghost predicate HasPlusEscape(bs: Bytes) {
    exists i: nat :: PlusEscapeAt(bs, i)
  }

  lemma PlusEscapeInTail(bs: Bytes, n: nat)
    requires n <= |bs| && forall i: nat :: i < n ==> !PlusEscapeAt(bs, i)
    ensures HasPlusEscape(bs) <==> HasPlusEscape(bs[n..])
  {
    var tail := bs[n..];
    assert forall i: nat :: PlusEscapeAt(tail, i) ==> PlusEscapeAt(bs, n + i);
    if i: nat :| PlusEscapeAt(bs, i) {
      assert PlusEscapeAt(tail, i - n);
    }
  }

  lemma StrictOnPlus(bs: Bytes)
    requires PlusEscapeAt(bs, 0)
    ensures Strict(bs) == bs[..3] + Strict(bs[3..])
  {
    var b1, b2 := bs[1..], bs[2..];
    assert b1[0] == bs[1] && b1[1..] == b2 && b2[0] == bs[2] && b2[1..] == bs[3..];
    assert Strict(b2) == [bs[2]] + Strict(bs[3..]) && Strict(b1) == [bs[1]] + Strict(b2);
  }

  /** Behind anything already decoded, the two differ as soon as a plus sign counted: there
      the text has a control character in the place of the percent sign. */
  lemma {:induction false} LaxAgainstStrict(done: Bytes, bs: Bytes)
    ensures HasPlusEscape(bs) ==> Lossy(done + Unescape(bs)) != Lossy(done + Strict(bs))
    ensures !HasPlusEscape(bs) ==> Unescape(bs) == Strict(bs)
    decreases |bs|
  {
    hide Lossy, ParseHexPair;
    if bs != [] {
      if PlusEscapeAt(bs, 0) {
        PlusShows(done, bs);
      } else {
        var n := if StartsEscape(bs) then 3 else 1;
        var b := if n == 3 then ParseHexPair(bs[1], bs[2]).value else bs[0];
        SameStep(bs, b, n);
        LaxAgainstStrict(done + [b], bs[n..]);
        PlusEscapeInTail(bs, n);
        ConcatAssoc(done, [b], Unescape(bs[n..]));
        ConcatAssoc(done, [b], Strict(bs[n..]));
      }
    }
  }

  lemma SameStep(bs: Bytes, b: Byte, n: nat)
    requires bs != [] && !PlusEscapeAt(bs, 0) && n == (if StartsEscape(bs) then 3 else 1)
    requires b == if n == 3 then ParseHexPair(bs[1], bs[2]).value else bs[0]
    ensures Unescape(bs) == [b] + Unescape(bs[n..]) && Strict(bs) == [b] + Strict(bs[n..])
    ensures forall i: nat :: i < n ==> !PlusEscapeAt(bs, i)
  {
  }

  lemma PlusShows(done: Bytes, bs: Bytes)
    requires PlusEscapeAt(bs, 0)
    ensures Lossy(done + Unescape(bs)) != Lossy(done + Strict(bs))
  {
    var v, lax, strict := HexValue(bs[2]).value, Unescape(bs[3..]), bs[1..3] + Strict(bs[3..]);
    assert StartsEscape(bs) && Unescape(bs) == [v] + lax;
    StrictOnPlus(bs);
    assert bs[..3] == [bs[0]] + bs[1..3];
    ConcatAssoc([bs[0]], bs[1..3], Strict(bs[3..]));
    ConcatAssoc(done, [v], lax);
    ConcatAssoc(done, [bs[0]], strict);
    LossySplit(done, v, lax);
    LossySplit(done, bs[0], strict);
    var x, y := Lossy(done + Unescape(bs)), Lossy(done + Strict(bs));
    assert x[|Lossy(done)|] == v as char && y[|Lossy(done)|] == '%';
  }

  /** The decoder gives the text RFC 3986 gives exactly on input in which no percent sign is
      followed by a plus sign and a hexadecimal digit. */
  lemma StrictExactly(s: string)
    ensures Decoded(s) == Lossy(Strict(Encode(s))) <==> !HasPlusEscape(Encode(s))
    ensures Unescape(Encode(s)) == Strict(Encode(s)) <==> !HasPlusEscape(Encode(s))
  {
    hide Unescape, Strict, Lossy, Encode, HasPlusEscape;
    var bs := Encode(s);
    LaxAgainstStrict([], bs);
    JoinEmpty(Unescape(bs));
    JoinEmpty(Strict(bs));
  }

  /** The shortest input on which it does not: a plus sign for the first digit. */
  lemma PlusCountsAsDigit()
    ensures Decoded("%+A") == "\n" && Lossy(Strict(Encode("%+A"))) == "%+A"
  {
    var s := "%+A";
    assert s[1..] == "+A" && "+A"[1..] == "A" && "A"[1..] == "";
    assert Encode("A") == [65] && Encode("+A") == [43] + [65] && Encode(s) == [37] + ([43] + [65]);
    var bs := Encode(s);
    assert bs[3..] == [] && Unescape(bs) == [10] + [];
    assert [10][1..] == [] && Lossy([10]) == ['\n'] + Lossy([]);
    StrictOnPlus(bs);
    assert bs[..3] == bs && Strict(bs) == bs + [] == bs;
    DecodeEncode(s);
  }

  // ----- Form fields and queries -----

  function PlusToSpace(s: string): string {
    seq(|s|, i requires 0 <= i < |s| => if s[i] == '+' then ' ' else s[i])
  }

  function DecodeForm(s: string): string {
    Decoded(PlusToSpace(s))
  }

  /** `str::split` on a character: always at least one piece. */
  function Split(s: string, c: char): (r: seq<string>)
    ensures r != []
    decreases |s|
  {
    var i := IndexOf(s, c);
    if i == |s| then [s] else [s[..i]] + Split(s[i + 1..], c)
  }

  /** The pieces that have a "=", as decoded pairs. */
  function Pairs(pieces: seq<string>): seq<(string, string)> {
    if pieces == [] then []
    else
      var p := pieces[0];
      var i := IndexOf(p, '=');
      (if i == |p| then [] else [(DecodeForm(p[..i]), DecodeForm(p[i + 1..]))]) + Pairs(pieces[1..])
  }

  /** A map filled in order: a later pair replaces an earlier one. */
  function LastWins(pairs: seq<(string, string)>): map<string, string> {
    if pairs == [] then map[]
    else
      var p := pairs[|pairs| - 1];
      LastWins(pairs[..|pairs| - 1])[p.0 := p.1]
  }

  function ParseQuery(q: string): map<string, string> {
    LastWins(Pairs(Split(q, '&')))
  }

  /** A query string as a client writes it. */
  function Query(pairs: seq<(string, string)>): string {
    if pairs == [] then ""
    else
      var p := UrlEscape(pairs[0].0) + "=" + UrlEscape(pairs[0].1);
      if |pairs| == 1 then p else p + "&" + Query(pairs[1..])
  }

  predicate IsEscapeChar(c: char) {
    c != '&' && c != '=' && c != '+'
  }

  lemma {:induction false} EscapedIsPlain(bs: Bytes)
    ensures forall c <- EscapeBytes(bs) :: IsEscapeChar(c)
  {
    if bs != [] { EscapedIsPlain(bs[1..]); }
  }

  lemma FormRoundTrip(s: string)
    ensures DecodeForm(UrlEscape(s)) == s
  {
    EscapedIsPlain(Encode(s));
    var e := UrlEscape(s);
    assert forall i :: 0 <= i < |e| ==> IsEscapeChar(e[i]);
    assert PlusToSpace(e) == e;
    SegmentRoundTrip(s);
  }

  lemma FirstIndex(a: string, c: char, b: string)
    requires c !in a
    ensures IndexOf(a + [c] + b, c) == |a| && IndexOf(a, c) == |a|
    ensures (a + [c] + b)[..|a|] == a && (a + [c] + b)[|a| + 1..] == b
  {
    var s := a + [c] + b;
    var k := IndexOf(s, c);
    assert forall j :: 0 <= j < |a| ==> s[j] == a[j];
    assert forall j :: 0 <= j < k ==> s[j] == s[..k][j];
    assert s[|a|] == c;
  }

  lemma PairPiece(k: string, v: string)
    ensures var p := UrlEscape(k) + "=" + UrlEscape(v);
            '&' !in p && Pairs([p]) == [(k, v)]
  {
    EscapedIsPlain(Encode(k));
    EscapedIsPlain(Encode(v));
    FirstIndex(UrlEscape(k), '=', UrlEscape(v));
    FormRoundTrip(k);
    FormRoundTrip(v);
    hide UrlEscape, DecodeForm;
    var p := UrlEscape(k) + "=" + UrlEscape(v);
    assert [p][1..] == [] && Pairs([]) == [];
  }

  lemma PairsCons(p: string, rest: seq<string>)
    ensures Pairs([p] + rest) == Pairs([p]) + Pairs(rest)
  {
    hide DecodeForm;
    assert ([p] + rest)[1..] == rest && [p][1..] == [] && Pairs([]) == [];
  }

  lemma {:induction false} QueryPairs(pairs: seq<(string, string)>)
    ensures Pairs(Split(Query(pairs), '&')) == pairs
  {
    hide UrlEscape, Pairs;
    if pairs == [] {
      EmptyQuery();
    } else {
      var (k, v) := pairs[0];
      var p := UrlEscape(k) + "=" + UrlEscape(v);
      PairPiece(k, v);
      if |pairs| == 1 {
        FirstIndex(p, '&', "");
        assert Split(p, '&') == [p];
      } else {
        QueryPairs(pairs[1..]);
        FirstIndex(p, '&', Query(pairs[1..]));
        PairsCons(p, Split(Query(pairs[1..]), '&'));
        assert pairs == [(k, v)] + pairs[1..];
      }
    }
  }

  lemma EmptyQuery()
    ensures Pairs(Split("", '&')) == []
  {
  }

  /** Any list of pairs survives the query string; of equal names the last one counts. */
  lemma QueryRoundTrip(pairs: seq<(string, string)>)
    ensures ParseQuery(Query(pairs)) == LastWins(pairs)
  {
    QueryPairs(pairs);
  }

  /** What the resulting map holds for a name: the value of its last pair. */
  lemma {:induction false} LastPairCounts(pairs: seq<(string, string)>, k: nat)
    requires k < |pairs| && forall j :: k < j < |pairs| ==> pairs[j].0 != pairs[k].0
    ensures pairs[k].0 in LastWins(pairs) && LastWins(pairs)[pairs[k].0] == pairs[k].1
  {
    var n := |pairs| - 1;
    if k < n {
      LastPairCounts(pairs[..n], k);
    }
  }

  /** It holds the names that occur, and no others. */
  lemma {:induction false} NamesOccur(pairs: seq<(string, string)>, name: string)
    ensures name in LastWins(pairs) <==> exists p <- pairs :: p.0 == name
  {
    if pairs != [] {
      var n := |pairs| - 1;
      NamesOccur(pairs[..n], name);
      assert pairs == pairs[..n] + [pairs[n]];
    }
  }

  // ----- However the client escapes -----

  const LOWER: string := "0123456789abcdef"
  const UPPER: string := "0123456789ABCDEF"

  predicate IsDigitOf(n: nat, x: char) {
    n < 16 && (x == LOWER[n] || x == UPPER[n])
  }

  /** One piece of escaped text: a character for itself, a byte in hexadecimal with digits
      of either case, or a plus sign. */
  datatype Token = Plain(c: char) | Hex(high: nat, highDigit: char, low: nat, lowDigit: char) | Plus {
    predicate WellFormed() {
      match this
      case Plain(c) => c != '%' && c != '+'
      case Hex(h, x, l, y) => IsDigitOf(h, x) && IsDigitOf(l, y)
      case Plus => true
    }

    function Spelling(): string
      requires WellFormed()
    {
      match this
      case Plain(c) => [c]
      case Hex(_, x, _, y) => ['%', x, y]
      case Plus => "+"
    }

    /** The bytes meant; in a form field a plus sign is a space. */
    function Meaning(form: bool): Bytes
      requires WellFormed()
    {
      match this
      case Plain(c) => EncodeChar(c)
      case Hex(h, _, l, _) => [16 * h + l]
      case Plus => if form then [0x20] else [0x2B]
    }
  }

  ghost predicate AllFormed(ts: seq<Token>) {
    forall t <- ts :: t.WellFormed()
  }

  function Spelling(ts: seq<Token>): string
    requires AllFormed(ts)
  {
    if ts == [] then "" else ts[0].Spelling() + Spelling(ts[1..])
  }

  function Meaning(ts: seq<Token>, form: bool): Bytes
    requires AllFormed(ts)
  {
    if ts == [] then [] else ts[0].Meaning(form) + Meaning(ts[1..], form)
  }

  lemma EitherCase(n: nat, x: char)
    requires IsDigitOf(n, x)
    ensures x as int < 0x80 && HexValue(x as int) == Some(n) && x != '+' && IsEscapeChar(x)
  {
  }

  lemma {:induction false} NoEscapeKept(bs: Bytes, rest: Bytes)
    requires '%' as int !in bs
    ensures Unescape(bs + rest) == bs + Unescape(rest)
    decreases |bs|
  {
    if bs == [] {
      assert bs + rest == rest;
    } else {
      DropConcat(bs, rest, 1);
      NoEscapeKept(bs[1..], rest);
      ConcatAssoc([bs[0]], bs[1..], Unescape(rest));
      assert [bs[0]] + bs[1..] == bs;
    }
  }

  lemma AsciiEncoded(c: char, s: string)
    requires c as int < 0x80
    ensures Encode([c] + s) == [c as int] + Encode(s)
  {
    assert ([c] + s)[1..] == s;
  }

  lemma UnescapeTriplet(bs: Bytes, h: nat, l: nat)
    requires h < 16 && l < 16 && |bs| > 2 && bs[0] == '%' as int && bs[1] != '+' as int
    requires HexValue(bs[1]) == Some(h) && HexValue(bs[2]) == Some(l)
    ensures Unescape(bs) == [16 * h + l] + Unescape(bs[3..])
  {
    assert ParseHexPair(bs[1], bs[2]) == Some(16 * h + l);
  }

  lemma HexEncoded(x: char, y: char, s: string)
    requires x as int < 0x80 && y as int < 0x80
    ensures var bs := Encode(['%', x, y] + s);
            |bs| > 2 && bs[0] == '%' as int && bs[1] == x as int && bs[2] == y as int && bs[3..] == Encode(s)
  {
    assert ['%', x, y] + s == ['%'] + ([x] + ([y] + s));
    AsciiEncoded('%', [x] + ([y] + s));
    AsciiEncoded(x, [y] + s);
    AsciiEncoded(y, s);
    hide Encode;
  }

  lemma HexDecodes(t: Token, s: string)
    requires t.Hex? && t.WellFormed()
    ensures Unescape(Encode(t.Spelling() + s)) == [16 * t.high + t.low] + Unescape(Encode(s))
  {
    hide Unescape, Encode, HexValue, IsDigitOf;
    EitherCase(t.high, t.highDigit);
    EitherCase(t.low, t.lowDigit);
    HexEncoded(t.highDigit, t.lowDigit, s);
    UnescapeTriplet(Encode(t.Spelling() + s), t.high, t.low);
  }

  lemma TokenDecodes(t: Token, s: string)
    requires t.WellFormed()
    ensures Unescape(Encode(t.Spelling() + s)) == t.Meaning(false) + Unescape(Encode(s))
  {
    match t
    case Plain(c) =>
      assert ([c] + s)[1..] == s;
      NoEscapeKept(EncodeChar(c), Encode(s));
    case Hex(_, _, _, _) => HexDecodes(t, s);
    case Plus =>
      AsciiEncoded('+', s);
      NoEscapeKept([0x2B], Encode(s));
  }

  lemma {:induction false} TokensUnescape(ts: seq<Token>)
    requires AllFormed(ts)
    ensures Unescape(Encode(Spelling(ts))) == Meaning(ts, false)
    decreases |ts|
  {
    hide Token.WellFormed;
    if ts != [] {
      TokensUnescape(ts[1..]);
      TokenDecodes(ts[0], Spelling(ts[1..]));
    }
  }

  /** The tokens with each plus sign written as a space. */
  function Spaced(ts: seq<Token>): (r: seq<Token>)
    requires AllFormed(ts)
    ensures AllFormed(r)
  {
    seq(|ts|, i requires 0 <= i < |ts| => if ts[i].Plus? then Plain(' ') else ts[i])
  }

  lemma PlusConcat(a: string, b: string)
    ensures PlusToSpace(a + b) == PlusToSpace(a) + PlusToSpace(b)
  {
  }

  lemma SpacedToken(t: Token)
    requires t.WellFormed()
    ensures var u := if t.Plus? then Plain(' ') else t;
            u.WellFormed() && PlusToSpace(t.Spelling()) == u.Spelling() && t.Meaning(true) == u.Meaning(false)
  {
    if t.Hex? {
      EitherCase(t.high, t.highDigit);
      EitherCase(t.low, t.lowDigit);
    }
  }

  lemma {:induction false} SpacedText(ts: seq<Token>)
    requires AllFormed(ts)
    ensures PlusToSpace(Spelling(ts)) == Spelling(Spaced(ts)) && Meaning(ts, true) == Meaning(Spaced(ts), false)
    decreases |ts|
  {
    hide Token.WellFormed, PlusToSpace;
    if ts == [] {
      NoPlus();
    } else {
      SpacedText(ts[1..]);
      SpacedToken(ts[0]);
      PlusConcat(ts[0].Spelling(), Spelling(ts[1..]));
      assert Spaced(ts)[1..] == Spaced(ts[1..]);
    }
  }

  lemma NoPlus()
    ensures PlusToSpace("") == ""
  {
  }

  /** Whatever a client escapes, and in which case it writes the digits, the text decodes to
      what was meant; a plus sign is itself in a path segment and a space in a form field. */
  lemma AnyEscapeDecodes(ts: seq<Token>)
    requires AllFormed(ts)
    ensures Decoded(Spelling(ts)) == Lossy(Meaning(ts, false))
    ensures DecodeForm(Spelling(ts)) == Lossy(Meaning(ts, true))
  {
    TokensUnescape(ts);
    SpacedText(ts);
    TokensUnescape(Spaced(ts));
  }

  /** What is left unescaped are the unreserved characters of section 2.3 of RFC 3986. */
  lemma {:induction false} EscapedExactly(s: string)
    ensures forall c <- UrlEscape(s) :: c == '%' || Unreserved(c)
    ensures UrlEscape(s) == s <==> forall c <- s :: Unreserved(c)
    ensures |UrlEscape(s)| >= |s|
  {
    if s != "" {
      var c, rest := s[0], s[1..];
      EscapedExactly(rest);
      EscapeConcat(EncodeChar(c), Encode(rest));
      CharEscaped(c);
      hide UrlEscape, Unreserved;
      var e := EscapeBytes(EncodeChar(c));
      assert UrlEscape(s) == e + UrlEscape(rest) && s == [c] + rest;
      if UrlEscape(s) == s {
        assert s[|e|..] == UrlEscape(rest);
      }
    }
  }

  predicate Unreserved(c: char) {
    || 'A' <= c <= 'Z' || 'a' <= c <= 'z' || '0' <= c <= '9'
    || c == '-' || c == '_' || c == '.' || c == '~'
  }

  lemma {:induction false} EscapeConcat(a: Bytes, b: Bytes)
    ensures EscapeBytes(a + b) == EscapeBytes(a) + EscapeBytes(b)
    decreases |a|
  {
    if a == [] {
      assert a + b == b;
    } else {
      DropConcat(a, b, 1);
      EscapeConcat(a[1..], b);
      ConcatAssoc(EscapeByte(a[0]), EscapeBytes(a[1..]), EscapeBytes(b));
    }
  }

  lemma {:induction false} BytesEscaped(bs: Bytes)
    ensures forall c <- EscapeBytes(bs) :: c == '%' || Unreserved(c)
    ensures |EscapeBytes(bs)| >= |bs|
    ensures bs != [] && !IsUnreserved(bs[0]) ==> |EscapeBytes(bs)| >= 3 && EscapeBytes(bs)[0] == '%'
  {
    if bs != [] { BytesEscaped(bs[1..]); }
  }

  lemma CharEscaped(c: char)
    ensures var e := EscapeBytes(EncodeChar(c));
            && (forall x <- e :: x == '%' || Unreserved(x)) && |e| >= 1
            && (Unreserved(c) ==> e == [c]) && (!Unreserved(c) ==> |e| >= 3)
  {
    BytesEscaped(EncodeChar(c));
    if Unreserved(c) {
      assert EncodeChar(c)[1..] == [];
    }
  }

  // ----- Any query -----

  /** Between two "&": a field with its value, or something without "=". */
  datatype Piece = Field(name: seq<Token>, value: seq<Token>) | Other(text: string) {
    ghost predicate WellFormed() {
      match this
      case Field(n, v) => AllFormed(n) && AllFormed(v) && Plain('=') !in n && Plain('&') !in n && Plain('&') !in v
      case Other(t) => '=' !in t && '&' !in t
    }
  }

  function PieceText(p: Piece): string
    requires p.WellFormed()
  {
    match p
    case Field(n, v) => Spelling(n) + "=" + Spelling(v)
    case Other(t) => t
  }

  function Joined(ps: seq<Piece>): string
    requires ps != [] && forall p <- ps :: p.WellFormed()
  {
    if |ps| == 1 then PieceText(ps[0]) else PieceText(ps[0]) + "&" + Joined(ps[1..])
  }

  function PieceFields(p: Piece): seq<(string, string)>
    requires p.WellFormed()
  {
    match p
    case Field(n, v) => [(Lossy(Meaning(n, true)), Lossy(Meaning(v, true)))]
    case Other(_) => []
  }

  /** The fields meant. */
  function FieldsOf(ps: seq<Piece>): seq<(string, string)>
    requires forall p <- ps :: p.WellFormed()
  {
    if ps == [] then []
    else
      PieceFields(ps[0]) + FieldsOf(ps[1..])
  }

  lemma {:induction false} NotSpelled(ts: seq<Token>, c: char)
    requires AllFormed(ts) && Plain(c) !in ts && (c == '=' || c == '&')
    ensures c !in Spelling(ts)
    decreases |ts|
  {
    if ts != [] {
      var t := ts[0];
      assert t.WellFormed();
      if t.Hex? {
        EitherCase(t.high, t.highDigit);
        EitherCase(t.low, t.lowDigit);
      }
      NotSpelled(ts[1..], c);
    }
  }

  lemma PieceParses(p: Piece)
    requires p.WellFormed()
    ensures '&' !in PieceText(p) && Pairs([PieceText(p)]) == PieceFields(p)
  {
    hide Lossy, Meaning, Spelling, DecodeForm;
    var text := PieceText(p);
    assert [text][1..] == [] && Pairs([]) == [];
    match p
    case Field(n, v) =>
      NotSpelled(n, '=');
      NotSpelled(n, '&');
      NotSpelled(v, '&');
      AnyEscapeDecodes(n);
      AnyEscapeDecodes(v);
      FirstIndex(Spelling(n), '=', Spelling(v));
    case Other(t) =>
  }

  lemma {:induction false} PiecesParse(ps: seq<Piece>)
    requires ps != [] && forall p <- ps :: p.WellFormed()
    ensures Pairs(Split(Joined(ps), '&')) == FieldsOf(ps)
    decreases |ps|
  {
    hide Pairs, PieceText, PieceFields, Piece.WellFormed;
    var text := PieceText(ps[0]);
    PieceParses(ps[0]);
    if |ps| == 1 {
      assert ps == [ps[0]] && FieldsOf(ps[1..]) == [];
      FirstIndex(text, '&', "");
      assert Split(text, '&') == [text];
    } else {
      PiecesParse(ps[1..]);
      FirstIndex(text, '&', Joined(ps[1..]));
      PairsCons(text, Split(Joined(ps[1..]), '&'));
    }
  }

  /** A query parses to the fields meant, the last of a name counting: a field ends its name
      at its first "=", and what has no "=" is skipped. */
  lemma AnyQueryParses(ps: seq<Piece>)
    requires ps != [] && forall p <- ps :: p.WellFormed()
    ensures ParseQuery(Joined(ps)) == LastWins(FieldsOf(ps))
  {
    PiecesParse(ps);
  }
}
