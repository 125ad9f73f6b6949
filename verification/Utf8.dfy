/** The part of Rust's text handling the program relies on: encoding a string as
    UTF-8, strict decoding (`str::from_utf8`), and lossy decoding
    (`String::from_utf8_lossy`), which replaces each maximal ill-formed piece by
    one U+FFFD. The byte ranges are those of section 4 of RFC 3629. */
module Utf8 {
  import opened Wrappers
  import opened Sequences

  type Byte = b: int | 0 <= b < 256
  type Bytes = seq<Byte>

  const REPLACEMENT: char := '\U{FFFD}'

  function EncodeChar(c: char): (r: Bytes)
    ensures 1 <= |r| <= 4
  {
    var n := c as int;
    if n < 0x80 then [n]
    else if n < 0x800 then [0xC0 + n / 0x40, 0x80 + n % 0x40]
    else if n < 0x1_0000 then [0xE0 + n / 0x1000, 0x80 + n / 0x40 % 0x40, 0x80 + n % 0x40]
    else [0xF0 + n / 0x4_0000, 0x80 + n / 0x1000 % 0x40, 0x80 + n / 0x40 % 0x40, 0x80 + n % 0x40]
  }

  function Encode(s: string): Bytes {
    if s == "" then [] else EncodeChar(s[0]) + Encode(s[1..])
  }

  /** One decoding step: a scalar value, or an ill-formed piece, with the bytes it uses. */
  datatype Step = Scalar(c: char, len: nat) | IllFormed(len: nat)

  function At(b: Bytes, i: nat): Byte {
    if i < |b| then b[i] else 0
  }

  predicate IsContinuation(x: Byte) {
    0x80 <= x < 0xC0
  }

  /** Which second bytes a three-byte or four-byte lead accepts. */
  predicate SecondByteOk(lead: Byte, x: Byte) {
    if lead == 0xE0 then 0xA0 <= x < 0xC0
    else if lead == 0xED then 0x80 <= x < 0xA0
    else if lead == 0xF0 then 0x90 <= x < 0xC0
    else if lead == 0xF4 then 0x80 <= x < 0x90
    else IsContinuation(x)
  }

  function Two(x: Byte, x1: Byte): (c: char)
    requires 0xC2 <= x < 0xE0 && IsContinuation(x1)
    ensures EncodeChar(c) == [x, x1]
  {
    ((x - 0xC0) * 0x40 + (x1 - 0x80)) as char
  }

  function Three(x: Byte, x1: Byte, x2: Byte): (c: char)
    requires 0xE0 <= x < 0xF0 && SecondByteOk(x, x1) && IsContinuation(x2)
    ensures EncodeChar(c) == [x, x1, x2]
  {
    var low := (x1 - 0x80) * 0x40 + (x2 - 0x80);
    var n := (x - 0xE0) * 0x1000 + low;
    assert n / 0x1000 == x - 0xE0;
    assert n / 0x40 == (x - 0xE0) * 0x40 + (x1 - 0x80);
    n as char
  }

  function Four(x: Byte, x1: Byte, x2: Byte, x3: Byte): (c: char)
    requires 0xF0 <= x < 0xF5 && SecondByteOk(x, x1) && IsContinuation(x2) && IsContinuation(x3)
    ensures EncodeChar(c) == [x, x1, x2, x3]
  {
    var n := (x - 0xF0) * 0x4_0000 + (x1 - 0x80) * 0x1000 + (x2 - 0x80) * 0x40 + (x3 - 0x80);
    assert n / 0x4_0000 == x - 0xF0;
    assert n / 0x1000 == (x - 0xF0) * 0x40 + (x1 - 0x80);
    assert n / 0x40 == (x - 0xF0) * 0x1000 + (x1 - 0x80) * 0x40 + (x2 - 0x80);
    n as char
  }

  function Next(b: Bytes): (r: Step)
    requires b != []
    ensures 1 <= r.len <= |b|
    ensures r.Scalar? ==> EncodeChar(r.c) == b[..r.len]
  {
    var x, x1, x2, x3 := b[0], At(b, 1), At(b, 2), At(b, 3);
    if x < 0x80 then Scalar(x as char, 1)
    else if 0xC2 <= x < 0xE0 then
      if IsContinuation(x1) then Scalar(Two(x, x1), 2) else IllFormed(1)
    else if 0xE0 <= x < 0xF0 then
      if !SecondByteOk(x, x1) then IllFormed(1)
      else if !IsContinuation(x2) then IllFormed(2)
      else Scalar(Three(x, x1, x2), 3)
    else if 0xF0 <= x < 0xF5 then
      if !SecondByteOk(x, x1) then IllFormed(1)
      else if !IsContinuation(x2) then IllFormed(2)
      else if !IsContinuation(x3) then IllFormed(3)
      else Scalar(Four(x, x1, x2, x3), 4)
    else IllFormed(1)
  }

  /** `str::from_utf8`. */
  function Decode(b: Bytes): Option<string> {
    if b == [] then Some("")
    else
      match Next(b)
      case IllFormed(_) => None
      case Scalar(c, n) =>
        match Decode(b[n..])
        case None => None
        case Some(rest) => Some([c] + rest)
  }

  /** `String::from_utf8_lossy`. */
  function Lossy(b: Bytes): string {
    if b == [] then ""
    else
      match Next(b)
      case IllFormed(n) => [REPLACEMENT] + Lossy(b[n..])
      case Scalar(c, n) => [c] + Lossy(b[n..])
  }

  lemma WideEncoded(c: char)
    requires c as int >= 0x800
    ensures var e := EncodeChar(c);
            && SecondByteOk(e[0], e[1])
            && (|e| == 3 ==> 0xE0 <= e[0] < 0xF0 && IsContinuation(e[2]) && Three(e[0], e[1], e[2]) == c)
            && (|e| == 4 ==> 0xF0 <= e[0] < 0xF5 && IsContinuation(e[2]) && IsContinuation(e[3])
                             && Four(e[0], e[1], e[2], e[3]) == c)
  {
    var n := c as int;
    if n < 0x1_0000 {
      assert n == (n / 0x1000) * 0x1000 + (n / 0x40 % 0x40) * 0x40 + n % 0x40;
    } else {
      assert n == (n / 0x4_0000) * 0x4_0000 + (n / 0x1000 % 0x40) * 0x1000 + (n / 0x40 % 0x40) * 0x40 + n % 0x40;
    }
  }

  lemma NextOfEncoded(c: char, rest: Bytes)
    ensures Next(EncodeChar(c) + rest) == Scalar(c, |EncodeChar(c)|)
  {
    var e := EncodeChar(c);
    var b := e + rest;
    assert forall i :: 0 <= i < |e| ==> At(b, i) == e[i];
    if c as int >= 0x800 {
      WideEncoded(c);
    }
  }

  /** Decoding, strict or lossy, undoes encoding. */
  lemma {:induction false} DecodeEncode(s: string)
    ensures Decode(Encode(s)) == Some(s)
    ensures Lossy(Encode(s)) == s
  {
    if s != "" {
      NextOfEncoded(s[0], Encode(s[1..]));
      DecodeEncode(s[1..]);
      var b, n := Encode(s), |EncodeChar(s[0])|;
      assert b[n..] == Encode(s[1..]);
      assert [s[0]] + s[1..] == s;
    }
  }

  /** Only well-formed bytes decode, and they are then the encoding of the result. */
  lemma {:induction false} EncodeDecode(b: Bytes)
    ensures Decode(b).Some? ==> Encode(Decode(b).value) == b
  {
    hide Next, EncodeChar;
    if b != [] && Decode(b).Some? {
      var n := Next(b).len;
      EncodeDecode(b[n..]);
      assert b == b[..n] + b[n..];
      assert Decode(b).value[1..] == Decode(b[n..]).value;
    }
  }

  lemma {:induction false} EncodeConcat(s: string, t: string)
    ensures Encode(s + t) == Encode(s) + Encode(t)
  {
    if s == "" {
      assert s + t == t;
    } else {
      EncodeConcat(s[1..], t);
      DropConcat(s, t, 1);
      ConcatAssoc(EncodeChar(s[0]), Encode(s[1..]), Encode(t));
    }
  }

  /** A byte that is a character of its own or is in no well-formed text. */
  predicate StandsAlone(x: Byte) {
    x < 0x80 || x == 0xC0 || x == 0xC1 || x >= 0xF5
  }

  lemma NextBeforeLoner(a: Bytes, x: Byte, b: Bytes)
    requires a != [] && StandsAlone(x)
    ensures Next(a + [x] + b) == Next(a)
  {
    var w := a + [x] + b;
    assert forall i :: 0 <= i < |a| ==> w[i] == a[i];
    assert w[|a|] == x;
  }

  lemma LossyStep(b: Bytes)
    requires b != []
    ensures Lossy(b) == [if Next(b).Scalar? then Next(b).c else REPLACEMENT] + Lossy(b[Next(b).len..])
  {
  }

  /** Such a byte always ends an unfinished sequence, so lossy decoding splits there: it is
      itself, or replaced by U+FFFD. */
  lemma {:induction false} LossyAround(a: Bytes, x: Byte, b: Bytes)
    requires StandsAlone(x)
    ensures Lossy(a + [x] + b) == Lossy(a) + [if x < 0x80 then x as char else '\U{FFFD}'] + Lossy(b)
    decreases |a|
  {
    var w := a + [x] + b;
    var shown := if x < 0x80 then x as char else '\U{FFFD}';
    if a == [] {
      assert w[1..] == b && w[0] == x;
    } else {
      NextBeforeLoner(a, x, b);
      var n := Next(a).len;
      LossyAround(a[n..], x, b);
      DropConcat(a + [x], b, n);
      DropConcat(a, [x], n);
      LossyStep(w);
      LossyStep(a);
      var c := Lossy(a)[0];
      ConcatAssoc([c], Lossy(a[n..]), [shown]);
      ConcatAssoc([c], Lossy(a[n..]) + [shown], Lossy(b));
    }
  }

  lemma LossySplit(a: Bytes, x: Byte, b: Bytes)
    requires x < 0x80
    ensures Lossy(a + [x] + b) == Lossy(a) + [x as char] + Lossy(b)
  {
    LossyAround(a, x, b);
  }
}
