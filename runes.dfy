/** Bytes, runes and the two pieces of Go's standard library that the help-text
    scanner and the word trimming rely on: UTF-8 decoding of one rune
    (utf8.DecodeRune) and the Unicode white-space test (unicode.IsSpace). */
module Runes {

  /** One byte of a Go string or byte slice. */
  type Byte = b: int | 0 <= b < 256

  const NewLine: Byte := '\n' as int
  const Hash: Byte := '#' as int
  const Space: Byte := ' ' as int

  /** The replacement rune utf8.DecodeRune reports for an invalid encoding. */
  const RuneError := 0xFFFD

  predicate IsAscii(s: string) {
    forall i | 0 <= i < |s| :: s[i] as int < 128
  }

  /** The bytes of an ASCII string literal. */
  function Ascii(s: string): (r: seq<Byte>)
    requires IsAscii(s)
    ensures |r| == |s|
    ensures forall i | 0 <= i < |s| :: r[i] == s[i] as int
  {
    seq(|s|, i requires 0 <= i < |s| => s[i] as int)
  }

  /** ASCII upper-case letters map to lower case, every other byte is kept. */
  function LowerByte(b: Byte): (r: Byte)
    ensures 'A' as int <= b <= 'Z' as int ==> r == b + 32
    ensures !('A' as int <= b <= 'Z' as int) ==> r == b
  {
    if 'A' as int <= b <= 'Z' as int then b + 32 else b
  }

  /** A continuation byte of a multi-byte UTF-8 sequence. */
  predicate IsContinuation(b: Byte) {
    0x80 <= b <= 0xBF
  }

  /** The range utf8.DecodeRune accepts for the second byte after lead byte b0
      (it rules out overlong forms, surrogates and runes above U+10FFFF). */
  predicate SecondByteOk(b0: Byte, b1: Byte) {
    if b0 == 0xE0 then 0xA0 <= b1 <= 0xBF
    else if b0 == 0xED then 0x80 <= b1 <= 0x9F
    else if b0 == 0xF0 then 0x90 <= b1 <= 0xBF
    else if b0 == 0xF4 then 0x80 <= b1 <= 0x8F
    else IsContinuation(b1)
  }

  datatype Decoded = Decoded(rune: int, size: nat)

  /** The byte at index i, or 0 past the end. */
  function At(p: seq<Byte>, i: nat): Byte {
    if i < |p| then p[i] else 0
  }

  /** utf8.DecodeRune on a non-empty slice: the first rune and its width in
      bytes; an invalid or truncated sequence is RuneError of width 1. */
  function DecodeRune(p: seq<Byte>): (d: Decoded)
    requires |p| > 0
    ensures 1 <= d.size <= 4 && d.size <= |p|
    ensures p[0] < 0x80 ==> d == Decoded(p[0], 1)
    ensures d.size > 1 ==> 0x80 <= d.rune <= 0x10FFFF
    ensures d.size == 1 && p[0] >= 0x80 ==> d.rune == RuneError
  {
    var b0, b1, b2, b3: int := p[0], At(p, 1), At(p, 2), At(p, 3);
    if b0 < 0x80 then Decoded(b0, 1)
    else if 0xC2 <= b0 <= 0xDF && 2 <= |p| && IsContinuation(p[1]) then
      Decoded((b0 - 0xC0) * 0x40 + (b1 - 0x80), 2)
    else if 0xE0 <= b0 <= 0xEF && 3 <= |p| && SecondByteOk(b0, p[1]) && IsContinuation(p[2]) then
      Decoded((b0 - 0xE0) * 0x1000 + (b1 - 0x80) * 0x40 + (b2 - 0x80), 3)
    else if 0xF0 <= b0 <= 0xF4 && 4 <= |p| && SecondByteOk(b0, p[1]) && IsContinuation(p[2]) && IsContinuation(p[3]) then
      Decoded((b0 - 0xF0) * 0x40000 + (b1 - 0x80) * 0x1000 + (b2 - 0x80) * 0x40 + (b3 - 0x80), 4)
    else Decoded(RuneError, 1)
  }

  /** A Unicode scalar value: a code point that is not a surrogate. */
  predicate IsScalar(r: int) {
    0 <= r <= 0x10FFFF && !(0xD800 <= r <= 0xDFFF)
  }

  /** The UTF-8 encoding of r (utf8.EncodeRune), shortest form. */
  function EncodeRune(r: int): (e: seq<Byte>)
    requires IsScalar(r)
    ensures 1 <= |e| <= 4
    ensures |e| == 1 <==> r < 0x80
  {
    var q1 := r / 0x40;
    var q2 := q1 / 0x40;
    if r < 0x80 then [r]
    else if r < 0x800 then [0xC0 + q1, 0x80 + r % 0x40]
    else if r < 0x10000 then [0xE0 + q2, 0x80 + q1 % 0x40, 0x80 + r % 0x40]
    else [0xF0 + q2 / 0x40, 0x80 + q2 % 0x40, 0x80 + q1 % 0x40, 0x80 + r % 0x40]
  }

  /** Decoding reads back every scalar value from its encoding, whatever
      follows it. */
  lemma DecodeEncoded(r: int, rest: seq<Byte>)
    requires IsScalar(r)
    ensures DecodeRune(EncodeRune(r) + rest) == Decoded(r, |EncodeRune(r)|)
  {
    var e := EncodeRune(r);
    assert (e + rest)[..|e|] == e;
    if r < 0x80 {
    } else if r < 0x800 {
      TwoByteEncoding(r, rest);
    } else if r < 0x10000 {
      ThreeByteEncoding(r, rest);
    } else {
      FourByteEncoding(r, rest);
    }
  }

  lemma TwoByteEncoding(r: int, rest: seq<Byte>)
    requires 0x80 <= r < 0x800
    ensures DecodeRune(EncodeRune(r) + rest) == Decoded(r, 2)
  {
    assert r == r / 0x40 * 0x40 + r % 0x40;
  }

  lemma ThreeByteEncoding(r: int, rest: seq<Byte>)
    requires 0x800 <= r < 0x10000 && IsScalar(r)
    ensures DecodeRune(EncodeRune(r) + rest) == Decoded(r, 3)
  {
    var q1 := r / 0x40;
    assert r == q1 * 0x40 + r % 0x40;
    assert q1 == q1 / 0x40 * 0x40 + q1 % 0x40;
  }

  lemma FourByteEncoding(r: int, rest: seq<Byte>)
    requires 0x10000 <= r <= 0x10FFFF
    ensures DecodeRune(EncodeRune(r) + rest) == Decoded(r, 4)
  {
    var q1 := r / 0x40;
    var q2 := q1 / 0x40;
    assert r == q1 * 0x40 + r % 0x40;
    assert q1 == q2 * 0x40 + q1 % 0x40;
    assert q2 == q2 / 0x40 * 0x40 + q2 % 0x40;
  }

  /** (a * 64 + b) splits back into a and b. */
  lemma SixBits(a: int, b: int)
    requires 0 <= a && 0 <= b < 0x40
    ensures (a * 0x40 + b) / 0x40 == a && (a * 0x40 + b) % 0x40 == b
  {
  }

  /** A multi-byte rune decodes from exactly the encoding of a scalar value. */
  lemma EncodesDecoded(p: seq<Byte>)
    requires |p| > 0
    ensures var d := DecodeRune(p);
            d.size > 1 ==> IsScalar(d.rune) && p[..d.size] == EncodeRune(d.rune)
  {
    var d := DecodeRune(p);
    if d.size == 2 {
      TwoByteDecoded(p[0], p[1]);
      assert p[..2] == [p[0], p[1]];
    } else if d.size == 3 {
      ThreeByteDecoded(p[0], p[1], p[2]);
      assert p[..3] == [p[0], p[1], p[2]];
    } else if d.size == 4 {
      FourByteDecoded(p[0], p[1], p[2], p[3]);
      assert p[..4] == [p[0], p[1], p[2], p[3]];
    }
  }

  lemma TwoByteDecoded(b0: Byte, b1: Byte)
    requires 0xC2 <= b0 <= 0xDF && IsContinuation(b1)
    ensures var r := (b0 - 0xC0) * 0x40 + (b1 - 0x80);
            IsScalar(r) && EncodeRune(r) == [b0, b1]
  {
    SixBits(b0 - 0xC0, b1 - 0x80);
  }

  lemma ThreeByteDecoded(b0: Byte, b1: Byte, b2: Byte)
    requires 0xE0 <= b0 <= 0xEF && SecondByteOk(b0, b1) && IsContinuation(b2)
    ensures var r := (b0 - 0xE0) * 0x1000 + (b1 - 0x80) * 0x40 + (b2 - 0x80);
            IsScalar(r) && EncodeRune(r) == [b0, b1, b2]
  {
    var q1: int := (b0 - 0xE0) * 0x40 + (b1 - 0x80);
    SixBits(q1, b2 - 0x80);
    SixBits(b0 - 0xE0, b1 - 0x80);
  }

  lemma FourByteDecoded(b0: Byte, b1: Byte, b2: Byte, b3: Byte)
    requires 0xF0 <= b0 <= 0xF4 && SecondByteOk(b0, b1) && IsContinuation(b2) && IsContinuation(b3)
    ensures var r := (b0 - 0xF0) * 0x40000 + (b1 - 0x80) * 0x1000 + (b2 - 0x80) * 0x40 + (b3 - 0x80);
            IsScalar(r) && EncodeRune(r) == [b0, b1, b2, b3]
  {
    var q2: int := (b0 - 0xF0) * 0x40 + (b1 - 0x80);
    var q1: int := q2 * 0x40 + (b2 - 0x80);
    SixBits(q1, b3 - 0x80);
    SixBits(q2, b2 - 0x80);
    SixBits(b0 - 0xF0, b1 - 0x80);
  }

  /** unicode.IsSpace: the Latin-1 spaces and the Unicode White_Space property. */
  predicate IsSpace(r: int)
    ensures IsSpace(r) ==> IsScalar(r) && r != RuneError
  {
    r == '\t' as int || r == '\n' as int || r == 0x0B || r == 0x0C || r == '\r' as int
    || r == ' ' as int || r == 0x85 || r == 0xA0
    || r == 0x1680 || (0x2000 <= r <= 0x200A) || r == 0x2028 || r == 0x2029
    || r == 0x202F || r == 0x205F || r == 0x3000
  }
}
