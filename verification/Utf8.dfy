/** UTF-8 as the percent encoder meets it: the decoder of Go's unicode/utf8 against the
    encoding of section 3 of RFC 3629. */
module Utf8 {
  import opened Framing

  const RUNE_ERROR: nat := 0xFFFD

  /** Unicode scalar values: code points that are not surrogates. */
  predicate IsScalar(r: nat) {
    r < 0xD800 || 0xE000 <= r <= 0x10FFFF
  }

  /** The octets of a scalar value, section 3 of RFC 3629. */
  function EncodeRune(r: nat): (s: Bytes)
    requires IsScalar(r)
    ensures 1 <= |s| <= 4
  {
    if r < 0x80 then [r]
    else if r < 0x800 then [0xC0 + r / 64, 0x80 + r % 64]
    else if r < 0x10000 then [0xE0 + r / 4096, 0x80 + r / 64 % 64, 0x80 + r % 64]
    else [0xF0 + r / 0x40000, 0x80 + r / 4096 % 64, 0x80 + r / 64 % 64, 0x80 + r % 64]
  }

  predicate IsTail(b: byte) {
    0x80 <= b <= 0xBF
  }

  /** Length of the sequence a first byte announces, 0 if it announces none. */
  function SizeOf(b: byte): nat {
    if b < 0x80 then 1
    else if 0xC2 <= b <= 0xDF then 2
    else if 0xE0 <= b <= 0xEF then 3
    else if 0xF0 <= b <= 0xF4 then 4
    else 0
  }

  /** Second bytes accepted after a first byte: no overlong forms, no surrogates and
      nothing past 0x10FFFF. */
  predicate SecondOk(b0: byte, b1: byte) {
    && IsTail(b1)
    && (b0 == 0xE0 ==> b1 >= 0xA0)
    && (b0 == 0xED ==> b1 <= 0x9F)
    && (b0 == 0xF0 ==> b1 >= 0x90)
    && (b0 == 0xF4 ==> b1 <= 0x8F)
  }

  /** A complete, acceptable sequence at the head of s. */
  predicate WellFormed(s: Bytes)
    requires s != []
  {
    var n := SizeOf(s[0]);
    && 1 <= n <= |s|
    && (n > 1 ==> SecondOk(s[0], s[1]))
    && (n > 2 ==> IsTail(s[2]))
    && (n > 3 ==> IsTail(s[3]))
  }

  function Combine(s: Bytes): nat
    requires s != [] && WellFormed(s)
  {
    match SizeOf(s[0])
    case 1 => s[0]
    case 2 => (s[0] - 0xC0) as int * 64 + (s[1] - 0x80) as int
    case 3 => (s[0] - 0xE0) as int * 4096 + (s[1] - 0x80) as int * 64 + (s[2] - 0x80) as int
    case _ =>
      (s[0] - 0xF0) as int * 0x40000 + (s[1] - 0x80) as int * 4096
      + (s[2] - 0x80) as int * 64 + (s[3] - 0x80) as int
  }

  /** utf8.DecodeRuneInString on a non-empty string: rune and size. */
  function DecodeRune(s: Bytes): (nat, nat)
    requires s != []
  {
    if WellFormed(s) then (Combine(s), SizeOf(s[0])) else (RUNE_ERROR, 1)
  }

  /** Base-64 digits of a code point. */
  lemma Digit64(q: nat, d: nat)
    requires d < 64
    ensures (64 * q + d) / 64 == q && (64 * q + d) % 64 == d
  {
  }

  lemma DecodedThree(s: Bytes)
    requires s != [] && WellFormed(s) && SizeOf(s[0]) == 3
    ensures IsScalar(Combine(s)) && EncodeRune(Combine(s)) == s[..3]
  {
    var r := Combine(s);
    var a, b, c := (s[0] - 0xE0) as int, (s[1] - 0x80) as int, (s[2] - 0x80) as int;
    Digit64(a * 64 + b, c);
    Digit64(a, b);
    assert r == 64 * (64 * a + b) + c && r / 4096 == r / 64 / 64;
  }

  lemma DecodedFour(s: Bytes)
    requires s != [] && WellFormed(s) && SizeOf(s[0]) == 4
    ensures IsScalar(Combine(s)) && EncodeRune(Combine(s)) == s[..4]
  {
    var r := Combine(s);
    var a, b, c, d := (s[0] - 0xF0) as int, (s[1] - 0x80) as int, (s[2] - 0x80) as int, (s[3] - 0x80) as int;
    Digit64(64 * (64 * a + b) + c, d);
    Digit64(64 * a + b, c);
    Digit64(a, b);
    assert r == 64 * (64 * (64 * a + b) + c) + d;
    assert r / 4096 == r / 64 / 64 && r / 0x40000 == r / 64 / 64 / 64;
  }

  /** What the decoder accepts is the encoding of the scalar value it returns. */
  lemma DecodedIsEncoding(s: Bytes)
    requires s != [] && WellFormed(s)
    ensures IsScalar(Combine(s)) && EncodeRune(Combine(s)) == s[..SizeOf(s[0])]
  {
    var n := SizeOf(s[0]);
    if n == 2 {
      Digit64((s[0] - 0xC0) as int, (s[1] - 0x80) as int);
    } else if n == 3 {
      DecodedThree(s);
    } else if n == 4 {
      DecodedFour(s);
    }
  }

  lemma EncodingIsWellFormed(r: nat)
    requires IsScalar(r)
    ensures WellFormed(EncodeRune(r)) && SizeOf(EncodeRune(r)[0]) == |EncodeRune(r)|
    ensures Combine(EncodeRune(r)) == r
  {
    var q := r / 64;
    var p := q / 64;
    assert r == 64 * q + r % 64 && q == 64 * p + q % 64 && p == 64 * (p / 64) + p % 64;
    assert r / 4096 == p && r / 0x40000 == p / 64;
  }

  /** The decoder inverts the encoding wherever one starts, and reports an error of size
      one everywhere else. */
  lemma DecodeExactly(s: Bytes)
    requires s != []
    ensures forall r: nat :: IsScalar(r) && EncodeRune(r) <= s ==> DecodeRune(s) == (r, |EncodeRune(r)|)
    ensures (forall r: nat :: IsScalar(r) ==> !(EncodeRune(r) <= s)) ==> DecodeRune(s) == (RUNE_ERROR, 1)
  {
    forall r: nat | IsScalar(r) && EncodeRune(r) <= s
      ensures DecodeRune(s) == (r, |EncodeRune(r)|)
    {
      EncodingIsWellFormed(r);
      SameHead(EncodeRune(r), s);
    }
    if WellFormed(s) {
      DecodedIsEncoding(s);
    }
  }

  lemma SameHead(e: Bytes, s: Bytes)
    requires e != [] && e <= s && WellFormed(e)
    ensures WellFormed(s) && Combine(s) == Combine(e) && SizeOf(s[0]) == SizeOf(e[0])
  {
  }

  /** Characters from the examples in section 7 of RFC 3629. */
  lemma RfcExamples()
    ensures EncodeRune(0x41) == [0x41] && EncodeRune(0x0391) == [0xCE, 0x91]
    ensures EncodeRune(0x2262) == [0xE2, 0x89, 0xA2] && EncodeRune(0x233B4) == [0xF0, 0xA3, 0x8E, 0xB4]
  {
  }
}
