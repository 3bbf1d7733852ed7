/** Percent-encoding of grpc-message values: printable ASCII passes, everything else
    becomes %XX, and bytes that are not UTF-8 become the replacement character. */
module PercentEncoding {
  import opened Framing
  import opened Utf8

  const PERCENT: byte := 37
  const REPLACEMENT: Bytes := [0xEF, 0xBF, 0xBD]

  predicate Plain(b: byte) {
    32 <= b <= 126 && b != PERCENT
  }

  function HexDigit(d: nat): byte
    requires d < 16
  {
    if d < 10 then 48 + d else 55 + d
  }

  /** fmt's %%%02X */
  function Escape(b: byte): Bytes {
    [PERCENT, HexDigit(b / 16), HexDigit(b % 16)]
  }

  function EncodeByte(b: byte, always: bool): Bytes {
    if !always && Plain(b) then [b] else Escape(b)
  }

  function EncodeBytes(bs: Bytes, always: bool): Bytes {
    if bs == [] then [] else EncodeByte(bs[0], always) + EncodeBytes(bs[1..], always)
  }

  lemma DecodedScalar(s: Bytes)
    requires s != []
    ensures IsScalar(DecodeRune(s).0) && 1 <= DecodeRune(s).1 <= |s| && DecodeRune(s).1 <= 4
  {
    if WellFormed(s) {
      DecodedIsEncoding(s);
    }
  }

  /** The bytes that the encoder writes for the rune at the head of msg, before escaping. */
  function RuneBytes(msg: Bytes): Bytes
    requires msg != []
  {
    DecodedScalar(msg);
    EncodeRune(DecodeRune(msg).0)
  }

  function EncodeUnchecked(msg: Bytes): Bytes {
    if msg == [] then []
    else
      DecodedScalar(msg);
      var size := DecodeRune(msg).1;
      EncodeBytes(RuneBytes(msg), size > 1) + EncodeUnchecked(msg[size..])
  }

  predicate AllPlain(msg: Bytes) {
    forall i :: 0 <= i < |msg| ==> Plain(msg[i])
  }

  function Encode(msg: Bytes): Bytes {
    if AllPlain(msg) then msg else EncodeUnchecked(msg)
  }

  method EncodeGrpcMessage(msg: Bytes) returns (r: Bytes)
    ensures r == Encode(msg)
  {
    if msg == [] {
      return [];
    }
    for i := 0 to |msg|
      invariant forall j :: 0 <= j < i ==> Plain(msg[j])
    {
      if !Plain(msg[i]) {
        r := EncodeGrpcMessageUnchecked(msg);
        return;
      }
    }
    return msg;
  }

  method EncodeGrpcMessageUnchecked(input: Bytes) returns (buf: Bytes)
    ensures buf == EncodeUnchecked(input)
  {
    buf := [];
    var msg := input;
    while msg != []
      invariant EncodeUnchecked(input) == buf + EncodeUnchecked(msg)
      decreases |msg|
    {
      DecodedScalar(msg);
      var (r, size) := DecodeRune(msg);
      var bytes := EncodeRune(r);
      ghost var before := buf;
      for i := 0 to |bytes|
        invariant before + EncodeBytes(bytes, size > 1) == buf + EncodeBytes(bytes[i..], size > 1)
      {
        var b := bytes[i];
        Assoc(buf, EncodeByte(b, size > 1), EncodeBytes(bytes[i + 1..], size > 1));
        assert bytes[i..][1..] == bytes[i + 1..];
        if size > 1 {
          buf := buf + Escape(b);
        } else if Plain(b) {
          buf := buf + [b];
        } else {
          buf := buf + Escape(b);
        }
      }
      assert buf + [] == buf;
      Assoc(before, EncodeBytes(bytes, size > 1), EncodeUnchecked(msg[size..]));
      msg := msg[size..];
    }
    assert buf + [] == buf;
  }

  // ---------------------------------------------------------------- the standard decoder

  function HexValue(c: byte): Option<nat> {
    if 48 <= c <= 57 then Some(c - 48)
    else if 65 <= c <= 70 then Some(c - 55)
    else if 97 <= c <= 102 then Some(c - 87)
    else None
  }

  /** Percent-decoding: every well-formed %XX becomes its byte, all else is itself. */
  function Decode(s: Bytes): Bytes {
    if s == [] then []
    else if s[0] == PERCENT && |s| >= 3 && HexValue(s[1]).Some? && HexValue(s[2]).Some? then
      var v: int := 16 * HexValue(s[1]).value + HexValue(s[2]).value;
      [v] + Decode(s[3..])
    else [s[0]] + Decode(s[1..])
  }

  lemma DecodeEscape(b: byte, rest: Bytes)
    ensures Decode(Escape(b) + rest) == [b] + Decode(rest)
  {
    var s := Escape(b) + rest;
    assert s[3..] == rest;
  }

  lemma DecodePlain(b: byte, rest: Bytes)
    requires b != PERCENT
    ensures Decode([b] + rest) == [b] + Decode(rest)
  {
    assert ([b] + rest)[1..] == rest;
  }

  lemma {:induction false} DecodeBytes(bs: Bytes, always: bool, rest: Bytes)
    ensures Decode(EncodeBytes(bs, always) + rest) == bs + Decode(rest)
  {
    hide Decode;
    if bs == [] {
      assert [] + rest == rest && [] + Decode(rest) == Decode(rest);
    } else {
      var more := EncodeBytes(bs[1..], always);
      DecodeBytes(bs[1..], always, rest);
      Assoc(EncodeByte(bs[0], always), more, rest);
      DecodeEscape(bs[0], more + rest);
      if bs[0] != PERCENT {
        DecodePlain(bs[0], more + rest);
      }
      assert [bs[0]] + (bs[1..] + Decode(rest)) == bs + Decode(rest);
    }
  }

  // ---------------------------------------------------------------- round trip

  /** Some scalar value is encoded at the head of s. */
  ghost predicate StartsRune(s: Bytes) {
    exists r: nat :: IsScalar(r) && EncodeRune(r) <= s
  }

  /** msg with every byte that starts no UTF-8 sequence replaced. */
  ghost function Repair(msg: Bytes): Bytes {
    if msg == [] then []
    else if StartsRune(msg) then
      var r: nat :| IsScalar(r) && EncodeRune(r) <= msg;
      EncodeRune(r) + Repair(msg[|EncodeRune(r)|..])
    else REPLACEMENT + Repair(msg[1..])
  }

  lemma RepairStep(msg: Bytes)
    requires msg != []
    ensures 1 <= DecodeRune(msg).1 <= |msg|
    ensures Repair(msg) == RuneBytes(msg) + Repair(msg[DecodeRune(msg).1..])
  {
    hide EncodeRune, DecodeRune;
    DecodeExactly(msg);
    DecodedScalar(msg);
    ReplacementIsEncoded();
  }

  lemma ReplacementIsEncoded()
    ensures EncodeRune(RUNE_ERROR) == REPLACEMENT
  {
  }

  lemma {:induction false} UncheckedRoundTrip(msg: Bytes)
    ensures Decode(EncodeUnchecked(msg)) == Repair(msg)
    decreases |msg|
  {
    hide Decode, Repair, DecodeRune;
    if msg == [] {
      NothingDecodes();
    } else {
      DecodedScalar(msg);
      var size := DecodeRune(msg).1;
      UncheckedRoundTrip(msg[size..]);
      DecodeBytes(RuneBytes(msg), size > 1, EncodeUnchecked(msg[size..]));
      RepairStep(msg);
    }
  }

  lemma NothingDecodes()
    ensures Decode([]) == [] && Repair([]) == []
  {
  }

  /** The scan agrees with the rune loop: text it returns unchanged the loop would too. */
  lemma {:induction false} FastPath(msg: Bytes)
    requires AllPlain(msg)
    ensures EncodeUnchecked(msg) == msg
  {
    if msg != [] {
      assert DecodeRune(msg) == (msg[0] as int, 1);
      assert RuneBytes(msg) == [msg[0]];
      assert EncodeBytes([msg[0]], false) == [msg[0]] by { assert [msg[0]][1..] == []; }
      FastPath(msg[1..]);
      assert [msg[0]] + msg[1..] == msg;
    }
  }

  /** Percent-encoding round trip, for every byte string. */
  lemma RoundTrip(msg: Bytes)
    ensures Decode(Encode(msg)) == Repair(msg)
  {
    UncheckedRoundTrip(msg);
    if AllPlain(msg) {
      FastPath(msg);
    }
  }

  /** Text that is a sequence of encoded scalar values. */
  ghost predicate ValidUtf8(msg: Bytes)
    decreases |msg|
  {
    msg == [] || exists r: nat :: IsScalar(r) && EncodeRune(r) <= msg && ValidUtf8(msg[|EncodeRune(r)|..])
  }

  lemma RepairRune(msg: Bytes, r: nat)
    requires msg != [] && IsScalar(r) && EncodeRune(r) <= msg
    requires Repair(msg[|EncodeRune(r)|..]) == msg[|EncodeRune(r)|..]
    ensures Repair(msg) == msg
  {
    hide EncodeRune, DecodeRune, Repair;
    DecodeExactly(msg);
    RepairStep(msg);
    assert msg == EncodeRune(r) + msg[|EncodeRune(r)|..];
  }

  lemma {:induction false} RepairValid(msg: Bytes)
    requires ValidUtf8(msg)
    ensures Repair(msg) == msg
    decreases |msg|
  {
    if msg != [] {
      var r: nat :| IsScalar(r) && EncodeRune(r) <= msg && ValidUtf8(msg[|EncodeRune(r)|..]);
      RepairValid(msg[|EncodeRune(r)|..]);
      RepairRune(msg, r);
    }
  }

  lemma {:induction false} RepairIsValid(msg: Bytes)
    ensures ValidUtf8(Repair(msg))
    decreases |msg|
  {
    hide DecodeRune;
    if msg != [] {
      DecodedScalar(msg);
      RepairStep(msg);
      var r := DecodeRune(msg).0;
      var rest := Repair(msg[DecodeRune(msg).1..]);
      RepairIsValid(msg[DecodeRune(msg).1..]);
      assert EncodeRune(r) <= EncodeRune(r) + rest && (EncodeRune(r) + rest)[|EncodeRune(r)|..] == rest;
    }
  }

  /** Decoding gives back exactly the text that is valid UTF-8. */
  lemma RoundTripExactly(msg: Bytes)
    ensures Decode(Encode(msg)) == msg <==> ValidUtf8(msg)
  {
    RoundTrip(msg);
    RepairIsValid(msg);
    if ValidUtf8(msg) {
      RepairValid(msg);
    }
  }

  /** The encoder is injective on valid UTF-8, because decoding returns the text. */
  lemma EncodeInjective(a: Bytes, b: Bytes)
    requires ValidUtf8(a) && ValidUtf8(b) && Encode(a) == Encode(b)
    ensures a == b
  {
    RoundTrip(a);
    RoundTrip(b);
    RepairValid(a);
    RepairValid(b);
  }

  // ---------------------------------------------------------------- shape of the output

  predicate PrintableAscii(s: Bytes) {
    forall i :: 0 <= i < |s| ==> 32 <= s[i] <= 126
  }

  lemma {:induction false} BytesShape(bs: Bytes, always: bool)
    ensures PrintableAscii(EncodeBytes(bs, always)) && |EncodeBytes(bs, always)| <= 3 * |bs|
  {
    if bs != [] {
      BytesShape(bs[1..], always);
    }
  }

  lemma RuneBytesShort(msg: Bytes)
    requires msg != []
    ensures |RuneBytes(msg)| <= 3 * DecodeRune(msg).1
  {
    if WellFormed(msg) {
      DecodedIsEncoding(msg);
    }
  }

  /** The output is printable ASCII and at most nine times as long as the input. */
  lemma {:induction false} OutputShape(msg: Bytes)
    ensures PrintableAscii(Encode(msg)) && |Encode(msg)| <= 9 * |msg|
  {
    UncheckedShape(msg);
  }

  lemma {:induction false} UncheckedShape(msg: Bytes)
    ensures PrintableAscii(EncodeUnchecked(msg)) && |EncodeUnchecked(msg)| <= 9 * |msg|
    decreases |msg|
  {
    hide DecodeRune, EncodeRune;
    if msg != [] {
      DecodedScalar(msg);
      var size := DecodeRune(msg).1;
      UncheckedShape(msg[size..]);
      BytesShape(RuneBytes(msg), size > 1);
      RuneBytesShort(msg);
    }
  }

  // ---------------------------------------------------------------- the only encoding of its kind

  /** 0-9 and A-F */
  predicate IsUpperHex(c: byte) {
    48 <= c <= 57 || 65 <= c <= 70
  }

  /** The Percent-Encoded grammar of gRPC over HTTP/2, with no more escaping than it asks for:
      printable ASCII other than the percent sign as it is, every other byte as a percent sign
      and two upper-case digits. */
  predicate Canonical(s: Bytes) {
    s == []
    || (32 <= s[0] <= 126 && s[0] != 37 && Canonical(s[1..]))
    || (&& |s| >= 3 && s[0] == 37 && IsUpperHex(s[1]) && IsUpperHex(s[2])
        && !NeedsNoEscape(s[1], s[2]) && Canonical(s[3..]))
  }

  predicate NeedsNoEscape(hi: byte, lo: byte)
    requires IsUpperHex(hi) && IsUpperHex(lo)
  {
    var v := 16 * HexValue(hi).value + HexValue(lo).value;
    32 <= v <= 126 && v != 37
  }

  lemma EscapeCanonical(b: byte, rest: Bytes)
    requires !(32 <= b <= 126 && b != 37) && Canonical(rest)
    ensures Canonical(Escape(b) + rest)
  {
    var s := Escape(b) + rest;
    assert s[3..] == rest;
    var hi, lo := HexDigit(b / 16), HexDigit(b % 16);
    assert s[0] == 37 && s[1] == hi && s[2] == lo;
    assert HexValue(hi) == Some(b / 16) && HexValue(lo) == Some(b % 16);
  }

  lemma {:induction false} BytesCanonical(bs: Bytes, always: bool, rest: Bytes)
    requires Canonical(rest)
    requires always ==> forall i :: 0 <= i < |bs| ==> bs[i] >= 0x80
    ensures Canonical(EncodeBytes(bs, always) + rest)
  {
    if bs == [] {
      assert EncodeBytes(bs, always) + rest == rest;
    } else {
      hide Canonical, Escape;
      BytesCanonical(bs[1..], always, rest);
      var more := EncodeBytes(bs[1..], always) + rest;
      Assoc(EncodeByte(bs[0], always), EncodeBytes(bs[1..], always), rest);
      if !always && Plain(bs[0]) {
        PlainCanonical(bs[0], more);
      } else {
        EscapeCanonical(bs[0], more);
      }
    }
  }

  lemma PlainCanonical(b: byte, rest: Bytes)
    requires 32 <= b <= 126 && b != 37 && Canonical(rest)
    ensures Canonical([b] + rest)
  {
    assert ([b] + rest)[1..] == rest;
  }

  /** A rune of more than one byte has no ASCII byte in it. */
  lemma LongRuneBytes(msg: Bytes)
    requires msg != [] && DecodeRune(msg).1 > 1
    ensures forall i :: 0 <= i < |RuneBytes(msg)| ==> RuneBytes(msg)[i] >= 0x80
  {
    DecodedIsEncoding(msg);
  }

  lemma {:induction false} UncheckedCanonical(msg: Bytes)
    ensures Canonical(EncodeUnchecked(msg))
    decreases |msg|
  {
    hide DecodeRune, EncodeRune;
    if msg != [] {
      DecodedScalar(msg);
      var size := DecodeRune(msg).1;
      UncheckedCanonical(msg[size..]);
      if size > 1 {
        LongRuneBytes(msg);
      }
      BytesCanonical(RuneBytes(msg), size > 1, EncodeUnchecked(msg[size..]));
    }
  }

  lemma NextDecoded(s: Bytes)
    requires s != [] && Canonical(s)
    ensures var n := if s[0] == 37 then 3 else 1;
            && n <= |s| && Canonical(s[n..]) && Decode(s) != []
            && Decode(s)[1..] == Decode(s[n..])
            && (s[0] == 37 <==> !(32 <= Decode(s)[0] <= 126 && Decode(s)[0] != 37))
            && (s[0] != 37 ==> Decode(s)[0] == s[0])
            && (s[0] == 37 ==> Decode(s)[0] / 16 == HexNibble(s[1]) && Decode(s)[0] % 16 == HexNibble(s[2]))
  {
  }

  function HexNibble(c: byte): int {
    if HexValue(c).Some? then HexValue(c).value else -1
  }

  lemma NibbleUnique(a: byte, b: byte)
    requires IsUpperHex(a) && IsUpperHex(b) && HexNibble(a) == HexNibble(b)
    ensures a == b
  {
  }

  lemma {:induction false} CanonicalUnique(a: Bytes, b: Bytes)
    requires Canonical(a) && Canonical(b) && Decode(a) == Decode(b)
    ensures a == b
  {
    if a != [] && b != [] {
      NextDecoded(a);
      NextDecoded(b);
      var n := if a[0] == 37 then 3 else 1;
      assert Decode(a)[0] == Decode(b)[0];
      CanonicalUnique(a[n..], b[n..]);
      if n == 3 {
        NibbleUnique(a[1], b[1]);
        NibbleUnique(a[2], b[2]);
      }
      assert a == a[..n] + a[n..] && b == b[..n] + b[n..];
    } else if a != [] {
      NextDecoded(a);
    } else if b != [] {
      NextDecoded(b);
    }
  }

  /** The encoder, exactly: its output is the one text in the grammar that decodes to the
      repaired message. */
  lemma EncodeExactly(msg: Bytes, s: Bytes)
    ensures s == Encode(msg) <==> Canonical(s) && Decode(s) == Repair(msg)
  {
    hide Canonical, Decode, Repair;
    RoundTrip(msg);
    UncheckedCanonical(msg);
    if AllPlain(msg) {
      FastPath(msg);
    }
    if Canonical(s) && Decode(s) == Repair(msg) {
      CanonicalUnique(s, Encode(msg));
    }
  }

  /** Nine is reached: one invalid byte becomes three escapes. */
  lemma BoundIsTight()
    ensures |Encode([0xFF])| == 9
  {
    var s := EncodeRune(RUNE_ERROR);
    assert s == REPLACEMENT && s[1..] == [0xBF, 0xBD] && s[1..][1..] == [0xBD] && s[1..][1..][1..] == [];
    assert !Plain([0xFF][0]);
    assert EncodeBytes([0xBD], false) == Escape(0xBD) + [];
    assert |EncodeBytes([0xBF, 0xBD], false)| == 6;
  }
}
