/** Header blocks as the program exchanges them: `Name: value` lines written by
    http.Header.Write and read back by textproto's ReadMIMEHeader (field syntax
    of section 3.2 of RFC 7230). The reader is always given the block followed by
    one extra CRLF, which plays the part of the blank line that ends a header. */
module HeaderBlock {
  import opened Framing

  type Header = map<Bytes, seq<Bytes>>

  const TAB: byte := 9
  const LF: byte := 10
  const CR: byte := 13
  const SP: byte := 32
  const DASH: byte := 45
  const COLON: byte := 58
  const CRLF: Bytes := [CR, LF]

  predicate IsUpper(b: byte) { 65 <= b <= 90 }

  predicate IsLower(b: byte) { 97 <= b <= 122 }

  /** tchar of section 3.2.6 of RFC 7230 */
  predicate IsToken(b: byte) {
    || IsUpper(b) || IsLower(b)
    || 48 <= b <= 57
    || b in {33, 35, 36, 37, 38, 39, 42, 43, 45, 46, 94, 95, 96, 124, 126}
  }

  const BLANKS: set<byte> := {SP, TAB}
  const SPACES: set<byte> := {SP, TAB, CR, LF}

  predicate ValidName(k: Bytes) {
    k != [] && forall i :: 0 <= i < |k| ==> IsToken(k[i])
  }

  // ---------------------------------------------------------------- canonical names

  function Recase(k: Bytes, upper: bool): (r: Bytes)
    ensures |r| == |k|
    ensures forall i :: 0 <= i < |k| ==> IsToken(r[i]) == IsToken(k[i])
  {
    if k == [] then []
    else
      var c: int := if upper && IsLower(k[0]) then k[0] - 32 else if !upper && IsUpper(k[0]) then k[0] + 32 else k[0];
      [c] + Recase(k[1..], k[0] == DASH)
  }

  /** http.CanonicalHeaderKey: names that are not tokens are left alone. */
  function CanonicalKey(k: Bytes): (r: Bytes)
    ensures |r| == |k|
    ensures ValidName(r) <==> ValidName(k)
  {
    if ValidName(k) then Recase(k, true) else k
  }

  lemma {:induction false} RecaseIdempotent(k: Bytes, upper: bool)
    ensures Recase(Recase(k, upper), upper) == Recase(k, upper)
  {
    if k != [] {
      RecaseIdempotent(k[1..], k[0] == DASH);
      var r := Recase(k, upper);
      assert r[1..] == Recase(k[1..], k[0] == DASH);
      assert r[0] == DASH <==> k[0] == DASH;
    }
  }

  lemma CanonicalIdempotent(k: Bytes)
    ensures CanonicalKey(CanonicalKey(k)) == CanonicalKey(k)
  {
    if ValidName(k) {
      RecaseIdempotent(k, true);
    }
  }

  /** Upper case at the start and after each dash, lower case elsewhere. */
  predicate Cased(k: Bytes, upper: bool) {
    forall i :: 0 <= i < |k| ==> CasedAt(k, upper, i)
  }

  predicate CasedAt(k: Bytes, upper: bool, i: nat)
    requires i < |k|
  {
    if (if i == 0 then upper else k[i - 1] == DASH) then !IsLower(k[i]) else !IsUpper(k[i])
  }

  /** Names written that way are exactly the ones left alone. */
  lemma {:induction false} CasedIsFixed(k: Bytes, upper: bool)
    ensures Recase(k, upper) == k <==> Cased(k, upper)
  {
    if k != [] {
      var rest := k[1..];
      CasedIsFixed(rest, k[0] == DASH);
      assert k == [k[0]] + rest && Recase(k, upper)[1..] == Recase(rest, k[0] == DASH);
      CasedCons(k[0], rest, upper);
    }
  }

  lemma CasedCons(b: byte, rest: Bytes, upper: bool)
    ensures Cased([b] + rest, upper) <==> (if upper then !IsLower(b) else !IsUpper(b)) && Cased(rest, b == DASH)
  {
    var k := [b] + rest;
    assert CasedAt(k, upper, 0) <==> if upper then !IsLower(b) else !IsUpper(b);
    var up := b == DASH;
    assert forall i: nat {:trigger CasedAt(rest, up, i)} ::
        i < |rest| ==> (CasedAt(rest, up, i) <==> CasedAt(k, upper, i + 1));
    assert forall j: nat {:trigger CasedAt(k, upper, j)} ::
        1 <= j < |k| ==> (CasedAt(k, upper, j) <==> CasedAt(rest, up, j - 1));
  }

  function Fold(b: byte): int {
    if IsUpper(b) then b + 32 else b
  }

  predicate SameUpToCase(a: Bytes, b: Bytes) {
    |a| == |b| && forall i :: 0 <= i < |a| ==> Fold(a[i]) == Fold(b[i])
  }

  lemma {:induction false} RecaseFolds(k: Bytes, upper: bool)
    ensures SameUpToCase(Recase(k, upper), k)
  {
    if k != [] {
      RecaseFolds(k[1..], k[0] == DASH);
      var r := Recase(k, upper);
      assert Fold(r[0]) == Fold(k[0]);
      assert r[1..] == Recase(k[1..], k[0] == DASH);
      assert forall i :: 1 <= i < |k| ==> r[i] == r[1..][i - 1] && k[i] == k[1..][i - 1];
    }
  }

  lemma {:induction false} FoldedRecase(a: Bytes, b: Bytes, upper: bool)
    requires SameUpToCase(a, b)
    ensures Recase(a, upper) == Recase(b, upper)
  {
    if a != [] {
      assert Fold(a[0]) == Fold(b[0]);
      assert SameUpToCase(a[1..], b[1..]);
      FoldedRecase(a[1..], b[1..], a[0] == DASH);
    }
  }

  /** The canonical form of a name is the one that differs from it in case only and is upper
      case at the start and after each dash, lower case elsewhere. */
  lemma CanonicalExactly(k: Bytes, r: Bytes)
    requires ValidName(k)
    ensures r == CanonicalKey(k) <==> SameUpToCase(r, k) && Cased(r, true)
  {
    hide Recase, Cased, SameUpToCase;
    RecaseFolds(k, true);
    RecaseIdempotent(k, true);
    CasedIsFixed(Recase(k, true), true);
    if SameUpToCase(r, k) && Cased(r, true) {
      FoldedRecase(r, k, true);
      CasedIsFixed(r, true);
    }
  }

  // ---------------------------------------------------------------- writing

  function NewlinesToSpaces(v: Bytes): Bytes {
    seq(|v|, i requires 0 <= i < |v| => if v[i] == CR || v[i] == LF then SP else v[i])
  }

  function TrimLeft(v: Bytes, cut: set<byte>): (r: Bytes)
    ensures r == [] || r[0] !in cut
    ensures |r| <= |v| && r == v[|v| - |r|..]
  {
    if v != [] && v[0] in cut then TrimLeft(v[1..], cut) else v
  }

  function TrimRight(v: Bytes, cut: set<byte>): (r: Bytes)
    ensures r == [] || r[|r| - 1] !in cut
    ensures |r| <= |v| && r == v[..|r|]
  {
    if v != [] && v[|v| - 1] in cut then TrimRight(v[..|v| - 1], cut) else v
  }

  /** What http.Header.Write makes of a value: line breaks become blanks, then trimmed. */
  function CleanValue(v: Bytes): Bytes {
    TrimRight(TrimLeft(NewlinesToSpaces(v), SPACES), SPACES)
  }

  function CleanValues(vs: seq<Bytes>): (r: seq<Bytes>)
    ensures |r| == |vs| && forall i :: 0 <= i < |vs| ==> r[i] == CleanValue(vs[i])
  {
    if vs == [] then [] else [CleanValue(vs[0])] + CleanValues(vs[1..])
  }

  predicate AllIn(s: Bytes, cut: set<byte>) {
    forall i :: 0 <= i < |s| ==> s[i] in cut
  }

  /** Neither end is one of these bytes. */
  predicate EndsOutside(s: Bytes, cut: set<byte>) {
    s != [] ==> s[0] !in cut && s[|s| - 1] !in cut
  }

  lemma {:induction false} TrimLeftUnique(a: Bytes, r: Bytes, cut: set<byte>)
    requires AllIn(a, cut) && (r != [] ==> r[0] !in cut)
    ensures TrimLeft(a + r, cut) == r
  {
    if a == [] {
      assert a + r == r;
    } else {
      assert (a + r)[0] == a[0] && (a + r)[1..] == a[1..] + r;
      TrimLeftUnique(a[1..], r, cut);
    }
  }

  lemma {:induction false} TrimRightUnique(r: Bytes, b: Bytes, cut: set<byte>)
    requires AllIn(b, cut) && (r != [] ==> r[|r| - 1] !in cut)
    ensures TrimRight(r + b, cut) == r
  {
    if b == [] {
      assert r + b == r;
    } else {
      var w := r + b;
      assert w[|w| - 1] == b[|b| - 1] && w[..|w| - 1] == r + b[..|b| - 1];
      TrimRightUnique(r, b[..|b| - 1], cut);
    }
  }

  lemma TrimUnique(a: Bytes, c: Bytes, b: Bytes, cut: set<byte>)
    requires AllIn(a, cut) && AllIn(b, cut) && EndsOutside(c, cut)
    ensures TrimRight(TrimLeft(a + c + b, cut), cut) == c
  {
    if c == [] {
      assert a + c + b == (a + b) + [];
      TrimLeftUnique(a + b, [], cut);
    } else {
      Assoc(a, c, b);
      assert (c + b)[0] == c[0];
      TrimLeftUnique(a, c + b, cut);
      TrimRightUnique(c, b, cut);
    }
  }

  /** v with every line break made a blank. */
  predicate Blanked(v: Bytes, w: Bytes) {
    |w| == |v| && forall i :: 0 <= i < |v| ==> w[i] == if v[i] == CR || v[i] == LF then SP else v[i]
  }

  /** What is written for a value: with its line breaks made blanks, the part between the
      blanks at both ends. */
  lemma CleanIsTheMiddle(v: Bytes, a: Bytes, c: Bytes, b: Bytes)
    requires Blanked(v, a + c + b)
    requires AllIn(a, SPACES) && AllIn(b, SPACES) && EndsOutside(c, SPACES)
    ensures CleanValue(v) == c
  {
    assert NewlinesToSpaces(v) == a + c + b;
    TrimUnique(a, c, b, SPACES);
  }

  /** Without line breaks, and without blanks at either end. */
  predicate Tidy(v: Bytes) {
    NoBreaks(v) && EndsOutside(v, SPACES)
  }

  /** Exactly the tidy values are written as they are. */
  lemma CleanExactly(v: Bytes)
    ensures CleanValue(v) == v <==> Tidy(v)
  {
    if Tidy(v) {
      assert [] + v + [] == v;
      CleanIsTheMiddle(v, [], v, []);
    } else {
      CleanPrintable(v);
      CleanEnds(v);
    }
  }

  function WriteLine(k: Bytes, v: Bytes): Bytes {
    k + [COLON, SP] + CleanValue(v) + CRLF
  }

  function WriteValues(k: Bytes, vs: seq<Bytes>): Bytes {
    if vs == [] then [] else WriteLine(k, vs[0]) + WriteValues(k, vs[1..])
  }

  function Values(h: Header, k: Bytes): seq<Bytes> {
    if k in h then h[k] else []
  }

  /** http.Header.Write with the names taken in the given order. Names that are not
      tokens are dropped. */
  function WriteBlock(h: Header, order: seq<Bytes>): Bytes {
    if order == [] then []
    else
      (if ValidName(order[0]) then WriteValues(order[0], Values(h, order[0])) else [])
      + WriteBlock(h, order[1..])
  }

  /** An enumeration of a key set. The program writes sorted names; nothing here
      depends on which enumeration is used. */
  ghost predicate Enumerates(order: seq<Bytes>, keys: set<Bytes>) {
    && (forall i, j :: 0 <= i < j < |order| ==> order[i] != order[j])
    && (forall k :: k in order <==> k in keys)
  }

  // ---------------------------------------------------------------- reading

  function IndexOf(s: Bytes, b: byte): (i: nat)
    ensures i <= |s|
    ensures i < |s| ==> s[i] == b
    ensures forall j :: 0 <= j < i ==> s[j] != b
  {
    if s == [] || s[0] == b then 0 else 1 + IndexOf(s[1..], b)
  }

  function StripCR(line: Bytes): Bytes {
    if line != [] && line[|line| - 1] == CR then line[..|line| - 1] else line
  }

  /** bufio's ReadLine: a line without its LF or CRLF, and the bytes after it. */
  function TakeLine(s: Bytes): (r: (Bytes, Bytes))
    requires s != []
    ensures |r.1| < |s|
  {
    var i := IndexOf(s, LF);
    if i == |s| then (s, []) else (StripCR(s[..i]), s[i + 1..])
  }

  function Trim(line: Bytes): Bytes {
    TrimRight(TrimLeft(line, BLANKS), BLANKS)
  }

  /** Continuation lines: a line starting with a blank extends the one before it. */
  function Unfold(line: Bytes, s: Bytes): (r: (Bytes, Bytes))
    ensures |r.1| <= |s|
    decreases |s|
  {
    if s == [] || s[0] !in BLANKS then (line, s)
    else
      var t := TrimLeft(s, BLANKS);
      if t == [] then (line, [])
      else
        var (more, rest) := TakeLine(t);
        Unfold(line + [SP] + Trim(more), rest)
  }

  /** Bytes ReadMIMEHeader admits in a value. */
  predicate ValueByte(b: byte) {
    b == TAB || (SP <= b && b != 127)
  }

  predicate ValueBytes(v: Bytes) {
    forall i :: 0 <= i < |v| ==> ValueByte(v[i])
  }

  function Add(h: Header, k: Bytes, v: Bytes): Header {
    h[k := Values(h, k) + [v]]
  }

  /** Names ReadMIMEHeader admits: tokens, and names with blanks, which stay as they are. */
  predicate FieldName(k: Bytes) {
    k != [] && forall i :: 0 <= i < |k| ==> IsToken(k[i]) || k[i] == SP
  }

  /** One field: the name before the first colon and the value after it. */
  function ParseField(kv: Bytes): Option<(Bytes, Bytes)> {
    var i := IndexOf(kv, COLON);
    if i == |kv| || !FieldName(kv[..i]) || !ValueBytes(kv[i + 1..]) then None
    else Some((CanonicalKey(kv[..i]), TrimLeft(kv[i + 1..], BLANKS)))
  }

  datatype Parsed =
    | Complete(header: Header, rest: Bytes) // blank line found; rest follows it
    | HitEof                                // input ended before a blank line
    | Malformed

  function ParseLines(s: Bytes, acc: Header): Parsed
    decreases |s|
  {
    if s == [] then HitEof
    else
      var (line, rest) := TakeLine(s);
      if line == [] then Complete(acc, rest)
      else if COLON !in line then Malformed
      else
        var (kv, next) := Unfold(Trim(line), rest);
        match ParseField(kv)
        case None => Malformed
        case Some((k, v)) => ParseLines(next, Add(acc, k, v))
  }

  /** ReadMIMEHeader on a block followed by the extra CRLF. */
  function ParseBlock(block: Bytes): Parsed {
    var s := block + CRLF;
    if s[0] in BLANKS then Malformed else ParseLines(s, map[])
  }

  // ---------------------------------------------------------------- reading back what was written

  /** Values that survive: no control characters besides tab and line breaks. */
  predicate Printable(v: Bytes) {
    forall i :: 0 <= i < |v| ==> ValueByte(v[i]) || v[i] == CR || v[i] == LF
  }

  lemma {:induction false} TrimmedRight(v: Bytes, cut: set<byte>)
    ensures forall i :: |TrimRight(v, cut)| <= i < |v| ==> v[i] in cut
  {
    if v != [] && v[|v| - 1] in cut {
      TrimmedRight(v[..|v| - 1], cut);
    }
  }

  lemma CleanEnds(v: Bytes)
    ensures var c := CleanValue(v); c != [] ==> c[0] !in SPACES && c[|c| - 1] !in SPACES
  {
  }

  lemma {:induction false} TrimLeftPrintable(v: Bytes)
    ensures Printable(TrimLeft(v, SPACES)) <==> Printable(v)
  {
    if v != [] && v[0] in SPACES {
      TrimLeftPrintable(v[1..]);
      assert v == [v[0]] + v[1..];
    }
  }

  lemma {:induction false} TrimRightPrintable(v: Bytes)
    ensures Printable(TrimRight(v, SPACES)) <==> Printable(v)
  {
    if v != [] && v[|v| - 1] in SPACES {
      TrimRightPrintable(v[..|v| - 1]);
      assert v == v[..|v| - 1] + [v[|v| - 1]];
    }
  }

  predicate NoBreaks(v: Bytes) {
    forall i :: 0 <= i < |v| ==> v[i] != CR && v[i] != LF
  }

  lemma TrimNoBreaks(v: Bytes)
    requires NoBreaks(v)
    ensures NoBreaks(TrimLeft(v, SPACES)) && NoBreaks(TrimRight(v, SPACES))
  {
  }

  lemma PrintableValues(v: Bytes)
    requires NoBreaks(v)
    ensures ValueBytes(v) <==> Printable(v)
  {
  }

  lemma CleanPrintable(v: Bytes)
    ensures ValueBytes(CleanValue(v)) <==> Printable(v)
    ensures NoBreaks(CleanValue(v))
  {
    var w := NewlinesToSpaces(v);
    NewlinesGone(v);
    var l := TrimLeft(w, SPACES);
    TrimNoBreaks(w);
    TrimNoBreaks(l);
    TrimLeftPrintable(w);
    TrimRightPrintable(l);
    PrintableValues(CleanValue(v));
  }

  lemma NewlinesGone(v: Bytes)
    ensures NoBreaks(NewlinesToSpaces(v))
    ensures Printable(NewlinesToSpaces(v)) <==> Printable(v)
  {
    var w := NewlinesToSpaces(v);
    assert forall i :: 0 <= i < |v| ==> w[i] == (if v[i] == CR || v[i] == LF then SP else v[i]);
  }

  /** The written line, trimmed as the reader trims it. */
  function Field(k: Bytes, c: Bytes): Bytes {
    k + [COLON] + (if c == [] then [] else [SP] + c)
  }

  lemma TakeWrittenLine(line: Bytes, tail: Bytes)
    requires NoBreaks(line)
    ensures TakeLine(line + CRLF + tail) == (line, tail)
  {
    var s := line + CRLF + tail;
    assert s[|line| + 1] == LF;
    assert IndexOf(s, LF) == |line| + 1;
    assert s[..|line| + 1] == line + [CR];
    assert s[|line| + 2..] == tail;
  }

  lemma TrimWrittenLine(k: Bytes, c: Bytes)
    requires ValidName(k)
    requires c != [] ==> c[|c| - 1] !in SPACES
    ensures Trim(k + [COLON, SP] + c) == Field(k, c)
  {
    var line := k + [COLON, SP] + c;
    assert TrimLeft(line, BLANKS) == line;
    if c == [] {
      assert line == Field(k, c) + [SP] && Field(k, c)[|k|] == COLON;
      TrimRightUnique(Field(k, c), [SP], BLANKS);
    } else {
      assert line == Field(k, c);
    }
  }

  lemma ParseWrittenField(k: Bytes, c: Bytes)
    requires ValidName(k)
    requires c != [] ==> c[0] !in SPACES
    ensures ParseField(Field(k, c)) == if ValueBytes(c) then Some((CanonicalKey(k), c)) else None
  {
    var kv := Field(k, c);
    assert kv[|k|] == COLON;
    assert IndexOf(kv, COLON) == |k|;
    assert kv[..|k|] == k;
    var v := kv[|k| + 1..];
    if c == [] {
      assert v == [];
    } else {
      assert v == [SP] + c;
      assert v[1..] == c;
      assert TrimLeft(v, BLANKS) == c;
      assert forall i :: 0 <= i < |c| ==> c[i] == v[i + 1];
    }
  }

  /** Nothing more, or a line that does not continue the one before it. */
  predicate StartsLine(s: Bytes) {
    s == [] || s[0] !in BLANKS
  }

  lemma ParseLinesStep(s: Bytes, acc: Header, line: Bytes, kv: Bytes, next: Bytes)
    requires s != [] && COLON in line
    requires TakeLine(s) == (line, next) && Trim(line) == kv
    requires StartsLine(next)
    ensures ParseLines(s, acc)
         == match ParseField(kv)
            case None => Malformed
            case Some((k, v)) => ParseLines(next, Add(acc, k, v))
  {
  }

  lemma ParseWrittenLine(k: Bytes, v: Bytes, tail: Bytes, acc: Header)
    requires ValidName(k)
    requires StartsLine(tail)
    ensures ParseLines(WriteLine(k, v) + tail, acc)
         == if Printable(v) then ParseLines(tail, Add(acc, CanonicalKey(k), CleanValue(v))) else Malformed
  {
    hide CleanValue, TakeLine, Trim, ParseField, CanonicalKey, Printable, ParseLines;
    var c := CleanValue(v);
    CleanPrintable(v);
    CleanEnds(v);
    var line := k + [COLON, SP] + c;
    assert line[|k|] == COLON;
    TakeWrittenLine(line, tail);
    TrimWrittenLine(k, c);
    ParseWrittenField(k, c);
    ParseLinesStep(line + CRLF + tail, acc, line, Field(k, c), tail);
  }

  function AddAll(h: Header, k: Bytes, vs: seq<Bytes>): Header
    decreases vs
  {
    if vs == [] then h else AddAll(Add(h, k, vs[0]), k, vs[1..])
  }

  lemma {:induction false} AddAllAt(h: Header, k: Bytes, vs: seq<Bytes>, x: Bytes)
    ensures x in AddAll(h, k, vs) <==> x in h || (x == k && vs != [])
    ensures Values(AddAll(h, k, vs), x) == if x == k then Values(h, k) + vs else Values(h, x)
    decreases vs
  {
    if vs != [] {
      AddAllAt(Add(h, k, vs[0]), k, vs[1..], x);
      assert Values(h, k) + vs == Values(h, k) + [vs[0]] + vs[1..];
    }
  }

  ghost predicate AllPrintable(vs: seq<Bytes>) {
    forall i :: 0 <= i < |vs| ==> Printable(vs[i])
  }

  lemma WrittenStart(k: Bytes, vs: seq<Bytes>, tail: Bytes)
    requires ValidName(k)
    requires StartsLine(tail)
    ensures StartsLine(WriteValues(k, vs) + tail)
  {
    hide CleanValue;
    if vs == [] {
      assert WriteValues(k, vs) + tail == tail;
    } else {
      assert WriteValues(k, vs)[0] == k[0];
    }
  }

  lemma ParseWrittenFirst(k: Bytes, v: Bytes, lines: Bytes, tail: Bytes, acc: Header)
    requires ValidName(k)
    requires StartsLine(lines + tail)
    ensures ParseLines(WriteLine(k, v) + lines + tail, acc)
         == if Printable(v) then ParseLines(lines + tail, Add(acc, CanonicalKey(k), CleanValue(v))) else Malformed
  {
    ParseWrittenLine(k, v, lines + tail, acc);
    Assoc(WriteLine(k, v), lines, tail);
  }

  lemma AllPrintableCons(vs: seq<Bytes>)
    requires vs != []
    ensures AllPrintable(vs) <==> Printable(vs[0]) && AllPrintable(vs[1..])
  {
    assert vs == [vs[0]] + vs[1..];
  }

  lemma {:induction false} ParseWrittenValues(k: Bytes, vs: seq<Bytes>, tail: Bytes, acc: Header)
    requires ValidName(k)
    requires StartsLine(tail)
    ensures ParseLines(WriteValues(k, vs) + tail, acc)
         == if AllPrintable(vs) then ParseLines(tail, AddAll(acc, CanonicalKey(k), CleanValues(vs))) else Malformed
    decreases vs
  {
    if vs == [] {
      assert WriteValues(k, vs) + tail == tail;
    } else {
      var rest := vs[1..];
      WrittenStart(k, rest, tail);
      ParseWrittenFirst(k, vs[0], WriteValues(k, rest), tail, acc);
      ParseWrittenValues(k, rest, tail, Add(acc, CanonicalKey(k), CleanValue(vs[0])));
      AddAllCons(acc, CanonicalKey(k), CleanValue(vs[0]), CleanValues(rest));
      AllPrintableCons(vs);
    }
  }

  lemma AddAllCons(h: Header, k: Bytes, v: Bytes, vs: seq<Bytes>)
    ensures AddAll(h, k, [v] + vs) == AddAll(Add(h, k, v), k, vs)
  {
    assert ([v] + vs)[1..] == vs;
  }

  /** The header a reader builds from the names of an order, values cleaned. */
  function Gather(h: Header, order: seq<Bytes>, acc: Header): Header {
    if order == [] then acc
    else
      var k := order[0];
      Gather(h, order[1..], if ValidName(k) then AddAll(acc, CanonicalKey(k), CleanValues(Values(h, k))) else acc)
  }

  ghost predicate Readable(h: Header) {
    forall k :: k in h && ValidName(k) ==> AllPrintable(h[k])
  }

  ghost predicate ReadableIn(h: Header, order: seq<Bytes>) {
    forall i :: 0 <= i < |order| && ValidName(order[i]) ==> AllPrintable(Values(h, order[i]))
  }

  lemma ReadableInCons(h: Header, order: seq<Bytes>)
    requires order != []
    ensures ReadableIn(h, order)
       <==> (ValidName(order[0]) ==> AllPrintable(Values(h, order[0]))) && ReadableIn(h, order[1..])
  {
    assert forall i :: 0 <= i < |order[1..]| ==> order[1..][i] == order[i + 1];
    assert forall i :: 1 <= i < |order| ==> order[i] == order[1..][i - 1];
  }

  /** Written lines in front of anything that starts a line of its own. */
  lemma {:induction false} ParseWrittenBlock(h: Header, order: seq<Bytes>, tail: Bytes, acc: Header)
    requires StartsLine(tail)
    ensures StartsLine(WriteBlock(h, order) + tail)
    ensures ParseLines(WriteBlock(h, order) + tail, acc)
         == if ReadableIn(h, order) then ParseLines(tail, Gather(h, order, acc)) else Malformed
    decreases order
  {
    if order == [] {
      assert WriteBlock(h, order) + tail == tail;
    } else {
      hide ParseLines, Printable;
      var k, vs := order[0], Values(h, order[0]);
      var next := WriteBlock(h, order[1..]);
      ReadableInCons(h, order);
      if ValidName(k) {
        var acc' := AddAll(acc, CanonicalKey(k), CleanValues(vs));
        ParseWrittenBlock(h, order[1..], tail, acc');
        ParseWrittenValues(k, vs, next + tail, acc);
        WrittenStart(k, vs, next + tail);
        Assoc(WriteValues(k, vs), next, tail);
      } else {
        ParseWrittenBlock(h, order[1..], tail, acc);
        assert [] + next == next;
      }
    }
  }

  lemma ParseBlankLine(acc: Header)
    ensures ParseLines(CRLF, acc) == Complete(acc, [])
  {
    TakeWrittenLine([], []);
    assert [] + CRLF + [] == CRLF;
  }

  // ---------------------------------------------------------------- headers with canonical names

  ghost predicate CanonicalNames(h: Header) {
    forall k :: k in h && ValidName(k) ==> CanonicalKey(k) == k
  }

  /** What survives the trip: valid names with at least one value, values cleaned. */
  ghost function CleanHeader(h: Header): Header {
    map k | k in h && ValidName(k) && h[k] != [] :: CleanValues(h[k])
  }

  /** Lookup in what a reader gathers, when the names are canonical and distinct. */
  lemma {:induction false} GatherAt(h: Header, order: seq<Bytes>, acc: Header, x: Bytes)
    requires CanonicalNames(h)
    requires forall i, j :: 0 <= i < j < |order| ==> order[i] != order[j]
    requires forall i :: 0 <= i < |order| ==> order[i] in h
    ensures var got := if x in order && ValidName(x) then CleanValues(Values(h, x)) else [];
            && (x in Gather(h, order, acc) <==> x in acc || got != [])
            && Values(Gather(h, order, acc), x) == Values(acc, x) + got
    decreases order
  {
    if order != [] {
      var k, rest := order[0], order[1..];
      assert order == [k] + rest;
      var vs := CleanValues(Values(h, k));
      GatherAt(h, rest, if ValidName(k) then AddAll(acc, CanonicalKey(k), vs) else acc, x);
      AddAllAt(acc, k, vs, x);
      assert x in order <==> x == k || x in rest;
    }
  }

  lemma ReadableOrder(h: Header, order: seq<Bytes>)
    requires Enumerates(order, h.Keys)
    ensures ReadableIn(h, order) <==> Readable(h)
  {
    if ReadableIn(h, order) {
      forall k | k in h && ValidName(k) ensures AllPrintable(h[k]) {
        assert k in order;
      }
    }
  }

  lemma CleanAt(h: Header, x: Bytes)
    ensures x in CleanHeader(h) <==> x in h && ValidName(x) && h[x] != []
    ensures Values(CleanHeader(h), x) == if ValidName(x) then CleanValues(Values(h, x)) else []
  {
  }

  lemma SameHeader(a: Header, b: Header)
    requires forall x :: x in a <==> x in b
    requires forall x :: Values(a, x) == Values(b, x)
    ensures a == b
  {
    assert a.Keys == b.Keys;
    forall x | x in a
      ensures a[x] == b[x]
    {
      assert Values(a, x) == Values(b, x);
    }
  }

  lemma GatherClean(h: Header, order: seq<Bytes>)
    requires CanonicalNames(h) && Enumerates(order, h.Keys)
    ensures Gather(h, order, map[]) == CleanHeader(h)
  {
    var g, c := Gather(h, order, map[]), CleanHeader(h);
    forall x
      ensures (x in g <==> x in c) && Values(g, x) == Values(c, x)
    {
      GatherAt(h, order, map[], x);
      CleanAt(h, x);
    }
    SameHeader(g, c);
  }

  /** Written with its names in any order and read back, a header with canonical
      names comes back cleaned exactly when no value carries a control character;
      otherwise the reader rejects the block. */
  lemma BlockRoundTrip(h: Header, order: seq<Bytes>)
    requires CanonicalNames(h) && Enumerates(order, h.Keys)
    ensures ParseBlock(WriteBlock(h, order))
         == if Readable(h) then Complete(CleanHeader(h), []) else Malformed
  {
    hide ParseLines;
    ParseWrittenBlock(h, order, CRLF, map[]);
    ParseBlankLine(Gather(h, order, map[]));
    ReadableOrder(h, order);
    GatherClean(h, order);
  }

  ghost predicate AllTidy(vs: seq<Bytes>) {
    forall i :: 0 <= i < |vs| ==> Tidy(vs[i])
  }

  lemma CleanValuesExactly(vs: seq<Bytes>)
    ensures CleanValues(vs) == vs <==> AllTidy(vs)
  {
    hide CleanValue, Tidy;
    forall i | 0 <= i < |vs|
      ensures CleanValues(vs)[i] == vs[i] <==> Tidy(vs[i])
    {
      CleanExactly(vs[i]);
    }
  }

  ghost predicate Unchanged(h: Header) {
    forall k :: k in h ==> ValidName(k) && h[k] != [] && AllTidy(h[k])
  }

  lemma CleanHeaderExactly(h: Header)
    ensures CleanHeader(h) == h <==> Unchanged(h)
  {
    hide ValidName, AllTidy, CleanHeader, CleanValues;
    forall k
      ensures k in CleanHeader(h) <==> k in h && ValidName(k) && h[k] != []
      ensures Values(CleanHeader(h), k) == if ValidName(k) then CleanValues(Values(h, k)) else []
      ensures k in h ==> (CleanValues(h[k]) == h[k] <==> AllTidy(h[k]))
    {
      CleanAt(h, k);
      if k in h {
        CleanValuesExactly(h[k]);
      }
    }
    if Unchanged(h) {
      assert CleanValues([]) == [] by { CleanNothing(); }
      SameHeader(CleanHeader(h), h);
    } else {
      var k :| k in h && !(ValidName(k) && h[k] != [] && AllTidy(h[k]));
      assert k !in CleanHeader(h) || Values(CleanHeader(h), k) != Values(h, k);
    }
  }

  lemma CleanNothing()
    ensures CleanValues([]) == []
  {
  }

  /** Exactly which headers come back as they were: valid names, at least one value each, no
      control characters, no line breaks, and no blanks at the ends of a value. */
  lemma BlockRoundTripExactly(h: Header, order: seq<Bytes>)
    requires CanonicalNames(h) && Enumerates(order, h.Keys)
    ensures ParseBlock(WriteBlock(h, order)) == Complete(h, []) <==> Readable(h) && Unchanged(h)
  {
    hide ParseBlock, WriteBlock, CleanHeader;
    BlockRoundTrip(h, order);
    CleanHeaderExactly(h);
  }

  // ---------------------------------------------------------------- lines written by others

  /** Any amount of blanks after the colon, none included. */
  lemma FieldRead(k: Bytes, a: Bytes, v: Bytes)
    requires FieldName(k) && AllIn(a, BLANKS) && ValueBytes(v) && (v != [] ==> v[0] !in BLANKS)
    ensures ParseField(k + [COLON] + a + v) == Some((CanonicalKey(k), v))
  {
    hide CanonicalKey, FieldName, IndexOf, TrimLeft;
    Assoc(k + [COLON], a, v);
    SplitAtColon(k, a + v);
    TrimLeftUnique(a, v, BLANKS);
    assert ValueBytes(a + v) by {
      assert forall i :: 0 <= i < |a| ==> a[i] in BLANKS;
    }
  }

  lemma SplitAtColon(k: Bytes, w: Bytes)
    requires FieldName(k)
    ensures var kv := k + [COLON] + w;
            IndexOf(kv, COLON) == |k| && kv[..|k|] == k && kv[|k| + 1..] == w
  {
    var kv := k + [COLON] + w;
    assert kv[|k|] == COLON;
    assert forall i :: 0 <= i < |k| ==> kv[i] == k[i];
  }

  lemma TakeForeignLine(line: Bytes, end: Bytes, tail: Bytes)
    requires NoBreaks(line) && (end == CRLF || end == [LF])
    ensures TakeLine(line + end + tail) == (line, tail)
  {
    var s := line + end + tail;
    if end == CRLF {
      TakeWrittenLine(line, tail);
    } else {
      assert s[|line|] == LF && IndexOf(s, LF) == |line|;
      assert s[..|line|] == line && s[|line| + 1..] == tail;
    }
  }

  lemma TrimForeignLine(k: Bytes, a: Bytes, v: Bytes, b: Bytes)
    requires ValidName(k) && AllIn(a, BLANKS) && AllIn(b, BLANKS) && EndsOutside(v, BLANKS)
    ensures Trim(k + [COLON] + a + v + b) == k + [COLON] + (if v == [] then [] else a + v)
  {
    var kept := k + [COLON] + (if v == [] then [] else a + v);
    var cut := (if v == [] then a else []) + b;
    assert k + [COLON] + a + v + b == [] + kept + cut;
    assert kept[0] == k[0] && IsToken(k[0]);
    assert kept[|kept| - 1] == if v == [] then COLON else v[|v| - 1];
    TrimUnique([], kept, cut, BLANKS);
  }

  /** A line as any sender may write it is read as its name and its value, whatever the blanks
      around the value, and whether it ends in CRLF or in LF. */
  lemma LineRead(k: Bytes, a: Bytes, v: Bytes, b: Bytes, end: Bytes, tail: Bytes, acc: Header)
    requires ValidName(k) && AllIn(a, BLANKS) && AllIn(b, BLANKS)
    requires ValueBytes(v) && EndsOutside(v, BLANKS)
    requires (end == CRLF || end == [LF]) && StartsLine(tail)
    ensures ParseLines(k + [COLON] + a + v + b + end + tail, acc)
         == ParseLines(tail, Add(acc, CanonicalKey(k), v))
  {
    hide TakeLine, Trim, ParseField, CanonicalKey, ParseLines;
    var line := k + [COLON] + a + v + b;
    assert line[|k|] == COLON;
    ForeignNoBreaks(k, a, v, b);
    TakeForeignLine(line, end, tail);
    TrimForeignLine(k, a, v, b);
    var a' := if v == [] then [] else a;
    assert k + [COLON] + (if v == [] then [] else a + v) == k + [COLON] + a' + v;
    FieldRead(k, a', v);
    ParseLinesStep(line + end + tail, acc, line, k + [COLON] + a' + v, tail);
  }

  lemma ForeignNoBreaks(k: Bytes, a: Bytes, v: Bytes, b: Bytes)
    requires ValidName(k) && AllIn(a, BLANKS) && ValueBytes(v) && AllIn(b, BLANKS)
    ensures NoBreaks(k + [COLON] + a + v + b)
  {
    assert forall i :: 0 <= i < |k| ==> IsToken(k[i]);
  }

  /** A line that starts with blanks continues the value before it, after one blank. */
  lemma FoldedRead(k: Bytes, v: Bytes, s: Bytes, x: Bytes, tail: Bytes, acc: Header)
    requires ValidName(k) && ValueBytes(v) && EndsOutside(v, BLANKS) && v != []
    requires s != [] && AllIn(s, BLANKS) && ValueBytes(x) && EndsOutside(x, BLANKS) && x != []
    requires StartsLine(tail)
    ensures ParseLines(k + [COLON] + v + CRLF + (s + (x + CRLF + tail)), acc)
         == ParseLines(tail, Add(acc, CanonicalKey(k), v + [SP] + x))
  {
    hide TakeLine, Trim, ParseField, CanonicalKey;
    var line, next := k + [COLON] + v, s + (x + CRLF + tail);
    assert line[|k|] == COLON;
    FoldedUnfolds(line, s, x, tail);
    assert NoBreaks(line) by {
      ForeignNoBreaks(k, [], v, []);
      assert k + [COLON] + [] + v + [] == line;
    }
    TakeForeignLine(line, CRLF, next);
    assert Trim(line) == line by {
      TrimForeignLine(k, [], v, []);
      assert k + [COLON] + [] + v + [] == line && [] + v == v;
    }
    var joined := v + [SP] + x;
    FieldRead(k, [], joined);
    assert k + [COLON] + [] + joined == line + [SP] + x;
  }

  lemma UnfoldEnds(line: Bytes, tail: Bytes)
    requires StartsLine(tail)
    ensures Unfold(line, tail) == (line, tail)
  {
  }

  lemma FoldedUnfolds(line: Bytes, s: Bytes, x: Bytes, tail: Bytes)
    requires s != [] && AllIn(s, BLANKS) && ValueBytes(x) && EndsOutside(x, BLANKS) && x != []
    requires StartsLine(tail)
    ensures Unfold(line, s + (x + CRLF + tail)) == (line + [SP] + x, tail)
  {
    hide TakeLine, Trim, Unfold, TrimLeft, ValueBytes, NoBreaks;
    var t := x + CRLF + tail;
    SkipBlanks(s, t);
    UnfoldNext(line, s + t, t);
    ValueIsLine(x);
    TakeForeignLine(x, CRLF, tail);
    UnfoldEnds(line + [SP] + x, tail);
  }

  lemma SkipBlanks(s: Bytes, t: Bytes)
    requires s != [] && AllIn(s, BLANKS) && t != [] && t[0] !in BLANKS
    ensures s + t != [] && (s + t)[0] in BLANKS && TrimLeft(s + t, BLANKS) == t
  {
    hide TrimLeft;
    assert (s + t)[0] == s[0];
    TrimLeftUnique(s, t, BLANKS);
  }

  lemma ValueIsLine(x: Bytes)
    requires ValueBytes(x) && EndsOutside(x, BLANKS)
    ensures NoBreaks(x) && Trim(x) == x
  {
    assert [] + x + [] == x;
    TrimUnique([], x, [], BLANKS);
  }

  // ---------------------------------------------------------------- when the reader runs out of input

  /** Empty, or ending in a line feed. */
  predicate NewlineTerminated(block: Bytes) {
    block == [] || block[|block| - 1] == LF
  }

  lemma TakeLineTerminated(p: Bytes)
    requires NewlineTerminated(p)
    ensures p == [] ==> TakeLine(p + CRLF) == ([], [])
    ensures p != [] ==> exists q :: TakeLine(p + CRLF).1 == q + CRLF && NewlineTerminated(q) && |q| < |p|
  {
    if p == [] {
      TakeWrittenLine([], []);
      assert [] + CRLF + [] == p + CRLF;
    } else {
      var s, i := p + CRLF, IndexOf(p, LF);
      assert s[i] == LF && IndexOf(s, LF) == i;
      assert s[i + 1..] == p[i + 1..] + CRLF;
    }
  }

  lemma {:induction false} TrimLeftTerminated(p: Bytes)
    requires NewlineTerminated(p) && p != []
    ensures TrimLeft(p + CRLF, BLANKS) == TrimLeft(p, BLANKS) + CRLF
    ensures TrimLeft(p, BLANKS) != [] && NewlineTerminated(TrimLeft(p, BLANKS))
  {
    var s := p + CRLF;
    assert s[0] == p[0];
    if p[0] in BLANKS {
      assert s[1..] == p[1..] + CRLF;
      assert |p| > 1 && p[1..][|p| - 2] == p[|p| - 1];
      TrimLeftTerminated(p[1..]);
      assert TrimLeft(s, BLANKS) == TrimLeft(s[1..], BLANKS);
    } else {
      assert TrimLeft(s, BLANKS) == s;
    }
  }

  lemma UnfoldNext(line: Bytes, s: Bytes, t: Bytes)
    requires s != [] && s[0] in BLANKS && t == TrimLeft(s, BLANKS) && t != []
    ensures Unfold(line, s) == Unfold(line + [SP] + Trim(TakeLine(t).0), TakeLine(t).1)
  {
    hide TakeLine, Trim;
  }

  lemma UnfoldOnce(line: Bytes, p: Bytes) returns (line': Bytes, q: Bytes)
    requires NewlineTerminated(p) && p != [] && p[0] in BLANKS
    ensures Unfold(line, p + CRLF) == Unfold(line', q + CRLF)
    ensures NewlineTerminated(q) && |q| < |p|
  {
    hide TakeLine, Trim, TrimLeft, Unfold, NewlineTerminated;
    TrimLeftTerminated(p);
    var t := TrimLeft(p, BLANKS);
    TakeLineTerminated(t);
    q :| TakeLine(t + CRLF).1 == q + CRLF && NewlineTerminated(q) && |q| < |t|;
    line' := line + [SP] + Trim(TakeLine(t + CRLF).0);
    assert (p + CRLF)[0] == p[0];
    UnfoldNext(line, p + CRLF, t + CRLF);
  }

  lemma {:induction false} UnfoldTerminated(line: Bytes, p: Bytes) returns (q: Bytes)
    requires NewlineTerminated(p)
    ensures Unfold(line, p + CRLF).1 == q + CRLF && NewlineTerminated(q) && |q| <= |p|
    decreases |p|
  {
    if p == [] || p[0] !in BLANKS {
      q := p;
      UnfoldEnds(line, p + CRLF);
    } else {
      hide Unfold, NewlineTerminated;
      var line';
      line', q := UnfoldOnce(line, p);
      q := UnfoldTerminated(line', q);
    }
  }

  lemma {:induction false} ParseTerminated(p: Bytes, acc: Header)
    requires NewlineTerminated(p)
    ensures !ParseLines(p + CRLF, acc).HitEof?
    decreases |p|
  {
    TakeLineTerminated(p);
    if p != [] {
      var (line, rest) := TakeLine(p + CRLF);
      var q :| rest == q + CRLF && NewlineTerminated(q) && |q| < |p|;
      var q' := UnfoldTerminated(Trim(line), q);
      var (kv, next) := Unfold(Trim(line), rest);
      if line != [] && COLON in line && ParseField(kv).Some? {
        var (k, v) := ParseField(kv).value;
        ParseTerminated(q', Add(acc, k, v));
      }
    }
  }

  /** Only a block that is non-empty and lacks a final line feed can run out. */
  lemma TerminatedNeverHitsEof(block: Bytes)
    requires NewlineTerminated(block)
    ensures !ParseBlock(block).HitEof?
  {
    ParseTerminated(block, map[]);
  }

  /** Empty, or ending in a line break. */
  predicate WholeLines(b: Bytes) {
    b == [] || (|b| >= 2 && b[|b| - 2] == CR && b[|b| - 1] == LF)
  }

  lemma WholeLinesAppend(a: Bytes, b: Bytes)
    requires WholeLines(a) && WholeLines(b)
    ensures WholeLines(a + b)
  {
    if b == [] {
      assert a + b == a;
    }
  }

  lemma {:induction false} ValuesAreLines(k: Bytes, vs: seq<Bytes>)
    ensures WholeLines(WriteValues(k, vs))
  {
    hide CleanValue;
    if vs != [] {
      ValuesAreLines(k, vs[1..]);
      WholeLinesAppend(WriteLine(k, vs[0]), WriteValues(k, vs[1..]));
    }
  }

  lemma {:induction false} BlockIsLines(h: Header, order: seq<Bytes>)
    ensures WholeLines(WriteBlock(h, order))
  {
    hide WriteValues, WholeLines;
    assert WholeLines([]) by { NothingIsLines(); }
    if order != [] {
      var first := if ValidName(order[0]) then WriteValues(order[0], Values(h, order[0])) else [];
      ValuesAreLines(order[0], Values(h, order[0]));
      BlockIsLines(h, order[1..]);
      WholeLinesAppend(first, WriteBlock(h, order[1..]));
    }
  }

  lemma NothingIsLines()
    ensures WholeLines([])
  {
  }

  /** A written block without its last line break. */
  function Unterminated(h: Header, order: seq<Bytes>): (p: Bytes)
    requires WriteBlock(h, order) != []
    ensures p + CRLF == WriteBlock(h, order)
  {
    EndsInBreak(h, order);
    var b := WriteBlock(h, order);
    b[..|b| - 2]
  }

  lemma EndsInBreak(h: Header, order: seq<Bytes>)
    requires WriteBlock(h, order) != []
    ensures var b := WriteBlock(h, order);
            |b| >= 2 && b[..|b| - 2] + CRLF == b
  {
    hide WriteBlock;
    BlockIsLines(h, order);
  }

  /** Every readable header gives a block on which the parser runs out of input: what is
      written for it, less the last line break. */
  lemma UnterminatedRunsOut(h: Header, order: seq<Bytes>)
    requires WriteBlock(h, order) != []
    ensures ParseBlock(Unterminated(h, order)) == if ReadableIn(h, order) then HitEof else Malformed
  {
    hide WriteBlock;
    var b := WriteBlock(h, order);
    ParseWrittenBlock(h, order, [], map[]);
    assert b + [] == b;
    assert Unterminated(h, order) + CRLF == b;
  }

  // ---------------------------------------------------------------- names of a parsed header

  ghost predicate CanonicalKeys(h: Header) {
    forall k :: k in h ==> CanonicalKey(k) == k
  }

  lemma {:induction false} ParsedCanonical(s: Bytes, acc: Header)
    requires CanonicalKeys(acc)
    ensures ParseLines(s, acc).Complete? ==> CanonicalKeys(ParseLines(s, acc).header)
    decreases |s|
  {
    hide TakeLine, Unfold, CanonicalKey;
    if s != [] {
      var (line, rest) := TakeLine(s);
      var (kv, next) := Unfold(Trim(line), rest);
      if line != [] && COLON in line && ParseField(kv).Some? {
        CanonicalIdempotent(kv[..IndexOf(kv, COLON)]);
        ParsedCanonical(next, Add(acc, ParseField(kv).value.0, ParseField(kv).value.1));
      }
    }
  }
}
