/** The incremental scanner of the gRPC-Web reader against one-shot parsing. */
module GrpcWebScan {
  import opened Framing
  import opened GrpcWebReader

  /** Consuming `a` and then `b` is consuming `a + b`, unless `a` already met a trailer. */
  lemma {:induction false} ConsumeAppend(p: Progress, a: Bytes, b: Bytes)
    requires Sound(p)
    ensures var (q, n) := Consume(p, a);
            Consume(p, a + b) == if n == |a| then (Consume(q, b).0, n + Consume(q, b).1) else (q, n)
    decreases a
  {
    if a == [] {
      assert a + b == b;
    } else if !Stops(p, a[0]) {
      ConsumeAppend(Feed(p, a[0]), a[1..], b);
      assert (a + b)[1..] == a[1..] + b;
    }
  }

  /** A scan that stops early does so at a frame boundary, in front of a trailer byte. */
  lemma {:induction false} ConsumeStop(p: Progress, s: Bytes)
    requires Sound(p)
    ensures var (q, n) := Consume(p, s);
            && Consume(p, s[..n]) == (q, n)
            && (n < |s| ==> q == BOUNDARY && Msb(s[n]))
    decreases s
  {
    var (q, n) := Consume(p, s);
    if s != [] && !Stops(p, s[0]) {
      ConsumeStop(Feed(p, s[0]), s[1..]);
      assert s[..n][1..] == s[1..][..n - 1];
      assert n < |s| ==> s[n] == s[1..][n - 1];
    }
  }

  lemma ConsumeWhole(h: Bytes, payload: Bytes, rest: Bytes)
    requires |h| == HEADER_LENGTH && !Msb(h[0]) && U32(h[1..]) == |payload|
    ensures var (q, n) := Consume(BOUNDARY, rest);
            Consume(BOUNDARY, h + (payload + rest)) == (q, n + HEADER_LENGTH + |payload|)
  {
    var m := payload + rest;
    var s := h + m;
    assert s[..5] == h && BOUNDARY.header + h == h && s[5..] == m;
    ConsumeHeader(BOUNDARY, s, 5);
    ConsumeMessage(Progress(|payload|, []), m, |payload|);
    assert m[|payload|..] == rest;
  }

  lemma ConsumeFrame(f: Frame, rest: Bytes)
    requires Fits(f) && IsData(f)
    ensures var (q, n) := Consume(BOUNDARY, rest);
            Consume(BOUNDARY, Encode(f) + rest) == (q, n + |Encode(f)|)
  {
    var h := MessageHeader(f.flags, |f.payload|);
    assert h[1..] == PutU32(|f.payload|);
    ConsumeWhole(h, f.payload, rest);
    Assoc(h, f.payload, rest);
  }

  lemma {:induction false} ConsumeFrames(fs: seq<Frame>, t: Bytes)
    requires AllData(fs)
    ensures var (q, n) := Consume(BOUNDARY, t);
            Consume(BOUNDARY, EncodeAll(fs) + t) == (q, n + |EncodeAll(fs)|)
  {
    if fs == [] {
      assert EncodeAll(fs) + t == t;
    } else {
      ConsumeFrames(fs[1..], t);
      ConsumeFrame(fs[0], EncodeAll(fs[1..]) + t);
      Assoc(Encode(fs[0]), EncodeAll(fs[1..]), t);
    }
  }

  /** One-shot parse: the length of the data-frame prefix of a whole stream. A frame
      that is cut short still counts as data; a trailer byte ends the prefix. */
  function DataPrefix(s: Bytes): (n: nat)
    ensures n <= |s|
    decreases |s|
  {
    if s == [] || Msb(s[0]) then 0
    else match Head(s)
      case None => |s|
      case Some(f) =>
        var size := HEADER_LENGTH + |f.payload|;
        size + DataPrefix(s[size..])
  }

  /** A stream that starts a data frame but does not finish it is accepted whole and
      leaves the scanner inside a frame. */
  lemma ConsumeIncomplete(s: Bytes)
    requires s != [] && !Msb(s[0]) && Head(s).None?
    ensures Consume(BOUNDARY, s).1 == |s| && Consume(BOUNDARY, s).0 != BOUNDARY
  {
    if |s| < HEADER_LENGTH {
      ConsumeHeader(BOUNDARY, s, |s|);
      assert BOUNDARY.header + s[..|s|] == s && s[|s|..] == [];
    } else {
      ConsumeHeader(BOUNDARY, s, 5);
      var h, m := s[..5], s[5..];
      assert BOUNDARY.header + h == h && h[1..] == s[1..5];
      ConsumeMessage(Progress(U32(s[1..5]), []), m, |m|);
      assert m[|m|..] == [];
    }
  }

  lemma {:induction false} ScanIsOneShot(s: Bytes)
    ensures Consume(BOUNDARY, s).1 == DataPrefix(s)
    decreases |s|
  {
    if s != [] && !Msb(s[0]) {
      if Head(s).None? {
        ConsumeIncomplete(s);
      } else {
        var f := Head(s).value;
        var rest := s[HEADER_LENGTH + |f.payload|..];
        HeadSound(s);
        ConsumeFrame(f, rest);
        ScanIsOneShot(rest);
      }
    }
  }

  /** What a scan accepts and ends at a boundary is a sequence of whole data frames. */
  lemma {:induction false} AcceptedFrames(s: Bytes) returns (fs: seq<Frame>)
    requires Consume(BOUNDARY, s) == (BOUNDARY, |s|)
    ensures AllData(fs) && s == EncodeAll(fs)
    decreases |s|
  {
    if s == [] {
      fs := [];
    } else {
      if Head(s).None? {
        ConsumeIncomplete(s);
      }
      var f := Head(s).value;
      var rest := s[HEADER_LENGTH + |f.payload|..];
      HeadSound(s);
      HeadOfEncode(f, rest);
      ConsumeFrame(f, rest);
      var gs := AcceptedFrames(rest);
      fs := [f] + gs;
      EncodeAllCons(f, gs);
    }
  }

  /** Successive consume calls over a stream cut into buffers, up to the first one
      that is not accepted whole. */
  function ConsumeChunks(p: Progress, chunks: seq<Bytes>): (Progress, nat)
    requires Sound(p)
    decreases chunks
  {
    if chunks == [] then (p, 0)
    else
      var (q, n) := Consume(p, chunks[0]);
      if n < |chunks[0]| then (q, n)
      else
        var (r, m) := ConsumeChunks(q, chunks[1..]);
        (r, n + m)
  }

  lemma {:induction false} ConsumeChunksJoin(p: Progress, chunks: seq<Bytes>)
    requires Sound(p)
    ensures ConsumeChunks(p, chunks) == Consume(p, Concat(chunks))
    decreases chunks
  {
    if chunks != [] {
      ConsumeAppend(p, chunks[0], Concat(chunks[1..]));
      ConsumeChunksJoin(Consume(p, chunks[0]).0, chunks[1..]);
    }
  }

  /** However a stream is cut into buffers, what the scanner accepts in all is the
      data-frame prefix that a one-shot parse finds. */
  lemma IncrementalScan(chunks: seq<Bytes>)
    ensures ConsumeChunks(BOUNDARY, chunks).1 == DataPrefix(Concat(chunks))
    ensures DataPrefix(Concat(chunks)) < |Concat(chunks)| ==> ConsumeChunks(BOUNDARY, chunks).0 == BOUNDARY
  {
    ConsumeChunksJoin(BOUNDARY, chunks);
    ScanIsOneShot(Concat(chunks));
    ConsumeStop(BOUNDARY, Concat(chunks));
  }
}
