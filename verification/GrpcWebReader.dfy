/** The gRPC-Web response reader: an incremental parser that passes data frames
    through, stops at the first trailer frame and parses that one into trailers. */
module GrpcWebReader {
  import opened Framing
  import opened HeaderBlock

  datatype Error =
    | Eof | UnexpectedEof | ExtraData(count: nat) | NoDecompressor
    | BadTrailers | IncompleteRead | ShortTrailers | Broken

  // ---------------------------------------------------------------- scanning data frames

  /** Bytes left in the current message, and the part of a header seen so far. */
  datatype Progress = Progress(remaining: nat, header: Bytes)

  const BOUNDARY: Progress := Progress(0, [])

  predicate Sound(p: Progress) {
    |p.header| < HEADER_LENGTH && (p.remaining > 0 ==> p.header == [])
  }

  /** The next byte would start a trailer frame. */
  predicate Stops(p: Progress, b: byte) {
    p == BOUNDARY && Msb(b)
  }

  function Feed(p: Progress, b: byte): (r: Progress)
    requires Sound(p)
    ensures Sound(r)
  {
    if p.remaining > 0 then Progress(p.remaining - 1, [])
    else if |p.header| + 1 < HEADER_LENGTH then Progress(0, p.header + [b])
    else Progress(U32(p.header[1..] + [b]), [])
  }

  /** Byte-at-a-time meaning of consume: the state reached and how many bytes were accepted. */
  function Consume(p: Progress, buf: Bytes): (r: (Progress, nat))
    requires Sound(p)
    ensures Sound(r.0) && r.1 <= |buf|
    decreases buf
  {
    if buf == [] || Stops(p, buf[0]) then (p, 0)
    else
      var (q, n) := Consume(Feed(p, buf[0]), buf[1..]);
      (q, n + 1)
  }

  /** Skipping message bytes in one go is what feeding them one by one does. */
  lemma {:induction false} ConsumeMessage(p: Progress, buf: Bytes, k: nat)
    requires Sound(p) && k <= p.remaining && k <= |buf|
    ensures Consume(p, buf) == Shift(Consume(Progress(p.remaining - k, p.header), buf[k..]), k)
    decreases k
  {
    if k == 0 {
      assert buf[0..] == buf;
    } else {
      ConsumeMessage(Feed(p, buf[0]), buf[1..], k - 1);
      assert buf[1..][k - 1..] == buf[k..];
    }
  }

  lemma ConsumeNothing(p: Progress, buf: Bytes)
    requires Sound(p)
    ensures buf == [] || Stops(p, buf[0]) ==> Consume(p, buf) == (p, 0)
  {
  }

  function Shift(r: (Progress, nat), k: nat): (Progress, nat) {
    (r.0, r.1 + k)
  }

  function WithHeader(h: Bytes): Progress
    requires |h| <= HEADER_LENGTH
  {
    if |h| == HEADER_LENGTH then Progress(U32(h[1..]), []) else Progress(0, h)
  }

  lemma FeedHeader(p: Progress, b: byte)
    requires Sound(p) && p.remaining == 0
    ensures Feed(p, b) == WithHeader(p.header + [b])
  {
    var h := p.header + [b];
    if |h| == HEADER_LENGTH {
      assert p.header[1..] + [b] == h[1..];
    }
  }

  /** Appending header bytes in one go is what feeding them one by one does. */
  lemma {:induction false} ConsumeHeader(p: Progress, buf: Bytes, k: nat)
    requires Sound(p) && p.remaining == 0 && k <= |buf| && |p.header| + k <= HEADER_LENGTH
    requires buf != [] ==> !Stops(p, buf[0])
    ensures Consume(p, buf) == Shift(Consume(WithHeader(p.header + buf[..k]), buf[k..]), k)
    decreases k
  {
    if k == 0 {
      assert buf[0..] == buf && p.header + buf[..0] == p.header;
    } else {
      hide Feed, U32;
      var h := p.header + [buf[0]];
      FeedHeader(p, buf[0]);
      assert p.header + buf[..k] == h + buf[1..][..k - 1];
      assert buf[1..][k - 1..] == buf[k..];
      if |h| < HEADER_LENGTH {
        ConsumeHeader(Progress(0, h), buf[1..], k - 1);
      } else {
        assert k == 1 && h + buf[1..][..0] == h;
      }
    }
  }

  // ---------------------------------------------------------------- the underlying reader

  /** How the underlying reader answers one call: how many bytes it is willing to
      return, and whether it reports the end together with the last of them. */
  datatype Choice = Choice(count: nat, reportEnd: bool)

  /** What is still to come from the underlying reader, and how it ends. */
  datatype Source = Source(rest: Bytes, broken: bool)

  function EndError(src: Source): Error {
    if src.broken then Broken else Eof
  }

  function PullCount(src: Source, max: nat, c: Choice): nat {
    Min(c.count, Min(max, |src.rest|))
  }

  function PullEnd(src: Source, max: nat, c: Choice): Option<Error> {
    if c.reportEnd && PullCount(src, max, c) == |src.rest| then Some(EndError(src)) else None
  }

  // ---------------------------------------------------------------- trailers

  function Populate(base: Header, h: Header): Header {
    map x | x in base.Keys + h.Keys :: Values(base, x) + Values(h, x)
  }

  lemma PopulateNothing(base: Header)
    ensures Populate(base, map[]) == base
  {
    assert forall x :: x in base ==> Values(base, x) + Values(map[], x) == base[x];
  }

  lemma PopulateOneMore(base: Header, h: Header, k: Bytes, vs: seq<Bytes>)
    requires k !in h
    ensures Populate(base, h[k := vs])
         == Populate(base, h)[k := Values(Populate(base, h), k) + vs]
  {
    hide Populate;
    var a, b := Populate(base, h), Populate(base, h[k := vs]);
    var c := a[k := Values(a, k) + vs];
    forall x
      ensures x in b <==> x in c
      ensures Values(b, x) == Values(c, x)
    {
      PopulateAt(base, h, x);
      PopulateAt(base, h[k := vs], x);
    }
    SameHeader(b, c);
  }

  lemma PopulateAt(base: Header, h: Header, x: Bytes)
    ensures x in Populate(base, h) <==> x in base || x in h
    ensures Values(Populate(base, h), x) == Values(base, x) + Values(h, x)
    ensures x !in h ==> Values(Populate(base, h), x) == Values(base, x)
  {
  }

  /** What is left of `rest` once `n` bytes of `partial + rest` are read. */
  function After(partial: Bytes, rest: Bytes, n: nat): Bytes
    requires n <= |partial| + |rest|
  {
    if n <= |partial| then rest else rest[n - |partial|..]
  }

  datatype Attempt = Attempt(rest: Bytes, got: Option<Header>, err: Option<Error>)

  /** The trailers in a block, if it is complete and parses to its end. */
  function BlockHeader(block: Bytes, length: nat): Option<Header> {
    match ParseBlock(block)
    case Complete(h, after) => if after == [] && |block| == length then Some(h) else None
    case _ => None
  }

  function BlockError(block: Bytes, length: nat, extra: int): Option<Error> {
    match ParseBlock(block)
    case HitEof => Some(Eof)
    case Malformed => Some(BadTrailers)
    case Complete(h, after) =>
      if after != [] then Some(IncompleteRead)
      else if |block| != length then Some(ShortTrailers)
      else if extra > 0 then Some(ExtraData(extra))
      else None
  }

  /** readFullTrailers: reads one trailer frame from the stashed bytes and then the
      underlying reader. The stash is not updated, whatever was read. */
  function TryTrailers(partial: Bytes, src: Source): Attempt {
    var t := partial + src.rest;
    if |t| < HEADER_LENGTH then
      Attempt([], None, Some(if src.broken then Broken else UnexpectedEof))
    else
      var length := U32(t[1..5]);
      var end := Min(|t|, HEADER_LENGTH + length);
      var left := After(partial, src.rest, end);
      if t[0] % 2 == 1 then
        Attempt(After(partial, src.rest, HEADER_LENGTH), None, Some(NoDecompressor))
      else if src.broken && end < HEADER_LENGTH + length then
        Attempt([], None, Some(Broken))
      else
        var block := t[HEADER_LENGTH..end];
        var extra := |partial| - HEADER_LENGTH - length;
        Attempt(left, BlockHeader(block, length), BlockError(block, length, extra))
  }

  // ---------------------------------------------------------------- Read

  datatype State = State(
    src: Source,
    progress: Progress,
    partial: Bytes,
    hasReadData: bool,
    hasReadTrailers: bool,
    trailers: Header,
    err: Option<Error>)

  function Start(stream: Bytes, broken: bool, trailers: Header): State {
    State(Source(stream, broken), BOUNDARY, [], false, false, trailers, None)
  }

  datatype Step = Step(state: State, data: Bytes, err: Option<Error>)

  /** The state after an attempt at the trailer frame. */
  function AfterAttempt(s: State): State {
    var a := TryTrailers(s.partial, s.src);
    var t := if a.got.Some? then Populate(s.trailers, a.got.value) else s.trailers;
    var s' := s.(src := s.src.(rest := a.rest), trailers := t);
    if a.err.Some? then s' else s'.(hasReadTrailers := true, partial := [])
  }

  /** doRead from a state with no stashed trailer bytes, up to its repetition. */
  function Pass(s: State, max: nat, c: Choice): Step
    requires Sound(s.progress)
  {
    var n := PullCount(s.src, max, c);
    var chunk := s.src.rest[..n];
    var s' := s.(src := s.src.(rest := s.src.rest[n..]), hasReadData := s.hasReadData || n > 0);
    var end := PullEnd(s.src, max, c);
    if s.hasReadTrailers then Step(s', chunk, end)
    else
      var (p, accepted) := Consume(s.progress, chunk);
      Step(s'.(progress := p, partial := s.partial + chunk[accepted..]), chunk[..accepted], end)
  }

  /** doRead. It repeats itself at most once: with stashed bytes it either fails or
      has read the trailers, and then passes the underlying result through. */
  function DoRead(s: State, max: nat, c: Choice, again: Choice): Step
    requires Sound(s.progress)
    decreases s.partial == []
  {
    if s.partial != [] && TryTrailers(s.partial, s.src).err.Some? then
      Step(AfterAttempt(s), [], TryTrailers(s.partial, s.src).err)
    else
      var s1 := if s.partial != [] then AfterAttempt(s) else s;
      var step := Pass(s1, max, c);
      if step.data == [] && step.state.partial != [] then
        DoRead(step.state, PullCount(s1.src, max, c), again, again)
      else step
  }

  function AdjustResult(step: Step): Step {
    var Step(s, data, err) := step;
    if s.hasReadTrailers then
      Step(s, [], if data != [] && (err == None || err == Some(Eof)) then Some(ExtraData(|data|)) else err)
    else if s.hasReadData && err == Some(Eof) then
      Step(s, data, if s.partial != [] then None else Some(UnexpectedEof))
    else step
  }

  /** Errors are sticky. */
  function Settle(step: Step): Step {
    if step.err.Some? then step.(state := step.state.(err := step.err)) else step
  }

  function Read(s: State, max: nat, c: Choice, again: Choice): (r: Step)
    requires Sound(s.progress)
  {
    if s.err.Some? then Step(s, [], s.err)
    else Settle(AdjustResult(DoRead(s, max, c, again)))
  }

  // ---------------------------------------------------------------- the reader object

  class ResponseReader {
    var src: Source
    var err: Option<Error>
    var currMessageRemaining: nat
    var currPartialMsgHeader: Bytes
    var partialTrailerData: Bytes
    var hasReadData: bool
    var hasReadTrailers: bool
    var trailers: Header

    ghost predicate Valid()
      reads this
    {
      Sound(Scan())
    }

    ghost function Scan(): Progress
      reads this
    {
      Progress(currMessageRemaining, currPartialMsgHeader)
    }

    /** The abstract state that the specification functions work on. */
    ghost function Model(): State
      reads this
    {
      State(src, Scan(), partialTrailerData, hasReadData, hasReadTrailers, trailers, err)
    }

    constructor (stream: Bytes, broken: bool, trailers: Header)
      ensures Valid() && Model() == Start(stream, broken, trailers)
    {
      src := Source(stream, broken);
      err := None;
      currMessageRemaining := 0;
      currPartialMsgHeader, partialTrailerData := [], [];
      hasReadData, hasReadTrailers := false, false;
      this.trailers := trailers;
    }

    /** The part of consume that skips the rest of the current message. */
    method SkipMessage(buf: Bytes) returns (k: nat)
      requires Valid()
      modifies this`currMessageRemaining
      ensures Valid() && k <= |buf| && (k < |buf| ==> currMessageRemaining == 0)
      ensures Consume(old(Scan()), buf) == Shift(Consume(Scan(), buf[k..]), k)
    {
      k := Min(currMessageRemaining, |buf|);
      ConsumeMessage(Scan(), buf, k);
      currMessageRemaining := currMessageRemaining - k;
    }

    /** The part of consume that reads as much of a header as there is. */
    method TakeHeader(buf: Bytes) returns (k: nat)
      requires Valid() && currMessageRemaining == 0 && buf != [] && !Stops(Scan(), buf[0])
      modifies this`currMessageRemaining, this`currPartialMsgHeader
      ensures Valid() && 0 < k <= |buf|
      ensures Consume(old(Scan()), buf) == Shift(Consume(Scan(), buf[k..]), k)
    {
      k := Min(HEADER_LENGTH - |currPartialMsgHeader|, |buf|);
      ConsumeHeader(Scan(), buf, k);
      currPartialMsgHeader := currPartialMsgHeader + buf[..k];
      if |currPartialMsgHeader| == HEADER_LENGTH {
        currMessageRemaining := U32(currPartialMsgHeader[1..]);
        currPartialMsgHeader := [];
      }
    }

    /** consume: whole messages and headers at a time. */
    method ConsumeBuffer(buf: Bytes) returns (n: nat)
      requires Valid()
      modifies this`currMessageRemaining, this`currPartialMsgHeader
      ensures Valid() && (Scan(), n) == Consume(old(Scan()), buf)
    {
      hide Consume;
      var rest := buf;
      n := 0;
      while rest != []
        invariant Valid() && Consume(old(Scan()), buf) == Shift(Consume(Scan(), rest), n)
        decreases |rest|
      {
        var k := SkipMessage(rest);
        n, rest := n + k, rest[k..];
        ConsumeNothing(Scan(), rest);
        if rest == [] {
          break;
        }
        if currPartialMsgHeader == [] && Msb(rest[0]) {
          break;
        }
        k := TakeHeader(rest);
        n, rest := n + k, rest[k..];
      }
      ConsumeNothing(Scan(), rest);
    }

    /** populateTrailers: visits the parsed names in whatever order the map yields them. */
    method PopulateTrailers(h: Header)
      requires CanonicalKeys(h)
      modifies this`trailers
      ensures trailers == Populate(old(trailers), h)
    {
      hide Populate;
      var pending := h.Keys;
      PopulateNothing(trailers);
      assert h - pending == map[];
      while pending != {}
        invariant pending <= h.Keys
        invariant trailers == Populate(old(trailers), h - pending)
        decreases |pending|
      {
        var k :| k in pending;
        var name := CanonicalKey(k);
        PopulateOneMore(old(trailers), h - pending, k, h[k]);
        assert (h - pending)[k := h[k]] == h - (pending - {k});
        trailers := trailers[name := Values(trailers, name) + h[k]];
        pending := pending - {k};
      }
      assert h - pending == h;
    }

    /** readFullTrailers */
    method ReadFullTrailers() returns (e: Option<Error>)
      requires Valid() && partialTrailerData != []
      modifies this`src, this`trailers
      ensures var a := TryTrailers(old(partialTrailerData), old(src));
              && e == a.err
              && src == old(src).(rest := a.rest)
              && trailers == (if a.got.Some? then Populate(old(trailers), a.got.value) else old(trailers))
    {
      hide BlockHeader, BlockError;
      var t := partialTrailerData + src.rest;
      ghost var a := TryTrailers(partialTrailerData, src);
      if |t| < HEADER_LENGTH {
        src := src.(rest := []);
        return Some(if src.broken then Broken else UnexpectedEof);
      }
      var frameLen := U32(t[1..5]);
      if t[0] % 2 == 1 {
        src := src.(rest := After(partialTrailerData, src.rest, HEADER_LENGTH));
        return Some(NoDecompressor);
      }
      var end := Min(|t|, HEADER_LENGTH + frameLen);
      if src.broken && end < HEADER_LENGTH + frameLen {
        src := src.(rest := []);
        return Some(Broken);
      }
      var block, extraBytes := t[HEADER_LENGTH..end], |partialTrailerData| - HEADER_LENGTH - frameLen;
      var left := After(partialTrailerData, src.rest, end);
      assert a == Attempt(left, BlockHeader(block, frameLen), BlockError(block, frameLen, extraBytes));
      src := src.(rest := left);
      e := TakeBlock(block, frameLen, extraBytes);
    }

    /** The part of readFullTrailers that parses the block and checks nothing is left over. */
    method TakeBlock(block: Bytes, frameLen: nat, extraBytes: int) returns (e: Option<Error>)
      modifies this`trailers
      ensures e == BlockError(block, frameLen, extraBytes)
      ensures var got := BlockHeader(block, frameLen);
              trailers == if got.Some? then Populate(old(trailers), got.value) else old(trailers)
    {
      match ParseBlock(block) {
        case HitEof => return Some(Eof);
        case Malformed => return Some(BadTrailers);
        case Complete(h, after) =>
          if after != [] {
            return Some(IncompleteRead);
          }
          if |block| != frameLen {
            return Some(ShortTrailers);
          }
          ParsedCanonical(block + CRLF, map[]);
          PopulateTrailers(h);
          return if extraBytes > 0 then Some(ExtraData(extraBytes)) else None;
      }
    }

    /** doRead, including its single repetition. */
    method DoReadBuffer(max: nat, c: Choice, again: Choice) returns (data: Bytes, e: Option<Error>)
      requires Valid()
      modifies this
      ensures Valid() && Step(Model(), data, e) == DoRead(old(Model()), max, c, again)
      decreases partialTrailerData == []
    {
      hide TryTrailers, Consume;
      if partialTrailerData != [] {
        var failed := ReadFullTrailers();
        if failed.Some? {
          return [], failed;
        }
        hasReadTrailers := true;
        partialTrailerData := [];
      }
      var n := PullCount(src, max, c);
      var buf := src.rest[..n];
      var end := PullEnd(src, max, c);
      src := src.(rest := src.rest[n..]);
      if n > 0 {
        hasReadData := true;
      }
      if hasReadTrailers {
        return buf, end;
      }
      var nPayload := ConsumeBuffer(buf);
      if n - nPayload > 0 {
        partialTrailerData := partialTrailerData + buf[nPayload..];
      }
      if nPayload == 0 && partialTrailerData != [] {
        data, e := DoReadBuffer(n, again, again);
        return;
      }
      return buf[..nPayload], end;
    }

    /** Read, with adjustResult and the sticky error. */
    method ReadBuffer(max: nat, c: Choice, again: Choice) returns (data: Bytes, e: Option<Error>)
      requires Valid()
      modifies this
      ensures Valid() && Step(Model(), data, e) == Read(old(Model()), max, c, again)
    {
      if err.Some? {
        return [], err;
      }
      data, e := DoReadBuffer(max, c, again);
      if hasReadTrailers {
        if data != [] && (e == None || e == Some(Eof)) {
          e := Some(ExtraData(|data|));
        }
        data := [];
      } else if hasReadData && e == Some(Eof) {
        e := if partialTrailerData != [] then None else Some(UnexpectedEof);
      }
      if e.Some? {
        err := e;
      }
    }
  }
}
