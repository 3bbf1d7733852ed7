/** The client side of gRPC over WebSocket: messages from the server become a response
    header, a body and prefixed trailers. */
module WebSocketProxy {
  import opened Framing
  import opened HeaderBlock
  import opened TrailerCollection

  const NORMAL_CLOSURE: int := 1000
  const GOING_AWAY: int := 1001

  /** One answer of the connection. */
  datatype ConnRead = Msg(binary: bool, data: Bytes) | CloseFrame(status: int) | PlainEof | OtherError

  datatype Failure =
    | ReadError | NotBinary | BadFrame(why: FrameError) | NotMetadata | BadBlock
    | CompressedTrailers | MessageAfterTrailers

  // ---------------------------------------------------------------- setHeader

  /** All parsed fields added to a header, their names behind the given prefix. */
  function AddFields(h: Header, g: Header, prefix: Bytes): Header {
    map x | x in h.Keys + (set k | k in g :: prefix + k) :: Values(h, x) + Field(g, prefix, x)
  }

  function Field(g: Header, prefix: Bytes, x: Bytes): seq<Bytes> {
    if prefix <= x then Values(g, x[|prefix|..]) else []
  }

  function SetHeader(h: Header, block: Bytes, isTrailers: bool): Option<Header> {
    match ParseBlock(block)
    case Complete(g, _) => Some(AddFields(h, g, if isTrailers then PREFIX else []))
    case _ => None
  }

  /** Header.Add under a prefixed name keeps the name: the colon makes it no token. */
  lemma PrefixedNameKept(k: Bytes)
    ensures CanonicalKey(PREFIX + k) == PREFIX + k
  {
    PrefixedIsNoName(PREFIX + k);
  }

  ghost predicate NonEmptyFields(g: Header) {
    forall k :: k in g ==> g[k] != []
  }

  lemma {:induction false} ParsedNonEmpty(s: Bytes, acc: Header)
    requires NonEmptyFields(acc)
    ensures ParseLines(s, acc).Complete? ==> NonEmptyFields(ParseLines(s, acc).header)
    decreases |s|
  {
    hide TakeLine, Unfold, ParseField;
    if s != [] {
      var (line, rest) := TakeLine(s);
      var (kv, next) := Unfold(Trim(line), rest);
      if line != [] && COLON in line && ParseField(kv).Some? {
        ParsedNonEmpty(next, Add(acc, ParseField(kv).value.0, ParseField(kv).value.1));
      }
    }
  }

  /** setHeader */
  method SetHeaderFields(header: Header, block: Bytes, isTrailers: bool) returns (result: Option<Header>)
    ensures result == SetHeader(header, block, isTrailers)
  {
    var parsed := ParseBlock(block);
    if !parsed.Complete? {
      return None;
    }
    var g := parsed.header;
    ParsedCanonical(block + CRLF, map[]);
    ParsedNonEmpty(block + CRLF, map[]);
    var prefix := if isTrailers then PREFIX else [];
    forall k | k in g
      ensures CanonicalKey(prefix + k) == prefix + k
    {
      PrefixedNameKept(k);
      assert [] + k == k;
    }
    var h := AddParsed(header, g, prefix);
    return Some(h);
  }

  /** The outer loop of setHeader; the names come in whatever order the map yields them. */
  method AddParsed(header: Header, g: Header, prefix: Bytes) returns (h: Header)
    requires NonEmptyFields(g)
    requires forall k :: k in g ==> CanonicalKey(prefix + k) == prefix + k
    ensures h == AddFields(header, g, prefix)
  {
    hide AddFields, CanonicalKey;
    h := header;
    var pending := g.Keys;
    AddNoFields(header, prefix);
    assert g - pending == map[];
    while pending != {}
      invariant pending <= g.Keys
      invariant h == AddFields(header, g - pending, prefix)
      decreases |pending|
    {
      var k :| k in pending;
      var name := CanonicalKey(prefix + k);
      AddFieldsOneMore(header, g - pending, prefix, k, g[k]);
      OneFewer(g, pending, k);
      h := AddEach(h, name, g[k]);
      pending := pending - {k};
    }
    assert g - pending == g;
  }

  lemma OneFewer(g: Header, pending: set<Bytes>, k: Bytes)
    requires k in pending && pending <= g.Keys
    ensures k !in g - pending
    ensures (g - pending)[k := g[k]] == g - (pending - {k})
  {
  }

  lemma AddNoFields(h: Header, prefix: Bytes)
    ensures AddFields(h, map[], prefix) == h
  {
    forall x
      ensures x in AddFields(h, map[], prefix) <==> x in h
      ensures Values(AddFields(h, map[], prefix), x) == Values(h, x)
    {
    }
    SameHeader(AddFields(h, map[], prefix), h);
  }

  lemma AddFieldsAt(h: Header, g: Header, prefix: Bytes, x: Bytes)
    ensures x in AddFields(h, g, prefix) <==> x in h || (prefix <= x && x[|prefix|..] in g)
    ensures Values(AddFields(h, g, prefix), x)
         == if x in h || (prefix <= x && x[|prefix|..] in g) then Values(h, x) + Field(g, prefix, x) else []
  {
    if prefix <= x {
      assert x == prefix + x[|prefix|..];
    }
    forall k | k in g
      ensures (prefix + k)[|prefix|..] == k
    {
    }
  }

  lemma AddFieldsOneMore(h: Header, g: Header, prefix: Bytes, k: Bytes, vs: seq<Bytes>)
    requires k !in g
    ensures var a := AddFields(h, g, prefix);
            AddFields(h, g[k := vs], prefix) == a[prefix + k := Values(a, prefix + k) + vs]
  {
    hide AddFields;
    var a, b := AddFields(h, g, prefix), AddFields(h, g[k := vs], prefix);
    var name := prefix + k;
    assert name[|prefix|..] == k;
    forall x
      ensures x in b <==> x in a[name := Values(a, name) + vs]
      ensures Values(b, x) == Values(a[name := Values(a, name) + vs], x)
    {
      AddFieldsAt(h, g, prefix, x);
      AddFieldsAt(h, g[k := vs], prefix, x);
      if prefix <= x {
        assert x == prefix + x[|prefix|..];
      }
    }
    SameHeader(b, a[name := Values(a, name) + vs]);
  }

  /** setHeader succeeds exactly when the block has an end of header; then header values are
      added behind those of the same name, and trailer values behind those of the prefixed
      name, and nothing else changes. */
  lemma SetHeaderExactly(h: Header, block: Bytes, k: Bytes)
    ensures SetHeader(h, block, false).Some? <==> ParseBlock(block).Complete?
    ensures SetHeader(h, block, true).Some? <==> ParseBlock(block).Complete?
    ensures ParseBlock(block).Complete? ==>
              var g := ParseBlock(block).header;
              && Values(SetHeader(h, block, false).value, k) == Values(h, k) + Values(g, k)
              && Values(SetHeader(h, block, true).value, PREFIX + k) == Values(h, PREFIX + k) + Values(g, k)
              && (!Prefixed(k) ==> Values(SetHeader(h, block, true).value, k) == Values(h, k))
  {
    hide ParseBlock, AddFields;
    if ParseBlock(block).Complete? {
      var g := ParseBlock(block).header;
      AddFieldsAt(h, g, [], k);
      AddFieldsAt(h, g, PREFIX, PREFIX + k);
      AddFieldsAt(h, g, PREFIX, k);
      assert k[0..] == k && (PREFIX + k)[|PREFIX|..] == k;
      assert Values(h, k) + [] == Values(h, k);
    }
  }

  /** The inner loop of setHeader, one Add per value. */
  method AddEach(h: Header, name: Bytes, vs: seq<Bytes>) returns (r: Header)
    requires vs != []
    ensures r == h[name := Values(h, name) + vs]
  {
    r := h;
    for i := 0 to |vs|
      invariant r == if i == 0 then h else h[name := Values(h, name) + vs[..i]]
    {
      assert Values(h, name) + vs[..i] + [vs[i]] == Values(h, name) + vs[..i + 1];
      ghost var wanted := Values(h, name) + vs[..i + 1];
      r := Add(r, name, vs[i]);
      assert r[name] == wanted;
      assert r == h[name := wanted];
    }
    assert vs[..|vs|] == vs;
  }
}
