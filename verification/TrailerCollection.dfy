/** How the response writers gather trailers: announced names are copied, and every
    header entry whose key starts with `Trailer:` is moved under its plain name. The
    move happens while the header map is being ranged over, in any order. */
module TrailerCollection {
  import opened Framing
  import opened HeaderBlock

  /** http.TrailerPrefix, "Trailer:" */
  const PREFIX: Bytes := [84, 114, 97, 105, 108, 101, 114, 58]

  predicate Prefixed(k: Bytes) {
    PREFIX <= k
  }

  /** The name under which the values of a key end up. */
  function Target(k: Bytes): Bytes {
    if Prefixed(k) then CanonicalKey(k[|PREFIX|..]) else k
  }

  predicate DoublyPrefixed(k: Bytes) {
    Prefixed(k) && Prefixed(k[|PREFIX|..])
  }

  lemma PrefixedIsNoName(x: Bytes)
    ensures Prefixed(x) ==> !ValidName(x)
  {
    if Prefixed(x) {
      assert x[7] == COLON && !IsToken(x[7]);
    }
  }

  lemma TargetFacts(k: Bytes)
    ensures Prefixed(k) ==> |Target(k)| < |k|
    ensures Prefixed(Target(k)) <==> DoublyPrefixed(k)
  {
    if Prefixed(k) {
      PrefixedIsNoName(k[|PREFIX|..]);
      PrefixedIsNoName(Target(k));
    }
  }

  function Append(h: Header, k: Bytes, vs: seq<Bytes>): Header {
    h[k := Values(h, k) + vs]
  }

  // ---------------------------------------------------------------- ranging over a map that changes

  /** A range loop under way. Entries there from the start and not yet produced must
      still be produced; entries created on the way may be produced or skipped. */
  datatype Walk = Walk(hdr: Header, trailers: Header, aliased: bool, pending: set<Bytes>, created: set<Bytes>)

  function Begin(hdr: Header, trailers: Header, aliased: bool): Walk {
    Walk(hdr, trailers, aliased, hdr.Keys, {})
  }

  /** The loop body for one produced key. In a trailers-only response the map that
      receives the values is the one being ranged over. */
  function Visit(w: Walk, k: Bytes): Walk
    requires k in w.hdr
  {
    var pending, created := w.pending - {k}, w.created - {k};
    if !Prefixed(k) then w.(pending := pending, created := created)
    else
      var name := Target(k);
      if w.aliased then
        w.(hdr := Append(w.hdr, name, w.hdr[k]) - {k}, pending := pending,
           created := if name in w.hdr then created else created + {name})
      else
        w.(hdr := w.hdr - {k}, trailers := Append(w.trailers, name, w.hdr[k]), pending := pending, created := created)
  }

  /** Whether a sequence of produced keys is one the language allows. */
  ghost predicate Legal(w: Walk, visits: seq<Bytes>)
    decreases visits
  {
    if visits == [] then w.pending == {}
    else
      && visits[0] in w.pending + w.created
      && visits[0] in w.hdr
      && Legal(Visit(w, visits[0]), visits[1..])
  }

  function Finish(w: Walk, visits: seq<Bytes>): Walk
    requires Legal(w, visits)
    decreases visits
  {
    if visits == [] then w else Finish(Visit(w, visits[0]), visits[1..])
  }

  // ---------------------------------------------------------------- what is conserved

  /** All values held under keys of `keys` that belong to the given name. */
  ghost function Load(h: Header, keys: set<Bytes>, name: Bytes): multiset<Bytes>
    decreases |keys|
  {
    if keys == {} then multiset{}
    else
      var k :| k in keys;
      Share(h, k, name) + Load(h, keys - {k}, name)
  }

  ghost function Share(h: Header, k: Bytes, name: Bytes): multiset<Bytes> {
    if Target(k) == name then multiset(Values(h, k)) else multiset{}
  }

  /** The order in which a load is summed does not matter. */
  lemma {:induction false} LoadPick(h: Header, keys: set<Bytes>, name: Bytes, k: Bytes)
    requires k in keys
    ensures Load(h, keys, name) == Share(h, k, name) + Load(h, keys - {k}, name)
    decreases |keys|
  {
    var j :| j in keys && Load(h, keys, name) == Share(h, j, name) + Load(h, keys - {j}, name);
    if j != k {
      LoadPick(h, keys - {j}, name, k);
      LoadPick(h, keys - {k}, name, j);
      assert keys - {j} - {k} == keys - {k} - {j};
    }
  }

  lemma {:induction false} LoadSame(h: Header, g: Header, keys: set<Bytes>, name: Bytes)
    requires forall k :: k in keys ==> Share(h, k, name) == Share(g, k, name)
    ensures Load(h, keys, name) == Load(g, keys, name)
    decreases |keys|
  {
    if keys != {} {
      var k :| k in keys;
      LoadPick(h, keys, name, k);
      LoadPick(g, keys, name, k);
      LoadSame(h, g, keys - {k}, name);
    }
  }

  /** Keys that send nothing to a name add nothing to its load. */
  lemma {:induction false} LoadNone(h: Header, keys: set<Bytes>, name: Bytes)
    requires forall k :: k in keys ==> Share(h, k, name) == multiset{}
    ensures Load(h, keys, name) == multiset{}
    decreases |keys|
  {
    if keys != {} {
      var k :| k in keys;
      LoadPick(h, keys, name, k);
      LoadNone(h, keys - {k}, name);
    }
  }

  /** Without prefixed keys, the load of a name is what is stored under it. */
  lemma LoadPlain(h: Header, name: Bytes)
    requires forall k :: k in h ==> !Prefixed(k)
    ensures Load(h, h.Keys, name) == multiset(Values(h, name))
  {
    if name in h {
      LoadPick(h, h.Keys, name, name);
      LoadNone(h, h.Keys - {name}, name);
    } else {
      LoadNone(h, h.Keys, name);
    }
  }

  ghost function PrefixedKeys(h: Header): set<Bytes> {
    set k | k in h && Prefixed(k)
  }

  ghost predicate NoneDoubled(h: Header) {
    forall k :: k in h ==> !DoublyPrefixed(k)
  }

  // ---------------------------------------------------------------- trailers kept in a map of their own

  lemma LoadWithout(h: Header, keys: set<Bytes>, k: Bytes, name: Bytes)
    requires k in keys && Prefixed(k)
    ensures Load(h, keys, name) == Share(h, k, name) + Load(h - {k}, keys - {k}, name)
  {
    LoadPick(h, keys, name, k);
    LoadSame(h, h - {k}, keys - {k}, name);
  }

  /** The values of a name, collected or still under prefixed keys. */
  ghost function Held(w: Walk, name: Bytes): multiset<Bytes> {
    multiset(Values(w.trailers, name)) + Load(w.hdr, PrefixedKeys(w.hdr), name)
  }

  /** One visit moves values without losing or inventing any. */
  lemma VisitConserves(w: Walk, k: Bytes, name: Bytes)
    requires !w.aliased && k in w.hdr
    ensures Held(Visit(w, k), name) == Held(w, name)
  {
    hide Load;
    if Prefixed(k) {
      LoadWithout(w.hdr, PrefixedKeys(w.hdr), k, name);
      assert PrefixedKeys(Visit(w, k).hdr) == PrefixedKeys(w.hdr) - {k};
    }
  }

  ghost function Plain(h: Header): Header {
    map k | k in h && !Prefixed(k) :: h[k]
  }

  ghost function Targets(keys: set<Bytes>): set<Bytes> {
    set k | k in keys :: Target(k)
  }

  /** For every visiting order: the header keeps exactly its plain entries, and each name
      ends up with its announced values and those of every prefixed key sent to it. */
  lemma {:induction false} SeparateConfluence(w: Walk, visits: seq<Bytes>, name: Bytes)
    requires !w.aliased && w.created == {} && PrefixedKeys(w.hdr) <= w.pending <= w.hdr.Keys
    requires Legal(w, visits)
    ensures var v := Finish(w, visits);
            && v.hdr == Plain(w.hdr)
            && v.trailers.Keys == w.trailers.Keys + Targets(PrefixedKeys(w.hdr))
            && multiset(Values(v.trailers, name)) == Held(w, name)
    decreases visits
  {
    if visits == [] {
      assert PrefixedKeys(w.hdr) == {};
      assert forall k :: k in w.hdr && Prefixed(k) ==> k in PrefixedKeys(w.hdr);
      assert Plain(w.hdr) == w.hdr;
      assert Targets({}) == {};
    } else {
      var k := visits[0];
      var v := Visit(w, k);
      VisitConserves(w, k, name);
      VisitSeparate(w, k);
      SeparateConfluence(v, visits[1..], name);
    }
  }

  lemma VisitSeparate(w: Walk, k: Bytes)
    requires !w.aliased && k in w.hdr && PrefixedKeys(w.hdr) <= w.pending <= w.hdr.Keys
    ensures var v := Visit(w, k);
            && PrefixedKeys(v.hdr) <= v.pending <= v.hdr.Keys
            && Plain(v.hdr) == Plain(w.hdr)
            && v.trailers.Keys + Targets(PrefixedKeys(v.hdr)) == w.trailers.Keys + Targets(PrefixedKeys(w.hdr))
  {
    if Prefixed(k) {
      var v := Visit(w, k);
      assert PrefixedKeys(w.hdr) == PrefixedKeys(v.hdr) + {k};
      assert Targets(PrefixedKeys(w.hdr)) == Targets(PrefixedKeys(v.hdr)) + {Target(k)};
    }
  }

  // ---------------------------------------------------------------- trailers written into the ranged-over map

  lemma LoadMoved(h: Header, k: Bytes, name: Bytes)
    requires k in h && Prefixed(k) && !DoublyPrefixed(k)
    ensures var g := Append(h, Target(k), h[k]) - {k};
            Load(g, g.Keys, name) == Load(h, h.Keys, name)
  {
    hide Load;
    TargetFacts(k);
    var to := Target(k);
    var g := Append(h, to, h[k]) - {k};
    var rest := h.Keys - {k} - {to};
    LoadPick(h, h.Keys, name, k);
    if to in h {
      LoadPick(h, h.Keys - {k}, name, to);
    } else {
      assert h.Keys - {k} == rest;
    }
    assert g.Keys == rest + {to};
    LoadPick(g, g.Keys, name, to);
    assert g.Keys - {to} == rest;
    LoadSame(h, g, rest, name);
    MovedShare(h, k, name);
  }

  lemma MovedShare(h: Header, k: Bytes, name: Bytes)
    requires k in h && Prefixed(k) && !DoublyPrefixed(k)
    ensures Share(Append(h, Target(k), h[k]) - {k}, Target(k), name)
         == Share(h, k, name) + (if Target(k) in h then Share(h, Target(k), name) else multiset{})
  {
    TargetFacts(k);
  }

  ghost predicate Orderly(w: Walk) {
    && w.aliased && NoneDoubled(w.hdr)
    && PrefixedKeys(w.hdr) <= w.pending <= w.hdr.Keys && w.created <= w.hdr.Keys
  }

  lemma VisitAliased(w: Walk, k: Bytes)
    requires Orderly(w) && k in w.hdr
    ensures Orderly(Visit(w, k))
    ensures Targets(Visit(w, k).hdr.Keys) == Targets(w.hdr.Keys)
  {
    TargetFacts(k);
    if Prefixed(k) {
      var v, to := Visit(w, k), Target(k);
      assert v.hdr.Keys == w.hdr.Keys - {k} + {to};
      assert Target(to) == to;
      assert forall x :: x in w.hdr ==> x in v.hdr || x == k;
      TargetsMoved(w.hdr.Keys, k, to);
    }
  }

  lemma TargetsMoved(keys: set<Bytes>, k: Bytes, to: Bytes)
    requires k in keys && k != to && Target(k) == to == Target(to)
    ensures Targets(keys - {k} + {to}) == Targets(keys)
  {
    var a, b := Targets(keys - {k} + {to}), Targets(keys);
    forall t
      ensures t in a <==> t in b
    {
      if t in b {
        var x :| x in keys && Target(x) == t;
        var y := if x == k then to else x;
        assert y in keys - {k} + {to} && Target(y) == t;
      }
    }
  }

  /** For every visiting order the language allows, entries created on the way included:
      no prefixed key is left, and each name holds all values that belong to it. */
  lemma {:induction false} AliasedConfluence(w: Walk, visits: seq<Bytes>, name: Bytes)
    requires Orderly(w) && Legal(w, visits)
    ensures var v := Finish(w, visits);
            && PrefixedKeys(v.hdr) == {}
            && v.hdr.Keys == Targets(w.hdr.Keys)
            && multiset(Values(v.hdr, name)) == Load(w.hdr, w.hdr.Keys, name)
    decreases visits
  {
    if visits == [] {
      assert forall k :: k in w.hdr && Prefixed(k) ==> k in PrefixedKeys(w.hdr);
      LoadPlain(w.hdr, name);
      PlainTargets(w.hdr.Keys);
    } else {
      var k := visits[0];
      VisitAliased(w, k);
      if Prefixed(k) {
        LoadMoved(w.hdr, k, name);
      }
      AliasedConfluence(Visit(w, k), visits[1..], name);
    }
  }

  lemma PlainTargets(keys: set<Bytes>)
    requires forall k :: k in keys ==> !Prefixed(k)
    ensures Targets(keys) == keys
  {
    forall t
      ensures t in Targets(keys) <==> t in keys
    {
      if t in keys {
        assert Target(t) == t;
      }
    }
  }

  // ---------------------------------------------------------------- which names the in-place move leaves

  /** Moving the values of key k, once or again, can bring them to the name x. */
  predicate Reaches(k: Bytes, x: Bytes)
    decreases |k|
  {
    TargetFacts(k);
    Prefixed(k) && (Target(k) == x || Reaches(Target(k), x))
  }

  /** Some key of the header is moved to the name x. */
  ghost predicate Sent(h: Header, x: Bytes) {
    exists k :: k in h && Reaches(k, x)
  }

  lemma VisitSends(w: Walk, k: Bytes, x: Bytes)
    requires w.aliased && k in w.hdr
    ensures Sent(Visit(w, k).hdr, x) ==> Sent(w.hdr, x)
    ensures x in Visit(w, k).hdr ==> x in w.hdr || Sent(w.hdr, x)
    ensures x in w.hdr && !Prefixed(x) ==> x in Visit(w, k).hdr
    ensures k in Visit(w, k).hdr ==> !Prefixed(k)
  {
    TargetFacts(k);
    var v := Visit(w, k);
    if Sent(v.hdr, x) {
      var j :| j in v.hdr && Reaches(j, x);
      assert j in w.hdr || (Prefixed(k) && j == Target(k));
      assert Reaches(j, x) && (j in w.hdr || Reaches(k, x));
    }
    if x in v.hdr && x !in w.hdr {
      assert Reaches(k, x);
    }
  }

  /** Every name at the end was there as a plain name or is one that values were moved to;
      and plain names stay. */
  lemma {:induction false} AliasedNames(w: Walk, visits: seq<Bytes>, x: Bytes)
    requires w.aliased && Legal(w, visits)
    ensures x in w.hdr && !Prefixed(x) ==> x in Finish(w, visits).hdr
    ensures x in Finish(w, visits).hdr ==>
              (x in w.hdr && (!Prefixed(x) || x !in w.pending)) || Sent(w.hdr, x)
    decreases visits
  {
    hide Sent;
    if visits != [] {
      VisitSends(w, visits[0], x);
      AliasedNames(Visit(w, visits[0]), visits[1..], x);
    }
  }

  // ---------------------------------------------------------------- the limit of the in-place move

  /** A schedule that leaves exactly one chosen key to be visited. */
  lemma {:induction false} VisitAllBut(w: Walk, k: Bytes) returns (visits: seq<Bytes>, last: Walk)
    requires w.aliased && k in w.pending && w.pending <= w.hdr.Keys
    ensures last.aliased && last.pending == {k} && k in last.hdr
    ensures forall more :: Legal(last, more) ==>
              Legal(w, visits + more) && Finish(w, visits + more) == Finish(last, more)
    decreases |w.pending|
  {
    if w.pending == {k} {
      visits, last := [], w;
      assert forall more: seq<Bytes> :: visits + more == more;
    } else {
      assert w.pending != {k} && w.pending - {k} + {k} == w.pending;
      var j :| j in w.pending - {k};
      var v := Visit(w, j);
      TargetFacts(j);
      assert v.pending < w.pending;
      var rest;
      rest, last := VisitAllBut(v, k);
      visits := [j] + rest;
      forall more | Legal(last, more)
        ensures Legal(w, visits + more) && Finish(w, visits + more) == Finish(last, more)
      {
        assert visits + more == [j] + (rest + more);
        assert (visits + more)[1..] == rest + more;
      }
    }
  }

  /** A doubly prefixed key can leave a prefixed key behind. */
  lemma DoubledSlipsThrough(h: Header, k: Bytes) returns (visits: seq<Bytes>)
    requires k in h && DoublyPrefixed(k)
    ensures Legal(Begin(h, h, true), visits)
    ensures PrefixedKeys(Finish(Begin(h, h, true), visits).hdr) != {}
  {
    var w := Begin(h, h, true);
    var most, last := VisitAllBut(w, k);
    TargetFacts(k);
    var v := Visit(last, k);
    assert [k][1..] == [];
    assert v.pending == {};
    assert Legal(v, []);
    assert Legal(last, [k]) && Finish(last, [k]) == v;
    visits := most + [k];
    assert Target(k) in v.hdr && Target(k) in PrefixedKeys(v.hdr);
  }

  /** Exactly when a trailers-only response is sure to lose all its prefixes. */
  lemma PrefixesGoneExactly(h: Header)
    ensures (forall visits :: Legal(Begin(h, h, true), visits) ==>
               PrefixedKeys(Finish(Begin(h, h, true), visits).hdr) == {})
       <==> NoneDoubled(h)
  {
    if NoneDoubled(h) {
      forall visits | Legal(Begin(h, h, true), visits)
        ensures PrefixedKeys(Finish(Begin(h, h, true), visits).hdr) == {}
      {
        AliasedConfluence(Begin(h, h, true), visits, []);
      }
    } else {
      var k :| k in h && DoublyPrefixed(k);
      var visits := DoubledSlipsThrough(h, k);
    }
  }

  // ---------------------------------------------------------------- the collection as the writers run it

  /** "Trailer" */
  const TRAILER: Bytes := [84, 114, 97, 105, 108, 101, 114]
  /** "Grpc-Status" */
  const GRPC_STATUS: Bytes := [71, 114, 112, 99, 45, 83, 116, 97, 116, 117, 115]

  function CanonicalSet(names: seq<Bytes>): set<Bytes> {
    set i | 0 <= i < |names| :: CanonicalKey(names[i])
  }

  /** The announced names, canonical, each with the values the header has for it now. */
  function Announced(hdr: Header, names: seq<Bytes>): Header {
    map k | k in CanonicalSet(names) :: Values(hdr, k)
  }

  /** Without an announcement the response counts as trailers-only. */
  function StartWalk(hdr: Header, announced: Option<seq<Bytes>>): Walk {
    match announced
    case None => Begin(hdr - {TRAILER}, hdr - {TRAILER}, true)
    case Some(names) => Begin(hdr, Announced(hdr, names), false)
  }

  function CollectedHeader(hdr: Header, announced: Option<seq<Bytes>>, visits: seq<Bytes>): Header
    requires Legal(StartWalk(hdr, announced), visits)
  {
    Finish(StartWalk(hdr, announced), visits).hdr
  }

  function CollectedTrailers(hdr: Header, announced: Option<seq<Bytes>>, visits: seq<Bytes>): Header
    requires Legal(StartWalk(hdr, announced), visits)
  {
    var w := Finish(StartWalk(hdr, announced), visits);
    if announced.None? then w.hdr else w.trailers
  }

  /** The loops of Finalize and Close; `visits` are the keys in the order the range
      loop produces them. */
  method CollectTrailers(hdr: Header, announced: Option<seq<Bytes>>, visits: seq<Bytes>)
    returns (header: Header, trailers: Header)
    requires Legal(StartWalk(hdr, announced), visits)
    ensures header == CollectedHeader(hdr, announced, visits)
    ensures trailers == CollectedTrailers(hdr, announced, visits)
  {
    var w: Walk;
    if announced.None? {
      w := Begin(hdr - {TRAILER}, hdr - {TRAILER}, true);
    } else {
      trailers := map[];
      for i := 0 to |announced.value|
        invariant trailers == Announced(hdr, announced.value[..i])
      {
        var at := CanonicalKey(announced.value[i]);
        AnnouncedOneMore(hdr, announced.value, i);
        trailers := trailers[at := Values(hdr, at)];
      }
      assert announced.value[..|announced.value|] == announced.value;
      w := Begin(hdr, trailers, false);
    }
    for i := 0 to |visits|
      invariant Legal(w, visits[i..])
      invariant Finish(w, visits[i..]) == Finish(StartWalk(hdr, announced), visits)
      invariant w.aliased == announced.None?
    {
      w := Visit(w, visits[i]);
    }
    header := w.hdr;
    trailers := if announced.None? then w.hdr else w.trailers;
  }

  lemma AnnouncedOneMore(hdr: Header, names: seq<Bytes>, i: nat)
    requires i < |names|
    ensures Announced(hdr, names[..i + 1])
         == Announced(hdr, names[..i])[CanonicalKey(names[i]) := Values(hdr, CanonicalKey(names[i]))]
  {
    hide CanonicalKey, CanonicalSet;
    CanonicalSetOneMore(names[..i], names[i]);
    assert names[..i + 1] == names[..i] + [names[i]];
  }

  lemma CanonicalSetOneMore(names: seq<Bytes>, name: Bytes)
    ensures CanonicalSet(names + [name]) == CanonicalSet(names) + {CanonicalKey(name)}
  {
    hide CanonicalKey;
    var more := names + [name];
    assert more[|names|] == name;
    assert forall j :: 0 <= j < |names| ==> more[j] == names[j];
  }

  /** Collected trailers carry canonical names, whatever the handler put in its header. */
  lemma CollectedCanonical(hdr: Header, names: seq<Bytes>, visits: seq<Bytes>)
    requires Legal(StartWalk(hdr, Some(names)), visits)
    ensures CanonicalNames(CollectedTrailers(hdr, Some(names), visits))
  {
    var w := StartWalk(hdr, Some(names));
    SeparateConfluence(w, visits, []);
    forall k | k in CollectedTrailers(hdr, Some(names), visits)
      ensures CanonicalKey(k) == k
    {
      if k in w.trailers {
        var i :| 0 <= i < |names| && CanonicalKey(names[i]) == k;
        CanonicalIdempotent(names[i]);
      } else {
        var p :| p in PrefixedKeys(w.hdr) && Target(p) == k;
        CanonicalIdempotent(p[|PREFIX|..]);
      }
    }
  }

  // ---------------------------------------------------------------- metadata behind prefixes

  predicate CanonicalName(k: Bytes) {
    ValidName(k) && CanonicalKey(k) == k
  }

  ghost predicate Metadata(m: Header) {
    forall k :: k in m ==> CanonicalName(k)
  }

  /** Every name of m put behind the trailer prefix, as a handler does for its metadata. */
  function Behind(m: Header): Header {
    map x | x in (set k | k in m :: PREFIX + k) :: Values(m, x[|PREFIX|..])
  }

  lemma BehindAt(m: Header, x: Bytes)
    ensures PREFIX + x in Behind(m) <==> x in m
    ensures Values(Behind(m), PREFIX + x) == Values(m, x)
    ensures x in Behind(m) ==> Prefixed(x) && x[|PREFIX|..] in m
  {
    assert (PREFIX + x)[|PREFIX|..] == x;
    forall k | k in m
      ensures (PREFIX + k)[|PREFIX|..] == k
    {
    }
  }

  /** Every prefixed key is the prefix and a canonical name. */
  ghost predicate OnePrefix(h: Header) {
    forall k :: k in h && Prefixed(k) ==> CanonicalName(k[|PREFIX|..])
  }

  lemma TargetOfPrefixed(k: Bytes)
    requires Prefixed(k) && CanonicalName(k[|PREFIX|..])
    ensures PREFIX + Target(k) == k && Target(k) == k[|PREFIX|..] && !Prefixed(Target(k))
  {
    PrefixedIsNoName(k[|PREFIX|..]);
  }

  /** Where the walk puts values. */
  function Into(w: Walk): Header {
    if w.aliased then w.hdr else w.trailers
  }

  lemma VisitMoves(w: Walk, k: Bytes, x: Bytes)
    requires OnePrefix(w.hdr) && k in w.hdr && !Prefixed(x)
    requires PrefixedKeys(w.hdr) <= w.pending
    ensures var v := Visit(w, k);
            && OnePrefix(v.hdr) && PrefixedKeys(v.hdr) <= v.pending && v.aliased == w.aliased
            && Values(Into(v), x) + Values(v.hdr, PREFIX + x) == Values(Into(w), x) + Values(w.hdr, PREFIX + x)
            && (x in Into(v) || PREFIX + x in v.hdr <==> x in Into(w) || PREFIX + x in w.hdr)
  {
    hide CanonicalKey;
    assert (PREFIX + x)[|PREFIX|..] == x;
    if Prefixed(k) {
      TargetOfPrefixed(k);
      assert Target(k) == x <==> k == PREFIX + x;
    }
  }

  /** For every visiting order, separate map or not: the values behind the prefix end up, in
      their order, after those that are under the plain name already. */
  lemma {:induction false} MovesExactly(w: Walk, visits: seq<Bytes>, x: Bytes)
    requires OnePrefix(w.hdr) && PrefixedKeys(w.hdr) <= w.pending && !Prefixed(x)
    requires Legal(w, visits)
    ensures var v := Finish(w, visits);
            && v.aliased == w.aliased
            && Values(Into(v), x) == Values(Into(w), x) + Values(w.hdr, PREFIX + x)
            && (x in Into(v) <==> x in Into(w) || PREFIX + x in w.hdr)
            && PrefixedKeys(v.hdr) == {}
    decreases visits
  {
    if visits == [] {
      assert PrefixedKeys(w.hdr) == {};
      assert Prefixed(PREFIX + x);
      assert PREFIX + x in w.hdr ==> PREFIX + x in PrefixedKeys(w.hdr);
      assert Values(Into(w), x) + [] == Values(Into(w), x);
    } else {
      VisitMoves(w, visits[0], x);
      MovesExactly(Visit(w, visits[0]), visits[1..], x);
    }
  }

  /** What a handler left: plain entries p, and metadata m behind prefixes. */
  function LeftBehind(p: Header, m: Header): Header {
    p + Behind(m)
  }

  lemma LeftAt(p: Header, m: Header, x: Bytes)
    requires PrefixedKeys(p) == {} && Metadata(m)
    ensures var h := LeftBehind(p, m);
            && OnePrefix(h)
            && (PREFIX + x in h <==> x in m) && Values(h, PREFIX + x) == Values(m, x)
            && (!Prefixed(x) ==> (x in h <==> x in p) && Values(h, x) == Values(p, x))
            && h - {TRAILER} == LeftBehind(p - {TRAILER}, m)
  {
    hide CanonicalName;
    var h := LeftBehind(p, m);
    forall k
      ensures k in p ==> !Prefixed(k)
      ensures k in Behind(m) ==> Prefixed(k) && k[|PREFIX|..] in m
    {
      assert k in p && Prefixed(k) ==> k in PrefixedKeys(p);
      BehindAt(m, k);
    }
    BehindAt(m, x);
    assert Prefixed(PREFIX + x);
    assert !Prefixed(TRAILER);
  }

  predicate Announces(names: seq<Bytes>, x: Bytes) {
    exists i :: 0 <= i < |names| && CanonicalKey(names[i]) == x
  }

  /** Announced trailers, exactly, for every visiting order: the announced names and those of
      the metadata; under each the plain values if it was announced, then the metadata. The
      header keeps its plain entries. */
  lemma AnnouncedExactly(p: Header, m: Header, names: seq<Bytes>, visits: seq<Bytes>, x: Bytes)
    requires PrefixedKeys(p) == {} && Metadata(m) && !Prefixed(x)
    requires Legal(StartWalk(LeftBehind(p, m), Some(names)), visits)
    ensures var t := CollectedTrailers(LeftBehind(p, m), Some(names), visits);
            && (x in t <==> Announces(names, x) || x in m)
            && Values(t, x) == (if Announces(names, x) then Values(p, x) else []) + Values(m, x)
    ensures CollectedHeader(LeftBehind(p, m), Some(names), visits) == p
  {
    hide LeftBehind, Prefixed, Metadata, Announced, Announces, Plain, OnePrefix, Held;
    var h := LeftBehind(p, m);
    LeftAt(p, m, x);
    AnnouncedAt(h, names, x);
    var w := StartWalk(h, Some(names));
    MovesExactly(w, visits, x);
    SeparateConfluence(w, visits, x);
    PlainLeft(p, m);
  }

  lemma AnnouncedAt(h: Header, names: seq<Bytes>, x: Bytes)
    ensures x in Announced(h, names) <==> Announces(names, x)
    ensures Values(Announced(h, names), x) == if Announces(names, x) then Values(h, x) else []
  {
    hide CanonicalKey;
  }

  lemma PlainLeft(p: Header, m: Header)
    requires PrefixedKeys(p) == {} && Metadata(m)
    ensures Plain(LeftBehind(p, m)) == p
  {
    var h := LeftBehind(p, m);
    forall x
      ensures x in Plain(h) <==> x in p
      ensures Values(Plain(h), x) == Values(p, x)
    {
      LeftAt(p, m, x);
      assert Prefixed(x) && x in p ==> x in PrefixedKeys(p);
    }
    SameHeader(Plain(h), p);
  }

  /** A trailers-only response, exactly, for every visiting order: its header becomes the plain
      entries, without Trailer, and the metadata under plain names, after the plain values. */
  lemma TrailersOnlyExactly(p: Header, m: Header, visits: seq<Bytes>, x: Bytes)
    requires PrefixedKeys(p) == {} && Metadata(m) && !Prefixed(x)
    requires Legal(StartWalk(LeftBehind(p, m), None), visits)
    ensures var t := CollectedTrailers(LeftBehind(p, m), None, visits);
            && t == CollectedHeader(LeftBehind(p, m), None, visits)
            && (x in t <==> (x in p && x != TRAILER) || x in m)
            && Values(t, x) == (if x == TRAILER then [] else Values(p, x)) + Values(m, x)
            && PrefixedKeys(t) == {}
  {
    hide LeftBehind, Prefixed, Metadata;
    var q := p - {TRAILER};
    LeftAt(p, m, x);
    assert PrefixedKeys(q) == {} by {
      assert forall k :: k in q && Prefixed(k) ==> k in PrefixedKeys(p);
    }
    LeftAt(q, m, x);
    MovesExactly(StartWalk(LeftBehind(p, m), None), visits, x);
  }

  // ---------------------------------------------------------------- the status trailer

  lemma StatusCase()
    ensures CanonicalKey(GRPC_STATUS) == GRPC_STATUS
  {
    hide Recase;
    assert GRPC_STATUS[4] == DASH && CasedAt(GRPC_STATUS, true, 5);
    CasedIsFixed(GRPC_STATUS, true);
  }

  lemma StatusName()
    ensures ValidName(GRPC_STATUS) && CanonicalKey(GRPC_STATUS) == GRPC_STATUS && !Prefixed(GRPC_STATUS)
  {
    hide CanonicalKey;
    StatusCase();
    assert GRPC_STATUS[0] != PREFIX[0];
  }

  /** A handler that announced these names and left one entry has exactly this trailer. */
  ghost predicate Collects(names: seq<Bytes>, key: Bytes, k: Bytes, v: Bytes) {
    var h := map[key := [v]];
    Legal(StartWalk(h, Some(names)), [key]) && CollectedTrailers(h, Some(names), [key]) == map[k := [v]]
  }

  /** Announced and set, the status is what is collected. */
  lemma StatusWalk(status: Bytes)
    ensures Collects([GRPC_STATUS], GRPC_STATUS, GRPC_STATUS, status)
  {
    hide CanonicalKey;
    StatusName();
    var h := map[GRPC_STATUS := [status]];
    var names := [GRPC_STATUS];
    assert Announced(h, names) == h by {
      assert names[0] == GRPC_STATUS && GRPC_STATUS in CanonicalSet(names);
    }
    var w := StartWalk(h, Some(names));
    var v := Visit(w, GRPC_STATUS);
    assert v.pending == {} && v.trailers == h;
    assert names[1..] == [];
    assert Legal(v, []) && Legal(w, names) && Finish(w, names) == v;
  }

  // ---------------------------------------------------------------- one prefixed entry

  lemma BehindOne(k: Bytes, v: Bytes)
    ensures Behind(map[k := [v]]) == map[PREFIX + k := [v]] == LeftBehind(map[], map[k := [v]])
  {
    var m := map[k := [v]];
    assert (PREFIX + k)[|PREFIX|..] == k;
    assert forall x :: x in Behind(m) <==> x == PREFIX + k;
    assert Behind(m)[PREFIX + k] == [v];
  }

  /** Unannounced, an entry behind the prefix arrives under its own name, and alone. */
  lemma EntryArrivesUnannounced(k: Bytes, v: Bytes, visits: seq<Bytes>)
    requires CanonicalName(k)
    requires Legal(StartWalk(map[PREFIX + k := [v]], None), visits)
    ensures CollectedTrailers(map[PREFIX + k := [v]], None, visits) == map[k := [v]]
    ensures CollectedHeader(map[PREFIX + k := [v]], None, visits) == map[k := [v]]
  {
    hide CanonicalName, LeftBehind, Prefixed, Legal;
    var p, m := map[], map[k := [v]];
    BehindOne(k, v);
    assert PrefixedKeys(p) == {} && Metadata(m);
    var t := CollectedTrailers(LeftBehind(p, m), None, visits);
    forall x
      ensures x in t <==> x in m
      ensures Values(t, x) == Values(m, x)
    {
      if Prefixed(x) {
        NamePlain(k);
        TrailersOnlyExactly(p, m, visits, k);
        assert x in t ==> x in PrefixedKeys(t);
      } else {
        TrailersOnlyExactly(p, m, visits, x);
        assert [] + Values(m, x) == Values(m, x);
      }
    }
    SameHeader(t, m);
    NamePlain(k);
    TrailersOnlyExactly(p, m, visits, k);
  }

  lemma NamePlain(k: Bytes)
    requires CanonicalName(k)
    ensures !Prefixed(k)
  {
    PrefixedIsNoName(k);
  }

  /** The same when trailers were announced, but none by name. */
  lemma EntryArrivesAnnounced(k: Bytes, v: Bytes, visits: seq<Bytes>)
    requires CanonicalName(k)
    requires Legal(StartWalk(map[PREFIX + k := [v]], Some([])), visits)
    ensures CollectedTrailers(map[PREFIX + k := [v]], Some([]), visits) == map[k := [v]]
    ensures CollectedHeader(map[PREFIX + k := [v]], Some([]), visits) == map[]
  {
    hide CanonicalName, LeftBehind, Prefixed, Legal, Target;
    var p, m := map[], map[k := [v]];
    BehindOne(k, v);
    assert PrefixedKeys(p) == {} && Metadata(m);
    var h := LeftBehind(p, m);
    var t := CollectedTrailers(h, Some([]), visits);
    forall x
      ensures x in t <==> x in m
      ensures Values(t, x) == Values(m, x)
    {
      NamePlain(k);
      if Prefixed(x) {
        OneTarget(k, v, visits);
      } else {
        AnnouncedExactly(p, m, [], visits, x);
        assert [] + Values(m, x) == Values(m, x);
      }
    }
    SameHeader(t, m);
    NamePlain(k);
    AnnouncedExactly(p, m, [], visits, k);
  }

  lemma OneTarget(k: Bytes, v: Bytes, visits: seq<Bytes>)
    requires CanonicalName(k)
    requires Legal(StartWalk(map[PREFIX + k := [v]], Some([])), visits)
    ensures CollectedTrailers(map[PREFIX + k := [v]], Some([]), visits).Keys == {k}
  {
    hide Legal, CanonicalName, Target, Load;
    var h := map[PREFIX + k := [v]];
    assert (PREFIX + k)[|PREFIX|..] == k;
    TargetOfPrefixed(PREFIX + k);
    assert PrefixedKeys(h) == {PREFIX + k} && Targets({PREFIX + k}) == {k};
    assert Announced(h, []) == map[];
    SeparateConfluence(StartWalk(h, Some([])), visits, k);
  }

  lemma MetadataWalk(k: Bytes, v: Bytes)
    requires CanonicalName(k)
    ensures Collects([], PREFIX + k, k, v)
  {
    var h, visits := map[PREFIX + k := [v]], [PREFIX + k];
    var w := StartWalk(h, Some([]));
    var u := Visit(w, PREFIX + k);
    assert u.pending == {} && visits[1..] == [];
    assert Legal(u, []) && Legal(w, visits);
    EntryArrivesAnnounced(k, v, visits);
  }

  // ---------------------------------------------------------------- headers with one entry

  /** Unannounced, a plain entry is what is collected. */
  lemma EntryWalk(k: Bytes, v: Bytes)
    requires !Prefixed(k) && k != TRAILER
    ensures var h := map[k := [v]];
            Legal(StartWalk(h, None), [k]) && CollectedTrailers(h, None, [k]) == h
  {
    hide Prefixed;
    var h, visits := map[k := [v]], [k];
    assert h - {TRAILER} == h;
    var w := StartWalk(h, None);
    var u := Visit(w, k);
    assert u.pending == {} && u.hdr == h && visits[1..] == [];
    assert Legal(u, []) && Legal(w, visits) && Finish(w, visits) == u;
  }

  /** For any visiting order. */
  lemma PlainEntryStays(k: Bytes, v: Bytes, visits: seq<Bytes>)
    requires !Prefixed(k) && k != TRAILER
    requires Legal(StartWalk(map[k := [v]], None), visits)
    ensures CollectedHeader(map[k := [v]], None, visits) == map[k := [v]]
  {
    hide Legal, Prefixed;
    var h, m: Header := map[k := [v]], map[];
    assert h - {TRAILER} == h;
    assert PrefixedKeys(h) == {};
    assert Behind(m) == map[] && LeftBehind(h, m) == h;
    var t := CollectedHeader(h, None, visits);
    forall x
      ensures x in t <==> x in h
      ensures Values(t, x) == Values(h, x)
    {
      if Prefixed(x) {
        TrailersOnlyExactly(h, m, visits, k);
        assert x in t ==> x in PrefixedKeys(t);
      } else {
        TrailersOnlyExactly(h, m, visits, x);
        assert Values(h, x) + [] == Values(h, x);
      }
    }
    SameHeader(t, h);
  }

  lemma EntryBlock(k: Bytes, v: Bytes)
    requires ValidName(k)
    ensures |WriteBlock(map[k := [v]], [k])| <= |k| + |v| + 4
    ensures Tidy(v) ==> WriteBlock(map[k := [v]], [k]) == k + [58, 32] + v + [13, 10]
  {
    hide CleanValue, Tidy;
    CleanExactly(v);
    CleanIsShort(v);
    var vs, order := [v], [k];
    assert vs[1..] == [] && order[1..] == [];
    assert WriteValues(k, vs) == WriteLine(k, v) + [];
    assert WriteBlock(map[k := vs], order) == WriteValues(k, vs) + [];
  }

  lemma CleanIsShort(v: Bytes)
    ensures |CleanValue(v)| <= |v|
  {
  }

  lemma EntryTravels(k: Bytes, v: Bytes)
    requires ValidName(k) && Printable(v)
    ensures var h := map[k := [v]];
            && Readable(h) && Enumerates([k], h.Keys)
            && CleanHeader(h) == map[k := [CleanValue(v)]]
            && (Tidy(v) ==> CleanHeader(h) == h)
  {
    hide CleanValue, Printable, ValidName, Tidy;
    CleanExactly(v);
    assert CleanValues([v]) == [CleanValue(v)];
  }
}
