/** The state of a bucket and its two updates (bucket.go, index.go) as functions, and what they keep of the
    trees derived from the key map. */
module BucketSpec {
  import opened Prelude
  import opened Entries
  import opened Trees

  datatype Schema = Schema(json: Json, geo: bool, georincl: bool)

  datatype IndexState = IndexState(ppath: string, vtype: IndexValueType, t: seq<Entry>)
  {
    function Ordering(json: Json): Order
    {
      ByField(json, ppath, vtype)
    }
  }

  /** The primary tree appears as the map it represents; see `Ascending` for its order. */
  datatype State = State(
    data: map<string, Entry>,
    eviction: seq<Entry>,
    invalidation: seq<Entry>,
    indexes: map<string, IndexState>,
    rtree: seq<Entry>,
    rct: nat)

  const EMPTY := State(map[], [], [], map[], [], 0)

  // ---------- the updates ----------

  /** Takes the entry that was live out of a derived tree. */
  function Unlink(o: Order, t: seq<Entry>, prev: Option<Entry>): seq<Entry>
  {
    if prev.Some? && Member(o, prev.value) then Remove(o, t, prev.value) else t
  }

  function Link(o: Order, t: seq<Entry>, e: Entry): seq<Entry>
  {
    if Member(o, e) then Put(o, t, e) else t
  }

  function Relink(o: Order, t: seq<Entry>, prev: Option<Entry>, e: Entry): seq<Entry>
  {
    Link(o, Unlink(o, t, prev), e)
  }

  predicate Plotted(c: Schema, e: Entry)
  {
    c.geo && c.json.Has(e.v, "coords")
  }

  /** DeleteWithComparator: takes out one item with this key. */
  function Unplot(rt: seq<Entry>, k: string): seq<Entry>
  {
    if rt == [] then []
    else if rt[0].k == k then rt[1..]
    else [rt[0]] + Unplot(rt[1..], k)
  }

  function Replot(c: Schema, rt: seq<Entry>, prev: Option<Entry>, next: Option<Entry>): seq<Entry>
  {
    var rest := if prev.Some? && Plotted(c, prev.value) then Unplot(rt, prev.value.k) else rt;
    if next.Some? && Plotted(c, next.value) then rest + [next.value] else rest
  }

  function RelinkIndexes(json: Json, indexes: map<string, IndexState>, prev: Option<Entry>, e: Entry)
    : map<string, IndexState>
  {
    map p | p in indexes :: indexes[p].(t := Relink(indexes[p].Ordering(json), indexes[p].t, prev, e))
  }

  function UnlinkIndexes(json: Json, indexes: map<string, IndexState>, prev: Option<Entry>)
    : map<string, IndexState>
  {
    map p | p in indexes :: indexes[p].(t := Unlink(indexes[p].Ordering(json), indexes[p].t, prev))
  }

  function Insert(c: Schema, st: State, e: Entry): State
  {
    var prev := Lookup(st.data, e.k);
    State(
      st.data[e.k := e],
      Relink(ByExpiry, st.eviction, prev, e),
      Relink(ByInvalidation, st.invalidation, prev, e),
      RelinkIndexes(c.json, st.indexes, prev, e),
      Replot(c, st.rtree, prev, Some(e)),
      st.rct + 1)
  }

  function Delete(c: Schema, st: State, k: string): State
  {
    var prev := Lookup(st.data, k);
    State(
      st.data - {k},
      Unlink(ByExpiry, st.eviction, prev),
      Unlink(ByInvalidation, st.invalidation, prev),
      UnlinkIndexes(c.json, st.indexes, prev),
      Replot(c, st.rtree, prev, None),
      st.rct + 1)
  }

  // ---------- soundness and completeness of a derived tree ----------

  /** Every entry lives under its own key and has options. */
  ghost predicate Keyed(data: map<string, Entry>)
  {
    forall k :: k in data ==> data[k].k == k && data[k].opts.Some?
  }

  /** Every item of the tree is the live entry of its key and belongs in the tree. */
  ghost predicate Sound(o: Order, data: map<string, Entry>, t: seq<Entry>)
  {
    && Sorted(o, t)
    && forall e :: e in t ==> Lookup(data, e.k) == Some(e) && Member(o, e)
  }

  /** Sound, and no live entry that belongs is missing. */
  ghost predicate Exact(o: Order, data: map<string, Entry>, t: seq<Entry>)
  {
    && Sound(o, data, t)
    && forall k :: k in data && Member(o, data[k]) ==> data[k] in t
  }

  /** No other live entry of the tree ranks like `e`. */
  ghost predicate ClashFree(o: Order, data: map<string, Entry>, e: Entry)
  {
    Member(o, e) ==>
      forall k :: k in data && k != e.k && Member(o, data[k]) ==> RankOf(o, data[k]) != RankOf(o, e)
  }

  lemma RelinkMembers(o: Order, t: seq<Entry>, prev: Option<Entry>, e: Entry)
    requires Sorted(o, t)
    ensures Sorted(o, Unlink(o, t, prev)) && Sorted(o, Relink(o, t, prev, e))
    ensures forall y :: y in Unlink(o, t, prev) <==>
      y in t && !(prev.Some? && Member(o, prev.value) && RankOf(o, y) == RankOf(o, prev.value))
    ensures forall y :: y in Relink(o, t, prev, e) <==>
      || (Member(o, e) && y == e)
      || (y in Unlink(o, t, prev) && !(Member(o, e) && RankOf(o, y) == RankOf(o, e)))
  {
    if prev.Some? {
      RemoveMembers(o, t, prev.value);
      RemoveSorted(o, t, prev.value);
    }
    PutMembers(o, Unlink(o, t, prev), e);
    PutSorted(o, Unlink(o, t, prev), e);
  }

  /** Replacing an entry keeps a derived tree sound even when ranks collide. */
  lemma RelinkSound(o: Order, data: map<string, Entry>, t: seq<Entry>, e: Entry)
    requires Keyed(data) && Sound(o, data, t)
    ensures Sound(o, data[e.k := e], Relink(o, t, Lookup(data, e.k), e))
  {
    RelinkMembers(o, t, Lookup(data, e.k), e);
  }

  lemma UnlinkSound(o: Order, data: map<string, Entry>, t: seq<Entry>, k: string)
    requires Keyed(data) && Sound(o, data, t)
    ensures Sound(o, data - {k}, Unlink(o, t, Lookup(data, k)))
  {
    RelinkMembers(o, t, Lookup(data, k), Probe(k));
  }

  /** An insert keeps an exact tree exact precisely when the new entry collides with no other live one. */
  lemma RelinkExact(o: Order, data: map<string, Entry>, t: seq<Entry>, e: Entry)
    requires Keyed(data) && Exact(o, data, t)
    ensures Exact(o, data[e.k := e], Relink(o, t, Lookup(data, e.k), e)) <==> ClashFree(o, data, e)
  {
    var prev, data' := Lookup(data, e.k), data[e.k := e];
    var t' := Relink(o, t, prev, e);
    RelinkSound(o, data, t, e);
    RelinkMembers(o, t, prev, e);
    if ClashFree(o, data, e) {
      forall k | k in data' && Member(o, data'[k])
        ensures data'[k] in t'
      {
        if k != e.k && prev.Some? && Member(o, prev.value) && RankOf(o, data[k]) == RankOf(o, prev.value) {
          SortedDistinct(o, t, data[k], prev.value);
        }
      }
    } else {
      var k :| k in data && k != e.k && Member(o, data[k]) && RankOf(o, data[k]) == RankOf(o, e);
      assert data'[k] == data[k] && data[k] !in t';
    }
  }

  /** A delete always keeps an exact tree exact. */
  lemma UnlinkExact(o: Order, data: map<string, Entry>, t: seq<Entry>, k: string)
    requires Keyed(data) && Exact(o, data, t)
    ensures Exact(o, data - {k}, Unlink(o, t, Lookup(data, k)))
  {
    var prev := Lookup(data, k);
    UnlinkSound(o, data, t, k);
    RelinkMembers(o, t, prev, Probe(k));
    forall j | j in data - {k} && Member(o, data[j])
      ensures data[j] in Unlink(o, t, prev)
    {
      if prev.Some? && Member(o, prev.value) && RankOf(o, data[j]) == RankOf(o, prev.value) {
        SortedDistinct(o, t, data[j], prev.value);
      }
    }
  }

  /** Exactness says which sequence the tree is. */
  lemma ExactUnique(o: Order, data: map<string, Entry>, t: seq<Entry>, u: seq<Entry>)
    requires Exact(o, data, t) && Exact(o, data, u)
    ensures t == u
  {
    SortedUnique(o, t, u);
  }

  // ---------- the R-tree ----------

  /** One item for each live entry with coordinates, and no other. */
  ghost predicate SpatialExact(c: Schema, data: map<string, Entry>, rt: seq<Entry>)
  {
    && NoRepeats(rt)
    && forall e :: e in rt <==> Lookup(data, e.k) == Some(e) && Plotted(c, e)
  }

  lemma {:induction false} UnplotMembers(rt: seq<Entry>, x: Entry)
    requires NoRepeats(rt)
    requires x in rt && forall y :: y in rt && y.k == x.k ==> y == x
    ensures NoRepeats(Unplot(rt, x.k))
    ensures forall y :: y in Unplot(rt, x.k) <==> y in rt && y != x
  {
    assert rt == [rt[0]] + rt[1..];
    if rt[0].k == x.k {
    } else {
      UnplotMembers(rt[1..], x);
      var rest := Unplot(rt[1..], x.k);
      assert rt[0] !in rest by { assert rt[0] !in rt[1..]; }
      assert Unplot(rt, x.k)[1..] == rest;
    }
  }

  /** The R-tree stays exact whatever replaces the entry of a key, because removal goes by key. */
  lemma ReplotExact(c: Schema, data: map<string, Entry>, rt: seq<Entry>, k: string, next: Option<Entry>)
    requires Keyed(data) && SpatialExact(c, data, rt)
    requires next.Some? ==> next.value.k == k
    ensures SpatialExact(c, if next.Some? then data[k := next.value] else data - {k},
                         Replot(c, rt, Lookup(data, k), next))
  {
    var prev := Lookup(data, k);
    if prev.Some? && Plotted(c, prev.value) {
      UnplotMembers(rt, prev.value);
    }
  }

  // ---------- the whole bucket ----------

  ghost predicate StateSound(c: Schema, st: State)
  {
    && Keyed(st.data)
    && Sound(ByExpiry, st.data, st.eviction)
    && Sound(ByInvalidation, st.data, st.invalidation)
    && SpatialExact(c, st.data, st.rtree)
    && forall p :: p in st.indexes ==> Sorted(st.indexes[p].Ordering(c.json), st.indexes[p].t)
  }

  lemma InsertSound(c: Schema, st: State, e: Entry)
    requires StateSound(c, st) && e.opts.Some?
    ensures StateSound(c, Insert(c, st, e))
  {
    RelinkSound(ByExpiry, st.data, st.eviction, e);
    RelinkSound(ByInvalidation, st.data, st.invalidation, e);
    ReplotExact(c, st.data, st.rtree, e.k, Some(e));
    forall p | p in st.indexes {
      RelinkMembers(st.indexes[p].Ordering(c.json), st.indexes[p].t, Lookup(st.data, e.k), e);
    }
  }

  lemma DeleteSound(c: Schema, st: State, k: string)
    requires StateSound(c, st)
    ensures StateSound(c, Delete(c, st, k))
  {
    UnlinkSound(ByExpiry, st.data, st.eviction, k);
    UnlinkSound(ByInvalidation, st.data, st.invalidation, k);
    ReplotExact(c, st.data, st.rtree, k, None);
    forall p | p in st.indexes {
      RelinkMembers(st.indexes[p].Ordering(c.json), st.indexes[p].t, Lookup(st.data, k), Probe(k));
    }
  }

  // ---------- the order of the primary tree, and building an index from it ----------

  /** The entries of a bucket in key order. */
  ghost function Ascending(data: map<string, Entry>): seq<Entry>
    decreases |data|
  {
    if data == map[] then []
    else
      var k :| k in data;
      Put(ByKey, Ascending(data - {k}), data[k])
  }

  ghost predicate InKeyOrder(s: seq<Entry>, data: map<string, Entry>)
  {
    Sorted(ByKey, s) && forall e :: e in s <==> Lookup(data, e.k) == Some(e)
  }

  lemma PutInKeyOrder(s: seq<Entry>, data: map<string, Entry>, k: string)
    requires k in data && data[k].k == k && InKeyOrder(s, data - {k})
    ensures InKeyOrder(Put(ByKey, s, data[k]), data)
  {
    PutSorted(ByKey, s, data[k]);
    PutMembers(ByKey, s, data[k]);
    hide Put, Less, Sorted;
  }

  lemma {:induction false} AscendingMembers(data: map<string, Entry>)
    requires Keyed(data)
    ensures InKeyOrder(Ascending(data), data)
    decreases |data|
  {
    if data != map[] {
      var k :| k in data && Ascending(data) == Put(ByKey, Ascending(data - {k}), data[k]);
      hide Put, InKeyOrder, Ascending;
      AscendingMembers(data - {k});
      PutInKeyOrder(Ascending(data - {k}), data, k);
    } else {
      assert Ascending(data) == [];
    }
  }

  /** Index.build over entries taken in this order, starting from an empty tree. */
  function Build(o: Order, s: seq<Entry>): seq<Entry>
  {
    if s == [] then [] else Link(o, Build(o, s[..|s| - 1]), s[|s| - 1])
  }

  /** Of entries that collide, a built index keeps the one with the greatest key. */
  lemma {:induction false} BuildKeepsGreatestKey(o: Order, s: seq<Entry>)
    requires Sorted(ByKey, s)
    ensures Sorted(o, Build(o, s))
    ensures forall e :: e in Build(o, s) <==>
      && e in s && Member(o, e)
      && forall y :: y in s && Member(o, y) && RankOf(o, y) == RankOf(o, e) ==> y == e || StrLess(y.k, e.k)
  {
    if s == [] {
    } else {
      var init, last := s[..|s| - 1], s[|s| - 1];
      assert s == init + [last];
      BuildKeepsGreatestKey(o, init);
      PutSorted(o, Build(o, init), last);
      PutMembers(o, Build(o, init), last);
      forall y | y in init
        ensures StrLess(y.k, last.k) && !StrLess(last.k, y.k) && y != last
      {
        assert Less(ByKey, y, last);
        StrLessTotal(y.k, last.k);
      }
    }
  }

  /** A live entry reaches a freshly built index unless another with a greater key collides with it. */
  lemma BuildLive(o: Order, data: map<string, Entry>)
    requires Keyed(data)
    ensures Sound(o, data, Build(o, Ascending(data)))
    ensures forall k :: k in data && data[k] in Build(o, Ascending(data)) ==> Member(o, data[k])
    ensures forall k :: k in data && Member(o, data[k]) && ClashFree(o, data, data[k]) ==>
      data[k] in Build(o, Ascending(data))
  {
    var s := Ascending(data);
    AscendingMembers(data);
    BuildKeepsGreatestKey(o, s);
    forall k | k in data && Member(o, data[k]) && ClashFree(o, data, data[k])
      ensures data[k] in Build(o, s)
    {
      forall y | y in s && Member(o, y) && RankOf(o, y) == RankOf(o, data[k])
        ensures y == data[k]
      {
        assert Lookup(data, y.k) == Some(y);
      }
    }
  }

  /** Building an index is exact precisely when no two live entries collide in it. */
  lemma BuildExact(o: Order, data: map<string, Entry>)
    requires Keyed(data)
    ensures Exact(o, data, Build(o, Ascending(data))) <==> (forall k :: k in data ==> ClashFree(o, data, data[k]))
  {
    var t := Build(o, Ascending(data));
    BuildLive(o, data);
    if k :| k in data && !ClashFree(o, data, data[k]) {
      var j :| j in data && j != k && Member(o, data[j]) && RankOf(o, data[j]) == RankOf(o, data[k]);
      if data[k] in t && data[j] in t {
        SortedDistinct(o, t, data[k], data[j]);
      }
    }
  }

  lemma ExactClashFree(o: Order, data: map<string, Entry>, t: seq<Entry>, k: string)
    requires Keyed(data) && Exact(o, data, t) && k in data
    ensures ClashFree(o, data, data[k])
  {
    forall j | j in data && j != k && Member(o, data[j]) && Member(o, data[k])
      ensures RankOf(o, data[j]) != RankOf(o, data[k])
    {
      if RankOf(o, data[j]) == RankOf(o, data[k]) {
        SortedDistinct(o, t, data[j], data[k]);
      }
    }
  }

  /** Rebuilding an exact index changes nothing. */
  lemma RebuildSame(o: Order, data: map<string, Entry>, t: seq<Entry>)
    requires Keyed(data) && Exact(o, data, t)
    ensures Build(o, Ascending(data)) == t
  {
    forall k | k in data
      ensures ClashFree(o, data, data[k])
    {
      ExactClashFree(o, data, t, k);
    }
    hide ClashFree;
    BuildExact(o, data);
    ExactUnique(o, data, Build(o, Ascending(data)), t);
  }

  /** With a collision a rebuild need not find what was kept: of two entries with the same value the index keeps
      the one inserted last, a rebuild the one with the greater key. */
  lemma RebuildDiffers(o: Order, a: Entry, b: Entry)
    requires StrLess(a.k, b.k) && Member(o, a) && Member(o, b) && RankOf(o, a) == RankOf(o, b)
    ensures Link(o, Link(o, [], b), a) == [a] != [b] == Build(o, [a, b])
  {
    StrLessTotal(a.k, b.k);
    RankLessTotal(RankOf(o, a), RankOf(o, b));
    assert [a][1..] == [] && [b][1..] == [] && [a][..0] == [] && [a, b][..1] == [a];
    assert Put(o, [], a) == [a] && Put(o, [], b) == [b];
    assert Put(o, [a], b) == [b] && Put(o, [b], a) == [a];
    assert Build(o, [a]) == [a];
  }

  // ---------- two entries in one tree ----------

  /** Of two entries put into a tree both stay if the comparator tells them apart, and else the later one. */
  lemma BothIn(o: Order, t: seq<Entry>, x: Entry, y: Entry)
    requires Sorted(o, t) && Member(o, x) && Member(o, y)
    ensures var u := Link(o, Link(o, t, x), y);
      && y in u
      && (x in u <==> x == y || Less(o, x, y) || Less(o, y, x))
      && Find(o, u, y) == Some(y)
      && Find(o, u, x) == Some(if x in u then x else y)
  {
    var t1 := Put(o, t, x);
    var u := Put(o, t1, y);
    PutSorted(o, t, x);
    PutMembers(o, t, x);
    PutSorted(o, t1, y);
    PutMembers(o, t1, y);
    FindMembers(o, u, x);
    FindMembers(o, u, y);
    RankLessTotal(RankOf(o, x), RankOf(o, y));
    hide Put, Find, Sorted, RankOf, Member;
  }

  /** An index keeps entries apart whose fields, read as its type says, differ, and only these. */
  lemma IndexKeepsBoth(json: Json, p: string, vtype: IndexValueType, t: seq<Entry>, x: Entry, y: Entry)
    requires Sorted(ByField(json, p, vtype), t) && json.get(x.v, p).Some? && json.get(y.v, p).Some?
    ensures var o := ByField(json, p, vtype);
      var u := Link(o, Link(o, t, x), y);
      && y in u
      && (x in u <==> x == y || !SameReading(vtype, json.get(x.v, p).value, json.get(y.v, p).value))
      && Find(o, u, x) == Some(if x in u then x else y)
  {
    var o := ByField(json, p, vtype);
    MemberMeaning(json, p, vtype, x);
    MemberMeaning(json, p, vtype, y);
    SameReadingMeaning(json, p, vtype, x, y);
    hide *;
    BothIn(o, t, x, y);
  }

  /** The eviction tree keeps entries apart whose times differ, to the nanosecond. */
  lemma ExpiriesKeepBoth(t: seq<Entry>, x: Entry, y: Entry)
    requires Sorted(ByExpiry, t) && x.opts.Some? && y.opts.Some?
    requires x.opts.value.doesExp && y.opts.value.doesExp
    ensures var u := Link(ByExpiry, Link(ByExpiry, t, x), y);
      y in u && (x in u <==> x == y || x.opts.value.expTime != y.opts.value.expTime)
  {
    BothIn(ByExpiry, t, x, y);
  }

  /** So does the invalidation tree. */
  lemma InvalidationsKeepBoth(t: seq<Entry>, x: Entry, y: Entry)
    requires Sorted(ByInvalidation, t) && x.opts.Some? && y.opts.Some?
    requires x.opts.value.doesInv && y.opts.value.doesInv
    ensures var u := Link(ByInvalidation, Link(ByInvalidation, t, x), y);
      y in u && (x in u <==> x == y || x.opts.value.invTime != y.opts.value.invTime)
  {
    BothIn(ByInvalidation, t, x, y);
  }

  /** The head of a sound tree of due times is due first. */
  lemma HeadIsDueFirst(data: map<string, Entry>, t: seq<Entry>, e: Entry)
    requires Keyed(data) && e in t
    ensures Sound(ByExpiry, data, t) ==>
      t[0].opts.Some? && e.opts.Some? && t[0].opts.value.expTime <= e.opts.value.expTime
    ensures Sound(ByInvalidation, data, t) ==>
      t[0].opts.Some? && e.opts.Some? && t[0].opts.value.invTime <= e.opts.value.invTime
  {
    var i :| 0 <= i < |t| && t[i] == e;
    assert t[0] in t;
    if i > 0 {
      assert Sound(ByExpiry, data, t) ==> Less(ByExpiry, t[0], t[i]);
      assert Sound(ByInvalidation, data, t) ==> Less(ByInvalidation, t[0], t[i]);
    }
  }

  // ---------- what an update does to the entry itself ----------

  /** After an insert the entry is live, is in the R-tree exactly if the bucket is geo and its value has "coords",
      and one more row is counted; after a delete nothing is live under the key. */
  lemma UpdateMeaning(c: Schema, st: State, e: Entry, k: string)
    requires StateSound(c, st) && e.opts.Some?
    ensures var st' := Insert(c, st, e);
      && st'.data == st.data[e.k := e] && st'.rct == st.rct + 1
      && (e in st'.rtree <==> c.geo && c.json.get(e.v, "coords").Some?)
    ensures Delete(c, st, k).data == st.data - {k} && Delete(c, st, k).rct == st.rct + 1
  {
    ReplotExact(c, st.data, st.rtree, e.k, Some(e));
    hide StateSound, Relink, Unlink, Replot;
  }
}
