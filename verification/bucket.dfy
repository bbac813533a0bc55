/** A bucket (bucket.go) as the object its methods update in place, each method proved against the function of
    BucketSpec, EvictionSpec, Reader or Compaction that says what it does. */
module Engine {
  import opened Prelude
  import opened Entries
  import opened Trees
  import opened BucketSpec
  import opened EvictionSpec
  import opened Codec
  import opened Reader
  import opened TxSpec
  import opened Loading
  import opened Recovery
  import opened Compaction
  import opened Storage

  // ---------- the key map a primary tree represents ----------

  function View(s: seq<Entry>): map<string, Entry>
  {
    if s == [] then map[] else View(s[..|s| - 1])[s[|s| - 1].k := s[|s| - 1]]
  }

  lemma {:induction false} ViewLookup(s: seq<Entry>)
    requires Sorted(ByKey, s)
    ensures forall e :: e in s <==> Lookup(View(s), e.k) == Some(e)
    ensures forall k :: k in View(s) ==> View(s)[k].k == k
  {
    if s == [] {
    } else {
      var init, last := s[..|s| - 1], s[|s| - 1];
      assert s == init + [last];
      ViewLookup(init);
      forall e | e in init
        ensures e.k != last.k
      {
        assert Less(ByKey, e, last);
        StrLessTotal(e.k, last.k);
      }
    }
  }

  lemma ViewFind(s: seq<Entry>, x: Entry)
    requires Sorted(ByKey, s)
    ensures Find(ByKey, s, x) == Lookup(View(s), x.k)
  {
    ViewLookup(s);
    FindMembers(ByKey, s, x);
    hide View, Find, Sorted;
    var f := Find(ByKey, s, x);
    if f.Some? {
      assert f.value in s;
    } else {
      assert forall e :: e in s ==> e.k != x.k;
      assert forall k :: k in View(s) ==> Lookup(View(s), View(s)[k].k) == Some(View(s)[k]);
    }
  }

  /** A key map that holds the items of the tree, and nothing else, is the one it represents. */
  lemma ViewIs(s: seq<Entry>, m: map<string, Entry>)
    requires Sorted(ByKey, s)
    requires forall k :: k in m ==> m[k].k == k && m[k] in s
    requires forall e :: e in s ==> e.k in m
    ensures View(s) == m
  {
    ViewLookup(s);
    hide View, Sorted;
    forall k | k in m
      ensures k in View(s) && View(s)[k] == m[k]
    {
      assert Lookup(View(s), m[k].k) == Some(m[k]);
    }
    forall k | k in View(s)
      ensures k in m
    {
      assert Lookup(View(s), View(s)[k].k) == Some(View(s)[k]);
    }
  }

  lemma ViewItems(s: seq<Entry>)
    requires Sorted(ByKey, s)
    ensures forall k :: k in View(s) ==> View(s)[k].k == k && View(s)[k] in s
    ensures forall e :: e in s ==> e.k in View(s)
  {
    ViewLookup(s);
    hide View, Sorted;
    forall k | k in View(s)
      ensures View(s)[k].k == k && View(s)[k] in s
    {
      assert Lookup(View(s), View(s)[k].k) == Some(View(s)[k]);
    }
    forall e | e in s
      ensures e.k in View(s)
    {
      assert Lookup(View(s), e.k) == Some(e);
    }
  }

  lemma ViewPut(s: seq<Entry>, x: Entry)
    requires Sorted(ByKey, s)
    ensures View(Put(ByKey, s, x)) == View(s)[x.k := x]
  {
    ViewItems(s);
    PutSorted(ByKey, s, x);
    PutMembers(ByKey, s, x);
    hide View, Put, Sorted;
    ViewIs(Put(ByKey, s, x), View(s)[x.k := x]);
  }

  lemma ViewRemove(s: seq<Entry>, x: Entry)
    requires Sorted(ByKey, s)
    ensures View(Remove(ByKey, s, x)) == View(s) - {x.k}
  {
    ViewItems(s);
    RemoveSorted(ByKey, s, x);
    RemoveMembers(ByKey, s, x);
    hide View, Remove, Sorted;
    ViewIs(Remove(ByKey, s, x), View(s) - {x.k});
  }

  /** The primary tree is the key map in key order. */
  lemma ViewAscending(s: seq<Entry>)
    requires Sorted(ByKey, s) && Keyed(View(s))
    ensures s == Ascending(View(s))
  {
    ViewLookup(s);
    AscendingMembers(View(s));
    SortedUnique(ByKey, s, Ascending(View(s)));
  }

  // ---------- proofs for loading ----------

  ghost function RebuiltIndex(json: Json, i: IndexState, data: map<string, Entry>): IndexState
  {
    i.(t := Build(i.Ordering(json), Ascending(data)))
  }

  ghost function Rebuilt(c: Schema, st: State): State
  {
    st.(indexes := map p | p in st.indexes :: RebuiltIndex(c.json, st.indexes[p], st.data))
  }

  lemma RebuiltMeaning(c: Schema, st: State)
    ensures forall p :: p in Rebuilt(c, st).indexes ==>
      var i := Rebuilt(c, st).indexes[p];
      i.t == Build(i.Ordering(c.json), Ascending(Rebuilt(c, st).data))
  {
    hide Ascending, Build;
  }

  lemma RebuiltIndexSound(c: Schema, st: State, p: string)
    requires StateSound(c, st) && p in st.indexes
    ensures StateSound(c, st.(indexes := st.indexes[p := RebuiltIndex(c.json, st.indexes[p], st.data)]))
  {
    BuildLive(st.indexes[p].Ordering(c.json), st.data);
  }

  lemma AllRebuilt(c: Schema, before: State, after: State)
    requires after == before.(indexes := after.indexes) && after.indexes.Keys == before.indexes.Keys
    requires forall p :: p in before.indexes ==>
      after.indexes[p] == RebuiltIndex(c.json, before.indexes[p], before.data)
    ensures after == Rebuilt(c, before)
  {
    hide RebuiltIndex;
  }

  /** What a load leaves behind: indexes are rebuilt only if it ends without an error. */
  ghost function AfterLoad(c: Schema, st: State, l: Loaded): State
  {
    var applied := ApplyAll(c, st, l.stmts);
    if l.error.None? then Rebuilt(c, applied) else applied
  }

  /** The frames so far all parsed, and have been applied. */
  ghost predicate Progress(fc: FloatCodec, c: Schema, st: State, now: State, done: seq<Option<string>>)
  {
    var l := ParseAll(fc, c.json, Payloads(done));
    l.error.None? && now == ApplyAll(c, st, l.stmts)
  }

  lemma StartOfLoad(fc: FloatCodec, c: Schema, st: State, file: string)
    ensures Progress(fc, c, st, st, []) && Frames(file) == [] + Frames(file)
  {
  }

  lemma BatchApplied(fc: FloatCodec, c: Schema, st: State, before: State, after: State,
                     done: seq<Option<string>>, batch: seq<Option<string>>)
    requires Progress(fc, c, st, before, done)
    requires after == ApplyAll(c, before, ParseAll(fc, c.json, Payloads(batch)).stmts)
    ensures var l := ParseAll(fc, c.json, Payloads(done + batch));
      l.error == ParseAll(fc, c.json, Payloads(batch)).error && after == ApplyAll(c, st, l.stmts)
  {
    var a, b := ParseAll(fc, c.json, Payloads(done)), ParseAll(fc, c.json, Payloads(batch));
    PayloadsConcat(done, batch);
    ParseAllConcat(fc, c.json, Payloads(done), Payloads(batch));
    ApplyAllConcat(c, st, a.stmts, b.stmts);
  }

  /** All that is delivered has been applied. */
  lemma FinishLoad(fc: FloatCodec, c: Schema, st: State, now: State, file: string, done: seq<Option<string>>)
    requires Progress(fc, c, st, now, done) && Delivered(file) == done
    ensures Load(fc, c.json, file).error ==
      if TailOf(file).Clean? || TailOf(file).MissingPayload? then None else Some(ReadFailed)
    ensures now == ApplyAll(c, st, Load(fc, c.json, file).stmts)
  {
  }

  /** A statement that does not parse ends the load, whatever follows. */
  lemma StoppedLoad(fc: FloatCodec, c: Schema, st: State, now: State, file: string, done: seq<Option<string>>)
    requires ParseAll(fc, c.json, Payloads(done)).error.Some?
    requires now == ApplyAll(c, st, ParseAll(fc, c.json, Payloads(done)).stmts)
    requires Delivered(file) == done || exists more :: Delivered(file) == done + more
    ensures Load(fc, c.json, file) == ParseAll(fc, c.json, Payloads(done))
    ensures now == AfterLoad(c, st, Load(fc, c.json, file))
  {
    hide ParseAll, Payloads, ApplyAll, Delivered;
    if more :| Delivered(file) == done + more {
      PayloadsConcat(done, more);
      ParseAllConcat(fc, c.json, Payloads(done), Payloads(more));
    }
  }

  function RemovedFrom(json: Json, i: IndexState, e: Entry): IndexState
  {
    i.(t := Remove(i.Ordering(json), i.t, e))
  }

  function PutInto(json: Json, i: IndexState, e: Entry): IndexState
  {
    i.(t := Put(i.Ordering(json), i.t, e))
  }

  lemma StartOfRun(cfg: Config, ss: seq<Stmt>, now: Instant)
    requires cfg.fc.Faithful() && AllWritable(cfg.fc, ss)
    ensures var file := EncodeAll(cfg.fc, ss);
      && Load(cfg.fc, cfg.c.json, file).error == None
      && Opened(cfg, ss, now).im ==
           ImageFields.Image(AfterLoad(cfg.c, EMPTY, Load(cfg.fc, cfg.c.json, file)), file, |file|, "")
  {
    LoadedFrom(cfg, ss);
    hide ApplyAll, Load, EncodeAll, AllWritable;
    var st := LoadedState(cfg, EncodeAll(cfg.fc, ss));
    assert Rebuilt(cfg.c, st) == st;
  }

  lemma DueMeaning(st: State)
    ensures CompactionDue(st) <==> st.rct > 10 * |st.data|
  {
  }

  lemma MovedByManage(cfg: Config, im: Image, now: Instant)
    ensures var im' := Moved(cfg, im, Step.Manage(now));
      && im'.st == Evict(cfg.c, im.st, now)
      && if !cfg.persist then im'.file == im.file && im'.pos == im.pos && im'.aofbuf == im.aofbuf
         else
           && im'.aofbuf == ""
           && if CompactionDue(im.st) then im'.file == CompactedFile(cfg.fc, im.st.data) && im'.pos == 0
              else im'.file == WriteAt(im.file, im.pos, im.aofbuf) && im'.pos == im.pos + |im.aofbuf|
  {
    hide Evict, CompactedFile, CompactionDue;
  }

  // ---------- proofs for the loops ----------

  lemma EvictFromStep(c: Schema, st: State, i: nat, now: Instant)
    requires i < |st.eviction|
    ensures var head := st.eviction[0];
      && EvictFrom(c, st, i, now) == EvictFrom(c, if Expired(head, now) then Delete(c, st, head.k) else st, i + 1, now)
      && |Delete(c, st, head.k).eviction| <= |st.eviction|
  {
    DeleteNoLonger(c, st, st.eviction[0].k);
  }

  lemma EvictFromStart(c: Schema, st: State, now: Instant)
    ensures EvictFrom(c, st, 0, now) == Evict(c, st, now)
  {
  }

  lemma EvictFromEnd(c: Schema, st: State, i: nat, now: Instant)
    requires i >= |st.eviction|
    ensures EvictFrom(c, st, i, now) == st
  {
  }

  lemma EvictionHead(c: Schema, st: State)
    requires StateSound(c, st)
    ensures st.eviction != [] ==> st.eviction[0].opts.Some?
  {
    assert st.eviction != [] ==> Lookup(st.data, st.eviction[0].k) == Some(st.eviction[0]);
  }

  lemma SoundTimes(c: Schema, st: State, e: Entry)
    requires StateSound(c, st) && e in st.invalidation
    ensures st.invalidation[0].opts.Some? && e.opts.Some?
    ensures st.invalidation[0].opts.value.invTime <= e.opts.value.invTime
  {
    HeadIsDueFirst(st.data, st.invalidation, e);
    hide Sound;
  }

  lemma InvalidationHead(c: Schema, st: State)
    requires StateSound(c, st)
    ensures st.invalidation != [] ==> st.invalidation[0].opts.Some?
  {
    assert st.invalidation != [] ==> Lookup(st.data, st.invalidation[0].k) == Some(st.invalidation[0]);
  }

  lemma LastKeyIsNew(s: seq<Entry>, j: nat)
    requires Sorted(ByKey, s) && j < |s| - 1
    ensures s[j].k != s[|s| - 1].k
  {
    assert Less(ByKey, s[j], s[|s| - 1]);
    StrLessTotal(s[j].k, s[|s| - 1].k);
  }

  lemma {:induction false} ViewCount(s: seq<Entry>)
    requires Sorted(ByKey, s)
    ensures |View(s)| == |s|
  {
    if s == [] {
    } else {
      var init, last := s[..|s| - 1], s[|s| - 1];
      ViewCount(init);
      ViewLookup(init);
      hide Sorted;
      if last.k in View(init) {
        var e := View(init)[last.k];
        assert Lookup(View(init), e.k) == Some(e) && e in init;
        var j :| 0 <= j < |init| && init[j] == e;
        LastKeyIsNew(s, j);
      }
    }
  }

  lemma ApplyNothing(fc: FloatCodec, c: Schema, st: State)
    ensures forall entries: seq<string> ::
      && ParseAll(fc, c.json, entries[..0]) == Loaded([], None)
      && ApplyAll(c, st, ParseAll(fc, c.json, entries[..0]).stmts) == st
  {
  }

  lemma ParseAllNext(fc: FloatCodec, json: Json, entries: seq<string>, i: nat)
    requires i < |entries| && ParseAll(fc, json, entries[..i]).error == None
    ensures var before, next := ParseAll(fc, json, entries[..i]).stmts, Parse(fc, json, entries[i]);
      ParseAll(fc, json, entries[..i + 1]) == if next.Failure?
        then Loaded(before, Some(BadStatement(next.error))) else Loaded(before + [next.value], None)
  {
    hide Parse;
    assert entries[..i + 1][..i] == entries[..i];
  }

  lemma ApplyLast(c: Schema, st: State, ss: seq<Stmt>, s: Stmt)
    ensures ApplyAll(c, st, ss + [s]) == Apply(c, ApplyAll(c, st, ss), s)
  {
    hide Apply;
    assert (ss + [s])[..|ss + [s]| - 1] == ss;
  }

  lemma ParseNext(fc: FloatCodec, c: Schema, st: State, entries: seq<string>, i: nat)
    requires i < |entries| && ParseAll(fc, c.json, entries[..i]).error == None
    ensures var before, next := ParseAll(fc, c.json, entries[..i]).stmts, Parse(fc, c.json, entries[i]);
      if next.Success? then
        && ParseAll(fc, c.json, entries[..i + 1]) == Loaded(before + [next.value], None)
        && ApplyAll(c, st, before + [next.value]) == Apply(c, ApplyAll(c, st, before), next.value)
        && next.value.e.opts.Some?
      else
        ParseAll(fc, c.json, entries) == Loaded(before, Some(BadStatement(next.error)))
  {
    hide *;
    var before, next := ParseAll(fc, c.json, entries[..i]).stmts, Parse(fc, c.json, entries[i]);
    ParsedHasOptions(fc, c.json, entries[i]);
    ParseAllNext(fc, c.json, entries, i);
    if next.Success? {
      ApplyLast(c, st, before, next.value);
    } else {
      ParseAllConcat(fc, c.json, entries[..i + 1], entries[i + 1..]);
      assert entries[..i + 1] + entries[i + 1..] == entries;
    }
  }

  // ---------- the two updates in steps ----------

  function Unlinked(c: Schema, st: State, prev: Option<Entry>): State
  {
    State(
      st.data,
      Unlink(ByExpiry, st.eviction, prev),
      Unlink(ByInvalidation, st.invalidation, prev),
      UnlinkIndexes(c.json, st.indexes, prev),
      Replot(c, st.rtree, prev, None),
      st.rct)
  }

  function Linked(c: Schema, st: State, e: Entry): State
  {
    State(
      st.data,
      Link(ByExpiry, st.eviction, e),
      Link(ByInvalidation, st.invalidation, e),
      RelinkIndexes(c.json, st.indexes, None, e),
      Replot(c, st.rtree, None, Some(e)),
      st.rct)
  }

  function UnlinkedIndex(json: Json, i: IndexState, e: Entry): IndexState
  {
    i.(t := Unlink(i.Ordering(json), i.t, Some(e)))
  }

  function LinkedIndex(json: Json, i: IndexState, e: Entry): IndexState
  {
    i.(t := Link(i.Ordering(json), i.t, e))
  }

  lemma AllUnlinked(json: Json, before: map<string, IndexState>, after: map<string, IndexState>, e: Entry)
    requires after.Keys == before.Keys && forall p :: p in before ==> after[p] == UnlinkedIndex(json, before[p], e)
    ensures after == UnlinkIndexes(json, before, Some(e))
  {
  }

  lemma AllLinked(json: Json, before: map<string, IndexState>, after: map<string, IndexState>, e: Entry)
    requires after.Keys == before.Keys && forall p :: p in before ==> after[p] == LinkedIndex(json, before[p], e)
    ensures after == RelinkIndexes(json, before, None, e)
  {
  }

  lemma AllRemoved(json: Json, before: map<string, IndexState>, after: map<string, IndexState>, e: Entry)
    requires after.Keys == before.Keys && forall p :: p in before ==> after[p] == RemovedFrom(json, before[p], e)
    ensures after == map p | p in before :: RemovedFrom(json, before[p], e)
  {
  }

  lemma AllPut(json: Json, before: map<string, IndexState>, after: map<string, IndexState>, e: Entry)
    requires after.Keys == before.Keys && forall p :: p in before ==> after[p] == PutInto(json, before[p], e)
    ensures after == map p | p in before :: PutInto(json, before[p], e)
  {
  }

  lemma UnlinkedInSteps(c: Schema, st: State, prev: Entry)
    ensures Unlinked(c, st, Some(prev)) == st.(
      eviction := Unlink(ByExpiry, st.eviction, Some(prev)),
      invalidation := Unlink(ByInvalidation, st.invalidation, Some(prev)),
      indexes := UnlinkIndexes(c.json, st.indexes, Some(prev)),
      rtree := Replot(c, st.rtree, Some(prev), None))
  {
  }

  lemma LinkedInSteps(c: Schema, st: State, e: Entry)
    ensures Linked(c, st, e) == st.(
      eviction := Link(ByExpiry, st.eviction, e),
      invalidation := Link(ByInvalidation, st.invalidation, e),
      indexes := RelinkIndexes(c.json, st.indexes, None, e),
      rtree := Replot(c, st.rtree, None, Some(e)))
  {
  }

  lemma UnlinkedNothing(c: Schema, st: State)
    ensures Unlinked(c, st, None) == st
  {
    assert UnlinkIndexes(c.json, st.indexes, None) == st.indexes;
  }

  lemma NothingToUnlink()
    ensures forall o, t :: Unlink(o, t, None) == t
  {
  }

  lemma RelinkSplit(json: Json, indexes: map<string, IndexState>, prev: Option<Entry>, e: Entry)
    ensures RelinkIndexes(json, UnlinkIndexes(json, indexes, prev), None, e) ==
      RelinkIndexes(json, indexes, prev, e)
  {
  }

  lemma InsertInSteps(c: Schema, st: State, e: Entry)
    ensures var replaced := st.(data := st.data[e.k := e], rct := st.rct + 1);
      Insert(c, st, e) == Linked(c, Unlinked(c, replaced, Lookup(st.data, e.k)), e)
      && (e.k !in st.data ==> Insert(c, st, e) == Linked(c, replaced, e))
  {
    var prev := Lookup(st.data, e.k);
    hide Unlink, Link;
    assert RelinkIndexes(c.json, UnlinkIndexes(c.json, st.indexes, prev), None, e) ==
      RelinkIndexes(c.json, st.indexes, prev, e) by { RelinkSplit(c.json, st.indexes, prev, e); }
    NothingToUnlink();
    UnlinkedNothing(c, st.(data := st.data[e.k := e], rct := st.rct + 1));
  }

  lemma DeleteInSteps(c: Schema, st: State, k: string)
    ensures var removed := st.(data := st.data - {k}, rct := st.rct + 1);
      Delete(c, st, k) == Unlinked(c, removed, Lookup(st.data, k))
      && (k !in st.data ==> Delete(c, st, k) == removed)
  {
    UnlinkedNothing(c, st.(data := st.data - {k}, rct := st.rct + 1));
  }

  lemma PreviousHasOptions(c: Schema, st: State, k: string)
    requires StateSound(c, st)
    ensures forall r: EntryRef? :: OptVal(r) == Lookup(st.data, k) ==>
      if r == null then k !in st.data else k in st.data && Lookup(st.data, k) == Some(r.val) && r.val.opts.Some?
  {
  }

  lemma UnplotAt(rt: seq<Entry>, k: string, i: nat)
    requires i <= |rt|
    requires i > 0 ==> rt[i - 1].k != k && Unplot(rt, k) == rt[..i - 1] + Unplot(rt[i - 1..], k)
    ensures Unplot(rt, k) == rt[..i] + Unplot(rt[i..], k)
  {
    if i > 0 {
      assert rt[i - 1..][1..] == rt[i..];
      assert rt[..i] == rt[..i - 1] + [rt[i - 1]];
    } else {
      assert rt[..0] == [] && rt[0..] == rt;
    }
  }

  // ---------- the bucket ----------

  class Bucket {
    const c: Schema
    const fc: FloatCodec
    const persist: bool
    const data: Tree
    const eviction: Tree
    const invalidation: Tree
    var indexes: map<string, Index>
    var rtree: seq<EntryRef>
    var rct: nat
    var file: string
    var pos: nat
    var aofbuf: string
    var open: bool  // the bucket and its database are open
    ghost var trees: set<Tree>  // holds the trees of all indexes

    /** The indexes are sorted and read values as the bucket does; their paths tell them apart. */
    ghost predicate IndexShape()
      reads this`indexes, this`trees, trees
    {
      forall p :: p in indexes ==>
        indexes[p].t in trees && indexes[p].json == c.json && indexes[p].ppath == p && indexes[p].Valid()
    }

    /** The trees are separate, sorted, and kept under the orders their names say. */
    ghost predicate Shape()
      reads this`indexes, this`trees, data, eviction, invalidation, trees
    {
      && data.order == ByKey && eviction.order == ByExpiry && invalidation.order == ByInvalidation
      && data.Valid() && eviction.Valid() && invalidation.Valid()
      && IndexShape()
      && data !in trees && eviction !in trees && invalidation !in trees
    }

    ghost function IndexStates(): map<string, IndexState>
      reads this`indexes, this`trees, trees
    {
      map p | p in indexes && indexes[p].t in trees :: indexes[p].Abs()
    }

    ghost function Abs(): State
      reads this`indexes, this`trees, this`rtree, this`rct, data, eviction, invalidation, trees
    {
      State(View(data.Contents()), eviction.Contents(), invalidation.Contents(), IndexStates(), Vals(rtree), rct)
    }

    ghost predicate Valid()
      reads this`indexes, this`trees, this`rtree, this`rct, this`file, this`pos, data, eviction, invalidation, trees
    {
      Shape() && StateSound(c, Abs()) && pos <= |file|
    }

    function Cfg(): Config
    {
      Config(c, fc, persist)
    }

    /** The bucket with its file, as the steps of a run see it. */
    ghost function Img(): Image
      requires pos <= |file|
      reads this`indexes, this`trees, this`rtree, this`rct, this`file, this`pos, this`aofbuf
      reads data, eviction, invalidation, trees
    {
      ImageFields.Image(Abs(), file, pos, aofbuf)
    }

    /** A flagged entry is one that is due anyway. */
    ghost predicate FlagsSound(now: Instant)
      reads data, data.items
    {
      forall r :: r in data.items && r.invalid ==> Outdated(r.val, now)
    }

    lemma FlagsStaySound(now: Instant, later: Instant)
      requires FlagsSound(now) && now <= later
      ensures FlagsSound(later)
    {
    }

    lemma ValidOf(st: State)
      requires Shape() && Abs() == st && StateSound(c, st) && pos <= |file|
      ensures Valid()
    {
    }

    lemma BeforeInsert(e: Entry)
      requires Valid() && e.opts.Some?
      ensures Shape() && pos <= |file| && StateSound(c, BucketSpec.Insert(c, Abs(), e))
      ensures var replaced := Abs().(data := Abs().data[e.k := e], rct := Abs().rct + 1);
        && BucketSpec.Insert(c, Abs(), e) == Linked(c, Unlinked(c, replaced, Lookup(Abs().data, e.k)), e)
        && (Lookup(Abs().data, e.k) == None ==> BucketSpec.Insert(c, Abs(), e) == Linked(c, replaced, e))
      ensures forall r: EntryRef? :: OptVal(r) == Lookup(Abs().data, e.k) ==>
        if r == null then Lookup(Abs().data, e.k) == None
        else Lookup(Abs().data, e.k) == Some(r.val) && r.val.opts.Some?
    {
      InsertSound(c, Abs(), e);
      InsertInSteps(c, Abs(), e);
      PreviousHasOptions(c, Abs(), e.k);
    }

    lemma BeforeDelete(k: string)
      requires Valid()
      ensures Shape() && pos <= |file| && StateSound(c, BucketSpec.Delete(c, Abs(), k))
      ensures var removed := Abs().(data := Abs().data - {k}, rct := Abs().rct + 1);
        && BucketSpec.Delete(c, Abs(), k) == Unlinked(c, removed, Lookup(Abs().data, k))
        && (Lookup(Abs().data, k) == None ==> BucketSpec.Delete(c, Abs(), k) == removed)
      ensures forall r: EntryRef? :: OptVal(r) == Lookup(Abs().data, k) ==>
        if r == null then Lookup(Abs().data, k) == None else Lookup(Abs().data, k) == Some(r.val) && r.val.opts.Some?
    {
      DeleteSound(c, Abs(), k);
      DeleteInSteps(c, Abs(), k);
      PreviousHasOptions(c, Abs(), k);
    }

    lemma Lengths()
      requires Valid()
      ensures |eviction.items| == |Abs().eviction| && |invalidation.items| == |Abs().invalidation|
      ensures eviction.items != [] ==> eviction.items[0].val == Abs().eviction[0] && eviction.items[0].val.opts.Some?
      ensures invalidation.items != [] ==> invalidation.items[0].val.opts.Some?
    {
      EvictionHead(c, Abs());
      InvalidationHead(c, Abs());
    }

    /** The head of the invalidation tree is due first. */
    lemma DueFirst(now: Instant)
      requires Valid()
      ensures forall r :: r in invalidation.items ==>
        && r.val.opts.Some? && invalidation.items[0].val.opts.Some?
        && invalidation.items[0].val.opts.value.invTime <= r.val.opts.value.invTime
        && (Outdated(r.val, now) <==> r.val.opts.value.doesInv && r.val.opts.value.invTime < now)
    {
      forall r | r in invalidation.items
        ensures r.val.opts.Some? && invalidation.items[0].val.opts.Some?
          && invalidation.items[0].val.opts.value.invTime <= r.val.opts.value.invTime
      {
        var i :| 0 <= i < |invalidation.items| && invalidation.items[i] == r;
        assert invalidation.Contents()[i] == r.val && r.val in invalidation.Contents();
        SoundTimes(c, Abs(), r.val);
      }
    }

    lemma PrimaryInOrder()
      requires Valid()
      ensures data.Contents() == Ascending(Abs().data)
      ensures CompactionDue(Abs()) <==> rct > |data.items| * 10
    {
      ViewAscending(data.Contents());
      ViewCount(data.Contents());
    }

    /** newBucket, not yet open, on a file positioned at its start */
    constructor (c: Schema, fc: FloatCodec, persist: bool, file: string)
      ensures Valid() && Abs() == EMPTY
      ensures this.c == c && this.fc == fc && this.persist == persist
      ensures this.file == file && pos == 0 && aofbuf == "" && !open
      ensures fresh(data) && fresh(eviction) && fresh(invalidation) && indexes == map[] && data.items == []
    {
      this.c, this.fc, this.persist, this.file := c, fc, persist, file;
      data := new Tree(ByKey);
      eviction := new Tree(ByExpiry);
      invalidation := new Tree(ByInvalidation);
      indexes, rtree, rct, pos, aofbuf := map[], [], 0, 0, "";
      trees := {};
      open := false;
    }

    method Get(key: Entry) returns (r: EntryRef?)
      requires Valid()
      ensures OptVal(r) == Lookup(Abs().data, key.k)
      ensures r != null ==> r in data.items
    {
      r := data.Get(key);
      ViewFind(data.Contents(), key);
    }

    // ---------- indexes ----------

    lemma IndexKeys()
      requires Shape()
      ensures Abs().indexes.Keys == indexes.Keys && forall p :: p in indexes ==> indexes[p].t in trees
    {
      hide Sorted;
    }

    method UnlinkIndex(p: string, e: Entry)
      requires Shape() && p in indexes
      modifies indexes[p].t
      ensures Shape() && data.items == old(data.items) && invalidation.items == old(invalidation.items)
      ensures Abs() == old(Abs()).(indexes := old(Abs()).indexes[p := UnlinkedIndex(c.json, old(Abs()).indexes[p], e)])
    {
      hide Sorted, Link, Unlink, Vals, View;
      var _ := indexes[p].Delete(e);
      assert IndexStates() == old(IndexStates())[p := UnlinkedIndex(c.json, old(IndexStates())[p], e)];
    }

    method UnlinkIndexes(e: Entry)
      requires Shape()
      modifies trees
      ensures Shape() && data.items == old(data.items) && invalidation.items == old(invalidation.items)
      ensures Abs() == old(Abs()).(indexes := BucketSpec.UnlinkIndexes(c.json, old(Abs()).indexes, Some(e)))
    {
      hide *;
      IndexKeys();
      var keys := indexes.Keys;
      while keys != {}
        invariant keys <= indexes.Keys == Abs().indexes.Keys == old(Abs()).indexes.Keys
        invariant Shape() && data.items == old(data.items) && invalidation.items == old(invalidation.items)
        invariant Abs() == old(Abs()).(indexes := Abs().indexes)
        invariant forall p :: p in indexes ==>
          Abs().indexes[p] == if p in keys then old(Abs()).indexes[p]
                              else UnlinkedIndex(c.json, old(Abs()).indexes[p], e)
      {
        var p :| p in keys;
        UnlinkIndex(p, e);
        keys := keys - {p};
      }
      AllUnlinked(c.json, old(Abs()).indexes, Abs().indexes, e);
    }

    method LinkIndex(p: string, e: EntryRef)
      requires Shape() && p in indexes
      modifies indexes[p].t
      ensures Shape() && data.items == old(data.items)
      ensures Abs() == old(Abs()).(
        indexes := old(Abs()).indexes[p := LinkedIndex(c.json, old(Abs()).indexes[p], e.val)])
    {
      hide Sorted, Link, Unlink, Vals, View;
      var _ := indexes[p].Insert(e);
      assert IndexStates() == old(IndexStates())[p := LinkedIndex(c.json, old(IndexStates())[p], e.val)];
    }

    method LinkIndexes(e: EntryRef)
      requires Shape()
      modifies trees
      ensures Shape() && data.items == old(data.items)
      ensures Abs() == old(Abs()).(indexes := RelinkIndexes(c.json, old(Abs()).indexes, None, e.val))
    {
      hide *;
      IndexKeys();
      var keys := indexes.Keys;
      while keys != {}
        invariant keys <= indexes.Keys == Abs().indexes.Keys == old(Abs()).indexes.Keys
        invariant Shape() && data.items == old(data.items) && Abs() == old(Abs()).(indexes := Abs().indexes)
        invariant forall p :: p in indexes ==>
          Abs().indexes[p] == if p in keys then old(Abs()).indexes[p]
                              else LinkedIndex(c.json, old(Abs()).indexes[p], e.val)
      {
        var p :| p in keys;
        LinkIndex(p, e);
        keys := keys - {p};
      }
      AllLinked(c.json, old(Abs()).indexes, Abs().indexes, e.val);
    }

    lemma OpenUp()
      requires Valid()
      ensures Shape() && pos <= |file|
    {
    }

    method RebuildIndex(p: string)
      requires Valid() && p in indexes
      modifies indexes[p].t
      ensures Valid() && data.items == old(data.items)
      ensures Abs() == old(Abs()).(
        indexes := old(Abs()).indexes[p := RebuiltIndex(c.json, old(Abs()).indexes[p], old(Abs()).data)])
    {
      RebuiltIndexSound(c, Abs(), p);
      PrimaryInOrder();
      OpenUp();
      hide Sorted, BucketSpec.Build, Vals, View, Ascending, StateSound, Valid;
      indexes[p].Rebuild(data);
      assert IndexStates() == old(IndexStates())[p := RebuiltIndex(c.json, old(IndexStates())[p], old(Abs()).data)];
      ValidOf(old(Abs()).(
        indexes := old(Abs()).indexes[p := RebuiltIndex(c.json, old(Abs()).indexes[p], old(Abs()).data)]));
    }

    /** The rebuild of every index that ends a load. */
    method RebuildIndexes()
      requires Valid()
      modifies trees
      ensures Valid() && Abs() == Rebuilt(c, old(Abs())) && data.items == old(data.items)
    {
      hide *;
      OpenUp();
      IndexKeys();
      var keys := indexes.Keys;
      while keys != {}
        invariant keys <= indexes.Keys == Abs().indexes.Keys == old(Abs()).indexes.Keys
        invariant Valid() && Abs() == old(Abs()).(indexes := Abs().indexes) && data.items == old(data.items)
        invariant forall p :: p in indexes ==>
          Abs().indexes[p] == if p in keys then old(Abs()).indexes[p]
                              else RebuiltIndex(c.json, old(Abs()).indexes[p], old(Abs()).data)
      {
        var p :| p in keys;
        RebuildIndex(p);
        keys := keys - {p};
      }
      AllRebuilt(c, old(Abs()), Abs());
    }

    lemma BeforeCreate(pattern: string, vtype: IndexValueType)
      requires Valid()
      ensures Shape() && pos <= |file| && StateSound(c, Created(c, Abs(), pattern, vtype))
      ensures pattern in indexes <==> pattern in Abs().indexes
      ensures pattern in indexes ==> Created(c, Abs(), pattern, vtype) == Abs()
      ensures pattern !in indexes ==> Created(c, Abs(), pattern, vtype) == Abs().(indexes := Abs().indexes[
        pattern := IndexState(pattern, vtype, BucketSpec.Build(ByField(c.json, pattern, vtype), data.Contents()))])
    {
      CreatedSound(c, Abs(), pattern, vtype);
      PrimaryInOrder();
    }

    method Install(pattern: string, index: Index)
      requires Shape() && pattern !in indexes
      requires index.json == c.json && index.ppath == pattern && index.Valid()
      requires index.t !in trees && index.t != data && index.t != eviction && index.t != invalidation
      modifies this`indexes, this`trees
      ensures Shape() && Abs() == old(Abs()).(indexes := old(Abs()).indexes[pattern := index.Abs()])
      ensures trees == old(trees) + {index.t}
    {
      hide Sorted, Vals, View, Tree.Contents, Index.Abs;
      indexes := indexes[pattern := index];
      trees := trees + {index.t};
      assert IndexStates() == old(IndexStates())[pattern := index.Abs()];
    }

    /** CreateIndex: an error if the index exists. */
    method CreateIndex(pattern: string, vtype: IndexValueType) returns (ok: bool)
      requires Valid()
      modifies this`indexes, this`trees
      ensures Valid() && Abs() == Created(c, old(Abs()), pattern, vtype)
      ensures ok <==> pattern !in old(Abs()).indexes
      ensures fresh(trees - old(trees))
    {
      hide *;
      BeforeCreate(pattern, vtype);
      if pattern in indexes {
        return false;
      }
      var index := new Index(c.json, pattern, vtype);
      index.Build(data);
      Install(pattern, index);
      ValidOf(Created(c, old(Abs()), pattern, vtype));
      return true;
    }

    lemma DropSound(pattern: string)
      requires Valid()
      ensures StateSound(c, Abs().(indexes := Abs().indexes - {pattern}))
    {
    }

    method Uninstall(pattern: string)
      requires Shape()
      modifies this`indexes
      ensures Shape() && Abs() == old(Abs()).(indexes := old(Abs()).indexes - {pattern})
    {
      hide Sorted, Vals, View;
      indexes := indexes - {pattern};
      assert IndexStates() == old(IndexStates()) - {pattern};
    }

    /** DropIndex: an error if the index does not exist. */
    method DropIndex(pattern: string) returns (ok: bool)
      requires Valid()
      modifies this`indexes
      ensures Valid() && Abs() == old(Abs()).(indexes := old(Abs()).indexes - {pattern})
      ensures ok <==> pattern in old(Abs()).indexes
    {
      hide *;
      OpenUp();
      IndexKeys();
      DropSound(pattern);
      ok := pattern in indexes;
      Uninstall(pattern);
      ValidOf(old(Abs()).(indexes := old(Abs()).indexes - {pattern}));
    }

    // ---------- the R-tree ----------

    method DeleteWithComparator(e: Entry)
      modifies this`rtree
      ensures Vals(rtree) == Unplot(old(Vals(rtree)), e.k)
    {
      var i := 0;
      UnplotAt(Vals(rtree), e.k, 0);
      while i < |rtree| && rtree[i].val.k != e.k
        invariant i <= |rtree| && rtree == old(rtree)
        invariant Unplot(Vals(rtree), e.k) == Vals(rtree)[..i] + Unplot(Vals(rtree)[i..], e.k)
      {
        UnplotAt(Vals(rtree), e.k, i + 1);
        i := i + 1;
      }
      if i < |rtree| {
        assert Vals(rtree)[i..][1..] == Vals(rtree)[i + 1..];
        rtree := rtree[..i] + rtree[i + 1..];
      } else {
        assert Vals(rtree)[i..] == [];
        assert Vals(rtree)[..i] == Vals(rtree);
      }
    }

    // ---------- insert and delete ----------

    method UnlinkTimes(prev: EntryRef)
      requires Shape() && prev.val.opts.Some?
      modifies eviction, invalidation
      ensures Shape() && data.items == old(data.items)
      ensures forall r :: r in invalidation.items ==> r in old(invalidation.items)
      ensures Abs() == old(Abs()).(
        eviction := Unlink(ByExpiry, old(Abs()).eviction, Some(prev.val)),
        invalidation := Unlink(ByInvalidation, old(Abs()).invalidation, Some(prev.val)))
    {
      hide Sorted, Remove, Vals, View;
      if prev.val.opts.value.doesExp {
        var _ := eviction.Delete(prev.val);
      }
      if prev.val.opts.value.doesInv {
        var _ := invalidation.Delete(prev.val);
      }
      assert IndexStates() == old(IndexStates());
    }

    method LinkTimes(e: EntryRef)
      requires Shape() && e.val.opts.Some?
      modifies eviction, invalidation
      ensures Shape() && data.items == old(data.items)
      ensures Abs() == old(Abs()).(
        eviction := Link(ByExpiry, old(Abs()).eviction, e.val),
        invalidation := Link(ByInvalidation, old(Abs()).invalidation, e.val))
    {
      hide Sorted, Put, Vals, View;
      if e.val.opts.value.doesExp {
        var _ := eviction.ReplaceOrInsert(e);
      }
      if e.val.opts.value.doesInv {
        var _ := invalidation.ReplaceOrInsert(e);
      }
      assert IndexStates() == old(IndexStates());
    }

    method UnplotEntry(prev: Entry)
      requires Shape()
      modifies this`rtree
      ensures Shape() && Abs() == old(Abs()).(rtree := Replot(c, old(Abs()).rtree, Some(prev), None))
    {
      hide View;
      if c.geo {
        if c.json.Has(prev.v, "coords") {
          DeleteWithComparator(prev);
        }
      }
    }

    method PlotEntry(e: EntryRef)
      requires Shape()
      modifies this`rtree
      ensures Shape() && Abs() == old(Abs()).(rtree := Replot(c, old(Abs()).rtree, None, Some(e.val)))
    {
      hide View;
      if c.geo {
        if c.json.Has(e.val.v, "coords") {
          rtree := rtree + [e];
        }
      }
    }

    /** Takes a replaced or deleted entry out of the derived trees. */
    method UnlinkAll(prev: EntryRef)
      requires Shape() && prev.val.opts.Some?
      modifies this`rtree, eviction, invalidation, trees
      ensures Shape() && data.items == old(data.items)
      ensures forall r :: r in invalidation.items ==> r in old(invalidation.items)
      ensures Abs() == Unlinked(c, old(Abs()), Some(prev.val))
    {
      UnlinkedInSteps(c, Abs(), prev.val);
      hide *;
      UnlinkTimes(prev);
      UnlinkIndexes(prev.val);
      UnplotEntry(prev.val);
    }

    /** Puts a new entry into the derived trees. */
    method LinkAll(e: EntryRef)
      requires Shape() && e.val.opts.Some?
      modifies this`rtree, eviction, invalidation, trees
      ensures Shape() && data.items == old(data.items)
      ensures Abs() == Linked(c, old(Abs()), e.val)
    {
      LinkedInSteps(c, Abs(), e.val);
      hide *;
      LinkTimes(e);
      LinkIndexes(e);
      PlotEntry(e);
    }

    /** Puts a new entry into the primary tree alone. */
    method ReplaceInData(e: EntryRef) returns (prev: EntryRef?)
      requires Shape()
      modifies this`rct, data
      ensures Shape() && Abs() == old(Abs()).(data := old(Abs()).data[e.val.k := e.val], rct := old(Abs()).rct + 1)
      ensures OptVal(prev) == Lookup(old(Abs()).data, e.val.k)
      ensures prev != null ==> prev in old(data.items)
      ensures forall r :: r in data.items ==> r == e || r in old(data.items)
    {
      hide Put, Find, View;
      ViewFind(data.Contents(), e.val);
      ViewPut(data.Contents(), e.val);
      hide Sorted, Vals;
      prev := data.ReplaceOrInsert(e);
      rct := rct + 1;
      assert IndexStates() == old(IndexStates());
    }

    /** Takes an entry out of the primary tree alone. */
    method DeleteFromData(key: Entry) returns (prev: EntryRef?)
      requires Shape()
      modifies this`rct, data
      ensures Shape() && Abs() == old(Abs()).(data := old(Abs()).data - {key.k}, rct := old(Abs()).rct + 1)
      ensures OptVal(prev) == Lookup(old(Abs()).data, key.k)
      ensures prev != null ==> prev in old(data.items)
      ensures forall r :: r in data.items ==> r in old(data.items)
      ensures invalidation.items == old(invalidation.items)
    {
      hide Remove, Find, View;
      ViewFind(data.Contents(), key);
      ViewRemove(data.Contents(), key);
      hide Sorted, Vals;
      prev := data.Delete(key);
      rct := rct + 1;
      assert IndexStates() == old(IndexStates());
    }

    method Insert(e: EntryRef) returns (prev: EntryRef?)
      requires Valid() && e.val.opts.Some?
      modifies this`rct, this`rtree, data, eviction, invalidation, trees
      ensures Valid() && Abs() == BucketSpec.Insert(c, old(Abs()), e.val)
      ensures OptVal(prev) == Lookup(old(Abs()).data, e.val.k)
      ensures prev != null ==> prev in old(data.items)
      ensures forall r :: r in data.items ==> r == e || r in old(data.items)
    {
      hide *;
      BeforeInsert(e.val);
      prev := ReplaceInData(e);
      if prev != null {
        UnlinkAll(prev);
      }
      LinkAll(e);
      ValidOf(BucketSpec.Insert(c, old(Abs()), e.val));
    }

    method Delete(key: Entry) returns (prev: EntryRef?)
      requires Valid()
      modifies this`rct, this`rtree, data, eviction, invalidation, trees
      ensures Valid() && Abs() == BucketSpec.Delete(c, old(Abs()), key.k)
      ensures OptVal(prev) == Lookup(old(Abs()).data, key.k)
      ensures prev != null ==> prev in old(data.items)
      ensures forall r :: r in data.items ==> r in old(data.items)
      ensures forall r :: r in invalidation.items ==> r in old(invalidation.items)
    {
      hide *;
      BeforeDelete(key.k);
      prev := DeleteFromData(key);
      if prev != null {
        UnlinkAll(prev);
      }
      ValidOf(BucketSpec.Delete(c, old(Abs()), key.k));
    }

    // ---------- rollback ----------

    method RemoveFromIndex(p: string, e: Entry)
      requires Shape() && p in indexes
      modifies indexes[p].t
      ensures Shape() && data.items == old(data.items)
      ensures Abs() == old(Abs()).(indexes := old(Abs()).indexes[p := RemovedFrom(c.json, old(Abs()).indexes[p], e)])
    {
      hide Sorted, Put, Remove, Find, Vals, View;
      var _ := indexes[p].t.Delete(e);
      assert IndexStates() == old(IndexStates())[p := RemovedFrom(c.json, old(IndexStates())[p], e)];
    }

    method RemoveFromIndexes(e: Entry)
      requires Shape()
      modifies trees
      ensures Shape() && data.items == old(data.items)
      ensures Abs() == old(Abs()).(
        indexes := map p | p in old(Abs()).indexes :: RemovedFrom(c.json, old(Abs()).indexes[p], e))
    {
      hide *;
      IndexKeys();
      var keys := indexes.Keys;
      while keys != {}
        invariant keys <= indexes.Keys == Abs().indexes.Keys == old(Abs()).indexes.Keys
        invariant Shape() && data.items == old(data.items) && Abs() == old(Abs()).(indexes := Abs().indexes)
        invariant forall p :: p in indexes ==>
          Abs().indexes[p] == if p in keys then old(Abs()).indexes[p] else RemovedFrom(c.json, old(Abs()).indexes[p], e)
      {
        var p :| p in keys;
        RemoveFromIndex(p, e);
        keys := keys - {p};
      }
      AllRemoved(c.json, old(Abs()).indexes, Abs().indexes, e);
    }

    method PutInIndex(p: string, e: EntryRef)
      requires Shape() && p in indexes
      modifies indexes[p].t
      ensures Shape() && data.items == old(data.items)
      ensures Abs() == old(Abs()).(indexes := old(Abs()).indexes[p := PutInto(c.json, old(Abs()).indexes[p], e.val)])
    {
      hide Sorted, Put, Remove, Find, Vals, View;
      var _ := indexes[p].t.ReplaceOrInsert(e);
      assert IndexStates() == old(IndexStates())[p := PutInto(c.json, old(IndexStates())[p], e.val)];
    }

    method PutInIndexes(e: EntryRef)
      requires Shape()
      modifies trees
      ensures Shape() && data.items == old(data.items)
      ensures Abs() == old(Abs()).(
        indexes := map p | p in old(Abs()).indexes :: PutInto(c.json, old(Abs()).indexes[p], e.val))
    {
      hide *;
      IndexKeys();
      var keys := indexes.Keys;
      while keys != {}
        invariant keys <= indexes.Keys == Abs().indexes.Keys == old(Abs()).indexes.Keys
        invariant Shape() && data.items == old(data.items) && Abs() == old(Abs()).(indexes := Abs().indexes)
        invariant forall p :: p in indexes ==>
          Abs().indexes[p] == if p in keys then old(Abs()).indexes[p] else PutInto(c.json, old(Abs()).indexes[p], e.val)
      {
        var p :| p in keys;
        PutInIndex(p, e);
        keys := keys - {p};
      }
      AllPut(c.json, old(Abs()).indexes, Abs().indexes, e.val);
    }

    lemma BeforeRestore(k: string, e: EntryRef?)
      requires Valid() && (e != null ==> e.val.k == k && e.val.opts.Some?)
      ensures Probe(k).k == k
      ensures StateSound(c, TxSpec.RestoreOne(c, Abs(), k, OptVal(e)))
      ensures var r := TxSpec.RestoreOne(c, Abs(), k, OptVal(e));
        if e == null then
          var s := BucketSpec.Delete(c, Abs(), k);
          r == s.(indexes := map p | p in s.indexes :: RemovedFrom(c.json, s.indexes[p], Probe(k)))
        else
          var s := BucketSpec.Insert(c, Abs(), e.val);
          r == s.(indexes := map p | p in s.indexes :: PutInto(c.json, s.indexes[p], e.val))
    {
      hide BucketSpec.Delete, BucketSpec.Insert, StateSound, Put, Remove;
      RestoreOneSound(c, Abs(), k, OptVal(e));
    }

    /** One round of the rollback loop. */
    method RestoreOne(k: string, e: EntryRef?)
      requires Valid() && (e != null ==> e.val.k == k && e.val.opts.Some?)
      modifies this`rct, this`rtree, data, eviction, invalidation, trees
      ensures Valid() && Abs() == TxSpec.RestoreOne(c, old(Abs()), k, OptVal(e))
      ensures forall r :: r in data.items ==> r == e || r in old(data.items)
    {
      hide *;
      BeforeRestore(k, e);
      if e == null {
        var _ := Delete(Probe(k));
        OpenUp();
        RemoveFromIndexes(Probe(k));
      } else {
        var _ := Insert(e);
        OpenUp();
        PutInIndexes(e);
      }
      ValidOf(TxSpec.RestoreOne(c, old(Abs()), k, OptVal(e)));
    }

    // ---------- the manager ----------

    /** Deletes the least entry of the eviction tree if it has expired. */
    method EvictMin(now: Instant)
      requires Valid() && eviction.items != []
      modifies this`rct, this`rtree, data, eviction, invalidation, trees
      ensures Valid()
      ensures Abs() ==
        if Expired(old(Abs()).eviction[0], now) then BucketSpec.Delete(c, old(Abs()), old(Abs()).eviction[0].k)
        else old(Abs())
      ensures |eviction.items| == |Abs().eviction|
      ensures forall r :: r in data.items ==> r in old(data.items)
      ensures forall r :: r in invalidation.items ==> r in old(invalidation.items)
      ensures old(FlagsSound(now)) ==> FlagsSound(now)
    {
      hide Valid, Abs, BucketSpec.Delete;
      Lengths();
      var eitem := eviction.Min();
      var expired := eitem.IsExpired(now);
      if expired {
        var _ := Delete(eitem.val);
      }
      Lengths();
    }

    /** Deletes expired entries, earliest first, while the index stays below the shrinking length. */
    method EvictPass(now: Instant)
      requires Valid()
      modifies this`rct, this`rtree, data, eviction, invalidation, trees
      ensures Valid() && Abs() == Evict(c, old(Abs()), now)
      ensures forall r :: r in data.items ==> r in old(data.items)
      ensures forall r :: r in invalidation.items ==> r in old(invalidation.items)
      ensures old(FlagsSound(now)) ==> FlagsSound(now)
    {
      hide *;
      Lengths();
      EvictFromStart(c, Abs(), now);
      var i := 0;
      while i < |eviction.items|
        invariant Valid() && EvictFrom(c, Abs(), i, now) == Evict(c, old(Abs()), now)
        invariant |eviction.items| == |Abs().eviction|
        invariant forall r :: r in data.items ==> r in old(data.items)
        invariant forall r :: r in invalidation.items ==> r in old(invalidation.items)
        invariant old(FlagsSound(now)) ==> FlagsSound(now)
        decreases |eviction.items| - i
      {
        EvictFromStep(c, Abs(), i, now);
        EvictMin(now);
        i := i + 1;
      }
      EvictFromEnd(c, Abs(), i, now);
    }

    /** Flags the least entry of the invalidation tree if it is due. */
    method FlagMin(now: Instant)
      requires Valid() && invalidation.items != []
      modifies {invalidation.items[0]}`invalid
      ensures Valid() && Abs() == old(Abs())
      ensures invalidation.items[0].invalid ==
        (old(invalidation.items[0].invalid) || Outdated(invalidation.items[0].val, now))
      ensures old(FlagsSound(now)) ==> FlagsSound(now)
    {
      hide Valid, Abs, Outdated;
      Lengths();
      var eitem := invalidation.Min();
      eitem.FlagIfDue(now);
    }

    /** Looks at the least entry of the invalidation tree, over and over, and flags it when it is due. */
    method InvalidatePass(now: Instant)
      requires Valid()
      modifies (set r | r in invalidation.items)`invalid
      ensures Valid() && Abs() == old(Abs())
      ensures forall r :: r in invalidation.items ==>
        r.invalid == (old(r.invalid) || (r == invalidation.items[0] && Outdated(r.val, now)))
      ensures forall r :: r in invalidation.items ==>
        && r.val.opts.Some? && invalidation.items[0].val.opts.Some?
        && invalidation.items[0].val.opts.value.invTime <= r.val.opts.value.invTime
        && (Outdated(r.val, now) <==> r.val.opts.value.doesInv && r.val.opts.value.invTime < now)
      ensures old(FlagsSound(now)) ==> FlagsSound(now)
    {
      hide *;
      DueFirst(now);
      for i := 0 to |invalidation.items|
        invariant Valid() && Abs() == old(Abs())
        invariant old(FlagsSound(now)) ==> FlagsSound(now)
        invariant forall r :: r in invalidation.items ==>
          r.invalid == (old(r.invalid) || (i > 0 && r == invalidation.items[0] && Outdated(r.val, now)))
      {
        FlagMin(now);
      }
    }

    /** Appends to the file where it stands. */
    method Write(bytes: string)
      requires pos <= |file|
      modifies this`file, this`pos
      ensures file == WriteAt(old(file), old(pos), bytes) && pos == old(pos) + |bytes| <= |file|
    {
      file := WriteAt(file, pos, bytes);
      pos := pos + |bytes|;
    }

    /** writeInsertEntry and writeDeleteEntry */
    method AppendToBuffer(stmt: string)
      modifies this`aofbuf
      ensures aofbuf == old(aofbuf) + stmt
    {
      aofbuf := aofbuf + stmt;
    }

    /** A new file in place of the old one, written from its start. */
    method Replace(bytes: string)
      requires Valid()
      modifies this`file, this`pos
      ensures Valid() && Abs() == old(Abs()) && file == bytes && pos == 0
    {
      hide Shape, Abs, StateSound;
      file, pos := bytes, 0;
    }

    /** writeAOFBuf, and the flush of the manager */
    method WriteAOFBuf()
      requires Valid()
      modifies this`file, this`pos, this`aofbuf
      ensures Valid() && Abs() == old(Abs())
      ensures if persist
        then file == WriteAt(old(file), old(pos), old(aofbuf)) && pos == old(pos) + |old(aofbuf)| && aofbuf == ""
        else file == old(file) && pos == old(pos) && aofbuf == old(aofbuf)
    {
      hide Shape, Abs, StateSound;
      assert WriteAt(file, pos, "") == file;
      hide WriteAt;
      if persist {
        if |aofbuf| > 0 {
          Write(aofbuf);
          aofbuf := "";
        }
      }
    }

    lemma CompactedFileIs(items: seq<Entry>)
      requires items == Ascending(Abs().data)
      ensures CompactedFile(fc, Abs().data) == Chunk(fc, items, 0, Flushed(fc, items, |items|))
    {
    }

    /** The file becomes the part of the stream that was flushed, and is written from its start again. */
    method CompactLog()
      requires Valid()
      modifies this`file, this`pos
      ensures Valid() && Abs() == old(Abs())
      ensures file == CompactedFile(fc, old(Abs()).data) && pos == 0
    {
      hide *;
      PrimaryInOrder();
      CompactedFileIs(data.Contents());
      var tmp, buf := Stream(fc, data.Contents());
      Replace(tmp);
    }

    lemma ImgIs()
      requires Valid()
      ensures pos <= |file| && Img() == ImageFields.Image(Abs(), file, pos, aofbuf)
      ensures Cfg() == Config(c, fc, persist)
    {
    }

    /** One cycle of the manager: a step of a run. */
    method Manage(now: Instant)
      requires Valid()
      modifies this`rct, this`rtree, this`file, this`pos, this`aofbuf, data, eviction, invalidation, trees
      modifies (set r | r in invalidation.items)`invalid
      ensures Valid() && Img() == Moved(Cfg(), old(Img()), Step.Manage(now))
      ensures Abs() == Evict(c, old(Abs()), now)
      ensures persist ==> aofbuf == ""
      ensures persist && old(Abs()).rct <= 10 * |old(Abs()).data| ==>
        file == WriteAt(old(file), old(pos), old(aofbuf)) && pos == old(pos) + |old(aofbuf)|
      ensures persist && old(Abs()).rct > 10 * |old(Abs()).data| ==>
        file == CompactedFile(fc, old(Abs()).data) && pos == 0
      ensures !persist ==> file == old(file) && pos == old(pos) && aofbuf == old(aofbuf)
      ensures forall r :: r in invalidation.items ==> r in old(invalidation.items)
      ensures forall r :: r in old(invalidation.items) && r in invalidation.items ==>
        r.invalid == (old(r.invalid) || (r == invalidation.items[0] && Outdated(r.val, now)))
      ensures old(FlagsSound(now)) ==> FlagsSound(now)
    {
      hide *;
      ImgIs();
      PrimaryInOrder();
      WriteAOFBuf();
      if persist {
        if rct > |data.items| * 10 {
          CompactLog();
        }
      }
      EvictPass(now);
      InvalidatePass(now);
      MovedByManage(Cfg(), old(Img()), now);
      DueMeaning(old(Abs()));
      ImgIs();
    }

    // ---------- loading ----------

    method ApplyOne(s: Stmt)
      requires Valid() && s.e.opts.Some?
      modifies this`rct, this`rtree, data, eviction, invalidation, trees
      ensures Valid() && Abs() == Apply(c, old(Abs()), s)
      ensures forall r :: r in data.items ==> r in old(data.items) || (fresh(r) && !r.invalid)
    {
      hide Valid, Abs, BucketSpec.Insert, BucketSpec.Delete;
      var nentry := new EntryRef(s.e);
      if s.kind.Inserting? {
        var _ := Insert(nentry);
      } else {
        var _ := Delete(nentry.val);
      }
    }

    /** Applies parsed statements in order, up to the first that does not parse. */
    method ApplyBatch(entries: seq<string>) returns (error: Option<LoadError>)
      requires Valid()
      modifies this`rct, this`rtree, data, eviction, invalidation, trees
      ensures Valid() && Abs() == ApplyAll(c, old(Abs()), ParseAll(fc, c.json, entries).stmts)
      ensures forall r :: r in data.items ==> r in old(data.items) || (fresh(r) && !r.invalid)
      ensures error == ParseAll(fc, c.json, entries).error
    {
      hide Valid, Abs, Parse, ParseAll, ApplyAll, Apply;
      ApplyNothing(fc, c, Abs());
      for i := 0 to |entries|
        invariant Valid() && ParseAll(fc, c.json, entries[..i]).error == None
        invariant Abs() == ApplyAll(c, old(Abs()), ParseAll(fc, c.json, entries[..i]).stmts)
        invariant forall r :: r in data.items ==> r in old(data.items) || (fresh(r) && !r.invalid)
      {
        ParseNext(fc, c, old(Abs()), entries, i);
        match Parse(fc, c.json, entries[i])
        case Failure(e) =>
          return Some(BadStatement(e));
        case Success(s) =>
          ApplyOne(s);
      }
      assert entries[..|entries|] == entries;
      return None;
    }

    method AtEnd()
      requires Valid()
      modifies this`pos
      ensures Valid() && Abs() == old(Abs()) && pos == |file|
    {
      hide Shape, Abs, StateSound;
      pos := |file|;
    }

    /** loadBucketFile: batches of up to 1024 statements are read and then applied; a read error inside a length
        line gives up before applying the batch in hand, one inside a statement after. */
    method LoadBucketFile() returns (error: Option<LoadError>)
      requires Valid() && pos == 0
      modifies this`rct, this`rtree, this`pos, data, eviction, invalidation, trees
      ensures Valid() && error == Load(fc, c.json, file).error
      ensures Abs() == AfterLoad(c, old(Abs()), Load(fc, c.json, file))
      ensures forall r :: r in data.items ==> r in old(data.items) || (fresh(r) && !r.invalid)
      ensures error.None? ==> pos == |file|
      ensures error.Some? ==> Abs() == ApplyAll(c, old(Abs()), Load(fc, c.json, file).stmts)
      ensures error.None? ==>
        forall p :: p in Abs().indexes ==>
          Abs().indexes[p].t == Build(Abs().indexes[p].Ordering(c.json), Ascending(Abs().data))
    {
      ghost var st := Abs();
      var rest := file;
      ghost var done: seq<Option<string>> := [];
      StartOfLoad(fc, c, st, file);
      hide Valid, Abs, Frames, TailOf, Payloads, ParseAll, ApplyAll, Rebuilt, Load, Delivered, Build, Ascending;
      while true
        invariant Valid() && |done| % 1024 == 0
        invariant Frames(file) == done + Frames(rest) && TailOf(file) == TailOf(rest)
        invariant Progress(fc, c, st, Abs(), done)
        invariant forall r :: r in data.items ==> r in old(data.items) || (fresh(r) && !r.invalid)
        decreases |rest|
      {
        var entries, more, end, batch := ReadBatch(rest);
        assert done + (batch + Frames(more)) == done + batch + Frames(more);
        DeliveredByBatch(file, done, batch, more);
        if end == Some(TornLength) || end == Some(BadLength) {
          FinishLoad(fc, c, st, Abs(), file, done);
          return Some(ReadFailed);
        }
        ghost var before := Abs();
        error := ApplyBatch(entries);
        BatchApplied(fc, c, st, before, Abs(), done, batch);
        if error.Some? {
          StoppedLoad(fc, c, st, Abs(), file, done + batch);
          return;
        }
        if end == Some(Clean) || end == Some(MissingPayload) {
          break;
        }
        if end == Some(TornPayload) {
          FinishLoad(fc, c, st, Abs(), file, done + batch);
          return Some(ReadFailed);
        }
        done := done + batch;
        rest := more;
      }
      FinishLoad(fc, c, st, Abs(), file, Delivered(file));
      RebuiltMeaning(c, Abs());
      RebuildIndexes();
      AtEnd();
      return None;
    }

    lemma NothingFlagged()
      requires forall r :: r in data.items ==> !r.invalid
      ensures forall t :: FlagsSound(t)
    {
    }

    /** openBucket: on a file of the written statements `ss` the bucket is where a run starts, and no flag is
        set. */
    method Open(ghost ss: seq<Stmt>, ghost now: Instant) returns (error: Option<LoadError>)
      requires Valid() && Abs() == EMPTY && data.items == [] && pos == 0 && aofbuf == ""
      modifies this`open, this`rct, this`rtree, this`pos, data, eviction, invalidation, trees
      ensures Valid() && open && forall r :: r in data.items ==> fresh(r) && !r.invalid
      ensures forall t :: FlagsSound(t)
      ensures error == if persist then Load(fc, c.json, file).error else None
      ensures Abs() == if persist then AfterLoad(c, EMPTY, Load(fc, c.json, file)) else EMPTY
      ensures persist && fc.Faithful() && AllWritable(fc, ss) && file == EncodeAll(fc, ss) ==>
        error.None? && Img() == Opened(Cfg(), ss, now).im
    {
      hide *;
      open := true;
      if persist {
        error := LoadBucketFile();
        if fc.Faithful() && AllWritable(fc, ss) && file == EncodeAll(fc, ss) {
          ImgIs();
          StartOfRun(Cfg(), ss, now);
        }
      } else {
        error := None;
      }
      NothingFlagged();
    }
  }
}
