/** Indexes over whole transactions (index.go, tx.go:60-74): when they are exactly the live entries having the
    field, and when a rollback spoils that. */
module IndexSpec {
  import opened Prelude
  import opened Entries
  import opened Trees
  import opened BucketSpec
  import opened TxSpec

  /** Where a bare probe lands in an index: the rank of a missing field. */
  function ProbeRank(o: Order): Rank
  {
    RankOf(o, Probe(""))
  }

  /** An entry with the field reads like a missing one if what the index compares is zero, or no text. */
  lemma ProbeMeaning(json: Json, p: string, vtype: IndexValueType, e: Entry)
    requires json.get("", p).None? && json.get(e.v, p).Some?
    ensures var o, f := ByField(json, p, vtype), json.get(e.v, p).value;
      RankOf(o, e) == ProbeRank(o) <==>
        || (vtype == IntIndex && f.asInt == 0)
        || (vtype == UintIndex && f.asUint == 0)
        || ((vtype == FloatIndex || vtype == StringIndex) && f.asFloat == 0.0)
        || (vtype == OtherIndex && f.asString == "")
  {
  }

  // ---------- one index during a rollback ----------

  function RestoreInTree(o: Order, d: map<string, Entry>, t: seq<Entry>, k: string, change: Option<Entry>): seq<Entry>
  {
    match change
    case None => Remove(o, Unlink(o, t, Lookup(d, k)), Probe(k))
    case Some(e) => Put(o, Relink(o, t, Lookup(d, e.k), e), e)
  }

  function RestoreTree(o: Order, d: map<string, Entry>, t: seq<Entry>, m: Changes, order: seq<string>): seq<Entry>
    requires forall k :: k in order ==> k in m
  {
    if order == [] then t
    else
      var init, last := order[..|order| - 1], order[|order| - 1];
      RestoreInTree(o, Patch(d, m, init), RestoreTree(o, d, t, m, init), last, m[last])
  }

  /** Rolling back a bucket treats each of its indexes on its own. */
  lemma {:induction false} RestoreByIndex(c: Schema, st: State, m: Changes, order: seq<string>, p: string)
    requires KeyedChanges(m) && p in st.indexes
    requires forall k :: k in order ==> k in m
    ensures Restore(c, st, m, order).data == Patch(st.data, m, order)
    ensures Restore(c, st, m, order).indexes.Keys == st.indexes.Keys
    ensures Restore(c, st, m, order).indexes[p] ==
      st.indexes[p].(t := RestoreTree(st.indexes[p].Ordering(c.json), st.data, st.indexes[p].t, m, order))
  {
    if order == [] {
    } else {
      RestoreByIndex(c, st, m, order[..|order| - 1], p);
    }
  }

  lemma RestoreInTreeMembers(o: Order, d: map<string, Entry>, t: seq<Entry>, k: string, change: Option<Entry>)
    requires Sorted(o, t) && o.ByField?
    requires change.Some? ==> change.value.k == k
    ensures Sorted(o, RestoreInTree(o, d, t, k, change))
    ensures forall y :: y in RestoreInTree(o, d, t, k, change) <==>
      || change == Some(y)
      || (y in Unlink(o, t, Lookup(d, k))
          && RankOf(o, y) != if change.Some? then RankOf(o, change.value) else ProbeRank(o))
  {
    var u := Unlink(o, t, Lookup(d, k));
    match change
    case None =>
      RelinkMembers(o, t, Lookup(d, k), Probe(k));
      RemoveMembers(o, u, Probe(k));
      RemoveSorted(o, u, Probe(k));
    case Some(e) =>
      RelinkMembers(o, t, Lookup(d, k), e);
      PutMembers(o, Relink(o, t, Lookup(d, k), e), e);
      PutSorted(o, Relink(o, t, Lookup(d, k), e), e);
  }

  /** Undoing an insert keeps an exact index exact precisely when no other live entry reads like a missing
      field. */
  lemma UndoInsertExact(o: Order, d: map<string, Entry>, t: seq<Entry>, k: string)
    requires o.ByField? && Keyed(d) && Exact(o, d, t)
    ensures Exact(o, d - {k}, RestoreInTree(o, d, t, k, None)) <==>
      forall j :: j in d && j != k && Member(o, d[j]) ==> RankOf(o, d[j]) != ProbeRank(o)
  {
    hide RankOf, Remove, Unlink;
    UnlinkExact(o, d, t, k);
    RestoreInTreeMembers(o, d, t, k, None);
    var t' := RestoreInTree(o, d, t, k, None);
    if j :| j in d && j != k && Member(o, d[j]) && RankOf(o, d[j]) == ProbeRank(o) {
      assert (d - {k})[j] == d[j] && d[j] !in t';
    }
  }

  /** Undoing an overwrite or a delete keeps an exact index exact precisely when the restored entry has the
      field and collides with no other live entry. */
  lemma UndoOverwriteExact(o: Order, d: map<string, Entry>, t: seq<Entry>, e: Entry)
    requires o.ByField? && Keyed(d) && Exact(o, d, t)
    ensures Exact(o, d[e.k := e], RestoreInTree(o, d, t, e.k, Some(e))) <==> Member(o, e) && ClashFree(o, d, e)
  {
    RelinkExact(o, d, t, e);
    RelinkMembers(o, t, Lookup(d, e.k), e);
    RestoreInTreeMembers(o, d, t, e.k, Some(e));
    var t' := RestoreInTree(o, d, t, e.k, Some(e));
    assert e in t';
    if Member(o, e) {
      SortedUnique(o, t', Relink(o, t, Lookup(d, e.k), e));
    }
  }

  // ---------- a whole rollback ----------

  ghost predicate Within(u: set<Entry>, d: map<string, Entry>)
  {
    forall k :: k in d ==> d[k] in u
  }

  /** No two keys ever carry the same value of the field. */
  ghost predicate DistinctRanks(o: Order, u: set<Entry>)
  {
    forall x, y :: x in u && y in u && Member(o, x) && Member(o, y) && RankOf(o, x) == RankOf(o, y) ==> x.k == y.k
  }

  /** Every entry a rollback puts back has the field, and, if it undoes an insert, nothing left live reads like
      a missing field. */
  ghost predicate SafeToRestore(o: Order, d: map<string, Entry>, m: Changes)
  {
    && (forall k :: k in m && m[k].Some? ==> Member(o, m[k].value))
    && ((exists k :: k in m && m[k].None?) ==>
          && (forall k :: k in m && m[k].Some? ==> RankOf(o, m[k].value) != ProbeRank(o))
          && (forall k :: k in d && k !in m && Member(o, d[k]) ==> RankOf(o, d[k]) != ProbeRank(o)))
  }

  ghost predicate WithinChanges(u: set<Entry>, m: Changes)
  {
    forall k :: k in m && m[k].Some? ==> m[k].value in u
  }

  /** Complete but for the keys a rollback has yet to reach. */
  ghost predicate CompleteBut(o: Order, d: map<string, Entry>, t: seq<Entry>, pending: set<string>)
  {
    forall k :: k in d && k !in pending && Member(o, d[k]) ==> d[k] in t
  }

  lemma RestoreInTreeProgress(
    o: Order, u: set<Entry>, d: map<string, Entry>, t: seq<Entry>, k: string, change: Option<Entry>,
    pending: set<string>)
    requires o.ByField? && Keyed(d) && Within(u, d) && DistinctRanks(o, u)
    requires Sound(o, d, t) && CompleteBut(o, d, t, pending) && k in pending
    requires change.Some? ==> change.value.k == k && change.value in u && Member(o, change.value)
    requires change.None? ==> forall j :: j in d && j !in pending && Member(o, d[j]) ==> RankOf(o, d[j]) != ProbeRank(o)
    ensures Sound(o, PatchOne(d, k, change), RestoreInTree(o, d, t, k, change))
    ensures CompleteBut(o, PatchOne(d, k, change), RestoreInTree(o, d, t, k, change), pending - {k})
  {
    RestoreInTreeMembers(o, d, t, k, change);
    RelinkMembers(o, t, Lookup(d, k), Probe(k));
    UnlinkSound(o, d, t, k);
  }

  lemma PatchOneWithin(u: set<Entry>, d: map<string, Entry>, k: string, change: Option<Entry>)
    requires Keyed(d) && Within(u, d)
    requires change.Some? ==> change.value.k == k && change.value.opts.Some? && change.value in u
    ensures Keyed(PatchOne(d, k, change)) && Within(u, PatchOne(d, k, change))
  {
  }

  ghost function Seen(order: seq<string>): set<string>
  {
    set k | k in order
  }

  /** Keys a rollback is done with hold nothing that reads like a missing field, if it undoes an insert. */
  lemma DoneKeysAvoidProbe(o: Order, d: map<string, Entry>, m: Changes, order: seq<string>, none: string)
    requires KeyedChanges(m) && SafeToRestore(o, d, m) && none in m && m[none].None?
    requires forall k :: k in order ==> k in m
    ensures forall j :: j in Patch(d, m, order) && j !in m.Keys - Seen(order) && Member(o, Patch(d, m, order)[j]) ==>
      RankOf(o, Patch(d, m, order)[j]) != ProbeRank(o)
  {
    forall j | j in Patch(d, m, order) && j !in m.Keys - Seen(order) && Member(o, Patch(d, m, order)[j])
      ensures RankOf(o, Patch(d, m, order)[j]) != ProbeRank(o)
    {
      PatchLookup(d, m, order, j);
    }
  }

  /** Half way through a rollback the index is sound, and complete but for the keys still to come. */
  lemma {:induction false} RestoreTreeProgress(
    o: Order, u: set<Entry>, d: map<string, Entry>, t: seq<Entry>, m: Changes, order: seq<string>)
    requires o.ByField? && Keyed(d) && KeyedChanges(m) && Within(u, d) && WithinChanges(u, m) && DistinctRanks(o, u)
    requires Exact(o, d, t) && SafeToRestore(o, d, m)
    requires NoRepeats(order) && forall k :: k in order ==> k in m
    ensures Keyed(Patch(d, m, order)) && Within(u, Patch(d, m, order))
    ensures Sound(o, Patch(d, m, order), RestoreTree(o, d, t, m, order))
    ensures CompleteBut(o, Patch(d, m, order), RestoreTree(o, d, t, m, order), m.Keys - Seen(order))
  {
    hide RankOf, Sorted, RestoreInTree, PatchOne;
    if order == [] {
    } else {
      var init, k := order[..|order| - 1], order[|order| - 1];
      assert order == init + [k];
      RestoreTreeProgress(o, u, d, t, m, init);
      var pending := m.Keys - Seen(init);
      if m[k].None? {
        DoneKeysAvoidProbe(o, d, m, init, k);
      }
      RestoreInTreeProgress(o, u, Patch(d, m, init), RestoreTree(o, d, t, m, init), k, m[k], pending);
      PatchOneWithin(u, Patch(d, m, init), k, m[k]);
      assert pending - {k} == m.Keys - Seen(order);
    }
  }

  /** A key that is unsafe to restore last. */
  lemma UnsafeKey(o: Order, d: map<string, Entry>, m: Changes) returns (k: string)
    requires !SafeToRestore(o, d, m)
    ensures k in m && if m[k].Some? then !Member(o, m[k].value) else
      || (exists j :: j in m && m[j].Some? && Member(o, m[j].value) && RankOf(o, m[j].value) == ProbeRank(o))
      || (exists j :: j in d && j !in m && Member(o, d[j]) && RankOf(o, d[j]) == ProbeRank(o))
  {
    if forall j :: j in m && m[j].Some? ==> Member(o, m[j].value) {
      k :| k in m && m[k].None?;
    } else {
      k :| k in m && m[k].Some? && !Member(o, m[k].value);
    }
  }

  lemma {:induction false} RestoreTreeSorted(
    o: Order, d: map<string, Entry>, t: seq<Entry>, m: Changes, order: seq<string>)
    requires o.ByField? && Sorted(o, t) && KeyedChanges(m)
    requires forall k :: k in order ==> k in m
    ensures Sorted(o, RestoreTree(o, d, t, m, order))
  {
    if order == [] {
    } else {
      var init, k := order[..|order| - 1], order[|order| - 1];
      RestoreTreeSorted(o, d, t, m, init);
      RestoreInTreeMembers(o, Patch(d, m, init), RestoreTree(o, d, t, m, init), k, m[k]);
    }
  }

  lemma EndingUnsafely(o: Order, d: map<string, Entry>, t: seq<Entry>, m: Changes, order: seq<string>)
    requires o.ByField? && Sorted(o, t) && KeyedChanges(m)
    requires Enumerates(order, m.Keys) && order != []
    requires var k := order[|order| - 1]; if m[k].Some? then !Member(o, m[k].value) else
      || (exists j :: j in m && m[j].Some? && Member(o, m[j].value) && RankOf(o, m[j].value) == ProbeRank(o))
      || (exists j :: j in d && j !in m && Member(o, d[j]) && RankOf(o, d[j]) == ProbeRank(o))
    ensures !Exact(o, Patch(d, m, order), RestoreTree(o, d, t, m, order))
  {
    var init, k := order[..|order| - 1], order[|order| - 1];
    hide RankOf, Sorted;
    RestoreTreeSorted(o, d, t, m, init);
    RestoreInTreeMembers(o, Patch(d, m, init), RestoreTree(o, d, t, m, init), k, m[k]);
    forall j { PatchLookup(d, m, order, j); }
    var final, t' := Patch(d, m, order), RestoreTree(o, d, t, m, order);
    if m[k].Some? {
      assert m[k].value in t';
    } else {
      var j :| j in final && Member(o, final[j]) && RankOf(o, final[j]) == ProbeRank(o);
      assert final[j] !in t';
    }
  }

  /** If no two keys share a field value, a rollback leaves an index exact in every order precisely when it is
      safe in the sense above. */
  lemma RollbackIndexExact(o: Order, u: set<Entry>, d: map<string, Entry>, t: seq<Entry>, m: Changes)
    requires o.ByField? && Keyed(d) && KeyedChanges(m) && Within(u, d) && WithinChanges(u, m) && DistinctRanks(o, u)
    requires Exact(o, d, t)
    ensures SafeToRestore(o, d, m) <==>
      forall order :: Enumerates(order, m.Keys) ==> Exact(o, Patch(d, m, order), RestoreTree(o, d, t, m, order))
  {
    if SafeToRestore(o, d, m) {
      forall order | Enumerates(order, m.Keys)
        ensures Exact(o, Patch(d, m, order), RestoreTree(o, d, t, m, order))
      {
        RestoreTreeProgress(o, u, d, t, m, order);
      }
    } else {
      var k := UnsafeKey(o, d, m);
      var order := OrderEndingIn(m.Keys, k);
      EndingUnsafely(o, d, t, m, order);
    }
  }

  /** gjson on two values and the path "f": the first has the field, holding 0, the second has no fields. */
  const ZERO_VALUE := "{\"f\":0}"

  const NO_FIELDS := "{}"

  const ZERO_READER :=
    Json((v, p) => if v == ZERO_VALUE && p == "f" then Some(JsonValue(0, 0, 0.0, "0")) else None, v => [])

  lemma SingleInsertRecords(d: map<string, Entry>, e: Entry)
    requires e.k !in d
    ensures Data(d, [Set(e)]) == d[e.k := e]
    ensures Backward(d, [Set(e)]) == map[e.k := None]
    ensures RolledBack(d, [Set(e)], [e.k]) == d
  {
    var ops, order := [Set(e)], [e.k];
    assert ops[..|ops| - 1] == [] && order[..|order| - 1] == [];
    assert Patch(Data(d, ops), Backward(d, ops), []) == d[e.k := e];
    assert Patch(Data(d, ops), Backward(d, ops), order) == d[e.k := e] - {e.k};
  }

  /** Rolling back the insert of one entry takes another, whose field is 0, out of an integer index. */
  lemma RollbackDropsZeroField(zero: Entry, inserted: Entry)
    requires zero.k != inserted.k && zero.opts.Some? && zero.v == ZERO_VALUE && inserted.v == NO_FIELDS
    ensures var o, d := ByField(ZERO_READER, "f", IntIndex), map[zero.k := zero];
      && Exact(o, d, [zero])
      && RolledBack(d, [Set(inserted)], [inserted.k]) == d
      && Exact(o, d[inserted.k := inserted], Relink(o, [zero], None, inserted))
      && zero !in RestoreTree(o, d[inserted.k := inserted], Relink(o, [zero], None, inserted),
                              Backward(d, [Set(inserted)]), [inserted.k])
  {
    hide RankLess, Below, Above;
    var o, d := ByField(ZERO_READER, "f", IntIndex), map[zero.k := zero];
    assert |ZERO_VALUE| != |NO_FIELDS|;
    SingleInsertRecords(d, inserted);
    var m, order := Backward(d, [Set(inserted)]), [inserted.k];
    assert order[..|order| - 1] == [];
    var d1 := d[inserted.k := inserted];
    assert RestoreTree(o, d1, [zero], m, []) == [zero] && Patch(d1, m, []) == d1;
    RestoreInTreeMembers(o, d1, [zero], inserted.k, None);
  }

  // ---------- all indexes of a bucket ----------

  /** Every index is exactly the live entries having its field, in field order. */
  ghost predicate IndexesExact(c: Schema, u: set<Entry>, st: State)
  {
    && Keyed(st.data) && Within(u, st.data)
    && forall p :: p in st.indexes ==>
      && DistinctRanks(st.indexes[p].Ordering(c.json), u)
      && Exact(st.indexes[p].Ordering(c.json), st.data, st.indexes[p].t)
  }

  /** The operation stays among the entries of `u`, whose values of an indexed field are distinct. */
  ghost predicate Fits(c: Schema, u: set<Entry>, op: Op)
  {
    match op
    case Set(e) => e in u && e.opts.Some?
    case CreateIndex(pattern, vtype) => DistinctRanks(ByField(c.json, pattern, vtype), u)
    case _ => true
  }

  lemma DistinctClashFree(o: Order, u: set<Entry>, d: map<string, Entry>, e: Entry)
    requires DistinctRanks(o, u) && Keyed(d) && Within(u, d) && e in u
    ensures ClashFree(o, d, e)
  {
  }

  lemma StepIndexesExact(c: Schema, u: set<Entry>, st: State, op: Op)
    requires IndexesExact(c, u, st) && Fits(c, u, op)
    ensures IndexesExact(c, u, StepBucket(c, st, op))
  {
    match op
    case Set(e) =>
      forall p | p in st.indexes
        ensures Exact(st.indexes[p].Ordering(c.json), Insert(c, st, e).data, Insert(c, st, e).indexes[p].t)
      {
        DistinctClashFree(st.indexes[p].Ordering(c.json), u, st.data, e);
        RelinkExact(st.indexes[p].Ordering(c.json), st.data, st.indexes[p].t, e);
      }
    case Del(k) =>
      forall p | p in st.indexes
        ensures Exact(st.indexes[p].Ordering(c.json), Delete(c, st, k).data, Delete(c, st, k).indexes[p].t)
      {
        UnlinkExact(st.indexes[p].Ordering(c.json), st.data, st.indexes[p].t, k);
      }
    case CreateIndex(pattern, vtype) =>
      forall k | k in st.data {
        DistinctClashFree(ByField(c.json, pattern, vtype), u, st.data, st.data[k]);
      }
      BuildExact(ByField(c.json, pattern, vtype), st.data);
    case DropIndex(_) =>
  }

  /** Set, Delete, CreateIndex and DropIndex keep every index exact. */
  lemma {:induction false} RunOpsIndexesExact(c: Schema, u: set<Entry>, st: State, ops: seq<Op>)
    requires IndexesExact(c, u, st)
    requires forall op :: op in ops ==> Fits(c, u, op)
    ensures IndexesExact(c, u, RunOps(c, st, ops))
  {
    if ops == [] {
    } else {
      RunOpsIndexesExact(c, u, st, ops[..|ops| - 1]);
      assert ops[|ops| - 1] in ops;
      StepIndexesExact(c, u, RunOps(c, st, ops[..|ops| - 1]), ops[|ops| - 1]);
    }
  }

  ghost predicate SafeRollback(c: Schema, st: State, m: Changes)
  {
    forall p :: p in st.indexes ==> SafeToRestore(st.indexes[p].Ordering(c.json), st.data, m)
  }

  lemma {:induction false} RestoreStaysWithin(c: Schema, u: set<Entry>, st: State, m: Changes, order: seq<string>)
    requires Keyed(st.data) && Within(u, st.data) && KeyedChanges(m) && WithinChanges(u, m)
    requires forall k :: k in order ==> k in m
    ensures Restore(c, st, m, order).indexes.Keys == st.indexes.Keys
    ensures Keyed(Restore(c, st, m, order).data) && Within(u, Restore(c, st, m, order).data)
  {
    if order == [] {
    } else {
      RestoreStaysWithin(c, u, st, m, order[..|order| - 1]);
    }
  }

  /** A rollback, in any order, keeps every index exact when it is safe for each. */
  lemma RestoreIndexesExact(c: Schema, u: set<Entry>, st: State, m: Changes, order: seq<string>)
    requires IndexesExact(c, u, st) && KeyedChanges(m) && WithinChanges(u, m)
    requires Enumerates(order, m.Keys) && SafeRollback(c, st, m)
    ensures IndexesExact(c, u, Restore(c, st, m, order))
  {
    var st' := Restore(c, st, m, order);
    RestoreStaysWithin(c, u, st, m, order);
    forall p | p in st.indexes
      ensures DistinctRanks(st'.indexes[p].Ordering(c.json), u)
      ensures Exact(st'.indexes[p].Ordering(c.json), st'.data, st'.indexes[p].t)
    {
      RestoreByIndex(c, st, m, order, p);
      RestoreTreeProgress(st.indexes[p].Ordering(c.json), u, st.data, st.indexes[p].t, m, order);
    }
  }

  // ---------- colliding field values ----------

  /** Every index holds live entries having its field, each under its own rank, though some may be missing. */
  ghost predicate IndexesSound(c: Schema, st: State)
  {
    forall p :: p in st.indexes ==> Sound(st.indexes[p].Ordering(c.json), st.data, st.indexes[p].t)
  }

  lemma StepIndexesSound(c: Schema, st: State, op: Op)
    requires Keyed(st.data) && IndexesSound(c, st) && (op.Set? ==> op.e.opts.Some?)
    ensures Keyed(StepBucket(c, st, op).data) && IndexesSound(c, StepBucket(c, st, op))
  {
    match op
    case Set(e) =>
      forall p | p in st.indexes
        ensures Sound(st.indexes[p].Ordering(c.json), Insert(c, st, e).data, Insert(c, st, e).indexes[p].t)
      {
        RelinkSound(st.indexes[p].Ordering(c.json), st.data, st.indexes[p].t, e);
      }
    case Del(k) =>
      forall p | p in st.indexes
        ensures Sound(st.indexes[p].Ordering(c.json), Delete(c, st, k).data, Delete(c, st, k).indexes[p].t)
      {
        UnlinkSound(st.indexes[p].Ordering(c.json), st.data, st.indexes[p].t, k);
      }
    case CreateIndex(pattern, vtype) => BuildLive(ByField(c.json, pattern, vtype), st.data);
    case DropIndex(_) =>
  }

  /** Operations keep every index sound whatever values collide. */
  lemma {:induction false} RunOpsIndexesSound(c: Schema, st: State, ops: seq<Op>)
    requires Keyed(st.data) && IndexesSound(c, st) && OpsHaveOptions(ops)
    ensures Keyed(RunOps(c, st, ops).data) && IndexesSound(c, RunOps(c, st, ops))
  {
    if ops == [] {
    } else {
      var s, op := RunOps(c, st, ops[..|ops| - 1]), ops[|ops| - 1];
      assert op in ops;
      RunOpsIndexesSound(c, st, ops[..|ops| - 1]);
      StepIndexesSound(c, s, op);
    }
  }

  lemma {:induction false} RestoreTreeSound(
    o: Order, d: map<string, Entry>, t: seq<Entry>, m: Changes, order: seq<string>)
    requires o.ByField? && Keyed(d) && KeyedChanges(m) && Sound(o, d, t)
    requires forall k :: k in order ==> k in m && (m[k].Some? ==> Member(o, m[k].value))
    ensures Keyed(Patch(d, m, order)) && Sound(o, Patch(d, m, order), RestoreTree(o, d, t, m, order))
  {
    if order == [] {
    } else {
      var init, k := order[..|order| - 1], order[|order| - 1];
      RestoreTreeSound(o, d, t, m, init);
      var d1, t1 := Patch(d, m, init), RestoreTree(o, d, t, m, init);
      RestoreInTreeMembers(o, d1, t1, k, m[k]);
      RelinkMembers(o, t1, Lookup(d1, k), Probe(k));
      UnlinkSound(o, d1, t1, k);
    }
  }

  lemma {:induction false} RestoreKeepsIndexes(c: Schema, st: State, m: Changes, order: seq<string>)
    requires forall k :: k in order ==> k in m
    ensures Restore(c, st, m, order).indexes.Keys == st.indexes.Keys
    ensures forall p :: p in st.indexes ==>
      Restore(c, st, m, order).indexes[p].Ordering(c.json) == st.indexes[p].Ordering(c.json)
  {
    if order == [] {
    } else {
      RestoreKeepsIndexes(c, st, m, order[..|order| - 1]);
    }
  }

  /** A rollback, in any order, keeps every index sound when each entry it puts back has the field. */
  lemma RestoreIndexesSound(c: Schema, st: State, m: Changes, order: seq<string>)
    requires Keyed(st.data) && KeyedChanges(m) && IndexesSound(c, st) && forall k :: k in order ==> k in m
    requires forall p, k :: p in st.indexes && k in m && m[k].Some? ==>
      Member(st.indexes[p].Ordering(c.json), m[k].value)
    ensures IndexesSound(c, Restore(c, st, m, order))
  {
    RestoreKeepsIndexes(c, st, m, order);
    var st' := Restore(c, st, m, order);
    forall p | p in st.indexes
      ensures Sound(st.indexes[p].Ordering(c.json), st'.data, st'.indexes[p].t)
    {
      RestoreByIndex(c, st, m, order, p);
      RestoreTreeSound(st.indexes[p].Ordering(c.json), st.data, st.indexes[p].t, m, order);
    }
  }
}
