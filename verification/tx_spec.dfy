/** Transactions (tx.go): what Set and Delete record for commit and rollback, and what committing or rolling
    back then does to the key map, for every order in which the recorded maps may be walked. */
module TxSpec {
  import opened Prelude
  import opened Entries
  import opened Trees
  import opened BucketSpec

  datatype Op =
    | Set(e: Entry)
    | Del(k: string)
    | CreateIndex(pattern: string, vtype: IndexValueType)
    | DropIndex(pattern: string)

  /** RbCtx.forward and RbCtx.backward; None stands for nil. */
  type Changes = map<string, Option<Entry>>

  // ---------- operations on the key map ----------

  function StepData(d: map<string, Entry>, op: Op): map<string, Entry>
  {
    match op
    case Set(e) => d[e.k := e]
    case Del(k) => d - {k}
    case _ => d
  }

  function Data(d: map<string, Entry>, ops: seq<Op>): map<string, Entry>
  {
    if ops == [] then d else StepData(Data(d, ops[..|ops| - 1]), ops[|ops| - 1])
  }

  /** The operation is recorded as a write of `k`: a Delete of an absent key is not. */
  predicate Writes(d: map<string, Entry>, op: Op, k: string)
  {
    match op
    case Set(e) => e.k == k
    case Del(j) => j == k && j in d
    case _ => false
  }

  function Backward(d: map<string, Entry>, ops: seq<Op>): Changes
  {
    if ops == [] then map[]
    else
      var before, b := Data(d, ops[..|ops| - 1]), Backward(d, ops[..|ops| - 1]);
      match ops[|ops| - 1]
      case Set(e) => b[e.k := Lookup(before, e.k)]
      case Del(k) => if k in before then b[k := Some(before[k])] else b
      case _ => b
  }

  function Forward(d: map<string, Entry>, ops: seq<Op>): Changes
  {
    if ops == [] then map[]
    else
      var before, f := Data(d, ops[..|ops| - 1]), Forward(d, ops[..|ops| - 1]);
      match ops[|ops| - 1]
      case Set(e) => f[e.k := Some(e)]
      case Del(k) => if k in before then f[k := None] else f
      case _ => f
  }

  ghost predicate OpsHaveOptions(ops: seq<Op>)
  {
    forall op :: op in ops && op.Set? ==> op.e.opts.Some?
  }

  // ---------- what the records mean ----------

  ghost predicate WritesAt(d: map<string, Entry>, ops: seq<Op>, i: int, k: string)
  {
    0 <= i < |ops| && Writes(Data(d, ops[..i]), ops[i], k)
  }

  /** Operation `i` is the last one recorded as a write of `k`. */
  ghost predicate LastWrite(d: map<string, Entry>, ops: seq<Op>, k: string, i: int)
  {
    WritesAt(d, ops, i, k) && forall j :: i < j ==> !WritesAt(d, ops, j, k)
  }

  /** The entry under `k` when operation `i` began. */
  function EntryBefore(d: map<string, Entry>, ops: seq<Op>, i: int, k: string): Option<Entry>
    requires 0 <= i <= |ops|
  {
    Lookup(Data(d, ops[..i]), k)
  }

  lemma InitAgrees(d: map<string, Entry>, ops: seq<Op>, k: string)
    requires ops != []
    ensures forall i :: 0 <= i < |ops| - 1 ==>
      && (WritesAt(d, ops, i, k) <==> WritesAt(d, ops[..|ops| - 1], i, k))
      && EntryBefore(d, ops, i, k) == EntryBefore(d, ops[..|ops| - 1], i, k)
  {
    var init := ops[..|ops| - 1];
    assert forall i :: 0 <= i < |init| ==> init[..i] == ops[..i];
  }

  /** `backward` holds the entry present just before the last write of each written key, and `forward` the
      entry present ever since. */
  lemma {:induction false} RecordsMeaning(d: map<string, Entry>, ops: seq<Op>, k: string)
    ensures k in Backward(d, ops) <==> exists i :: LastWrite(d, ops, k, i)
    ensures k in Forward(d, ops) <==> k in Backward(d, ops)
    ensures forall i :: LastWrite(d, ops, k, i) ==> Backward(d, ops)[k] == EntryBefore(d, ops, i, k)
    ensures Lookup(Data(d, ops), k) == if k in Forward(d, ops) then Forward(d, ops)[k] else Lookup(d, k)
  {
    if ops == [] {
    } else {
      var n := |ops| - 1;
      var init := ops[..n];
      RecordsMeaning(d, init, k);
      InitAgrees(d, ops, k);
      if WritesAt(d, ops, n, k) {
        assert LastWrite(d, ops, k, n);
      } else {
        forall i
          ensures LastWrite(d, ops, k, i) <==> LastWrite(d, init, k, i)
        {
          assert forall j :: WritesAt(d, ops, j, k) <==> WritesAt(d, init, j, k);
        }
      }
    }
  }

  /** The entries recorded under a key carry that key. */
  ghost predicate KeyedChanges(m: Changes)
  {
    forall k :: k in m && m[k].Some? ==> m[k].value.k == k && m[k].value.opts.Some?
  }

  lemma {:induction false} DataKeyed(d: map<string, Entry>, ops: seq<Op>)
    requires Keyed(d) && OpsHaveOptions(ops)
    ensures Keyed(Data(d, ops)) && KeyedChanges(Backward(d, ops)) && KeyedChanges(Forward(d, ops))
  {
    if ops == [] {
    } else {
      DataKeyed(d, ops[..|ops| - 1]);
      assert ops[|ops| - 1] in ops;
    }
  }

  // ---------- walking a record in some order ----------

  /** The loop bodies of commit and rollback as they affect the key map. */
  function PatchOne(d: map<string, Entry>, k: string, change: Option<Entry>): map<string, Entry>
  {
    match change
    case None => d - {k}
    case Some(e) => d[e.k := e]
  }

  function Patch(d: map<string, Entry>, m: Changes, order: seq<string>): map<string, Entry>
    requires forall k :: k in order ==> k in m
  {
    if order == [] then d
    else
      var last := order[|order| - 1];
      PatchOne(Patch(d, m, order[..|order| - 1]), last, m[last])
  }

  lemma {:induction false} PatchLookup(d: map<string, Entry>, m: Changes, order: seq<string>, k: string)
    requires KeyedChanges(m)
    requires forall j :: j in order ==> j in m
    ensures Lookup(Patch(d, m, order), k) == if k in order then m[k] else Lookup(d, k)
  {
    if order == [] {
    } else {
      var init := order[..|order| - 1];
      assert order == init + [order[|order| - 1]];
      PatchLookup(d, m, init, k);
    }
  }

  lemma SameLookups(a: map<string, Entry>, b: map<string, Entry>)
    requires forall k :: Lookup(a, k) == Lookup(b, k)
    ensures a == b
  {
    forall k
      ensures k in a <==> k in b
      ensures k in a ==> a[k] == b[k]
    {
      assert Lookup(a, k) == Lookup(b, k);
    }
  }

  // ---------- commit ----------

  /** Coalescing is invisible: one change per key, taken in any order, has the effect of every Set and Delete
      run in turn. */
  lemma CommitEqualsHistory(d: map<string, Entry>, ops: seq<Op>, order: seq<string>)
    requires Keyed(d) && OpsHaveOptions(ops)
    requires Enumerates(order, Forward(d, ops).Keys)
    ensures Patch(d, Forward(d, ops), order) == Data(d, ops)
  {
    DataKeyed(d, ops);
    forall k
      ensures Lookup(Patch(d, Forward(d, ops), order), k) == Lookup(Data(d, ops), k)
    {
      PatchLookup(d, Forward(d, ops), order, k);
      RecordsMeaning(d, ops, k);
    }
    SameLookups(Patch(d, Forward(d, ops), order), Data(d, ops));
  }

  // ---------- rollback ----------

  /** The key map a rollback of `ops` leaves behind. */
  function RolledBack(d: map<string, Entry>, ops: seq<Op>, order: seq<string>): map<string, Entry>
    requires forall k :: k in order ==> k in Backward(d, ops)
  {
    Patch(Data(d, ops), Backward(d, ops), order)
  }

  /** Whatever the order, a rollback gives each key the entry it had just before its last write, and leaves a
      key that was never written alone. */
  lemma RollbackExactly(d: map<string, Entry>, ops: seq<Op>, order: seq<string>, k: string)
    requires Keyed(d) && OpsHaveOptions(ops)
    requires Enumerates(order, Backward(d, ops).Keys)
    ensures forall i :: LastWrite(d, ops, k, i) ==>
      Lookup(RolledBack(d, ops, order), k) == EntryBefore(d, ops, i, k)
    ensures (forall i :: !LastWrite(d, ops, k, i)) ==> Lookup(RolledBack(d, ops, order), k) == Lookup(d, k)
  {
    DataKeyed(d, ops);
    PatchLookup(Data(d, ops), Backward(d, ops), order, k);
    RecordsMeaning(d, ops, k);
  }

  /** Just before its last write, if any, the key still had, or had again, the entry it started with. */
  ghost predicate LastWriteFromStart(d: map<string, Entry>, ops: seq<Op>, k: string)
  {
    forall i :: LastWrite(d, ops, k, i) ==> EntryBefore(d, ops, i, k) == Lookup(d, k)
  }

  /** So it is with every key. */
  ghost predicate LastWritesFromStart(d: map<string, Entry>, ops: seq<Op>)
  {
    forall k :: LastWriteFromStart(d, ops, k)
  }

  /** A rollback restores a key precisely when its last write started from the original entry. */
  lemma RollbackRestoresKey(d: map<string, Entry>, ops: seq<Op>, order: seq<string>, k: string)
    requires Keyed(d) && OpsHaveOptions(ops)
    requires Enumerates(order, Backward(d, ops).Keys)
    ensures Lookup(RolledBack(d, ops, order), k) == Lookup(d, k) <==> LastWriteFromStart(d, ops, k)
  {
    RollbackExactly(d, ops, order, k);
  }

  /** No key is recorded as written twice. */
  ghost predicate WritesEachKeyOnce(d: map<string, Entry>, ops: seq<Op>)
  {
    forall i, j, k :: i < j && WritesAt(d, ops, i, k) ==> !WritesAt(d, ops, j, k)
  }

  /** A rollback restores the key map precisely when the last writes all started from the original entries. */
  lemma RollbackRestores(d: map<string, Entry>, ops: seq<Op>, order: seq<string>)
    requires Keyed(d) && OpsHaveOptions(ops)
    requires Enumerates(order, Backward(d, ops).Keys)
    ensures RolledBack(d, ops, order) == d <==> LastWritesFromStart(d, ops)
  {
    forall k { RollbackRestoresKey(d, ops, order, k); }
    hide LastWriteFromStart, RolledBack;
    if LastWritesFromStart(d, ops) {
      SameLookups(RolledBack(d, ops, order), d);
    }
  }

  lemma {:induction false} UnwrittenKey(d: map<string, Entry>, ops: seq<Op>, n: nat, k: string)
    requires n <= |ops|
    requires forall i :: 0 <= i < n ==> !WritesAt(d, ops, i, k)
    ensures EntryBefore(d, ops, n, k) == Lookup(d, k)
  {
    if n == 0 {
    } else {
      UnwrittenKey(d, ops, n - 1, k);
      assert ops[..n][..n - 1] == ops[..n - 1];
      assert !WritesAt(d, ops, n - 1, k);
    }
  }

  /** In particular when no key is written twice. */
  lemma SingleWritesRestore(d: map<string, Entry>, ops: seq<Op>)
    requires WritesEachKeyOnce(d, ops)
    ensures LastWritesFromStart(d, ops)
  {
    forall k, i | LastWrite(d, ops, k, i)
      ensures EntryBefore(d, ops, i, k) == Lookup(d, k)
    {
      UnwrittenKey(d, ops, i, k);
    }
  }

  /** A second write of a key makes rollback keep the first: the uncommitted entry survives. */
  lemma SecondWriteSurvivesRollback(first: Entry, second: Entry)
    requires first.k == second.k && first.opts.Some? && second.opts.Some?
    ensures Backward(map[], [Set(first), Set(second)]) == map[first.k := Some(first)]
    ensures RolledBack(map[], [Set(first), Set(second)], [first.k]) == map[first.k := first]
  {
    var ops := [Set(first), Set(second)];
    assert ops[..1] == [Set(first)] && [Set(first)][..0] == [];
    var order := [first.k];
    assert order[..|order| - 1] == [];
    assert Data(map[], [Set(first)]) == map[first.k := first];
    assert Backward(map[], [Set(first)]) == map[first.k := None];
    assert ops[1] == Set(second) && |ops| == 2;
    assert Data(map[], ops) == map[first.k := second];
    assert Patch(Data(map[], ops), Backward(map[], ops), []) == map[first.k := second];
  }

  // ---------- the same steps on the whole bucket ----------

  function StepState(c: Schema, st: State, op: Op): State
  {
    match op
    case Set(e) => Insert(c, st, e)
    case Del(k) => Delete(c, st, k)
    case _ => st
  }

  ghost function Created(c: Schema, st: State, pattern: string, vtype: IndexValueType): State
  {
    if pattern in st.indexes then st
    else
      var t := Build(ByField(c.json, pattern, vtype), Ascending(st.data));
      st.(indexes := st.indexes[pattern := IndexState(pattern, vtype, t)])
  }

  ghost function StepBucket(c: Schema, st: State, op: Op): State
  {
    match op
    case CreateIndex(pattern, vtype) => Created(c, st, pattern, vtype)
    case DropIndex(pattern) => st.(indexes := st.indexes - {pattern})
    case _ => StepState(c, st, op)
  }

  ghost function RunOps(c: Schema, st: State, ops: seq<Op>): State
  {
    if ops == [] then st else StepBucket(c, RunOps(c, st, ops[..|ops| - 1]), ops[|ops| - 1])
  }

  /** One round of the loop of rollbackTx: delete or reinsert, and then once more in every index, by a probe
      with an empty value or without looking whether the field exists. */
  function RestoreOne(c: Schema, st: State, k: string, change: Option<Entry>): State
  {
    match change
    case None =>
      var s := Delete(c, st, k);
      s.(indexes := map p | p in s.indexes ::
        s.indexes[p].(t := Remove(s.indexes[p].Ordering(c.json), s.indexes[p].t, Probe(k))))
    case Some(e) =>
      var s := Insert(c, st, e);
      s.(indexes := map p | p in s.indexes ::
        s.indexes[p].(t := Put(s.indexes[p].Ordering(c.json), s.indexes[p].t, e)))
  }

  function Restore(c: Schema, st: State, m: Changes, order: seq<string>): State
    requires forall k :: k in order ==> k in m
  {
    if order == [] then st
    else
      var last := order[|order| - 1];
      RestoreOne(c, Restore(c, st, m, order[..|order| - 1]), last, m[last])
  }

  lemma CreatedSound(c: Schema, st: State, pattern: string, vtype: IndexValueType)
    requires StateSound(c, st)
    ensures StateSound(c, Created(c, st, pattern, vtype))
  {
    BuildLive(ByField(c.json, pattern, vtype), st.data);
  }

  /** Running operations keeps the eviction, invalidation and R-trees sound, and the key map is the one the
      records are about. */
  lemma {:induction false} RunOpsSound(c: Schema, st: State, ops: seq<Op>)
    requires StateSound(c, st) && OpsHaveOptions(ops)
    ensures StateSound(c, RunOps(c, st, ops)) && RunOps(c, st, ops).data == Data(st.data, ops)
  {
    if ops == [] {
    } else {
      var init, op := ops[..|ops| - 1], ops[|ops| - 1];
      var s := RunOps(c, st, init);
      assert op in ops;
      RunOpsSound(c, st, init);
      match op
      case Set(e) => InsertSound(c, s, e);
      case Del(k) => DeleteSound(c, s, k);
      case CreateIndex(pattern, vtype) => CreatedSound(c, s, pattern, vtype);
      case DropIndex(_) =>
    }
  }

  lemma IndexesStaySorted(c: Schema, s: State, e: Entry)
    requires forall p :: p in s.indexes ==> Sorted(s.indexes[p].Ordering(c.json), s.indexes[p].t)
    ensures forall p :: p in s.indexes ==>
      && Sorted(s.indexes[p].Ordering(c.json), Remove(s.indexes[p].Ordering(c.json), s.indexes[p].t, e))
      && Sorted(s.indexes[p].Ordering(c.json), Put(s.indexes[p].Ordering(c.json), s.indexes[p].t, e))
  {
    forall p | p in s.indexes
      ensures Sorted(s.indexes[p].Ordering(c.json), Remove(s.indexes[p].Ordering(c.json), s.indexes[p].t, e))
      ensures Sorted(s.indexes[p].Ordering(c.json), Put(s.indexes[p].Ordering(c.json), s.indexes[p].t, e))
    {
      RemoveSorted(s.indexes[p].Ordering(c.json), s.indexes[p].t, e);
      PutSorted(s.indexes[p].Ordering(c.json), s.indexes[p].t, e);
    }
  }

  lemma RestoreOneSound(c: Schema, st: State, k: string, change: Option<Entry>)
    requires StateSound(c, st)
    requires change.Some? ==> change.value.k == k && change.value.opts.Some?
    ensures StateSound(c, RestoreOne(c, st, k, change))
    ensures RestoreOne(c, st, k, change).data == PatchOne(st.data, k, change)
  {
    if change.None? {
      DeleteSound(c, st, k);
      IndexesStaySorted(c, Delete(c, st, k), Probe(k));
    } else {
      InsertSound(c, st, change.value);
      IndexesStaySorted(c, Insert(c, st, change.value), change.value);
    }
  }

  lemma {:induction false} RestoreSound(c: Schema, st: State, m: Changes, order: seq<string>)
    requires StateSound(c, st) && KeyedChanges(m)
    requires forall k :: k in order ==> k in m
    ensures StateSound(c, Restore(c, st, m, order)) && Restore(c, st, m, order).data == Patch(st.data, m, order)
  {
    if order == [] {
    } else {
      var init, last := order[..|order| - 1], order[|order| - 1];
      RestoreSound(c, st, m, init);
      RestoreOneSound(c, Restore(c, st, m, init), last, m[last]);
    }
  }
}
