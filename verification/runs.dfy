/** Derived trees over whole runs, rewrites of the file included: when the indexes and the eviction tree are
    exactly the live entries that belong in them, and what they are otherwise. */
module DerivedRuns {
  import opened Entries
  import opened Trees
  import opened BucketSpec
  import opened TxSpec
  import opened IndexSpec
  import opened EvictionSpec
  import opened Codec
  import opened Reader
  import opened Loading
  import opened Recovery

  // ---------- exact indexes ----------

  lemma {:induction false} EvictIndexesExact(c: Schema, u: set<Entry>, st: State, i: nat, now: Instant)
    requires IndexesExact(c, u, st)
    ensures IndexesExact(c, u, EvictFrom(c, st, i, now))
    decreases |st.eviction| - i
  {
    hide IndexesExact, Delete, Expired;
    if i >= |st.eviction| {
    } else {
      var k := st.eviction[0].k;
      StepIndexesExact(c, u, st, Del(k));
      DeleteNoLonger(c, st, k);
      assert StepBucket(c, st, Del(k)) == Delete(c, st, k);
      EvictIndexesExact(c, u, if Expired(st.eviction[0], now) then Delete(c, st, k) else st, i + 1, now);
    }
  }

  lemma {:induction false} BackwardWithin(c: Schema, u: set<Entry>, d: map<string, Entry>, ops: seq<Op>)
    requires Keyed(d) && Within(u, d) && forall op :: op in ops ==> Fits(c, u, op)
    ensures Within(u, Data(d, ops)) && WithinChanges(u, Backward(d, ops))
  {
    hide DistinctRanks;
    if ops == [] {
    } else {
      BackwardWithin(c, u, d, ops[..|ops| - 1]);
      assert Fits(c, u, ops[|ops| - 1]);
    }
  }

  /** The step stays among entries whose values of an indexed field are distinct, and a rollback is safe for
      every index. */
  ghost predicate FitsStep(c: Schema, u: set<Entry>, s: Sys, step: Step)
  {
    match step
    case Commit(ops, _) => forall op :: op in ops ==> Fits(c, u, op)
    case Rollback(ops, _) =>
      && (forall op :: op in ops ==> Fits(c, u, op))
      && SafeRollback(c, RunOps(c, s.im.st, ops), Backward(s.im.st.data, ops))
    case Manage(_) => true
  }

  lemma StepKeepsIndexes(cfg: Config, u: set<Entry>, s: Sys, step: Step)
    requires Inv(cfg, s) && Legal(cfg, s, step)
    requires IndexesExact(cfg.c, u, s.im.st) && FitsStep(cfg.c, u, s, step)
    ensures IndexesExact(cfg.c, u, Next(cfg, s, step).im.st)
  {
    match step
    case Commit(ops, order) => RunOpsIndexesExact(cfg.c, u, s.im.st, ops);
    case Rollback(ops, order) =>
      RunOpsIndexesExact(cfg.c, u, s.im.st, ops);
      RunOpsSound(cfg.c, s.im.st, ops);
      DataKeyed(s.im.st.data, ops);
      BackwardWithin(cfg.c, u, s.im.st.data, ops);
      RestoreIndexesExact(cfg.c, u, RunOps(cfg.c, s.im.st, ops), Backward(s.im.st.data, ops), order);
    case Manage(now) => EvictIndexesExact(cfg.c, u, s.im.st, 0, now);
  }

  lemma OpenedIndexesExact(cfg: Config, u: set<Entry>, ss: seq<Stmt>, now: Instant)
    requires cfg.fc.Faithful() && AllWritable(cfg.fc, ss) && Within(u, Opened(cfg, ss, now).im.st.data)
    ensures IndexesExact(cfg.c, u, Opened(cfg, ss, now).im.st)
  {
    LoadedFrom(cfg, ss);
    hide LoadedState, EncodeAll, Replay;
  }

  /** After any run among entries with distinct field values whose rollbacks are safe, every index is exactly
      the sorted sequence of the live entries having its field. */
  lemma {:induction false} IndexesAfterRun(
    cfg: Config, u: set<Entry>, ss: seq<Stmt>, states: seq<Sys>, steps: seq<Step>, i: nat)
    requires IsRun(cfg, ss, states, steps) && i < |states|
    requires Within(u, states[0].im.st.data)
    requires forall j :: 0 <= j < i ==> FitsStep(cfg.c, u, states[j], steps[j])
    ensures IndexesExact(cfg.c, u, states[i].im.st)
  {
    hide IndexesExact, FitsStep, Inv, Opened, Within;
    if i == 0 {
      OpenedIndexesExact(cfg, u, ss, states[0].now);
    } else {
      IndexesAfterRun(cfg, u, ss, states, steps, i - 1);
      RunKeepsInv(cfg, ss, states, steps, i - 1);
      assert StepAt(cfg, states, steps, i - 1);
      StepKeepsIndexes(cfg, u, states[i - 1], steps[i - 1]);
    }
  }

  /** A rebuild would then change no index: it equals the index kept up to date all along. */
  lemma RebuildAfterRun(
    cfg: Config, u: set<Entry>, ss: seq<Stmt>, states: seq<Sys>, steps: seq<Step>, i: nat, p: string)
    requires IsRun(cfg, ss, states, steps) && i < |states| && p in states[i].im.st.indexes
    requires Within(u, states[0].im.st.data)
    requires forall j :: 0 <= j < i ==> FitsStep(cfg.c, u, states[j], steps[j])
    ensures var st := states[i].im.st;
      Build(st.indexes[p].Ordering(cfg.c.json), Ascending(st.data)) == st.indexes[p].t
  {
    var st := states[i].im.st;
    IndexesAfterRun(cfg, u, ss, states, steps, i);
    RebuildSame(st.indexes[p].Ordering(cfg.c.json), st.data, st.indexes[p].t);
  }

  // ---------- sound indexes ----------

  /** Every entry a rollback puts back has the field of every index. */
  ghost predicate PutsBackMembers(c: Schema, s: Sys, step: Step)
  {
    match step
    case Rollback(ops, _) =>
      var st, m := RunOps(c, s.im.st, ops), Backward(s.im.st.data, ops);
      forall p, k :: p in st.indexes && k in m && m[k].Some? ==> Member(st.indexes[p].Ordering(c.json), m[k].value)
    case _ => true
  }

  lemma {:induction false} EvictIndexesSound(c: Schema, st: State, i: nat, now: Instant)
    requires Keyed(st.data) && IndexesSound(c, st)
    ensures IndexesSound(c, EvictFrom(c, st, i, now))
    decreases |st.eviction| - i
  {
    hide IndexesSound, Delete, Expired;
    if i >= |st.eviction| {
    } else {
      var k := st.eviction[0].k;
      StepIndexesSound(c, st, Del(k));
      DeleteNoLonger(c, st, k);
      assert StepBucket(c, st, Del(k)) == Delete(c, st, k);
      EvictIndexesSound(c, if Expired(st.eviction[0], now) then Delete(c, st, k) else st, i + 1, now);
    }
  }

  lemma StepKeepsIndexesSound(cfg: Config, s: Sys, step: Step)
    requires Inv(cfg, s) && Legal(cfg, s, step)
    requires IndexesSound(cfg.c, s.im.st) && PutsBackMembers(cfg.c, s, step)
    ensures IndexesSound(cfg.c, Next(cfg, s, step).im.st)
  {
    match step
    case Commit(ops, order) => RunOpsIndexesSound(cfg.c, s.im.st, ops);
    case Rollback(ops, order) =>
      RunOpsIndexesSound(cfg.c, s.im.st, ops);
      RunOpsSound(cfg.c, s.im.st, ops);
      DataKeyed(s.im.st.data, ops);
      RestoreIndexesSound(cfg.c, RunOps(cfg.c, s.im.st, ops), Backward(s.im.st.data, ops), order);
    case Manage(now) => EvictIndexesSound(cfg.c, s.im.st, 0, now);
  }

  lemma OpenedIndexesSound(cfg: Config, ss: seq<Stmt>, now: Instant)
    requires cfg.fc.Faithful() && AllWritable(cfg.fc, ss)
    ensures IndexesSound(cfg.c, Opened(cfg, ss, now).im.st)
  {
    LoadedFrom(cfg, ss);
    hide LoadedState, EncodeAll, Replay;
  }

  /** After any run whatever values collide, if rollbacks put back only entries having the fields, every index
      holds only live entries having its field, in order and one for each value. */
  lemma {:induction false} IndexesSoundAfterRun(
    cfg: Config, ss: seq<Stmt>, states: seq<Sys>, steps: seq<Step>, i: nat)
    requires IsRun(cfg, ss, states, steps) && i < |states|
    requires forall j :: 0 <= j < i ==> PutsBackMembers(cfg.c, states[j], steps[j])
    ensures IndexesSound(cfg.c, states[i].im.st)
  {
    hide IndexesSound, PutsBackMembers, Inv, Opened;
    if i == 0 {
      OpenedIndexesSound(cfg, ss, states[0].now);
    } else {
      IndexesSoundAfterRun(cfg, ss, states, steps, i - 1);
      RunKeepsInv(cfg, ss, states, steps, i - 1);
      assert StepAt(cfg, states, steps, i - 1);
      StepKeepsIndexesSound(cfg, states[i - 1], steps[i - 1]);
    }
  }

  // ---------- the trees of due times ----------

  type TimeOrder = o: Order | o == ByExpiry || o == ByInvalidation witness ByExpiry

  /** The tree kept under the order. */
  function TimeTree(o: TimeOrder, st: State): seq<Entry>
  {
    if o == ByExpiry then st.eviction else st.invalidation
  }

  /** The tree is exactly the live entries that have such a time, and no two keys of `u` share one. */
  ghost predicate TimesExact(o: TimeOrder, u: set<Entry>, st: State)
  {
    && Keyed(st.data) && Within(u, st.data) && DistinctRanks(o, u)
    && Exact(o, st.data, TimeTree(o, st))
  }

  lemma InsertTimesExact(c: Schema, o: TimeOrder, u: set<Entry>, st: State, e: Entry)
    requires TimesExact(o, u, st) && e in u && e.opts.Some?
    ensures TimesExact(o, u, Insert(c, st, e))
  {
    DistinctClashFree(o, u, st.data, e);
    RelinkExact(o, st.data, TimeTree(o, st), e);
    hide RankOf;
  }

  lemma DeleteTimesExact(c: Schema, o: TimeOrder, u: set<Entry>, st: State, k: string)
    requires TimesExact(o, u, st)
    ensures TimesExact(o, u, Delete(c, st, k))
  {
    UnlinkExact(o, st.data, TimeTree(o, st), k);
  }

  lemma {:induction false} EvictTimesExact(c: Schema, o: TimeOrder, u: set<Entry>, st: State, i: nat, now: Instant)
    requires TimesExact(o, u, st)
    ensures TimesExact(o, u, EvictFrom(c, st, i, now))
    decreases |st.eviction| - i
  {
    hide TimesExact, Delete, Expired;
    if i >= |st.eviction| {
    } else {
      var k := st.eviction[0].k;
      DeleteTimesExact(c, o, u, st, k);
      DeleteNoLonger(c, st, k);
      EvictTimesExact(c, o, u, if Expired(st.eviction[0], now) then Delete(c, st, k) else st, i + 1, now);
    }
  }

  lemma SameTimes(o: TimeOrder, u: set<Entry>, st: State, st': State)
    requires st'.data == st.data && st'.eviction == st.eviction && st'.invalidation == st.invalidation
    ensures TimesExact(o, u, st) ==> TimesExact(o, u, st')
  {
  }

  lemma {:induction false} RunOpsTimesExact(c: Schema, o: TimeOrder, u: set<Entry>, st: State, ops: seq<Op>)
    requires TimesExact(o, u, st) && forall op :: op in ops && op.Set? ==> op.e in u && op.e.opts.Some?
    ensures TimesExact(o, u, RunOps(c, st, ops))
  {
    hide TimesExact, Insert, Delete;
    if ops == [] {
    } else {
      var init, op := ops[..|ops| - 1], ops[|ops| - 1];
      assert op in ops;
      RunOpsTimesExact(c, o, u, st, init);
      var before := RunOps(c, st, init);
      match op
      case Set(e) => InsertTimesExact(c, o, u, before, e);
      case Del(k) => DeleteTimesExact(c, o, u, before, k);
      case _ => SameTimes(o, u, before, StepBucket(c, before, op));
    }
  }

  lemma {:induction false} RestoreTimesExact(
    c: Schema, o: TimeOrder, u: set<Entry>, st: State, m: Changes, order: seq<string>)
    requires TimesExact(o, u, st) && KeyedChanges(m) && WithinChanges(u, m) && forall k :: k in order ==> k in m
    ensures TimesExact(o, u, Restore(c, st, m, order))
  {
    hide TimesExact, Insert, Delete;
    if order == [] {
    } else {
      var init, k := order[..|order| - 1], order[|order| - 1];
      RestoreTimesExact(c, o, u, st, m, init);
      var before := Restore(c, st, m, init);
      match m[k]
      case None =>
        DeleteTimesExact(c, o, u, before, k);
        SameTimes(o, u, Delete(c, before, k), RestoreOne(c, before, k, m[k]));
      case Some(e) =>
        InsertTimesExact(c, o, u, before, e);
        SameTimes(o, u, Insert(c, before, e), RestoreOne(c, before, k, m[k]));
    }
  }

  lemma {:induction false} ApplyAllTimesExact(c: Schema, o: TimeOrder, u: set<Entry>, st: State, ss: seq<Stmt>)
    requires TimesExact(o, u, st) && forall s :: s in ss && s.kind.Inserting? ==> s.e in u && s.e.opts.Some?
    ensures TimesExact(o, u, ApplyAll(c, st, ss))
  {
    hide TimesExact, Insert, Delete;
    if ss == [] {
    } else {
      var init, s := ss[..|ss| - 1], ss[|ss| - 1];
      assert s in ss;
      ApplyAllTimesExact(c, o, u, st, init);
      match s.kind
      case Inserting => InsertTimesExact(c, o, u, ApplyAll(c, st, init), s.e);
      case Deleting => DeleteTimesExact(c, o, u, ApplyAll(c, st, init), s.e.k);
    }
  }

  /** Every entry read or set is one of `u`. */
  ghost predicate ReadsWithin(cfg: Config, u: set<Entry>, ss: seq<Stmt>)
  {
    forall s :: s in ReloadedAll(cfg.c.json, ss) && s.kind.Inserting? ==> s.e in u
  }

  ghost predicate SetsWithin(u: set<Entry>, step: Step)
  {
    match step
    case Commit(ops, _) => forall op :: op in ops && op.Set? ==> op.e in u
    case Rollback(ops, _) => forall op :: op in ops && op.Set? ==> op.e in u
    case Manage(_) => true
  }

  lemma OpenedTimesExact(cfg: Config, o: TimeOrder, u: set<Entry>, ss: seq<Stmt>, now: Instant)
    requires cfg.fc.Faithful() && AllWritable(cfg.fc, ss) && ReadsWithin(cfg, u, ss) && DistinctRanks(o, u)
    ensures TimesExact(o, u, Opened(cfg, ss, now).im.st)
  {
    hide ApplyAll, Load, EncodeAll, AllWritable;
    LoadWritten(cfg.fc, cfg.c.json, ss);
    ApplyAllTimesExact(cfg.c, o, u, EMPTY, ReloadedAll(cfg.c.json, ss));
  }

  lemma {:induction false} BackwardFromSets(u: set<Entry>, d: map<string, Entry>, ops: seq<Op>)
    requires Keyed(d) && Within(u, d) && forall op :: op in ops && op.Set? ==> op.e in u && op.e.opts.Some?
    ensures Keyed(Data(d, ops)) && Within(u, Data(d, ops)) && WithinChanges(u, Backward(d, ops))
  {
    if ops == [] {
    } else {
      BackwardFromSets(u, d, ops[..|ops| - 1]);
      assert ops[|ops| - 1] in ops;
    }
  }

  lemma StepKeepsTimes(cfg: Config, o: TimeOrder, u: set<Entry>, s: Sys, step: Step)
    requires Inv(cfg, s) && Legal(cfg, s, step) && TimesExact(o, u, s.im.st) && SetsWithin(u, step)
    ensures TimesExact(o, u, Next(cfg, s, step).im.st)
  {
    hide StateSound, RunOps, Restore, EvictFrom;
    match step
    case Commit(ops, order) => RunOpsTimesExact(cfg.c, o, u, s.im.st, ops);
    case Rollback(ops, order) =>
      RunOpsTimesExact(cfg.c, o, u, s.im.st, ops);
      DataKeyed(s.im.st.data, ops);
      BackwardFromSets(u, s.im.st.data, ops);
      RestoreTimesExact(cfg.c, o, u, RunOps(cfg.c, s.im.st, ops), Backward(s.im.st.data, ops), order);
    case Manage(now) => EvictTimesExact(cfg.c, o, u, s.im.st, 0, now);
  }

  /** After any run among entries no two of which, under different keys, expire at the same time, the eviction
      tree is exactly the live entries that may expire; and so it is with the invalidation tree. */
  lemma {:induction false} TimesAfterRun(
    cfg: Config, o: TimeOrder, u: set<Entry>, ss: seq<Stmt>, states: seq<Sys>, steps: seq<Step>, i: nat)
    requires IsRun(cfg, ss, states, steps) && i < |states|
    requires DistinctRanks(o, u) && ReadsWithin(cfg, u, ss)
    requires forall j :: 0 <= j < i ==> SetsWithin(u, steps[j])
    ensures TimesExact(o, u, states[i].im.st)
  {
    hide TimesExact, SetsWithin, Inv, Opened, ReadsWithin, DistinctRanks;
    if i == 0 {
      OpenedTimesExact(cfg, o, u, ss, states[0].now);
    } else {
      TimesAfterRun(cfg, o, u, ss, states, steps, i - 1);
      RunKeepsInv(cfg, ss, states, steps, i - 1);
      assert StepAt(cfg, states, steps, i - 1);
      StepKeepsTimes(cfg, o, u, states[i - 1], steps[i - 1]);
    }
  }

  /** After such a run, floor(log2 n) + 1 eviction passes at one time leave no expired entry in the bucket. */
  lemma PassesDrainAfterRun(
    cfg: Config, u: set<Entry>, ss: seq<Stmt>, states: seq<Sys>, steps: seq<Step>, i: nat, passes: nat, now: Instant)
    requires IsRun(cfg, ss, states, steps) && i < |states|
    requires DistinctRanks(ByExpiry, u) && ReadsWithin(cfg, u, ss)
    requires forall j :: 0 <= j < i ==> SetsWithin(u, steps[j])
    requires var n := |states[i].im.st.eviction|; n == 0 || passes >= Log2(n) + 1
    ensures var data := EvictPasses(cfg.c, states[i].im.st, passes, now).data;
      forall k :: k in data ==> !Expired(data[k], now)
  {
    TimesAfterRun(cfg, ByExpiry, u, ss, states, steps, i);
    RunKeepsInv(cfg, ss, states, steps, i);
    hide IsRun, StateSound, Sound, EvictPasses, RankOf;
    PassesDrainData(cfg.c, states[i].im.st, passes, now);
  }
}
