/** A transaction (tx.go) as the object that records changes while it makes them, and then commits or rolls
    back. */
module Transactions {
  import opened Prelude
  import opened Entries
  import opened Trees
  import opened BucketSpec
  import opened TxSpec
  import opened Codec
  import opened Loading
  import opened Recovery
  import opened Storage
  import opened Engine
  import opened Radius

  datatype TxError = Iterating | NotOpen | ReadOnly | IndexExists | NoIndex

  /** A recorded map; nil stands for an absent entry. */
  function Recorded(m: map<string, EntryRef?>): Changes
  {
    map k | k in m :: OptVal(m[k])
  }

  /** `now` is what the operations make of `start`, and the records are theirs. */
  ghost predicate History(c: Schema, start: State, ops: seq<Op>, now: State, b: Changes, f: Changes)
  {
    && StateSound(c, start) && OpsHaveOptions(ops)
    && now == RunOps(c, start, ops) && b == Backward(start.data, ops) && f == Forward(start.data, ops)
  }

  /** What one more operation does to the bucket and to the records. */
  lemma Snoc(c: Schema, st: State, ops: seq<Op>, op: Op)
    requires StateSound(c, st) && OpsHaveOptions(ops)
    ensures var before, now := RunOps(c, st, ops), ops + [op];
      && RunOps(c, st, now) == StepBucket(c, before, op)
      && Backward(st.data, now) == (match op
        case Set(e) => Backward(st.data, ops)[e.k := Lookup(before.data, e.k)]
        case Del(k) =>
          if k in before.data then Backward(st.data, ops)[k := Some(before.data[k])] else Backward(st.data, ops)
        case _ => Backward(st.data, ops))
      && Forward(st.data, now) == (match op
        case Set(e) => Forward(st.data, ops)[e.k := Some(e)]
        case Del(k) => if k in before.data then Forward(st.data, ops)[k := None] else Forward(st.data, ops)
        case _ => Forward(st.data, ops))
  {
    hide StateSound, StepBucket;
    RunOpsSound(c, st, ops);
    assert (ops + [op])[..|ops + [op]| - 1] == ops;
  }

  lemma HistoryOfSet(c: Schema, start: State, ops: seq<Op>, now: State, b: Changes, f: Changes, e: Entry)
    requires History(c, start, ops, now, b, f) && e.opts.Some?
    ensures History(
      c, start, ops + [Op.Set(e)], BucketSpec.Insert(c, now, e), b[e.k := Lookup(now.data, e.k)], f[e.k := Some(e)])
  {
    Snoc(c, start, ops, Op.Set(e));
  }

  lemma HistoryOfDelete(c: Schema, start: State, ops: seq<Op>, now: State, b: Changes, f: Changes, k: string)
    requires History(c, start, ops, now, b, f)
    ensures Lookup(now.data, k).Some? ==>
      History(c, start, ops + [Del(k)], BucketSpec.Delete(c, now, k), b[k := Lookup(now.data, k)], f[k := None])
    ensures Lookup(now.data, k).None? ==> History(c, start, ops + [Del(k)], BucketSpec.Delete(c, now, k), b, f)
  {
    Snoc(c, start, ops, Del(k));
  }

  lemma IndexingSteps(c: Schema, now: State, pattern: string, vtype: IndexValueType)
    ensures StepBucket(c, now, Op.CreateIndex(pattern, vtype)) == Created(c, now, pattern, vtype)
    ensures StepBucket(c, now, Op.DropIndex(pattern)) == now.(indexes := now.indexes - {pattern})
    ensures pattern in now.indexes ==> Created(c, now, pattern, vtype) == now
    ensures pattern !in now.indexes ==> now.(indexes := now.indexes - {pattern}) == now
  {
    if pattern !in now.indexes {
      assert now.indexes - {pattern} == now.indexes;
    }
  }

  lemma HistoryOfIndexing(c: Schema, start: State, ops: seq<Op>, now: State, b: Changes, f: Changes,
                          pattern: string, vtype: IndexValueType)
    requires History(c, start, ops, now, b, f)
    ensures History(c, start, ops + [Op.CreateIndex(pattern, vtype)], Created(c, now, pattern, vtype), b, f)
    ensures History(c, start, ops + [Op.DropIndex(pattern)], now.(indexes := now.indexes - {pattern}), b, f)
    ensures pattern in now.indexes ==> Created(c, now, pattern, vtype) == now
    ensures pattern !in now.indexes ==> now.(indexes := now.indexes - {pattern}) == now
  {
    hide StateSound, RunOps, Backward, Forward, Created, StepBucket;
    Snoc(c, start, ops, Op.CreateIndex(pattern, vtype));
    Snoc(c, start, ops, Op.DropIndex(pattern));
    IndexingSteps(c, now, pattern, vtype);
  }

  lemma MovedByCommit(cfg: Config, im: Image, ops: seq<Op>, order: seq<string>)
    requires Enumerates(order, Forward(im.st.data, ops).Keys)
    ensures Walks(im.st, Step.Commit(ops, order))
    ensures var im' := Moved(cfg, im, Step.Commit(ops, order));
      var buf := im.aofbuf + EncodeAll(cfg.fc, CommitStmts(Forward(im.st.data, ops), order));
      && im'.st == RunOps(cfg.c, im.st, ops)
      && if cfg.persist then im'.file == WriteAt(im.file, im.pos, buf) && im'.pos == im.pos + |buf| && im'.aofbuf == ""
         else im'.file == im.file && im'.pos == im.pos && im'.aofbuf == buf
  {
    hide RunOps, EncodeAll, CommitStmts, Forward;
  }

  lemma MovedByRollback(cfg: Config, im: Image, ops: seq<Op>, order: seq<string>)
    requires Enumerates(order, Backward(im.st.data, ops).Keys)
    ensures Walks(im.st, Step.Rollback(ops, order))
    ensures Moved(cfg, im, Step.Rollback(ops, order)) ==
      im.(st := Restore(cfg.c, RunOps(cfg.c, im.st, ops), Backward(im.st.data, ops), order))
  {
    hide RunOps, Restore, Backward;
  }

  lemma Dimensions(items: seq<Entry>, dims: nat)
    requires SearchableAt(items, dims)
    ensures forall e :: e in items ==> |e.location| == dims
  {
  }

  lemma SpatialOptions(c: Schema, st: State)
    requires StateSound(c, st)
    ensures SpatialExact(c, st.data, st.rtree) && forall e :: e in st.rtree ==> e.opts.Some?
  {
    hide Sound;
    forall e | e in st.rtree
      ensures e.opts.Some?
    {
      assert Lookup(st.data, e.k) == Some(e);
    }
  }

  lemma UpdatedData(c: Schema, st: State, e: Entry, k: string)
    ensures BucketSpec.Insert(c, st, e).data == st.data[e.k := e] && BucketSpec.Delete(c, st, k).data == st.data - {k}
    ensures Lookup(st.data, k).Some? <==> k in st.data
    ensures forall r: EntryRef? :: OptVal(r).Some? <==> r != null
  {
    hide Relink, Unlink, Replot, RelinkIndexes, UnlinkIndexes;
  }

  lemma NilHasNoEntry()
    ensures OptVal(null) == None
  {
  }

  // ---------- proofs ----------

  lemma RecordedUpdate(m: map<string, EntryRef?>, k: string, r: EntryRef?)
    ensures Recorded(m[k := r]) == Recorded(m)[k := OptVal(r)]
    ensures OptVal(r) == if r == null then None else Some(r.val)
  {
  }

  lemma RecordedMeaning(m: map<string, EntryRef?>)
    ensures Recorded(m).Keys == m.Keys && forall k :: k in m ==> Recorded(m)[k] == OptVal(m[k])
  {
  }

  lemma ChangeStmtOf(k: string, entry: EntryRef?)
    ensures ChangeStmt(k, OptVal(entry)) ==
      if entry == null then Stmt(Deleting, Probe(k)) else Stmt(Inserting, entry.val)
  {
  }

  lemma RolledBackData(c: Schema, start: State, ops: seq<Op>, order: seq<string>)
    requires StateSound(c, start) && OpsHaveOptions(ops)
    requires Enumerates(order, Backward(start.data, ops).Keys)
    ensures var st := Restore(c, RunOps(c, start, ops), Backward(start.data, ops), order);
      st.data == RolledBack(start.data, ops, order) && (st.data == start.data <==> LastWritesFromStart(start.data, ops))
  {
    RunOpsSound(c, start, ops);
    DataKeyed(start.data, ops);
    RestoreSound(c, RunOps(c, start, ops), Backward(start.data, ops), order);
    RollbackRestores(start.data, ops, order);
  }

  lemma CommitNothing(fc: FloatCodec, f: Changes)
    ensures EncodeAll(fc, CommitStmts(f, [])) == ""
  {
  }

  lemma CommitSnoc(fc: FloatCodec, f: Changes, order: seq<string>, k: string)
    requires k in f && forall j :: j in order ==> j in f
    ensures EncodeAll(fc, CommitStmts(f, order + [k])) ==
      EncodeAll(fc, CommitStmts(f, order)) + Encode(fc, ChangeStmt(k, f[k]))
  {
    hide Encode;
    var ss := CommitStmts(f, order + [k]);
    assert ss[..|ss| - 1] == CommitStmts(f, order) && ss[|ss| - 1] == ChangeStmt(k, f[k]);
  }

  lemma RestoreNothing(c: Schema, st: State, m: Changes)
    ensures Restore(c, st, m, []) == st
  {
  }

  lemma RestoreSnoc(c: Schema, st: State, m: Changes, order: seq<string>, k: string)
    requires k in m && forall j :: j in order ==> j in m
    ensures Restore(c, st, m, order + [k]) == TxSpec.RestoreOne(c, Restore(c, st, m, order), k, m[k])
  {
    hide TxSpec.RestoreOne;
    assert (order + [k])[..|order + [k]| - 1] == order;
  }

  // ---------- the transaction ----------

  class Tx {
    const bkt: Bucket
    const readWrite: bool
    var iterating: bool
    var backward: map<string, EntryRef?>
    var forward: map<string, EntryRef?>

    /** The bucket when the transaction began, the time then, and the operations since. */
    ghost const start: State

    ghost const began: Instant
    ghost var ops: seq<Op>

    /** Flags mean what they should, also on entries a rollback may put back. */
    ghost predicate FlagsSound()
      reads this, bkt.data, bkt.data.items
      reads set k | k in backward && backward[k] != null :: backward[k]
    {
      && bkt.FlagsSound(began)
      && forall k :: k in backward && backward[k] != null && backward[k].invalid ==>
           Outdated(backward[k].val, began)
    }

    /** The records are those of the operations made on the bucket. */
    ghost predicate Valid()
      reads this, bkt, bkt.data, bkt.eviction, bkt.invalidation, bkt.trees, bkt.data.items
      reads set k | k in backward && backward[k] != null :: backward[k]
    {
      && bkt.Valid() && FlagsSound()
      && History(bkt.c, start, ops, bkt.Abs(), Recorded(backward), Recorded(forward))
    }

    lemma OpenUp()
      requires Valid()
      ensures bkt.Valid() && History(bkt.c, start, ops, bkt.Abs(), Recorded(backward), Recorded(forward))
      ensures forall r :: r in bkt.data.items && r.invalid ==> Outdated(r.val, began)
      ensures forall k :: k in backward && backward[k] != null && backward[k].invalid ==>
        Outdated(backward[k].val, began)
    {
    }

    lemma Records()
      requires Valid()
      ensures Recorded(forward) == Forward(start.data, ops) && Recorded(backward) == Backward(start.data, ops)
      ensures bkt.Abs() == RunOps(bkt.c, start, ops) && StateSound(bkt.c, start) && OpsHaveOptions(ops)
      ensures forall k :: k in backward && backward[k] != null ==> backward[k].val.k == k && backward[k].val.opts.Some?
    {
      DataKeyed(start.data, ops);
      forall k | k in backward && backward[k] != null
        ensures backward[k].val.k == k && backward[k].val.opts.Some?
      {
        assert Recorded(backward)[k] == Some(backward[k].val);
      }
    }

    lemma FlagsAgain()
      requires forall r :: r in bkt.data.items && r.invalid ==> Outdated(r.val, began)
      ensures bkt.FlagsSound(began)
    {
    }

    lemma CloseUp()
      requires bkt.Valid() && History(bkt.c, start, ops, bkt.Abs(), Recorded(backward), Recorded(forward))
      requires forall r :: r in bkt.data.items && r.invalid ==> Outdated(r.val, began)
      requires forall k :: k in backward && backward[k] != null && backward[k].invalid ==>
        Outdated(backward[k].val, began)
      ensures Valid() && bkt.FlagsSound(began)
    {
    }

    constructor (bkt: Bucket, readWrite: bool, ghost now: Instant)
      requires bkt.Valid() && bkt.FlagsSound(now)
      ensures Valid() && this.bkt == bkt && this.readWrite == readWrite && start == bkt.Abs() && ops == []
      ensures !iterating && began == now
    {
      this.bkt, this.readWrite, iterating, backward, forward := bkt, readWrite, false, map[], map[];
      start, began, ops := bkt.Abs(), now, [];
    }

    /** An entry that is expired or invalid is not there for a reader, flag or no flag. */
    method Get(e: Entry, now: Instant) returns (r: Result<EntryRef?, TxError>)
      requires Valid() && began <= now
      ensures r == Failure(NotOpen) <==> !bkt.open
      ensures bkt.open ==> r.Success? && OptVal(r.value) == GetAt(bkt.Abs().data, e.k, now)
      ensures bkt.open && e.k !in bkt.Abs().data ==> r.value == null
      ensures bkt.open && e.k in bkt.Abs().data ==>
        && bkt.Abs().data[e.k].opts.Some?
        && var o := bkt.Abs().data[e.k].opts.value;
        OptVal(r.value) ==
          if (o.doesExp ==> now <= o.expTime) && (o.doesInv ==> now <= o.invTime) then Some(bkt.Abs().data[e.k])
          else None
    {
      if !bkt.open {
        return Failure(NotOpen);
      }
      var res := bkt.Get(e);
      PreviousHasOptions(bkt.c, bkt.Abs(), e.k);
      hide Bucket.Valid, Bucket.Abs;
      if res != null {
        var expired := res.IsExpired(now);
        var invalid := res.IsInvalid(now);
        if expired || invalid {
          return Success(null);
        }
      }
      return Success(res);
    }

    method Set(e: EntryRef) returns (r: Result<EntryRef?, TxError>)
      requires Valid() && e.val.opts.Some? && (e.invalid ==> Outdated(e.val, began))
      modifies this`backward, this`forward, this`ops
      modifies bkt`rct, bkt`rtree, bkt.data, bkt.eviction, bkt.invalidation, bkt.trees
      ensures Valid()
      ensures if iterating then r == Failure(Iterating) else if !bkt.open then r == Failure(NotOpen)
        else r.Success? && OptVal(r.value) == Lookup(old(bkt.Abs()).data, e.val.k)
      ensures ops == if r.Success? then old(ops) + [Op.Set(e.val)] else old(ops)
      ensures r.Success? ==> bkt.Abs().data == old(bkt.Abs()).data[e.val.k := e.val]
      ensures r.Success? ==> backward == old(backward)[e.val.k := r.value] && forward == old(forward)[e.val.k := e]
      ensures r.Failure? ==> backward == old(backward) && forward == old(forward)
      ensures r.Failure? ==> bkt.Abs() == old(bkt.Abs())
    {
      hide *;
      if iterating {
        return Failure(Iterating);
      }
      if !bkt.open {
        return Failure(NotOpen);
      }
      OpenUp();
      HistoryOfSet(bkt.c, start, ops, bkt.Abs(), Recorded(backward), Recorded(forward), e.val);
      RecordedUpdate(forward, e.val.k, e);
      UpdatedData(bkt.c, bkt.Abs(), e.val, e.val.k);
      var pres := bkt.Insert(e);
      RecordedUpdate(backward, e.val.k, pres);
      backward := backward[e.val.k := pres];
      forward := forward[e.val.k := e];
      ops := ops + [Op.Set(e.val)];
      CloseUp();
      return Success(pres);
    }

    method Delete(e: Entry) returns (r: Result<EntryRef?, TxError>)
      requires Valid()
      modifies this`backward, this`forward, this`ops
      modifies bkt`rct, bkt`rtree, bkt.data, bkt.eviction, bkt.invalidation, bkt.trees
      ensures Valid()
      ensures if iterating then r == Failure(Iterating) else if !bkt.open then r == Failure(NotOpen)
        else r.Success? && OptVal(r.value) == Lookup(old(bkt.Abs()).data, e.k)
      ensures ops == if r.Success? then old(ops) + [Del(e.k)] else old(ops)
      ensures r.Success? ==> bkt.Abs().data == old(bkt.Abs()).data - {e.k}
      ensures r.Success? && e.k in old(bkt.Abs()).data ==>
        backward == old(backward)[e.k := r.value] && forward == old(forward)[e.k := null]
      ensures !(r.Success? && e.k in old(bkt.Abs()).data) ==> backward == old(backward) && forward == old(forward)
      ensures r.Failure? ==> bkt.Abs() == old(bkt.Abs())
    {
      hide *;
      if iterating {
        return Failure(Iterating);
      }
      if !bkt.open {
        return Failure(NotOpen);
      }
      OpenUp();
      HistoryOfDelete(bkt.c, start, ops, bkt.Abs(), Recorded(backward), Recorded(forward), e.k);
      UpdatedData(bkt.c, bkt.Abs(), Probe(e.k), e.k);
      var dres := bkt.Delete(e);
      if dres != null {
        RecordedUpdate(backward, e.k, dres);
        RecordedUpdate(forward, e.k, null);
        backward := backward[e.k := dres];
        forward := forward[e.k := null];
      } else {
        NilHasNoEntry();
      }
      ops := ops + [Del(e.k)];
      CloseUp();
      return Success(dres);
    }

    method CreateIndex(pattern: string, vtype: IndexValueType) returns (r: Result<(), TxError>)
      requires Valid()
      modifies this`ops, bkt`indexes, bkt`trees
      ensures Valid()
      ensures if !bkt.open then r == Failure(NotOpen)
        else if pattern in old(bkt.Abs()).indexes then r == Failure(IndexExists) else r.Success?
      ensures ops == if r.Success? then old(ops) + [Op.CreateIndex(pattern, vtype)] else old(ops)
      ensures r.Failure? ==> bkt.Abs() == old(bkt.Abs())
    {
      hide *;
      if !bkt.open {
        return Failure(NotOpen);
      }
      OpenUp();
      HistoryOfIndexing(bkt.c, start, ops, bkt.Abs(), Recorded(backward), Recorded(forward), pattern, vtype);
      var ok := bkt.CreateIndex(pattern, vtype);
      if !ok {
        CloseUp();
        return Failure(IndexExists);
      }
      ops := ops + [Op.CreateIndex(pattern, vtype)];
      CloseUp();
      return Success(());
    }

    method DropIndex(pattern: string) returns (r: Result<(), TxError>)
      requires Valid()
      modifies this`ops, bkt`indexes
      ensures Valid()
      ensures if !bkt.open then r == Failure(NotOpen)
        else if pattern !in old(bkt.Abs()).indexes then r == Failure(NoIndex) else r.Success?
      ensures ops == if r.Success? then old(ops) + [Op.DropIndex(pattern)] else old(ops)
      ensures r.Failure? ==> bkt.Abs() == old(bkt.Abs())
    {
      hide *;
      if !bkt.open {
        return Failure(NotOpen);
      }
      OpenUp();
      HistoryOfIndexing(bkt.c, start, ops, bkt.Abs(), Recorded(backward), Recorded(forward), pattern, StringIndex);
      var ok := bkt.DropIndex(pattern);
      if !ok {
        CloseUp();
        return Failure(NoIndex);
      }
      ops := ops + [Op.DropIndex(pattern)];
      CloseUp();
      return Success(());
    }

    lemma SpatialOf()
      requires Valid()
      ensures bkt.Abs().rtree == Vals(bkt.rtree) && SpatialExact(bkt.c, bkt.Abs().data, bkt.Abs().rtree)
      ensures forall e :: e in bkt.Abs().rtree ==> e.opts.Some?
    {
      SpatialOptions(bkt.c, bkt.Abs());
    }

    /** Whether or not the bucket is open, and expired entries included. */
    method SearchWithinRadius(pt: seq<real>, radius: real, handsOut: Entry -> bool) returns (res: seq<Entry>)
      requires Valid() && radius > 0.0
      ensures forall e :: e in bkt.Abs().rtree ==> e.opts.Some?
      ensures res == BruteForce(
        AllReached(InTurn(bkt.Abs().rtree, |pt|, handsOut), pt, radius), pt, radius, bkt.c.georincl)
      ensures SearchableAt(bkt.Abs().rtree, |pt|) && Tolerant(bkt.Abs().rtree) ==>
        && res == BruteForce(bkt.Abs().rtree, pt, radius, bkt.c.georincl)
        && forall e :: e in res <==>
          && Lookup(bkt.Abs().data, e.k) == Some(e) && bkt.c.geo && bkt.c.json.get(e.v, "coords").Some?
          && |e.location| == |pt| && InBall(e, pt, radius, bkt.c.georincl)
    {
      hide *;
      SpatialOf();
      if SearchableAt(bkt.Abs().rtree, |pt|) {
        Dimensions(bkt.Abs().rtree, |pt|);
        SearchFindsLive(bkt.c, bkt.Abs().data, bkt.Abs().rtree, pt, radius);
      }
      res := Radius.SearchWithinRadius(Vals(bkt.rtree), pt, radius, bkt.c.georincl, handsOut);
    }

    // ---------- commit and rollback ----------

    /** Appends one statement per recorded key, in some order, and flushes: a step of a run. */
    method Commit() returns (r: Result<(), TxError>, ghost order: seq<string>)
      requires Valid()
      modifies bkt`file, bkt`pos, bkt`aofbuf
      ensures Valid()
      ensures if !bkt.open then r == Failure(NotOpen) else if !readWrite then r == Failure(ReadOnly) else r.Success?
      ensures r.Success? ==> Enumerates(order, Forward(start.data, ops).Keys)
      ensures r.Success? ==>
        var buf := old(bkt.aofbuf) + EncodeAll(bkt.fc, CommitStmts(Forward(start.data, ops), order));
        if bkt.persist
        then
          && bkt.file == WriteAt(old(bkt.file), old(bkt.pos), buf)
          && bkt.pos == old(bkt.pos) + |buf| && bkt.aofbuf == ""
        else bkt.file == old(bkt.file) && bkt.pos == old(bkt.pos) && bkt.aofbuf == buf
      ensures r.Success? ==>
        var before := ImageFields.Image(start, old(bkt.file), old(bkt.pos), old(bkt.aofbuf));
        bkt.Img() == Moved(bkt.Cfg(), before, Step.Commit(ops, order))
      ensures r.Failure? ==>
        bkt.file == old(bkt.file) && bkt.pos == old(bkt.pos) && bkt.aofbuf == old(bkt.aofbuf)
    {
      hide *;
      order := [];
      if !bkt.open {
        return Failure(NotOpen), order;
      }
      if !readWrite {
        return Failure(ReadOnly), order;
      }
      OpenUp();
      bkt.ImgIs();
      Records();
      ghost var f := Recorded(forward);
      RecordedMeaning(forward);
      EnumeratesNothing<string>();
      CommitNothing(bkt.fc, f);
      assert bkt.aofbuf + "" == bkt.aofbuf;
      var keys := forward.Keys;
      assert forward.Keys - keys == {};
      while keys != {}
        invariant keys <= forward.Keys
        invariant Enumerates(order, forward.Keys - keys) && forall k :: k in order ==> k in f
        invariant bkt.Valid() && bkt.Abs() == old(bkt.Abs())
        invariant bkt.file == old(bkt.file) && bkt.pos == old(bkt.pos)
        invariant bkt.aofbuf == old(bkt.aofbuf) + EncodeAll(bkt.fc, CommitStmts(f, order))
      {
        var k :| k in keys;
        var entry := forward[k];
        ChangeStmtOf(k, entry);
        var stmt := EntryStmt(bkt.fc, if entry == null then Stmt(Deleting, Probe(k)) else Stmt(Inserting, entry.val));
        CommitSnoc(bkt.fc, f, order, k);
        bkt.AppendToBuffer(stmt);
        EnumeratesSnoc(order, forward.Keys - keys, k);
        assert forward.Keys - (keys - {k}) == (forward.Keys - keys) + {k};
        order := order + [k];
        keys := keys - {k};
      }
      assert forward.Keys - keys == forward.Keys;
      bkt.WriteAOFBuf();
      bkt.ImgIs();
      MovedByCommit(bkt.Cfg(), ImageFields.Image(start, old(bkt.file), old(bkt.pos), old(bkt.aofbuf)), ops, order);
      CloseUp();
      return Success(()), order;
    }

    /** Undoes the recorded changes in some order, a step of a run: each key ends with the entry it had just before
        its last write, and the key map is the original one precisely if each key was still, or again, as at the
        start then. */
    method Rollback() returns (ghost order: seq<string>)
      requires Valid()
      modifies bkt`rct, bkt`rtree, bkt.data, bkt.eviction, bkt.invalidation, bkt.trees
      ensures bkt.Valid() && bkt.FlagsSound(began)
      ensures Enumerates(order, Backward(start.data, ops).Keys)
      ensures bkt.Abs() == Restore(bkt.c, RunOps(bkt.c, start, ops), Backward(start.data, ops), order)
      ensures bkt.Img() == Moved(
        bkt.Cfg(), ImageFields.Image(start, bkt.file, bkt.pos, bkt.aofbuf), Step.Rollback(ops, order))
      ensures bkt.Abs().data == RolledBack(start.data, ops, order)
      ensures bkt.Abs().data == start.data <==> LastWritesFromStart(start.data, ops)
    {
      hide *;
      OpenUp();
      Records();
      ghost var b, st := Recorded(backward), bkt.Abs();
      RecordedMeaning(backward);
      EnumeratesNothing<string>();
      RestoreNothing(bkt.c, st, b);
      var keys := backward.Keys;
      assert backward.Keys - keys == {};
      order := [];
      while keys != {}
        invariant keys <= backward.Keys
        invariant Enumerates(order, backward.Keys - keys) && forall k :: k in order ==> k in b
        invariant bkt.Valid() && bkt.Abs() == Restore(bkt.c, st, b, order)
        invariant forall r :: r in bkt.data.items && r.invalid ==> Outdated(r.val, began)
        invariant forall k :: k in backward && backward[k] != null && backward[k].invalid ==>
          Outdated(backward[k].val, began)
      {
        var k :| k in keys;
        var entry := backward[k];
        bkt.RestoreOne(k, entry);
        RestoreSnoc(bkt.c, st, b, order, k);
        EnumeratesSnoc(order, backward.Keys - keys, k);
        assert backward.Keys - (keys - {k}) == (backward.Keys - keys) + {k};
        order := order + [k];
        keys := keys - {k};
      }
      assert backward.Keys - keys == backward.Keys;
      RolledBackData(bkt.c, start, ops, order);
      bkt.ImgIs();
      MovedByRollback(bkt.Cfg(), ImageFields.Image(start, bkt.file, bkt.pos, bkt.aofbuf), ops, order);
      FlagsAgain();
    }
  }
}
