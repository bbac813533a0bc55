/** Runs of a bucket (tx.go, bucket.go) and what every one of them keeps of its append-only file.
    A run interleaves committed and rolled-back transactions with cycles of the manager, rewrites of the file
    included. What the file held at the last rewrite (`base`) and the statements written since (`log`) are
    remembered, and take no part in the steps. */
module Recovery {
  import opened Prelude
  import opened Entries
  import opened BucketSpec
  import opened TxSpec
  import opened EvictionSpec
  import opened Codec
  import opened Reader
  import opened Loading
  import opened Compaction

  datatype ImageFields = Image(st: State, file: string, pos: nat, aofbuf: string)

  /** A bucket with its file, the position in the file, and the buffer. */
  type Image = im: ImageFields | im.pos <= |im.file| witness ImageFields.Image(EMPTY, "", 0, "")

  datatype Sys = Sys(im: Image, base: string, log: seq<Stmt>, now: Instant)

  datatype Step =
    | Commit(ops: seq<Op>, order: seq<string>)
    | Rollback(ops: seq<Op>, order: seq<string>)
    | Manage(now: Instant)

  // ---------- what a commit writes ----------

  function ChangeStmt(k: string, change: Option<Entry>): Stmt
  {
    match change
    case None => Stmt(Deleting, Probe(k))
    case Some(e) => Stmt(Inserting, e)
  }

  function CommitStmts(f: Changes, order: seq<string>): seq<Stmt>
    requires forall k :: k in order ==> k in f
  {
    seq(|order|, i requires 0 <= i < |order| => ChangeStmt(order[i], f[order[i]]))
  }

  /** A changed key is written with its entry, a deleted one with nothing but the key. */
  lemma CommitStmtsMeaning(f: Changes, order: seq<string>, i: nat)
    requires (forall k :: k in order ==> k in f) && i < |order|
    ensures |CommitStmts(f, order)| == |order|
    ensures CommitStmts(f, order)[i] ==
      if f[order[i]].Some? then Stmt(Inserting, f[order[i]].value)
      else Stmt(Deleting, Entry(order[i], "", None, []))
  {
  }

  function ReloadedChange(json: Json, change: Option<Entry>): Option<Entry>
  {
    if change.Some? then Some(Reloaded(json, change.value)) else None
  }

  /** What a commit writes sets each changed key to the reloaded entry and leaves the others alone. */
  lemma {:induction false} ReplayCommit(json: Json, d: map<string, Entry>, f: Changes, order: seq<string>, k: string)
    requires KeyedChanges(f) && forall j :: j in order ==> j in f
    ensures Lookup(Replay(d, ReloadedAll(json, CommitStmts(f, order))), k) ==
      if k in order then ReloadedChange(json, f[k]) else Lookup(d, k)
  {
    hide Reloaded;
    if order == [] {
    } else {
      var init, last := order[..|order| - 1], order[|order| - 1];
      assert order == init + [last];
      ReplayCommit(json, d, f, init, k);
      var ss := ReloadedAll(json, CommitStmts(f, order));
      assert ss[..|ss| - 1] == ReloadedAll(json, CommitStmts(f, init));
      assert ss[|ss| - 1] == ReloadedStmt(json, ChangeStmt(last, f[last]));
      ReloadedKeepsKey(json, ChangeStmt(last, f[last]).e);
    }
  }

  // ---------- steps ----------

  /** Writes the buffer to the file. */
  function Flush(cfg: Config, im: Image): Image
  {
    if cfg.persist
    then ImageFields.Image(im.st, WriteAt(im.file, im.pos, im.aofbuf), im.pos + |im.aofbuf|, "")
    else im
  }

  /** The trigger for a rewrite of the file. */
  predicate CompactionDue(st: State)
  {
    st.rct > |st.data| * 10
  }

  predicate Rewrites(cfg: Config, st: State)
  {
    cfg.persist && CompactionDue(st)
  }

  /** The maps a step walks are walked in some order. */
  ghost predicate Walks(st: State, step: Step)
  {
    match step
    case Commit(ops, order) => Enumerates(order, Forward(st.data, ops).Keys)
    case Rollback(ops, order) => Enumerates(order, Backward(st.data, ops).Keys)
    case Manage(_) => true
  }

  /** What a step makes of a bucket and its file. */
  ghost function Moved(cfg: Config, im: Image, step: Step): Image
    requires Walks(im.st, step)
  {
    match step
    case Commit(ops, order) =>
      var stmts := CommitStmts(Forward(im.st.data, ops), order);
      Flush(cfg, im.(st := RunOps(cfg.c, im.st, ops), aofbuf := im.aofbuf + EncodeAll(cfg.fc, stmts)))
    case Rollback(ops, order) =>
      im.(st := Restore(cfg.c, RunOps(cfg.c, im.st, ops), Backward(im.st.data, ops), order))
    case Manage(now) =>
      var evicted := Evict(cfg.c, im.st, now);
      if Rewrites(cfg, im.st) then ImageFields.Image(evicted, CompactedFile(cfg.fc, im.st.data), 0, "")
      else Flush(cfg, im).(st := evicted)
  }

  predicate WritableOp(fc: FloatCodec, op: Op)
  {
    match op
    case Set(e) => Writable(fc, Stmt(Inserting, e))
    case Del(k) => Writable(fc, Stmt(Deleting, Probe(k)))
    case _ => true
  }

  /** What is asked of a run: the maps are walked in some order, keys and values can be written, time does not
      run backwards. */
  ghost predicate Legal(cfg: Config, s: Sys, step: Step)
  {
    && Walks(s.im.st, step)
    && match step
       case Commit(ops, _) => OpsHaveOptions(ops) && forall op :: op in ops ==> WritableOp(cfg.fc, op)
       case Rollback(ops, _) => OpsHaveOptions(ops)
       case Manage(now) => s.now <= now
  }

  ghost function Next(cfg: Config, s: Sys, step: Step): Sys
    requires Legal(cfg, s, step)
  {
    var im := Moved(cfg, s.im, step);
    match step
    case Commit(ops, order) => Sys(im, s.base, s.log + CommitStmts(Forward(s.im.st.data, ops), order), s.now)
    case Rollback(_, _) => Sys(im, s.base, s.log, s.now)
    case Manage(now) =>
      if Rewrites(cfg, s.im.st) then Sys(im, CompactedFile(cfg.fc, s.im.st.data), [], now)
      else Sys(im, s.base, s.log, now)
  }

  /** A rollback leaves the key as it was: see RollbackRestoresKey. */
  ghost predicate Undoes(s: Sys, step: Step, k: string)
  {
    step.Rollback? ==> LastWriteFromStart(s.im.st.data, step.ops, k)
  }

  /** A commit that writes the key. */
  ghost predicate Logs(s: Sys, step: Step, k: string)
  {
    step.Commit? && k in Forward(s.im.st.data, step.ops)
  }

  /** The step does not rewrite the file. */
  ghost predicate KeepsFile(cfg: Config, s: Sys, step: Step)
  {
    step.Manage? ==> !Rewrites(cfg, s.im.st)
  }

  /** A rewrite leaves an empty file, as it does for every bucket whose statements take at most 1 MiB. */
  ghost predicate KeepsFormat(cfg: Config, s: Sys, step: Step)
  {
    step.Manage? && Rewrites(cfg, s.im.st) ==> StreamSize(cfg.fc, s.im.st.data) <= 1_048_576
  }

  // ---------- the file against the key map ----------

  /** What the log replays to. */
  function Logged(cfg: Config, log: seq<Stmt>): map<string, Entry>
  {
    Replay(map[], ReloadedAll(cfg.c.json, log))
  }

  /** If the key is logged: a live entry is logged as it is, and an entry that is not live has expired. */
  ghost predicate Agrees(json: Json, data: map<string, Entry>, logged: map<string, Entry>, touched: set<string>,
                         now: Instant, k: string)
  {
    && (k in data && k in touched ==> Lookup(logged, k) == Some(Reloaded(json, data[k])))
    && (k in logged && k !in data ==> Expired(logged[k], now))
    && (k in logged ==> k in touched)
  }

  /** What every legal run keeps. */
  ghost predicate Inv(cfg: Config, s: Sys)
  {
    StateSound(cfg.c, s.im.st)
  }

  /** What is left of a file behind an overwritten head. */
  function Behind(file: string, head: string): string
  {
    if |head| < |file| then file[|head|..] else ""
  }

  /** What the log has left of the file as it was at the last rewrite. */
  function Rest(cfg: Config, s: Sys): string
  {
    Behind(s.base, EncodeAll(cfg.fc, s.log))
  }

  /** The log is written over the head of the last rewritten file, to the position of the file or into the buffer;
      nothing stays buffered when persisting, and no more statements were written than rows counted. */
  ghost predicate WellLogged(cfg: Config, s: Sys)
  {
    && (if cfg.persist then s.im.aofbuf == "" else s.base == "")
    && s.im.file + s.im.aofbuf == EncodeAll(cfg.fc, s.log) + Rest(cfg, s)
    && s.im.pos + |s.im.aofbuf| == |EncodeAll(cfg.fc, s.log)|
    && AllWritable(cfg.fc, s.log)
    && |s.log| <= s.im.st.rct
  }

  /** What a run keeps about a key that rollbacks leave as it was, or a later commit writes. */
  ghost predicate Recoverable(cfg: Config, s: Sys, k: string)
  {
    Agrees(cfg.c.json, s.im.st.data, Logged(cfg, s.log), Touched(s.log), s.now, k)
  }

  /** What it keeps besides as long as the file is not rewritten. */
  ghost predicate Complete(s: Sys, k: string)
  {
    k in s.im.st.data ==> k in Touched(s.log)
  }

  // ---------- commits ----------

  /** Operations count at least as many row changes as keys they record. */
  lemma {:induction false} RecordsCounted(c: Schema, st: State, ops: seq<Op>)
    ensures st.rct + |Forward(st.data, ops)| <= RunOps(c, st, ops).rct
  {
    if ops == [] {
    } else {
      RecordsCounted(c, st, ops[..|ops| - 1]);
    }
  }

  lemma {:induction false} ForwardWritable(fc: FloatCodec, d: map<string, Entry>, ops: seq<Op>)
    requires forall op :: op in ops ==> WritableOp(fc, op)
    ensures forall k :: k in Forward(d, ops) ==> Writable(fc, ChangeStmt(k, Forward(d, ops)[k]))
  {
    hide Writable;
    if ops == [] {
    } else {
      ForwardWritable(fc, d, ops[..|ops| - 1]);
      assert WritableOp(fc, ops[|ops| - 1]);
    }
  }

  lemma CommitTouches(log: seq<Stmt>, d: map<string, Entry>, ops: seq<Op>, order: seq<string>)
    requires Keyed(d) && OpsHaveOptions(ops) && Enumerates(order, Forward(d, ops).Keys)
    ensures Touched(log + CommitStmts(Forward(d, ops), order)) == Touched(log) + Forward(d, ops).Keys
  {
    DataKeyed(d, ops);
    var f := Forward(d, ops);
    var ss := CommitStmts(f, order);
    hide Forward;
    forall k | k in f.Keys
      ensures k in Touched(log + ss)
    {
      var i :| 0 <= i < |order| && order[i] == k;
      assert ss[i] in log + ss && ss[i].e.k == k;
    }
    forall s | s in ss
      ensures s.e.k in f.Keys
    {
      var i :| 0 <= i < |order| && s == ChangeStmt(order[i], f[order[i]]);
      assert order[i] in order;
    }
  }

  lemma LoggedAppend(cfg: Config, log: seq<Stmt>, ss: seq<Stmt>)
    ensures Logged(cfg, log + ss) == Replay(Logged(cfg, log), ReloadedAll(cfg.c.json, ss))
  {
    hide Reloaded, Replay;
    ReloadedConcat(cfg.c.json, log, ss);
    ReplayConcat(map[], ReloadedAll(cfg.c.json, log), ReloadedAll(cfg.c.json, ss));
  }

  /** The statements of a commit can be written, and are no more than the rows it counted. */
  lemma CommitWritable(cfg: Config, st: State, ops: seq<Op>, order: seq<string>)
    requires Enumerates(order, Forward(st.data, ops).Keys)
    requires forall op :: op in ops ==> WritableOp(cfg.fc, op)
    ensures AllWritable(cfg.fc, CommitStmts(Forward(st.data, ops), order))
    ensures st.rct + |CommitStmts(Forward(st.data, ops), order)| <= RunOps(cfg.c, st, ops).rct
  {
    RecordsCounted(cfg.c, st, ops);
    EnumeratesLength(order, Forward(st.data, ops).Keys);
    ForwardWritable(cfg.fc, st.data, ops);
    hide Writable, Forward, RunOps;
  }

  /** Writing on where a head ends overwrites just so much more. */
  lemma WriteBehind(base: string, head: string, more: string)
    ensures WriteAt(head + Behind(base, head), |head|, more) == head + more + Behind(base, head + more)
  {
    var file := head + Behind(base, head);
    assert file[..|head|] == head;
    if |head + more| < |base| {
      assert file[|head| + |more|..] == base[|head + more|..];
    }
  }

  function Appended(cfg: Config, im: Image, st': State, ss: seq<Stmt>): Image
  {
    im.(st := st', aofbuf := im.aofbuf + EncodeAll(cfg.fc, ss))
  }

  /** Statements buffered and flushed lengthen the log. */
  lemma AppendKeepsFile(cfg: Config, s: Sys, st': State, ss: seq<Stmt>)
    requires WellLogged(cfg, s) && AllWritable(cfg.fc, ss) && s.im.st.rct + |ss| <= st'.rct
    ensures WellLogged(cfg, Sys(Flush(cfg, Appended(cfg, s.im, st', ss)), s.base, s.log + ss, s.now))
  {
    var head, more := EncodeAll(cfg.fc, s.log), EncodeAll(cfg.fc, ss);
    EncodeAllConcat(cfg.fc, s.log, ss);
    WriteBehind(s.base, head, more);
    hide Writable, EncodeAll, WriteAt;
    if cfg.persist {
      assert s.im.file + "" == s.im.file && "" + more == more;
    } else {
      assert Behind("", head) == "" && head + "" == head && head + more + "" == head + more;
      assert s.im.file + (s.im.aofbuf + more) == s.im.file + s.im.aofbuf + more;
    }
  }

  lemma CommitKeepsFile(cfg: Config, s: Sys, ops: seq<Op>, order: seq<string>)
    requires WellLogged(cfg, s) && Legal(cfg, s, Commit(ops, order))
    ensures WellLogged(cfg, Next(cfg, s, Commit(ops, order)))
  {
    CommitWritable(cfg, s.im.st, ops, order);
    hide WellLogged, EncodeAll, RunOps, Forward, CommitStmts, Enumerates, Flush, AllWritable;
    AppendKeepsFile(cfg, s, RunOps(cfg.c, s.im.st, ops), CommitStmts(Forward(s.im.st.data, ops), order));
  }

  lemma CommitKeepsInv(cfg: Config, s: Sys, ops: seq<Op>, order: seq<string>)
    requires Inv(cfg, s) && WellLogged(cfg, s) && Legal(cfg, s, Commit(ops, order))
    ensures var s' := Next(cfg, s, Commit(ops, order)); Inv(cfg, s') && WellLogged(cfg, s')
  {
    RunOpsSound(cfg.c, s.im.st, ops);
    CommitKeepsFile(cfg, s, ops, order);
    hide WellLogged, StateSound, RunOps;
  }

  /** A commit brings a key it writes into agreement, whatever was there, and keeps any other as it is. */
  lemma CommitKeepsKey(cfg: Config, s: Sys, ops: seq<Op>, order: seq<string>, k: string)
    requires Inv(cfg, s) && Legal(cfg, s, Commit(ops, order))
    ensures var s' := Next(cfg, s, Commit(ops, order));
      && (Recoverable(cfg, s, k) || Logs(s, Commit(ops, order), k) ==> Recoverable(cfg, s', k))
      && (Complete(s, k) || Logs(s, Commit(ops, order), k) ==> Complete(s', k))
  {
    var d, f := s.im.st.data, Forward(s.im.st.data, ops);
    var ss := CommitStmts(f, order);
    RunOpsSound(cfg.c, s.im.st, ops);
    DataKeyed(d, ops);
    LoggedAppend(cfg, s.log, ss);
    CommitTouches(s.log, d, ops, order);
    ReplayCommit(cfg.c.json, Logged(cfg, s.log), f, order, k);
    RecordsMeaning(d, ops, k);
    hide StateSound, RunOps, EncodeAll, Logged, Replay, Touched, Reloaded, Expired, Forward, Backward, Data, Flush;
    var logged' := Logged(cfg, s.log + ss);
    assert Lookup(logged', k) == if k in f then ReloadedChange(cfg.c.json, f[k]) else Lookup(Logged(cfg, s.log), k);
    assert Lookup(Data(d, ops), k) == if k in f then f[k] else Lookup(d, k);
  }

  // ---------- rollbacks ----------

  lemma {:induction false} RestoreCounts(c: Schema, st: State, m: Changes, order: seq<string>)
    requires forall k :: k in order ==> k in m
    ensures Restore(c, st, m, order).rct == st.rct + |order|
  {
    if order == [] {
    } else {
      RestoreCounts(c, st, m, order[..|order| - 1]);
    }
  }

  lemma RollbackEffect(cfg: Config, st: State, ops: seq<Op>, order: seq<string>)
    requires StateSound(cfg.c, st) && OpsHaveOptions(ops) && Enumerates(order, Backward(st.data, ops).Keys)
    ensures var st' := Restore(cfg.c, RunOps(cfg.c, st, ops), Backward(st.data, ops), order);
      StateSound(cfg.c, st') && st'.data == RolledBack(st.data, ops, order) && st.rct <= st'.rct
  {
    RunOpsSound(cfg.c, st, ops);
    RecordsCounted(cfg.c, st, ops);
    DataKeyed(st.data, ops);
    RestoreSound(cfg.c, RunOps(cfg.c, st, ops), Backward(st.data, ops), order);
    RestoreCounts(cfg.c, RunOps(cfg.c, st, ops), Backward(st.data, ops), order);
  }

  lemma RollbackKeepsInv(cfg: Config, s: Sys, ops: seq<Op>, order: seq<string>)
    requires Inv(cfg, s) && WellLogged(cfg, s) && Legal(cfg, s, Rollback(ops, order))
    ensures var s' := Next(cfg, s, Rollback(ops, order)); Inv(cfg, s') && WellLogged(cfg, s')
  {
    RollbackEffect(cfg, s.im.st, ops, order);
    hide StateSound, AllWritable, RunOps, EncodeAll, Restore, Backward, RolledBack;
  }

  lemma RollbackKeepsKey(cfg: Config, s: Sys, ops: seq<Op>, order: seq<string>, k: string)
    requires Inv(cfg, s) && Legal(cfg, s, Rollback(ops, order)) && Undoes(s, Rollback(ops, order), k)
    ensures var s' := Next(cfg, s, Rollback(ops, order));
      (Recoverable(cfg, s, k) ==> Recoverable(cfg, s', k)) && (Complete(s, k) ==> Complete(s', k))
  {
    RollbackEffect(cfg, s.im.st, ops, order);
    RollbackRestoresKey(s.im.st.data, ops, order, k);
    hide StateSound, RunOps, Logged, Touched, Restore, Backward, RolledBack, LastWriteFromStart, Reloaded, Expired;
    assert Lookup(Next(cfg, s, Rollback(ops, order)).im.st.data, k) == Lookup(s.im.st.data, k);
  }

  // ---------- the manager ----------

  lemma EvictedSound(c: Schema, st: State, now: Instant)
    requires StateSound(c, st)
    ensures var st' := Evict(c, st, now);
      && StateSound(c, st') && st'.rct >= st.rct
      && (forall k :: k in st'.data ==> Lookup(st'.data, k) == Lookup(st.data, k))
      && forall k :: k in st.data && k !in st'.data ==> Expired(st.data[k], now)
  {
    hide StateSound, Evict, Expired;
    EvictExactly(c, st, now);
    forall k { EvictedHaveExpired(c, st, now, k); }
  }

  /** After a rewrite nothing counts as logged. */
  lemma NothingLogged(cfg: Config)
    ensures EncodeAll(cfg.fc, []) == "" && Logged(cfg, []) == map[] && Touched([]) == {} && AllWritable(cfg.fc, [])
  {
  }

  lemma BehindNothing(base: string)
    ensures "" + Behind(base, "") == base && base + "" == base
  {
  }

  lemma FlushKeepsFile(cfg: Config, s: Sys, st': State, now: Instant)
    requires WellLogged(cfg, s) && s.im.st.rct <= st'.rct
    ensures WellLogged(cfg, Sys(Flush(cfg, s.im).(st := st'), s.base, s.log, now))
  {
    var head := EncodeAll(cfg.fc, s.log);
    WriteBehind(s.base, head, "");
    hide EncodeAll, AllWritable, WriteAt;
    assert head + "" == head && s.im.file + "" == s.im.file;
  }

  lemma RewriteStartsOver(cfg: Config, s: Sys, now: Instant)
    requires s.now <= now && Rewrites(cfg, s.im.st)
    ensures WellLogged(cfg, Next(cfg, s, Manage(now)))
  {
    NothingLogged(cfg);
    BehindNothing(CompactedFile(cfg.fc, s.im.st.data));
    hide Evict, EncodeAll, CompactedFile, Flush, AllWritable, CompactionDue, Behind;
  }

  lemma ManageKeepsInv(cfg: Config, s: Sys, now: Instant)
    requires Inv(cfg, s) && WellLogged(cfg, s) && s.now <= now
    ensures var s' := Next(cfg, s, Manage(now)); Inv(cfg, s') && WellLogged(cfg, s')
  {
    EvictedSound(cfg.c, s.im.st, now);
    hide StateSound, Evict, WellLogged, CompactedFile, Flush, CompactionDue;
    if Rewrites(cfg, s.im.st) {
      RewriteStartsOver(cfg, s, now);
    } else {
      FlushKeepsFile(cfg, s, Evict(cfg.c, s.im.st, now), now);
    }
  }

  lemma ExpiredLater(now: Instant, later: Instant)
    requires now <= later
    ensures forall e :: Expired(e, now) ==> Expired(e, later)
  {
  }

  lemma ExpiredReloaded(json: Json, e: Entry, now: Instant)
    requires Expired(e, now)
    ensures Expired(Reloaded(json, e), now)
  {
  }

  /** A cycle leaves a key in agreement, as only expired entries go; a rewrite leaves nothing to agree with. */
  lemma ManageKeepsKey(cfg: Config, s: Sys, now: Instant, k: string)
    requires Inv(cfg, s) && s.now <= now
    ensures var s' := Next(cfg, s, Manage(now));
      && (Recoverable(cfg, s, k) ==> Recoverable(cfg, s', k))
      && (Complete(s, k) && KeepsFile(cfg, s, Manage(now)) ==> Complete(s', k))
  {
    EvictedSound(cfg.c, s.im.st, now);
    NothingLogged(cfg);
    if k in s.im.st.data && Expired(s.im.st.data[k], now) {
      ExpiredReloaded(cfg.c.json, s.im.st.data[k], now);
    }
    ExpiredLater(s.now, now);
    hide StateSound, Evict, EncodeAll, Logged, Touched, CompactedFile, Flush, Rewrites, Reloaded, Expired;
  }

  // ---------- opening a bucket ----------

  /** A bucket just opened on a file of written statements. */
  function Opened(cfg: Config, ss: seq<Stmt>, now: Instant): Sys
  {
    var b := EncodeAll(cfg.fc, ss);
    Sys(ImageFields.Image(LoadedState(cfg, b), b, |b|, ""), "", ss, now)
  }

  /** A replay holds only what the statements write. */
  lemma {:induction false} ReplayTouches(json: Json, ss: seq<Stmt>)
    ensures forall k :: k in Replay(map[], ReloadedAll(json, ss)) ==> k in Touched(ss)
  {
    hide Reloaded;
    if ss == [] {
      assert ReloadedAll(json, ss) == [];
    } else {
      var init, last := ss[..|ss| - 1], ss[|ss| - 1];
      ReplayTouches(json, init);
      ReloadedKeepsKey(json, last.e);
      var all := ReloadedAll(json, ss);
      assert all[..|all| - 1] == ReloadedAll(json, init) && all[|all| - 1] == ReloadedStmt(json, last);
      assert Touched(ss) == Touched(init) + {last.e.k} by { assert ss == init + [last]; }
    }
  }

  lemma OpenedInv(cfg: Config, ss: seq<Stmt>, now: Instant)
    requires cfg.fc.Faithful() && AllWritable(cfg.fc, ss)
    ensures var s := Opened(cfg, ss, now); Inv(cfg, s) && WellLogged(cfg, s)
  {
    LoadedFrom(cfg, ss);
    hide LoadedState, EncodeAll, StateSound;
    assert EncodeAll(cfg.fc, ss) + "" == EncodeAll(cfg.fc, ss);
  }

  lemma OpenedKey(cfg: Config, ss: seq<Stmt>, now: Instant, k: string)
    requires cfg.fc.Faithful() && AllWritable(cfg.fc, ss)
    ensures var s := Opened(cfg, ss, now); Recoverable(cfg, s, k) && Complete(s, k)
  {
    LoadedFrom(cfg, ss);
    ReplayReloaded(cfg.c.json, ss);
    ReplayTouches(cfg.c.json, ss);
    hide LoadedState, EncodeAll, Reloaded, Replay, StateSound, Touched;
  }

  // ---------- whole runs ----------

  ghost predicate StepAt(cfg: Config, states: seq<Sys>, steps: seq<Step>, i: nat)
    requires |states| == |steps| + 1 && i < |steps|
  {
    Legal(cfg, states[i], steps[i]) && states[i + 1] == Next(cfg, states[i], steps[i])
  }

  /** `states` are the states of a legal run of `steps` from a bucket opened on statements `ss`. */
  ghost predicate IsRun(cfg: Config, ss: seq<Stmt>, states: seq<Sys>, steps: seq<Step>)
  {
    && cfg.fc.Faithful() && AllWritable(cfg.fc, ss)
    && |states| == |steps| + 1 && states[0] == Opened(cfg, ss, states[0].now)
    && forall i :: 0 <= i < |steps| ==> StepAt(cfg, states, steps, i)
  }

  lemma StepStays(cfg: Config, states: seq<Sys>, steps: seq<Step>, step: Step, i: nat)
    requires |states| == |steps| + 1 && i <= |steps| && Legal(cfg, states[|steps|], step)
    requires i < |steps| ==> StepAt(cfg, states, steps, i)
    ensures StepAt(cfg, states + [Next(cfg, states[|steps|], step)], steps + [step], i)
  {
    hide Legal, Next;
  }

  /** A bucket just opened is a run, and every legal step extends a run. */
  lemma RunsExtend(cfg: Config, ss: seq<Stmt>, now: Instant, states: seq<Sys>, steps: seq<Step>, step: Step)
    requires cfg.fc.Faithful() && AllWritable(cfg.fc, ss)
    ensures IsRun(cfg, ss, [Opened(cfg, ss, now)], [])
    ensures IsRun(cfg, ss, states, steps) && Legal(cfg, states[|steps|], step) ==>
      IsRun(cfg, ss, states + [Next(cfg, states[|steps|], step)], steps + [step])
  {
    assert Opened(cfg, ss, now).now == now;
    hide Opened, Legal, Next, AllWritable, StepAt;
    if IsRun(cfg, ss, states, steps) && Legal(cfg, states[|steps|], step) {
      var states', steps' := states + [Next(cfg, states[|steps|], step)], steps + [step];
      forall i | 0 <= i < |steps'|
        ensures StepAt(cfg, states', steps', i)
      {
        StepStays(cfg, states, steps, step, i);
      }
    }
  }

  /** Whatever state a run is in, every transaction of writable operations can be committed or rolled back. */
  lemma StepsExist(cfg: Config, s: Sys, ops: seq<Op>) returns (commit: Step, rollback: Step)
    requires OpsHaveOptions(ops) && forall op :: op in ops ==> WritableOp(cfg.fc, op)
    ensures commit.Commit? && commit.ops == ops && Legal(cfg, s, commit)
    ensures rollback.Rollback? && rollback.ops == ops && Legal(cfg, s, rollback)
  {
    hide WritableOp, Forward, Backward, Enumerates;
    var forward := SomeOrder(Forward(s.im.st.data, ops).Keys);
    var backward := SomeOrder(Backward(s.im.st.data, ops).Keys);
    commit, rollback := Commit(ops, forward), Rollback(ops, backward);
  }

  lemma StepKeepsInv(cfg: Config, s: Sys, step: Step)
    requires Inv(cfg, s) && WellLogged(cfg, s) && Legal(cfg, s, step)
    ensures Inv(cfg, Next(cfg, s, step)) && WellLogged(cfg, Next(cfg, s, step))
  {
    hide Inv, WellLogged;
    match step
    case Commit(ops, order) => CommitKeepsInv(cfg, s, ops, order);
    case Rollback(ops, order) => RollbackKeepsInv(cfg, s, ops, order);
    case Manage(now) => ManageKeepsInv(cfg, s, now);
  }

  lemma StepKeepsKey(cfg: Config, s: Sys, step: Step, k: string)
    requires Inv(cfg, s) && Legal(cfg, s, step)
    ensures var s' := Next(cfg, s, step);
      && ((Recoverable(cfg, s, k) && Undoes(s, step, k)) || Logs(s, step, k) ==> Recoverable(cfg, s', k))
      && ((Complete(s, k) && Undoes(s, step, k) && KeepsFile(cfg, s, step)) || Logs(s, step, k) ==> Complete(s', k))
  {
    hide Inv, Recoverable, Complete;
    match step
    case Commit(ops, order) => CommitKeepsKey(cfg, s, ops, order, k);
    case Rollback(ops, order) => if Undoes(s, step, k) { RollbackKeepsKey(cfg, s, ops, order, k); }
    case Manage(now) => ManageKeepsKey(cfg, s, now, k);
  }

  lemma OpenedBase(cfg: Config, ss: seq<Stmt>, states: seq<Sys>, steps: seq<Step>)
    requires IsRun(cfg, ss, states, steps)
    ensures |states| == |steps| + 1 && states[0].base == ""
  {
    hide LoadedState, EncodeAll, StepAt;
  }

  lemma NextBase(cfg: Config, ss: seq<Stmt>, states: seq<Sys>, steps: seq<Step>, i: nat)
    requires IsRun(cfg, ss, states, steps) && i < |states| - 1
    ensures states[i + 1].base ==
      if KeepsFile(cfg, states[i], steps[i]) then states[i].base else CompactedFile(cfg.fc, states[i].im.st.data)
    ensures states[i].base == "" && KeepsFormat(cfg, states[i], steps[i]) ==> states[i + 1].base == ""
  {
    CompactedFileEmpty(cfg.fc, states[i].im.st.data);
    hide Opened, CompactedFile, StreamSize, Evict, CompactionDue, RunOps, Restore, Forward, Backward, CommitStmts;
    assert StepAt(cfg, states, steps, i);
  }

  /** In every state of every run, whatever values collide and however often keys are rewritten, the eviction,
      invalidation and R-trees are sound, the file holds the log over the last rewritten file, and rows are not
      undercounted. With rewrites of at most 1 MiB nothing but the log is in the file. */
  lemma {:induction false} RunKeepsInv(cfg: Config, ss: seq<Stmt>, states: seq<Sys>, steps: seq<Step>, i: nat)
    requires IsRun(cfg, ss, states, steps) && i < |states|
    ensures Inv(cfg, states[i]) && WellLogged(cfg, states[i])
    ensures (forall j :: 0 <= j < i ==> KeepsFormat(cfg, states[j], steps[j])) ==> states[i].base == ""
  {
    hide Inv, WellLogged, Opened, KeepsFormat, Legal, Next;
    if i == 0 {
      OpenedInv(cfg, ss, states[0].now);
      OpenedBase(cfg, ss, states, steps);
    } else {
      RunKeepsInv(cfg, ss, states, steps, i - 1);
      assert StepAt(cfg, states, steps, i - 1);
      StepKeepsInv(cfg, states[i - 1], steps[i - 1]);
      NextBase(cfg, ss, states, steps, i - 1);
    }
  }

  /** A commit between two points of a run writes the key. */
  ghost predicate LoggedBetween(states: seq<Sys>, steps: seq<Step>, j: int, i: int, k: string)
    requires |states| == |steps| + 1 && 0 <= j < i <= |steps|
  {
    exists l :: j < l < i && Logs(states[l], steps[l], k)
  }

  /** Every rollback so far left the key as it was, or a later commit wrote it. */
  ghost predicate Undone(states: seq<Sys>, steps: seq<Step>, i: nat, k: string)
    requires |states| == |steps| + 1 && i <= |steps|
  {
    forall j :: 0 <= j < i ==> Undoes(states[j], steps[j], k) || LoggedBetween(states, steps, j, i, k)
  }

  /** No rewrite was due so far, or a later commit wrote the key. */
  ghost predicate Kept(cfg: Config, states: seq<Sys>, steps: seq<Step>, i: nat, k: string)
    requires |states| == |steps| + 1 && i <= |steps|
  {
    forall j :: 0 <= j < i ==> KeepsFile(cfg, states[j], steps[j]) || LoggedBetween(states, steps, j, i, k)
  }

  /** One step back in a run, if the last one does not write the key. */
  lemma UndoneBefore(cfg: Config, states: seq<Sys>, steps: seq<Step>, i: nat, k: string)
    requires |states| == |steps| + 1 && 0 < i <= |steps| && !Logs(states[i - 1], steps[i - 1], k)
    ensures Undone(states, steps, i, k) ==>
      Undone(states, steps, i - 1, k) && Undoes(states[i - 1], steps[i - 1], k)
    ensures Kept(cfg, states, steps, i, k) ==>
      Kept(cfg, states, steps, i - 1, k) && KeepsFile(cfg, states[i - 1], steps[i - 1])
  {
    hide Undoes, KeepsFile, Logs;
    forall j | 0 <= j < i - 1 && LoggedBetween(states, steps, j, i, k)
      ensures LoggedBetween(states, steps, j, i - 1, k)
    {
      var l :| j < l < i && Logs(states[l], steps[l], k);
      assert l < i - 1;
    }
    assert !LoggedBetween(states, steps, i - 1, i, k);
  }

  /** In such states the log and the key map agree on the key; if no rewrite was due either, and the key is live,
      the log writes it. */
  lemma {:induction false} RunKeepsKey(
    cfg: Config, ss: seq<Stmt>, states: seq<Sys>, steps: seq<Step>, i: nat, k: string)
    requires IsRun(cfg, ss, states, steps) && i < |states| && Undone(states, steps, i, k)
    ensures Recoverable(cfg, states[i], k)
    ensures Kept(cfg, states, steps, i, k) ==> Complete(states[i], k)
  {
    hide Inv, WellLogged, Recoverable, Complete, Undoes, KeepsFile, Logs, Opened, Undone, Kept;
    if i == 0 {
      OpenedKey(cfg, ss, states[0].now, k);
    } else {
      var s, step := states[i - 1], steps[i - 1];
      assert StepAt(cfg, states, steps, i - 1);
      RunKeepsInv(cfg, ss, states, steps, i - 1);
      StepKeepsKey(cfg, s, step, k);
      if !Logs(s, step, k) {
        UndoneBefore(cfg, states, steps, i, k);
        RunKeepsKey(cfg, ss, states, steps, i - 1, k);
      }
    }
  }

  /** The base is the file as the last rewrite left it. */
  lemma {:induction false} LastRewrite(
    cfg: Config, ss: seq<Stmt>, states: seq<Sys>, steps: seq<Step>, j: nat, i: nat)
    requires IsRun(cfg, ss, states, steps) && j < i < |states|
    requires !KeepsFile(cfg, states[j], steps[j])
    requires forall l :: j < l < i ==> KeepsFile(cfg, states[l], steps[l])
    ensures states[i].base == CompactedFile(cfg.fc, states[j].im.st.data)
  {
    hide *;
    NextBase(cfg, ss, states, steps, i - 1);
    if i == j + 1 {
    } else {
      LastRewrite(cfg, ss, states, steps, j, i - 1);
    }
  }
}
