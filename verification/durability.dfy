/** What a reader finds who comes back after a run (bucket.go:70-142): the bucket the file loads into, for rewrites
    of any size, rollbacks that do not undo, and writes cut off by a crash. */
module Durability {
  import opened Prelude
  import opened Text
  import opened Entries
  import opened Trees
  import opened BucketSpec
  import opened TxSpec
  import opened EvictionSpec
  import opened Codec
  import opened Reader
  import opened Loading
  import opened Compaction
  import opened Recovery

  // ---------- recovery ----------

  /** What a reader is given after recovery in place of what it was given before. */
  function ReadAfterRecovery(json: Json, before: Option<Entry>, now: Instant): Option<Entry>
  {
    if before.None? || InLostFraction(before.value, now) then None else Some(Reloaded(json, before.value))
  }

  /** What a reader who comes back is given of an entry, if it was logged. */
  function ReadBack(json: Json, e: Option<Entry>, now: Instant): Option<Entry>
  {
    if e.Some? && Visible(e.value, now) then ReadAfterRecovery(json, e, now) else None
  }

  /** What a reader finds in the bucket the file and buffer load into. */
  function ReadFromFile(cfg: Config, im: Image, k: string, now: Instant): Option<Entry>
  {
    GetAt(LoadedState(cfg, im.file + im.aofbuf).data, k, now)
  }

  lemma LoadNothing(fc: FloatCodec, json: Json)
    ensures Load(fc, json, "") == Loaded([], None)
  {
  }

  /** What the file loads as: without an error exactly when what is left of the last rewritten file does so on its
      own, and then as the log and the statements of the rest. If a '~' shows that the rest begins inside a
      statement, only the full batches of the log are applied. */
  lemma FileLoads(cfg: Config, s: Sys)
    requires cfg.fc.Faithful() && WellLogged(cfg, s)
    ensures var json, rest := cfg.c.json, Rest(cfg, s);
      var l, r := Load(cfg.fc, json, s.im.file + s.im.aofbuf), Load(cfg.fc, json, rest);
      && (l.error.None? <==> r.error.None?)
      && (r.error.None? ==> l.stmts == ReloadedAll(json, s.log) + r.stmts)
      && (rest == "" ==> r == Loaded([], None) && l == Loaded(ReloadedAll(json, s.log), None))
      && (InsideStatement(rest) ==> l == Loaded(ReloadedAll(json, s.log[..FullBatches(|s.log|)]), Some(ReadFailed)))
  {
    LoadWithTail(cfg.fc, cfg.c.json, s.log, Rest(cfg, s));
    LoadNothing(cfg.fc, cfg.c.json);
    hide Load, Rest, EncodeAll, AllWritable, FullBatches, InsideStatement, ReloadedStmt;
    assert ReloadedAll(cfg.c.json, s.log) + [] == ReloadedAll(cfg.c.json, s.log);
  }

  /** What a reader who comes back finds under a key: what the rest of the last rewritten file holds if it writes
      the key, else what the log holds of it. */
  function Returned(cfg: Config, s: Sys, k: string, now: Instant): Option<Entry>
  {
    var behind := Load(cfg.fc, cfg.c.json, Rest(cfg, s)).stmts;
    if exists stmt :: stmt in behind && stmt.e.k == k then GetAt(Replay(map[], behind), k, now)
    else if exists stmt :: stmt in s.log && stmt.e.k == k then
      ReadAfterRecovery(cfg.c.json, GetAt(s.im.st.data, k, now), now)
    else None
  }

  /** What the log alone holds of a key. */
  lemma LoggedRead(cfg: Config, s: Sys, k: string, later: Instant)
    requires Recoverable(cfg, s, k) && s.now <= later
    ensures GetAt(Logged(cfg, s.log), k, later) ==
      if k in Touched(s.log) then ReadAfterRecovery(cfg.c.json, GetAt(s.im.st.data, k, later), later) else None
  {
    hide Logged, Touched;
    if k in s.im.st.data {
      ReloadedVisible(cfg.c.json, s.im.st.data[k], later);
    }
  }

  lemma RecoveredRead(cfg: Config, s: Sys, k: string, later: Instant)
    requires cfg.fc.Faithful() && WellLogged(cfg, s) && Recoverable(cfg, s, k) && s.now <= later
    requires Load(cfg.fc, cfg.c.json, Rest(cfg, s)).error == None
    ensures ReadFromFile(cfg, s.im, k, later) == Returned(cfg, s, k, later)
  {
    var json := cfg.c.json;
    var behind := Load(cfg.fc, json, Rest(cfg, s)).stmts;
    FileLoads(cfg, s);
    LoadedData(cfg, s.im.file + s.im.aofbuf);
    ReplayConcat(map[], ReloadedAll(json, s.log), behind);
    ReplayTouched(Logged(cfg, s.log), behind, k);
    hide WellLogged, Load, LoadedState, Replay, Rest, Reloaded, Expired, Outdated, InLostFraction;
    LoggedRead(cfg, s, k, later);
  }

  /** Recovery in general: after any run, rewrites of any size included, the file loads without an error exactly
      when what is left of the last rewritten file does; a key that rollbacks left as it was, or a later commit
      wrote, then reads as Returned says. */
  lemma RecoveryAfterAnyRun(
    cfg: Config, ss: seq<Stmt>, states: seq<Sys>, steps: seq<Step>, i: nat, k: string, later: Instant)
    requires IsRun(cfg, ss, states, steps) && i < |states|
    requires Undone(states, steps, i, k) && states[i].now <= later
    ensures var s := states[i];
      var b, rest := s.im.file + s.im.aofbuf, Rest(cfg, s);
      && (Load(cfg.fc, cfg.c.json, b).error.None? <==> Load(cfg.fc, cfg.c.json, rest).error.None?)
      && (Load(cfg.fc, cfg.c.json, b).error.None? ==> ReadFromFile(cfg, s.im, k, later) == Returned(cfg, s, k, later))
  {
    hide WellLogged, Load, Rest, Recoverable, Undone, ReadFromFile, Returned, Complete, Kept;
    RunKeepsInv(cfg, ss, states, steps, i);
    RunKeepsKey(cfg, ss, states, steps, i, k);
    FileLoads(cfg, states[i]);
    if Load(cfg.fc, cfg.c.json, Rest(cfg, states[i])).error.None? {
      RecoveredRead(cfg, states[i], k, later);
    }
  }

  /** After a run with rewrites of at most 1 MiB the file loads without an error, but a reader finds only keys
      written since the last rewrite; all other entries are lost. */
  lemma RecoveryAfterRewrites(
    cfg: Config, ss: seq<Stmt>, states: seq<Sys>, steps: seq<Step>, i: nat, k: string, later: Instant)
    requires IsRun(cfg, ss, states, steps) && i < |states|
    requires forall j :: 0 <= j < i ==> KeepsFormat(cfg, states[j], steps[j])
    requires Undone(states, steps, i, k) && states[i].now <= later
    ensures var im := states[i].im;
      && Load(cfg.fc, cfg.c.json, im.file + im.aofbuf).error == None
      && ReadFromFile(cfg, im, k, later) ==
           if k in Touched(states[i].log) then ReadAfterRecovery(cfg.c.json, GetAt(im.st.data, k, later), later)
           else None
  {
    RunKeepsInv(cfg, ss, states, steps, i);
    RecoveryAfterAnyRun(cfg, ss, states, steps, i, k, later);
    LoadNothing(cfg.fc, cfg.c.json);
    hide WellLogged, Load, Undone, ReadFromFile, ReadAfterRecovery, EncodeAll, GetAt, Replay, IsRun, KeepsFormat;
  }

  /** Recovery: after any run without a rewrite the file loads without an error into a bucket in which every later
      read of a key that rollbacks left as it was, or a later commit wrote, finds what it would have found,
      reloaded; it finds nothing instead precisely within the fraction of a second by which the entry's times were
      cut. */
  lemma RecoveryAfterRun(
    cfg: Config, ss: seq<Stmt>, states: seq<Sys>, steps: seq<Step>, i: nat, k: string, later: Instant)
    requires IsRun(cfg, ss, states, steps) && i < |states|
    requires forall j :: 0 <= j < i ==> KeepsFile(cfg, states[j], steps[j])
    requires Undone(states, steps, i, k) && states[i].now <= later
    ensures var im := states[i].im;
      && (cfg.persist ==> im.aofbuf == "")
      && Load(cfg.fc, cfg.c.json, im.file + im.aofbuf).error == None
      && ReadFromFile(cfg, im, k, later) == ReadAfterRecovery(cfg.c.json, GetAt(im.st.data, k, later), later)
  {
    RunKeepsInv(cfg, ss, states, steps, i);
    RunKeepsKey(cfg, ss, states, steps, i, k);
    RecoveryAfterRewrites(cfg, ss, states, steps, i, k, later);
    hide IsRun, Undone, Recoverable, Load, ReadFromFile, Touched, EncodeAll, Rest;
  }

  /** An entry that a reload changes in nothing. */
  predicate Durable(json: Json, e: Entry)
  {
    && e.opts.Some?
    && WholeSecond(e.opts.value.expTime) == e.opts.value.expTime
    && WholeSecond(e.opts.value.invTime) == e.opts.value.invTime
    && e.location == if json.Has(e.v, "coords") then json.coords(e.v) else []
  }

  /** With times in whole seconds and the location read from the value, no later read of the key can tell recovery
      from no recovery. */
  lemma RecoveryInvisible(
    cfg: Config, ss: seq<Stmt>, states: seq<Sys>, steps: seq<Step>, i: nat, k: string, later: Instant)
    requires IsRun(cfg, ss, states, steps) && i < |states|
    requires forall j :: 0 <= j < i ==> KeepsFile(cfg, states[j], steps[j])
    requires Undone(states, steps, i, k) && states[i].now <= later
    requires k in states[i].im.st.data ==> Durable(cfg.c.json, states[i].im.st.data[k])
    ensures ReadFromFile(cfg, states[i].im, k, later) == GetAt(states[i].im.st.data, k, later)
  {
    RecoveryAfterRun(cfg, ss, states, steps, i, k, later);
    hide IsRun, Undone, KeepsFile, ReadFromFile, Load;
  }

  /** After a rollback the file still holds what was there before the transaction. So a key reads back right
      precisely when the entry the rollback left there, the one just before the last write, reads back like the
      one before the transaction. */
  lemma RecoveryAfterRollback(cfg: Config, s: Sys, ops: seq<Op>, order: seq<string>, k: string, later: Instant)
    requires cfg.fc.Faithful() && Inv(cfg, s) && WellLogged(cfg, s) && s.base == ""
    requires Recoverable(cfg, s, k) && Complete(s, k)
    requires Legal(cfg, s, Rollback(ops, order)) && s.now <= later
    ensures var d, s' := s.im.st.data, Next(cfg, s, Rollback(ops, order));
      forall i :: LastWrite(d, ops, k, i) ==>
        (ReadFromFile(cfg, s'.im, k, later) == ReadAfterRecovery(cfg.c.json, GetAt(s'.im.st.data, k, later), later) <==>
         ReadBack(cfg.c.json, EntryBefore(d, ops, i, k), later) == ReadBack(cfg.c.json, Lookup(d, k), later))
  {
    var st := s.im.st;
    RollbackEffect(cfg, st, ops, order);
    RollbackExactly(st.data, ops, order, k);
    LoadNothing(cfg.fc, cfg.c.json);
    RecoveredRead(cfg, s, k, later);
    hide Backward, RolledBack, Restore, RunOps, StateSound, Recoverable, WellLogged, Load, LoadedState,
      LastWrite, LastWriteFromStart, Reloaded, EncodeAll, Replay;
  }

  /** No run, rewrites included, logs more statements than rows are counted: as long as the trigger does not fire,
      at most ten times as many as there are entries. With rewrites of at most 1 MiB the file and buffer hold
      exactly the log. */
  lemma LogStaysShort(cfg: Config, ss: seq<Stmt>, states: seq<Sys>, steps: seq<Step>, i: nat)
    requires IsRun(cfg, ss, states, steps) && i < |states|
    ensures (forall j :: 0 <= j < i ==> KeepsFormat(cfg, states[j], steps[j])) ==>
      states[i].im.file + states[i].im.aofbuf == EncodeAll(cfg.fc, states[i].log)
    ensures !CompactionDue(states[i].im.st) ==> |states[i].log| <= 10 * |states[i].im.st.data|
  {
    RunKeepsInv(cfg, ss, states, steps, i);
    hide IsRun, KeepsFormat, EncodeAll, Inv;
    assert EncodeAll(cfg.fc, states[i].log) + "" == EncodeAll(cfg.fc, states[i].log);
  }

  /** A rewrite leaves the file at its start, so the next commit overwrites its head. What then stands in the
      file loads without an error exactly when the rest of the rewritten file does on its own, with the
      statements of both. If the commit is at least as long as the file, only its own statements are left; if a
      '~' shows that the rest begins inside a statement, not even these are applied beyond full batches. */
  lemma CommitAfterRewrite(cfg: Config, s: Sys, now: Instant, ops: seq<Op>, order: seq<string>)
    requires cfg.fc.Faithful() && s.now <= now && Rewrites(cfg, s.im.st)
    requires var rewritten := Next(cfg, s, Manage(now)); Legal(cfg, rewritten, Commit(ops, order))
    ensures var json, rewritten := cfg.c.json, Next(cfg, s, Manage(now));
      var ss := CommitStmts(Forward(rewritten.im.st.data, ops), order);
      var rest := Behind(CompactedFile(cfg.fc, s.im.st.data), EncodeAll(cfg.fc, ss));
      var l := Load(cfg.fc, json, Next(cfg, rewritten, Commit(ops, order)).im.file);
      && (l.error.None? <==> Load(cfg.fc, json, rest).error.None?)
      && (l.error.None? ==> l.stmts == ReloadedAll(json, ss) + Load(cfg.fc, json, rest).stmts)
      && (rest == "" ==> l == Loaded(ReloadedAll(json, ss), None))
      && (InsideStatement(rest) ==> l == Loaded(ReloadedAll(json, ss[..FullBatches(|ss|)]), Some(ReadFailed)))
  {
    var rewritten := Next(cfg, s, Manage(now));
    var committed := Next(cfg, rewritten, Commit(ops, order));
    RewriteStartsOver(cfg, s, now);
    CommitKeepsFile(cfg, rewritten, ops, order);
    hide EncodeAll, CompactedFile, Forward, CommitStmts, Evict, RunOps, AllWritable, Load, Enumerates, FullBatches,
      InsideStatement, Behind, Flush;
    FileLoads(cfg, committed);
    assert committed.log == CommitStmts(Forward(rewritten.im.st.data, ops), order);
    assert committed.im.file + "" == committed.im.file;
  }

  ghost predicate StaleFrom(cfg: Config, s: Sys, data: map<string, Entry>, stale: seq<Entry>, j: nat)
  {
    var items := Ascending(data);
    var flushed := Flushed(cfg.fc, items, |items|);
    j <= flushed && |EncodeAll(cfg.fc, s.log)| == |Chunk(cfg.fc, items, 0, j)| && stale == items[j..flushed]
  }

  /** The log ends where a statement of the rewritten file ends: `stale` are the entries behind. */
  ghost predicate Stale(cfg: Config, s: Sys, data: map<string, Entry>, stale: seq<Entry>)
  {
    s.base == CompactedFile(cfg.fc, data) && exists j :: StaleFrom(cfg, s, data, stale, j)
  }

  lemma BehindPrefix(file: string, front: string, back: string, head: string)
    requires file == front + back && |head| == |front|
    ensures Behind(file, head) == back
  {
  }

  lemma StaleItems(fc: FloatCodec, data: map<string, Entry>, j: nat, n: nat)
    requires Keyed(data) && j <= n <= |Ascending(data)|
    requires forall i :: i in data ==> Writable(fc, Stmt(Inserting, data[i]))
    ensures Sorted(ByKey, Ascending(data)[j..n]) && AllWritable(fc, Snapshot(Ascending(data)[j..n]))
  {
    AscendingMembers(data);
    hide Ascending, Writable, Snapshot, AllWritable;
    SortedPart(ByKey, Ascending(data), j, n);
    hide Sorted;
    SnapshotWritable(fc, data, Ascending(data)[j..n]);
  }

  lemma StaleRest(cfg: Config, s: Sys, data: map<string, Entry>, stale: seq<Entry>)
    requires cfg.fc.Faithful() && Stale(cfg, s, data, stale)
    requires Keyed(data) && forall k :: k in data ==> Writable(cfg.fc, Stmt(Inserting, data[k]))
    ensures Sorted(ByKey, stale)
    ensures Load(cfg.fc, cfg.c.json, Rest(cfg, s)) == Loaded(ReloadedAll(cfg.c.json, Snapshot(stale)), None)
  {
    var items := Ascending(data);
    var flushed := Flushed(cfg.fc, items, |items|);
    hide EncodeAll, Ascending, Load, Sorted, Writable, Flushed, AllWritable;
    var j: nat :| StaleFrom(cfg, s, data, stale, j);
    StaleItems(cfg.fc, data, j, flushed);
    ChunkConcat(cfg.fc, items, j, flushed);
    BehindPrefix(s.base, Chunk(cfg.fc, items, 0, j), Chunk(cfg.fc, items, j, flushed), EncodeAll(cfg.fc, s.log));
    LoadWritten(cfg.fc, cfg.c.json, Snapshot(stale));
  }

  lemma StaleKey(json: Json, stale: seq<Entry>, i: nat)
    requires i < |stale|
    ensures exists stmt :: stmt in ReloadedAll(json, Snapshot(stale)) && stmt.e.k == stale[i].k
  {
    var stmts := ReloadedAll(json, Snapshot(stale));
    assert stmts[i] in stmts && stmts[i].e.k == stale[i].k;
  }

  lemma StaleReturned(cfg: Config, s: Sys, stale: seq<Entry>, e: Entry, now: Instant)
    requires Sorted(ByKey, stale) && e in stale
    requires Load(cfg.fc, cfg.c.json, Rest(cfg, s)).stmts == ReloadedAll(cfg.c.json, Snapshot(stale))
    ensures Returned(cfg, s, e.k, now) == ReadBack(cfg.c.json, Some(e), now)
  {
    ReplaySnapshot(cfg.c.json, stale, e.k);
    ReloadedVisible(cfg.c.json, e, now);
    var i :| 0 <= i < |stale| && stale[i] == e;
    StaleKey(cfg.c.json, stale, i);
    hide Load, Rest, Replay, Reloaded, Sorted, InLostFraction, Visible, Expired, Outdated;
  }

  /** Then the statements behind are read last: their keys come back as they were at the rewrite, even if they have
      been written or deleted since. */
  lemma StaleRead(cfg: Config, s: Sys, data: map<string, Entry>, stale: seq<Entry>, e: Entry, later: Instant)
    requires cfg.fc.Faithful() && WellLogged(cfg, s) && Recoverable(cfg, s, e.k) && s.now <= later
    requires Keyed(data) && forall k :: k in data ==> Writable(cfg.fc, Stmt(Inserting, data[k]))
    requires Stale(cfg, s, data, stale) && e in stale
    ensures Load(cfg.fc, cfg.c.json, s.im.file + s.im.aofbuf).error == None
    ensures ReadFromFile(cfg, s.im, e.k, later) == ReadBack(cfg.c.json, Some(e), later)
  {
    hide *;
    StaleRest(cfg, s, data, stale);
    FileLoads(cfg, s);
    RecoveredRead(cfg, s, e.k, later);
    StaleReturned(cfg, s, stale, e, later);
  }

  // ---------- torn commits ----------

  /** Any cut through written statements falls in one of them, behind whole ones. */
  lemma {:induction false} CutFallsIn(fc: FloatCodec, ss: seq<Stmt>, cut: nat) returns (j: nat, within: nat)
    requires cut < |EncodeAll(fc, ss)|
    ensures j < |ss| && within < |Encode(fc, ss[j])|
    ensures EncodeAll(fc, ss)[..cut] == EncodeAll(fc, ss[..j]) + Encode(fc, ss[j])[..within]
  {
    hide Encode;
    var n := |ss| - 1;
    var front, last := EncodeAll(fc, ss[..n]), Encode(fc, ss[n]);
    if |front| <= cut {
      j, within := n, cut - |front|;
      assert (front + last)[..cut] == front + last[..within];
    } else {
      j, within := CutFallsIn(fc, ss[..n], cut);
      assert (front + last)[..cut] == front[..cut] && ss[..n][..j] == ss[..j];
    }
  }

  lemma AtPosition(cfg: Config, s: Sys)
    requires WellLogged(cfg, s)
    ensures s.im.pos <= |s.im.file| && AllWritable(cfg.fc, s.log)
    ensures cfg.persist ==> s.im.file == EncodeAll(cfg.fc, s.log) + Rest(cfg, s)
    ensures cfg.persist ==> s.im.pos == |EncodeAll(cfg.fc, s.log)|
    ensures Rest(cfg, s) == Behind(s.base, EncodeAll(cfg.fc, s.log))
    ensures forall h :: Behind("", h) == ""
  {
    hide EncodeAll, AllWritable;
    assert s.im.file + "" == s.im.file;
  }

  lemma WritablePrefix(fc: FloatCodec, log: seq<Stmt>, ss: seq<Stmt>, j: nat)
    requires AllWritable(fc, log) && AllWritable(fc, ss) && j <= |ss|
    ensures AllWritable(fc, log + ss[..j])
  {
    hide Writable;
  }

  /** The file after statements were written up to a cut. */
  lemma TornFile(cfg: Config, s: Sys, ss: seq<Stmt>, written: string, j: nat, part: string)
    requires cfg.persist && WellLogged(cfg, s) && AllWritable(cfg.fc, ss)
    requires j <= |ss| && written == EncodeAll(cfg.fc, ss[..j]) + part
    ensures WriteAt(s.im.file, s.im.pos, written) ==
      EncodeAll(cfg.fc, s.log + ss[..j]) + (part + Behind(s.base, EncodeAll(cfg.fc, s.log) + written))
    ensures AllWritable(cfg.fc, s.log + ss[..j])
  {
    hide *;
    var head, front := EncodeAll(cfg.fc, s.log), EncodeAll(cfg.fc, ss[..j]);
    AtPosition(cfg, s);
    WriteBehind(s.base, head, written);
    EncodeAllConcat(cfg.fc, s.log, ss[..j]);
    WritablePrefix(cfg.fc, s.log, ss, j);
    var rest := Behind(s.base, head + written);
    assert head + written + rest == head + front + (part + rest);
  }

  /** A write of statements cut off at any byte, as by a crash: the statements before the cut are in the file and
      those after it are not, so a commit is not atomic. The file then loads as the log, these statements and what
      stands behind them. */
  lemma TornWrite(cfg: Config, s: Sys, ss: seq<Stmt>, cut: nat) returns (j: nat, within: nat)
    requires cfg.fc.Faithful() && cfg.persist && WellLogged(cfg, s) && AllWritable(cfg.fc, ss)
    requires cut < |EncodeAll(cfg.fc, ss)|
    ensures j < |ss| && within < |Encode(cfg.fc, ss[j])|
    ensures var json, whole := cfg.c.json, s.log + ss[..j];
      var written := EncodeAll(cfg.fc, ss)[..cut];
      var behind := Encode(cfg.fc, ss[j])[..within] + Behind(s.base, EncodeAll(cfg.fc, s.log) + written);
      var l, r := Load(cfg.fc, json, WriteAt(s.im.file, s.im.pos, written)), Load(cfg.fc, json, behind);
      && written == EncodeAll(cfg.fc, ss[..j]) + Encode(cfg.fc, ss[j])[..within]
      && (l.error.None? <==> r.error.None?)
      && (r.error.None? ==> l.stmts == ReloadedAll(json, whole) + r.stmts)
  {
    hide *;
    j, within := CutFallsIn(cfg.fc, ss, cut);
    AtPosition(cfg, s);
    var written, part := EncodeAll(cfg.fc, ss)[..cut], Encode(cfg.fc, ss[j])[..within];
    TornFile(cfg, s, ss, written, j, part);
    LoadWithTail(cfg.fc, cfg.c.json, s.log + ss[..j], part + Behind(s.base, EncodeAll(cfg.fc, s.log) + written));
  }

  /** What a file of whole statements and a part of another loads into. */
  function LoadedWhenTorn(cfg: Config, whole: seq<Stmt>, next: Stmt, within: nat): Loaded
  {
    var digits := |Itoa(|Payload(cfg.fc, next)|)|;
    if within == 0 || within == digits + 1 then Loaded(ReloadedAll(cfg.c.json, whole), None)
    else if within <= digits then
      Loaded(ReloadedAll(cfg.c.json, whole[..FullBatches(|whole|)]), Some(ReadFailed))
    else Loaded(ReloadedAll(cfg.c.json, whole), Some(ReadFailed))
  }

  lemma TornLoads(cfg: Config, whole: seq<Stmt>, ss: seq<Stmt>, j: nat, within: nat)
    requires cfg.fc.Faithful() && AllWritable(cfg.fc, whole) && AllWritable(cfg.fc, ss) && j < |ss|
    requires within < |Encode(cfg.fc, ss[j])|
    ensures Load(cfg.fc, cfg.c.json, EncodeAll(cfg.fc, whole) + Encode(cfg.fc, ss[j])[..within]) ==
      LoadedWhenTorn(cfg, whole, ss[j], within)
  {
    assert ss[j] in ss;
    hide EncodeAll, Encode, Load, Writable, Itoa, Payload, FullBatches;
    LoadTorn(cfg.fc, cfg.c.json, whole, ss[j], within);
  }

  /** If only the log was in the file: a write cut off inside a statement leaves the log and the statements before
      the cut, and an error unless the cut falls between statements or right after a length line. A cut inside a
      length line takes along what was committed before: of all only the full batches of 1024 are applied. */
  lemma TornAtEnd(cfg: Config, s: Sys, ss: seq<Stmt>, cut: nat) returns (j: nat, within: nat)
    requires cfg.fc.Faithful() && cfg.persist && WellLogged(cfg, s) && s.base == "" && AllWritable(cfg.fc, ss)
    requires cut < |EncodeAll(cfg.fc, ss)|
    ensures j < |ss| && within < |Encode(cfg.fc, ss[j])|
    ensures EncodeAll(cfg.fc, ss)[..cut] == EncodeAll(cfg.fc, ss[..j]) + Encode(cfg.fc, ss[j])[..within]
    ensures Load(cfg.fc, cfg.c.json, WriteAt(s.im.file, s.im.pos, EncodeAll(cfg.fc, ss)[..cut])) ==
      LoadedWhenTorn(cfg, s.log + ss[..j], ss[j], within)
  {
    hide *;
    j, within := CutFallsIn(cfg.fc, ss, cut);
    AtPosition(cfg, s);
    var written, part := EncodeAll(cfg.fc, ss)[..cut], Encode(cfg.fc, ss[j])[..within];
    TornFile(cfg, s, ss, written, j, part);
    assert part + "" == part;
    TornLoads(cfg, s.log + ss[..j], ss, j, within);
  }

  /** So after any run with rewrites of at most 1 MiB, for a commit cut off at any byte. */
  lemma TornCommitAfterRun(
    cfg: Config, ss: seq<Stmt>, states: seq<Sys>, steps: seq<Step>, i: nat, ops: seq<Op>, order: seq<string>,
    cut: nat) returns (j: nat, within: nat)
    requires IsRun(cfg, ss, states, steps) && i < |states| && cfg.persist
    requires forall j :: 0 <= j < i ==> KeepsFormat(cfg, states[j], steps[j])
    requires Legal(cfg, states[i], Commit(ops, order))
    requires cut < |EncodeAll(cfg.fc, CommitStmts(Forward(states[i].im.st.data, ops), order))|
    ensures var s, stmts := states[i], CommitStmts(Forward(states[i].im.st.data, ops), order);
      && j < |stmts| && within < |Encode(cfg.fc, stmts[j])|
      && EncodeAll(cfg.fc, stmts)[..cut] == EncodeAll(cfg.fc, stmts[..j]) + Encode(cfg.fc, stmts[j])[..within]
      && Load(cfg.fc, cfg.c.json, WriteAt(s.im.file, s.im.pos, EncodeAll(cfg.fc, stmts)[..cut])) ==
           LoadedWhenTorn(cfg, s.log + stmts[..j], stmts[j], within)
  {
    var s, stmts := states[i], CommitStmts(Forward(states[i].im.st.data, ops), order);
    RunKeepsInv(cfg, ss, states, steps, i);
    CommitWritable(cfg, s.im.st, ops, order);
    assert cfg.fc.Faithful();
    hide *;
    j, within := TornAtEnd(cfg, s, stmts, cut);
  }
}
