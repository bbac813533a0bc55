/** What a file is worth (bucket.go:70-142): statements replayed into a key map, applied to a bucket, and loaded
    from bytes. */
module Loading {
  import opened Prelude
  import opened Entries
  import opened BucketSpec
  import opened Codec
  import opened Reader

  datatype Config = Config(c: Schema, fc: FloatCodec, persist: bool)

  function ReplayOne(d: map<string, Entry>, s: Stmt): map<string, Entry>
  {
    match s.kind
    case Inserting => d[s.e.k := s.e]
    case Deleting => d - {s.e.k}
  }

  function Replay(d: map<string, Entry>, ss: seq<Stmt>): map<string, Entry>
  {
    if ss == [] then d else ReplayOne(Replay(d, ss[..|ss| - 1]), ss[|ss| - 1])
  }

  function Apply(c: Schema, st: State, s: Stmt): State
  {
    match s.kind
    case Inserting => Insert(c, st, s.e)
    case Deleting => Delete(c, st, s.e.k)
  }

  function ApplyAll(c: Schema, st: State, ss: seq<Stmt>): State
  {
    if ss == [] then st else Apply(c, ApplyAll(c, st, ss[..|ss| - 1]), ss[|ss| - 1])
  }

  /** The bucket a file loads into. */
  function LoadedState(cfg: Config, b: string): State
  {
    ApplyAll(cfg.c, EMPTY, Load(cfg.fc, cfg.c.json, b).stmts)
  }

  ghost predicate StmtsHaveOptions(ss: seq<Stmt>)
  {
    forall s :: s in ss && s.kind.Inserting? ==> s.e.opts.Some?
  }

  lemma {:induction false} ApplyAllSound(c: Schema, st: State, ss: seq<Stmt>)
    requires StateSound(c, st) && StmtsHaveOptions(ss)
    ensures StateSound(c, ApplyAll(c, st, ss))
    ensures ApplyAll(c, st, ss).data == Replay(st.data, ss)
    ensures ApplyAll(c, st, ss).rct == st.rct + |ss|
    ensures ApplyAll(c, st, ss).indexes.Keys == st.indexes.Keys
  {
    if ss == [] {
    } else {
      var init, s := ss[..|ss| - 1], ss[|ss| - 1];
      assert s in ss;
      ApplyAllSound(c, st, init);
      match s.kind
      case Inserting => InsertSound(c, ApplyAll(c, st, init), s.e);
      case Deleting => DeleteSound(c, ApplyAll(c, st, init), s.e.k);
    }
  }

  lemma {:induction false} ReplayConcat(d: map<string, Entry>, a: seq<Stmt>, b: seq<Stmt>)
    ensures Replay(d, a + b) == Replay(Replay(d, a), b)
  {
    if b == [] {
      assert a + b == a;
    } else {
      ReplayConcat(d, a, b[..|b| - 1]);
      assert (a + b)[..|a + b| - 1] == a + b[..|b| - 1];
    }
  }

  lemma {:induction false} ApplyAllConcat(c: Schema, st: State, a: seq<Stmt>, b: seq<Stmt>)
    ensures ApplyAll(c, st, a + b) == ApplyAll(c, ApplyAll(c, st, a), b)
  {
    hide Apply;
    if b == [] {
      assert a + b == a;
    } else {
      ApplyAllConcat(c, st, a, b[..|b| - 1]);
      assert (a + b)[..|a + b| - 1] == a + b[..|b| - 1];
    }
  }

  lemma ReloadedKeepsKey(json: Json, e: Entry)
    ensures Reloaded(json, e).k == e.k && Reloaded(json, e).opts.Some?
  {
  }

  lemma ReloadedConcat(json: Json, a: seq<Stmt>, b: seq<Stmt>)
    ensures ReloadedAll(json, a + b) == ReloadedAll(json, a) + ReloadedAll(json, b)
  {
  }

  /** The keys statements write. */
  ghost function Touched(ss: seq<Stmt>): set<string>
  {
    set s | s in ss :: s.e.k
  }

  lemma TouchedSnoc(init: seq<Stmt>, last: Stmt)
    ensures Touched(init + [last]) == Touched(init) + {last.e.k}
  {
  }

  /** Statements decide the keys they write, whatever was there. */
  lemma {:induction false} ReplayTouched(d: map<string, Entry>, ss: seq<Stmt>, k: string)
    ensures Lookup(Replay(d, ss), k) == if k in Touched(ss) then Lookup(Replay(map[], ss), k) else Lookup(d, k)
  {
    if ss == [] {
    } else {
      var init, last := ss[..|ss| - 1], ss[|ss| - 1];
      ReplayTouched(d, init, k);
      TouchedSnoc(init, last);
      assert ss == init + [last];
      hide Touched;
    }
  }

  // ---------- loading statements ----------

  lemma {:induction false} ParsedHaveOptions(fc: FloatCodec, json: Json, payloads: seq<string>)
    ensures StmtsHaveOptions(ParseAll(fc, json, payloads).stmts)
  {
    hide Parse;
    if payloads == [] {
    } else {
      var n := |payloads| - 1;
      ParsedHaveOptions(fc, json, payloads[..n]);
      ParsedHasOptions(fc, json, payloads[n]);
    }
  }

  lemma EmptySound(c: Schema)
    ensures StateSound(c, EMPTY)
  {
  }

  /** Whatever the bytes, the loaded key map is the replay of the statements loaded. */
  lemma LoadedData(cfg: Config, b: string)
    ensures LoadedState(cfg, b).data == Replay(map[], Load(cfg.fc, cfg.c.json, b).stmts)
  {
    ParsedHaveOptions(cfg.fc, cfg.c.json, Payloads(Delivered(b)));
    EmptySound(cfg.c);
    hide StateSound, ApplyAll, Replay, ParseAll, StmtsHaveOptions;
    ApplyAllSound(cfg.c, EMPTY, Load(cfg.fc, cfg.c.json, b).stmts);
  }

  /** Every entry is as a reload leaves it. */
  ghost predicate Settled(json: Json, d: map<string, Entry>)
  {
    forall k :: k in d ==> Reloaded(json, d[k]) == d[k]
  }

  lemma NothingSettled(json: Json)
    ensures Settled(json, map[])
  {
  }

  lemma SettledStep(json: Json, d: map<string, Entry>, s: Stmt)
    requires Settled(json, d)
    ensures Settled(json, ReplayOne(d, ReloadedStmt(json, s)))
  {
    ReloadedTwice(json, s.e);
    hide Reloaded;
  }

  lemma {:induction false} ReplayReloaded(json: Json, ss: seq<Stmt>)
    ensures Settled(json, Replay(map[], ReloadedAll(json, ss)))
  {
    hide Settled, ReplayOne, Reloaded;
    if ss == [] {
      NothingSettled(json);
    } else {
      var n := |ss| - 1;
      ReplayReloaded(json, ss[..n]);
      var all := ReloadedAll(json, ss);
      assert all[..|all| - 1] == ReloadedAll(json, ss[..n]) && all[|all| - 1] == ReloadedStmt(json, ss[n]);
      SettledStep(json, Replay(map[], ReloadedAll(json, ss[..n])), ss[n]);
    }
  }

  lemma ReloadedHaveOptions(json: Json, ss: seq<Stmt>)
    ensures |ReloadedAll(json, ss)| == |ss| && StmtsHaveOptions(ReloadedAll(json, ss))
  {
  }

  /** What a file of written statements loads into. */
  lemma LoadedFrom(cfg: Config, ss: seq<Stmt>)
    requires cfg.fc.Faithful() && AllWritable(cfg.fc, ss)
    ensures Load(cfg.fc, cfg.c.json, EncodeAll(cfg.fc, ss)).error == None
    ensures var st := LoadedState(cfg, EncodeAll(cfg.fc, ss));
      && StateSound(cfg.c, st)
      && st.data == Replay(map[], ReloadedAll(cfg.c.json, ss))
      && st.rct == |ss| && st.indexes == map[]
  {
    LoadWritten(cfg.fc, cfg.c.json, ss);
    EmptySound(cfg.c);
    ReloadedHaveOptions(cfg.c.json, ss);
    hide StateSound, StmtsHaveOptions, ApplyAll, Replay, EncodeAll, AllWritable, Load, ReloadedAll;
    ApplyAllSound(cfg.c, EMPTY, ReloadedAll(cfg.c.json, ss));
  }

  // ---------- writing ----------

  /** The bytes of a file after writing at an offset. */
  function WriteAt(file: string, pos: nat, bytes: string): (r: string)
    requires pos <= |file|
    ensures |r| == if |file| < pos + |bytes| then pos + |bytes| else |file|
    ensures forall i :: 0 <= i < |r| ==> r[i] == if pos <= i < pos + |bytes| then bytes[i - pos] else file[i]
  {
    file[..pos] + bytes + if pos + |bytes| < |file| then file[pos + |bytes|..] else ""
  }
}
