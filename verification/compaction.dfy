/** Rewriting the append-only file (bucket.go:459-504): the stream of statements the rewrite generates, the
    part of it that reaches the new file, and what either loads into. */
module Compaction {
  import opened Prelude
  import opened Entries
  import opened Trees
  import opened BucketSpec
  import opened Codec
  import opened Reader
  import opened Loading

  /** One insert statement per entry. */
  function Snapshot(items: seq<Entry>): seq<Stmt>
  {
    seq(|items|, i requires 0 <= i < |items| => Stmt(Inserting, items[i]))
  }

  lemma SnapshotConcat(a: seq<Entry>, b: seq<Entry>)
    ensures Snapshot(a + b) == Snapshot(a) + Snapshot(b)
  {
  }

  /** The statements of the entries from position `from` up to position `to`. */
  function Chunk(fc: FloatCodec, items: seq<Entry>, from: nat, to: nat): string
    requires from <= to <= |items|
  {
    EncodeAll(fc, Snapshot(items[from..to]))
  }

  lemma ChunkStep(fc: FloatCodec, items: seq<Entry>, from: nat, to: nat)
    requires from <= to < |items|
    ensures Chunk(fc, items, from, to + 1) == Chunk(fc, items, from, to) + Encode(fc, Stmt(Inserting, items[to]))
  {
    hide Encode;
    var ss := Snapshot(items[from..to + 1]);
    assert ss[..|ss| - 1] == Snapshot(items[from..to]);
  }

  lemma ChunkConcat(fc: FloatCodec, items: seq<Entry>, from: nat, to: nat)
    requires from <= to <= |items|
    ensures Chunk(fc, items, 0, from) + Chunk(fc, items, from, to) == Chunk(fc, items, 0, to)
    ensures Chunk(fc, items, to, to) == ""
  {
    hide Encode;
    SnapshotConcat(items[0..from], items[from..to]);
    assert items[0..from] + items[from..to] == items[0..to];
    EncodeAllConcat(fc, Snapshot(items[0..from]), Snapshot(items[from..to]));
  }

  /** The buffer is written once it is larger than this. */
  const MIB: nat := 1024 * 1024

  /** How many of the first `n` entries have been written when the walk has passed them. */
  function Flushed(fc: FloatCodec, items: seq<Entry>, n: nat): (f: nat)
    requires n <= |items|
    ensures f <= n
  {
    if n == 0 then 0
    else
      var f := Flushed(fc, items, n - 1);
      if |Chunk(fc, items, f, n)| > MIB then n else f
  }

  /** Passing an entry writes the buffer exactly if its statement takes it over 1048576 bytes. */
  lemma FlushedMeaning(fc: FloatCodec, items: seq<Entry>, n: nat)
    requires n < |items|
    ensures var f := Flushed(fc, items, n);
      |EncodeAll(fc, Snapshot(items[f..n])) + Encode(fc, Stmt(Inserting, items[n]))| > 1_048_576 <==>
      Flushed(fc, items, n + 1) == n + 1
    ensures Flushed(fc, items, n + 1) == n + 1 || Flushed(fc, items, n + 1) == Flushed(fc, items, n)
  {
    ChunkStep(fc, items, Flushed(fc, items, n), n);
    hide Encode, EncodeAll;
  }

  /** What is left over is at most 1 MiB, and what was written is nothing or more than 1 MiB. */
  lemma {:induction false} FlushedSizes(fc: FloatCodec, items: seq<Entry>, n: nat)
    requires n <= |items|
    ensures |Chunk(fc, items, Flushed(fc, items, n), n)| <= 1_048_576
    ensures Flushed(fc, items, n) == 0 || |Chunk(fc, items, 0, Flushed(fc, items, n))| > 1_048_576
  {
    hide Chunk;
    if n == 0 {
      ChunkConcat(fc, items, 0, 0);
    } else {
      var f := Flushed(fc, items, n - 1);
      FlushedSizes(fc, items, n - 1);
      ChunkConcat(fc, items, f, n);
      ChunkConcat(fc, items, n, n);
      assert |Chunk(fc, items, 0, n)| == |Chunk(fc, items, 0, f)| + |Chunk(fc, items, f, n)|;
    }
  }

  /** The walk over the primary tree: `written` went to the temporary file, `buf` is left over at the end; the
      two make up the whole stream. */
  method Stream(fc: FloatCodec, items: seq<Entry>) returns (written: string, buf: string)
    ensures var flushed := Flushed(fc, items, |items|);
      written == Chunk(fc, items, 0, flushed) && buf == Chunk(fc, items, flushed, |items|)
    ensures written + buf == Chunk(fc, items, 0, |items|)
    ensures |buf| <= 1_048_576
  {
    hide Chunk, Encode;
    written, buf := "", "";
    ChunkConcat(fc, items, 0, 0);
    for i := 0 to |items|
      invariant written == Chunk(fc, items, 0, Flushed(fc, items, i))
      invariant buf == Chunk(fc, items, Flushed(fc, items, i), i) && |buf| <= MIB
    {
      ghost var flushed := Flushed(fc, items, i);
      ChunkStep(fc, items, flushed, i);
      ChunkConcat(fc, items, flushed, i + 1);
      ChunkConcat(fc, items, i + 1, i + 1);
      buf := buf + Encode(fc, Stmt(Inserting, items[i]));
      if |buf| > MIB {
        written, buf := written + buf, "";
      }
    }
    ChunkConcat(fc, items, Flushed(fc, items, |items|), |items|);
  }

  // ---------- what the stream means ----------

  /** The key map as it comes back from a file. */
  function ReloadedMap(json: Json, data: map<string, Entry>): map<string, Entry>
  {
    map k | k in data :: Reloaded(json, data[k])
  }

  lemma ReplayLast(json: Json, init: seq<Entry>, last: Entry)
    ensures Replay(map[], ReloadedAll(json, Snapshot(init + [last]))) ==
      Replay(map[], ReloadedAll(json, Snapshot(init)))[last.k := Reloaded(json, last)]
  {
    hide Reloaded;
    ReloadedKeepsKey(json, last);
    var all := ReloadedAll(json, Snapshot(init + [last]));
    assert all[..|all| - 1] == ReloadedAll(json, Snapshot(init));
    assert all[|all| - 1] == Stmt(Inserting, Reloaded(json, last));
  }

  lemma {:induction false} ReplaySnapshot(json: Json, items: seq<Entry>, k: string)
    requires Sorted(ByKey, items)
    ensures var d := Replay(map[], ReloadedAll(json, Snapshot(items)));
      && (k in d <==> exists e :: e in items && e.k == k)
      && forall e :: e in items && e.k == k ==> k in d && d[k] == Reloaded(json, e)
  {
    if items == [] {
    } else {
      hide Reloaded;
      var init, last := items[..|items| - 1], items[|items| - 1];
      assert items == init + [last];
      ReplaySnapshot(json, init, k);
      ReplayLast(json, init, last);
      forall e | e in init
        ensures e.k != last.k
      {
        assert Less(ByKey, e, last);
        StrLessTotal(e.k, last.k);
      }
      hide Replay, Sorted;
    }
  }

  /** Replaying the whole stream rebuilds the key map. */
  lemma StreamRebuilds(json: Json, data: map<string, Entry>)
    requires Keyed(data)
    ensures Replay(map[], ReloadedAll(json, Snapshot(Ascending(data)))) == ReloadedMap(json, data)
  {
    var d := Replay(map[], ReloadedAll(json, Snapshot(Ascending(data))));
    AscendingMembers(data);
    hide Reloaded, Replay, Sorted;
    forall k
      ensures k in d <==> k in data
      ensures k in data ==> d[k] == Reloaded(json, data[k])
    {
      ReplaySnapshot(json, Ascending(data), k);
      if k in data {
        assert data[k] in Ascending(data) && data[k].k == k;
      }
    }
  }

  // ---------- what the new file loads into ----------

  lemma SnapshotWritable(fc: FloatCodec, data: map<string, Entry>, items: seq<Entry>)
    requires Keyed(data) && forall k :: k in data ==> Writable(fc, Stmt(Inserting, data[k]))
    requires forall e :: e in items ==> Lookup(data, e.k) == Some(e)
    ensures AllWritable(fc, Snapshot(items))
  {
    hide Writable;
    forall s | s in Snapshot(items)
      ensures Writable(fc, s)
    {
      var i :| 0 <= i < |items| && s == Snapshot(items)[i];
      assert items[i] in items;
    }
  }

  /** What the first `flushed` entries load into. */
  lemma PrefixLoads(cfg: Config, data: map<string, Entry>, flushed: nat)
    requires cfg.fc.Faithful() && Keyed(data)
    requires forall k :: k in data ==> Writable(cfg.fc, Stmt(Inserting, data[k]))
    requires flushed <= |Ascending(data)|
    ensures LoadedState(cfg, Chunk(cfg.fc, Ascending(data), 0, flushed)).data ==
      Replay(map[], ReloadedAll(cfg.c.json, Snapshot(Ascending(data)[0..flushed])))
  {
    var kept := Ascending(data)[0..flushed];
    AscendingMembers(data);
    hide Writable, RankOf, LoadedState, Replay, EncodeAll;
    assert forall e :: e in kept ==> e in Ascending(data);
    SnapshotWritable(cfg.fc, data, kept);
    LoadedFrom(cfg, Snapshot(kept));
  }

  /** The first entry after a prefix in key order is not among the keys of the prefix. */
  lemma PrefixLoses(json: Json, data: map<string, Entry>, flushed: nat)
    requires Keyed(data) && flushed < |Ascending(data)|
    ensures Ascending(data)[flushed].k in data
    ensures Ascending(data)[flushed].k !in Replay(map[], ReloadedAll(json, Snapshot(Ascending(data)[0..flushed])))
  {
    var items := Ascending(data);
    var kept, lost := items[0..flushed], items[flushed];
    AscendingMembers(data);
    hide Replay, Reloaded;
    assert lost in items;
    ReplaySnapshot(json, kept, lost.k);
    forall e | e in kept
      ensures e.k != lost.k
    {
      assert Less(ByKey, e, lost);
      StrLessTotal(e.k, lost.k);
    }
  }

  /** What a rewrite of the log leaves in the file: the buffer left over at the end is never written. */
  ghost function CompactedFile(fc: FloatCodec, data: map<string, Entry>): string
  {
    var items := Ascending(data);
    Chunk(fc, items, 0, Flushed(fc, items, |items|))
  }

  lemma KeptItems(data: map<string, Entry>, n: nat)
    requires Keyed(data) && n <= |Ascending(data)|
    ensures Sorted(ByKey, Ascending(data)[0..n])
    ensures forall e :: e in Ascending(data)[0..n] ==> Lookup(data, e.k) == Some(e)
  {
    AscendingMembers(data);
    hide Ascending;
    assert forall e :: e in Ascending(data)[0..n] ==> e in Ascending(data);
  }

  /** The file the rewrite leaves behind loads into exactly the entries flushed: those after the last flush are
      lost. */
  lemma CompactedFileLoads(cfg: Config, data: map<string, Entry>, k: string)
    requires cfg.fc.Faithful() && Keyed(data)
    requires forall j :: j in data ==> Writable(cfg.fc, Stmt(Inserting, data[j]))
    ensures var kept := Ascending(data)[..Flushed(cfg.fc, Ascending(data), |Ascending(data)|)];
      Lookup(LoadedState(cfg, CompactedFile(cfg.fc, data)).data, k) ==
        if k in data && data[k] in kept then Some(Reloaded(cfg.c.json, data[k])) else None
  {
    var items := Ascending(data);
    var kept := items[0..Flushed(cfg.fc, items, |items|)];
    PrefixLoads(cfg, data, |kept|);
    KeptItems(data, |kept|);
    ReplaySnapshot(cfg.c.json, kept, k);
    hide Replay, Reloaded, LoadedState, Writable, Flushed, Chunk, Sorted, Ascending;
  }

  lemma ReloadedKeys(json: Json, data: map<string, Entry>)
    ensures ReloadedMap(json, data).Keys == data.Keys
  {
  }

  lemma BufferEmpty(fc: FloatCodec, items: seq<Entry>, flushed: nat)
    requires flushed <= |items|
    ensures Chunk(fc, items, flushed, |items|) == "" <==> flushed == |items|
  {
    var left := Snapshot(items[flushed..|items|]);
    if flushed < |items| {
      EncodeAllHead(fc, left);
      assert |Encode(fc, left[0])| >= 1;
    } else {
      assert left == [];
    }
  }

  /** So it holds the whole bucket precisely when the walk ends with an empty buffer. */
  lemma CompactedFileComplete(cfg: Config, data: map<string, Entry>)
    requires cfg.fc.Faithful() && Keyed(data)
    requires forall k :: k in data ==> Writable(cfg.fc, Stmt(Inserting, data[k]))
    ensures var items := Ascending(data);
      LoadedState(cfg, CompactedFile(cfg.fc, data)).data == ReloadedMap(cfg.c.json, data) <==>
      Chunk(cfg.fc, items, Flushed(cfg.fc, items, |items|), |items|) == ""
  {
    var items := Ascending(data);
    var flushed := Flushed(cfg.fc, items, |items|);
    PrefixLoads(cfg, data, flushed);
    BufferEmpty(cfg.fc, items, flushed);
    ReloadedKeys(cfg.c.json, data);
    assert CompactedFile(cfg.fc, data) == Chunk(cfg.fc, items, 0, flushed);
    hide *;
    if flushed < |items| {
      PrefixLoses(cfg.c.json, data, flushed);
    } else {
      assert items[0..flushed] == items;
      StreamRebuilds(cfg.c.json, data);
    }
  }

  /** The bytes of the whole stream. */
  ghost function StreamSize(fc: FloatCodec, data: map<string, Entry>): nat
  {
    |Chunk(fc, Ascending(data), 0, |Ascending(data)|)|
  }

  /** The file is left empty precisely when the stream takes at most 1 MiB. */
  lemma CompactedFileEmpty(fc: FloatCodec, data: map<string, Entry>)
    ensures CompactedFile(fc, data) == "" <==> StreamSize(fc, data) <= 1_048_576
  {
    var items := Ascending(data);
    var flushed := Flushed(fc, items, |items|);
    FlushedSizes(fc, items, |items|);
    ChunkConcat(fc, items, flushed, |items|);
    ChunkConcat(fc, items, 0, 0);
    hide Chunk, Flushed, Ascending;
    assert |Chunk(fc, items, 0, flushed)| + |Chunk(fc, items, flushed, |items|)| == |Chunk(fc, items, 0, |items|)|;
  }

  lemma NothingStreamed(json: Json, items: seq<Entry>)
    ensures Replay(map[], ReloadedAll(json, Snapshot(items[0..0]))) == map[]
  {
  }

  /** The rewrite of a log of at most 1 MiB leaves a file that loads into an empty bucket. */
  lemma SmallLogIsLost(cfg: Config, data: map<string, Entry>)
    requires cfg.fc.Faithful() && Keyed(data)
    requires forall k :: k in data ==> Writable(cfg.fc, Stmt(Inserting, data[k]))
    requires StreamSize(cfg.fc, data) <= 1_048_576
    ensures CompactedFile(cfg.fc, data) == "" && LoadedState(cfg, CompactedFile(cfg.fc, data)).data == map[]
  {
    var items := Ascending(data);
    CompactedFileEmpty(cfg.fc, data);
    ChunkConcat(cfg.fc, items, 0, 0);
    hide Chunk, Flushed, Writable, LoadedState, Replay, Ascending;
    PrefixLoads(cfg, data, 0);
    NothingStreamed(cfg.c.json, items);
  }
}
