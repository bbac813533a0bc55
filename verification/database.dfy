/** The database as the object that keeps the catalogue file in step with its buckets (db.go). */
module Databases {
  import opened Prelude
  import opened Text
  import opened Catalogue

  datatype Outcome = Done | NotOpen | NoSuchBucket

  // ---------- proofs ----------

  lemma LastLinesStep(lines: seq<string>, i: nat)
    requires i < |lines|
    ensures var m, line := LastLines(lines[..i]), ParseLine(lines[i]);
      LastLines(lines[..i + 1]) ==
        if m.None? || line.None? then None else Some(m.value[line.value.name := line.value.detail])
  {
    assert lines[..i + 1][..i] == lines[..i];
  }

  /** One line that does not parse spoils the file. */
  lemma {:induction false} LastLinesStop(lines: seq<string>, i: nat)
    requires i <= |lines| && LastLines(lines[..i]).None?
    ensures LastLines(lines).None?
    decreases |lines| - i
  {
    if i < |lines| {
      LastLinesStep(lines, i);
      LastLinesStop(lines, i + 1);
    } else {
      assert lines[..i] == lines;
    }
  }

  lemma CreateLinesNothing(buckets: map<string, BucketOptions>)
    ensures FileOf(CreateLines(buckets, [])) == ""
  {
  }

  lemma CreateLinesSnoc(buckets: map<string, BucketOptions>, order: seq<string>, k: string)
    requires k in buckets && forall j :: j in order ==> j in buckets
    ensures FileOf(CreateLines(buckets, order + [k])) ==
      FileOf(CreateLines(buckets, order)) + CreateLine(k, buckets[k]) + "\n"
  {
    hide CreateLine;
    var lines := CreateLines(buckets, order + [k]);
    assert lines[..|lines| - 1] == CreateLines(buckets, order);
  }

  /** Reopening a catalogue that is in step finds the database as it was. */
  lemma ReopenSame(cat: Cat)
    requires Inv(cat)
    ensures Recover(cat.file).Some? && ScanLines(cat.file).Some?
    ensures Cat(Recover(cat.file).value, cat.file, |ScanLines(cat.file).value|) == cat
  {
    InvRecovers(cat);
  }

  // ---------- the database ----------

  class Database {
    const persist: bool
    var open: bool
    var buckets: map<string, BucketOptions>
    var file: string
    var rc: nat

    function Abs(): Cat
      reads this
    {
      Cat(buckets, file, rc)
    }

    /** A database that is not open yet, with this catalogue file. */
    constructor (persist: bool, file: string)
      ensures this.persist == persist && !open && Abs() == Cat(map[], file, 0)
    {
      this.persist, this.file := persist, file;
      open, buckets, rc := false, map[], 0;
    }

    /** readConfigFileBuckets and the loop of Open over the statements it finds. */
    method Open() returns (ok: bool)
      requires !open && buckets == map[] && rc == 0
      modifies this
      ensures ok == open && file == old(file)
      ensures persist ==> (ok <==> Recover(file).Some?)
      ensures persist && ok ==> Abs() == Cat(Recover(file).value, file, |ScanLines(file).value|)
      ensures !persist ==> ok && Abs() == old(Abs())
    {
      if persist {
        var lines := ScanLines(file);
        if lines.None? {
          return false;
        }
        rc := |lines.value|;
        var stmts: map<string, Option<seq<string>>> := map[];
        for i := 0 to |lines.value|
          invariant LastLines(lines.value[..i]) == Some(stmts)
          invariant !open && file == old(file) && buckets == map[] && rc == |lines.value|
        {
          LastLinesStep(lines.value, i);
          var line := ParseLine(lines.value[i]);
          if line.None? {
            LastLinesStop(lines.value, i + 1);
            return false;
          }
          stmts := stmts[line.value.name := line.value.detail];
        }
        assert lines.value[..|lines.value|] == lines.value;
        var keys := stmts.Keys;
        while keys != {}
          invariant keys <= stmts.Keys && !open && file == old(file) && rc == |lines.value|
          invariant forall k :: k in stmts && k !in keys && stmts[k].Some? ==>
            ParseOptions(stmts[k].value).Some? && k in buckets && buckets[k] == ParseOptions(stmts[k].value).value
          invariant forall k :: k in buckets ==> k in stmts && k !in keys && stmts[k].Some?
        {
          var k :| k in keys;
          if stmts[k].Some? {
            var options := ParseOptions(stmts[k].value);
            if options.None? {
              return false;
            }
            buckets := buckets[k := options.value];
          }
          keys := keys - {k};
        }
        assert buckets == OpenedBuckets(stmts);
      }
      open := true;
      return true;
    }

    /** If the bucket exists nothing is done and, against what the original's message says, no error is returned:
        what is annotated there is no error. */
    method CreateBucket(name: string, options: BucketOptions) returns (r: Outcome)
      modifies this
      ensures r == if open then Done else NotOpen
      ensures open == old(open)
      ensures Abs() ==
        if !open then old(Abs())
        else if persist then Created(old(Abs()), name, options)
        else old(Abs()).(buckets := Created(old(Abs()), name, options).buckets)
      ensures var n := TrimSpace(name);
        if open && name != "_sys" && name != "_sysperf" && n !in old(buckets) then
          && buckets == old(buckets)[n := options]
          && file == (if persist then old(file) + CreateLine(n, options) + "\n" else old(file))
          && rc == (if persist then old(rc) + 1 else old(rc))
        else buckets == old(buckets) && file == old(file) && rc == old(rc)
    {
      if !open {
        return NotOpen;
      }
      if name == "_sys" || name == "_sysperf" || TrimSpace(name) in buckets {
        return Done;
      }
      var bktName := TrimSpace(name);
      buckets := buckets[bktName := options];
      if persist {
        file := file + CreateLine(bktName, options) + "\n";
        rc := rc + 1;
      }
      return Done;
    }

    method DropBucket(name: string) returns (r: Outcome)
      modifies this
      ensures r == if !open then NotOpen else if !Found(old(buckets), TrimSpace(name)) then NoSuchBucket else Done
      ensures open == old(open)
      ensures Abs() ==
        if !open then old(Abs())
        else if persist then Dropped(old(Abs()), name)
        else old(Abs()).(buckets := Dropped(old(Abs()), name).buckets)
      ensures var n := TrimSpace(name);
        if r == Done then
          && (n == "_sys" || n == "_sysperf" || n in old(buckets))
          && buckets == old(buckets) - {n}
          && file == (if persist then old(file) + "DROP:" + n + "\n" else old(file))
          && rc == (if persist then old(rc) + 1 else old(rc))
        else
          && (open ==> n != "_sys" && n != "_sysperf" && n !in old(buckets))
          && buckets == old(buckets) && file == old(file) && rc == old(rc)
    {
      TrimSpaceTwice(name);
      if !open {
        return NotOpen;
      }
      var bktName := TrimSpace(name);
      if bktName != "_sys" && bktName != "_sysperf" && TrimSpace(bktName) !in buckets {
        return NoSuchBucket;
      }
      buckets := buckets - {bktName};
      if persist {
        file := file + DropLine(bktName) + "\n";
        rc := rc + 1;
      }
      return Done;
    }

    /** The file is written anew from the open buckets, in some order. */
    method Rewrite() returns (ghost order: seq<string>)
      modifies this
      ensures open == old(open) && buckets == old(buckets) && Enumerates(order, buckets.Keys)
      ensures forall k :: k in order ==> k in buckets
      ensures file == FileOf(CreateLines(buckets, order)) && rc == |buckets|
    {
      hide *;
      file, order := "", [];
      var keys := buckets.Keys;
      EnumeratesNothing<string>();
      CreateLinesNothing(buckets);
      assert buckets.Keys - keys == {};
      while keys != {}
        invariant keys <= buckets.Keys && open == old(open) && buckets == old(buckets)
        invariant Enumerates(order, buckets.Keys - keys) && forall k :: k in order ==> k in buckets
        invariant file == FileOf(CreateLines(buckets, order))
      {
        var key :| key in keys;
        EnumeratesSnoc(order, buckets.Keys - keys, key);
        CreateLinesSnoc(buckets, order, key);
        file := file + CreateLine(key, buckets[key]) + "\n";
        order := order + [key];
        assert buckets.Keys - (keys - {key}) == (buckets.Keys - keys) + {key};
        keys := keys - {key};
      }
      assert buckets.Keys - keys == buckets.Keys;
      rc := |buckets|;
    }

    /** One cycle of the database manager. */
    method Manage(limit: int) returns (ghost order: seq<string>)
      modifies this
      ensures open == old(open) && buckets == old(buckets) && Enumerates(order, buckets.Keys)
      ensures if persist && |buckets| * limit > old(rc)
        then file == FileOf(CreateLines(buckets, order)) && rc == |buckets|
        else file == old(file) && rc == old(rc)
      ensures Abs() ==
        if persist && RewriteDue(old(Abs()), limit) then Rewritten(Cat(buckets, old(file), old(rc)), order)
        else old(Abs())
    {
      if persist && |buckets| * limit > rc {
        order := Rewrite();
      } else {
        order := SomeOrder(buckets.Keys);
      }
    }
  }
}
