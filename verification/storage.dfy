/** The mutable objects a bucket is made of (entry.go, index.go): entries with their validity flag, B-trees, and
    indexes. */
module Storage {
  import opened Prelude
  import opened Text
  import opened Entries
  import opened Trees
  import opened BucketSpec
  import opened Codec

  class EntryRef {
    const val: Entry
    var invalid: bool

    constructor (val: Entry)
      ensures this.val == val && !invalid
    {
      this.val := val;
      invalid := false;
    }

    method IsExpired(now: Instant) returns (b: bool)
      requires val.opts.Some?
      ensures b <==> val.opts.value.doesExp && val.opts.value.expTime < now
      ensures b == Expired(val, now)
    {
      if val.opts.value.doesExp {
        if val.opts.value.expTime < now {
          return true;
        }
        return false;
      }
      return false;
    }

    method IsInvalid(now: Instant) returns (b: bool)
      requires val.opts.Some?
      ensures b <==> invalid || (val.opts.value.doesInv && val.opts.value.invTime < now)
      ensures b == (invalid || Outdated(val, now))
    {
      if invalid {
        return true;
      }
      if val.opts.value.doesInv {
        if val.opts.value.invTime < now {
          return true;
        }
        return false;
      }
      return false;
    }

    /** What the invalidation loop does to the entry it looks at. */
    method FlagIfDue(now: Instant)
      requires val.opts.Some?
      modifies this`invalid
      ensures invalid <==> old(invalid) || (val.opts.value.doesInv && val.opts.value.invTime < now)
      ensures invalid == (old(invalid) || Outdated(val, now))
    {
      var due := IsInvalid(now);
      if due {
        invalid := true;
      }
    }
  }

  /** entryOptionsCreateStmt */
  method EntryOptionsCreateStmt(fc: FloatCodec, o: Option<EntryOptions>) returns (buf: string)
    ensures buf == Join(OptionFields(fc, o), '~')
  {
    assert Unix(PRINTED_DEFAULTS.expTime) == 0 && Unix(PRINTED_DEFAULTS.invTime) == 0;
    JoinLast(OptionFields(fc, o));
    hide Join, Itoa, Unix, BoolToInt;
    ghost var f := OptionFields(fc, o);
    if o.Some? {
      var e := o.value;
      buf := Itoa(BoolToInt(e.doesExp));
      buf := buf + "~";
      buf := buf + Itoa(BoolToInt(e.doesInv));
      buf := buf + "~";
      buf := buf + Itoa(Unix(e.expTime));
      buf := buf + "~";
      buf := buf + Itoa(Unix(e.invTime));
      buf := buf + "~";
      buf := buf + fc.format(e.tol);
    } else {
      buf := Itoa(BoolToInt(false));
      buf := buf + "~";
      buf := buf + Itoa(BoolToInt(false));
      buf := buf + "~";
      buf := buf + Itoa(0);
      buf := buf + "~";
      buf := buf + Itoa(0);
      buf := buf + "~";
      buf := buf + fc.format(0.01);
    }
  }

  /** EntryInsertStmt and EntryDeleteStmt. */
  method EntryStmt(fc: FloatCodec, s: Stmt) returns (buf: string)
    ensures buf == Encode(fc, s)
  {
    var cbuf := KindName(s.kind);
    cbuf := cbuf + "~";
    cbuf := cbuf + s.e.k;
    cbuf := cbuf + "~";
    cbuf := cbuf + s.e.v;
    cbuf := cbuf + "~";
    var options := EntryOptionsCreateStmt(fc, s.e.opts);
    cbuf := cbuf + options;
    cbuf := cbuf + "\n";
    PayloadAppends(fc, s);
    buf := Itoa(|cbuf|);
    buf := buf + "\n";
    buf := buf + cbuf;
  }

  // ---------- B-trees ----------

  function Vals(items: seq<EntryRef>): seq<Entry>
  {
    seq(|items|, i requires 0 <= i < |items| => items[i].val)
  }

  lemma ValsSplice(items: seq<EntryRef>, lo: nat, x: EntryRef, hi: nat)
    requires lo <= hi <= |items|
    ensures Vals(items[..lo] + [x] + items[hi..]) == Vals(items)[..lo] + [x.val] + Vals(items)[hi..]
    ensures forall r :: r in items[..lo] + [x] + items[hi..] ==> r == x || r in items
  {
  }

  lemma ValsCut(items: seq<EntryRef>, lo: nat, hi: nat)
    requires lo <= hi <= |items|
    ensures Vals(items[..lo] + items[hi..]) == Vals(items)[..lo] + Vals(items)[hi..]
    ensures forall r :: r in items[..lo] + items[hi..] ==> r in items
  {
  }

  function OptVal(r: EntryRef?): Option<Entry>
  {
    if r == null then None else Some(r.val)
  }

  lemma SortedAt(o: Order, s: seq<Entry>, y: Entry, i: nat)
    requires Sorted(o, s) && i < |s| && s[i] == y
    ensures Below(o, s, RankOf(o, y)) == s[..i]
  {
    RankLessTotal(RankOf(o, y), RankOf(o, y));
    SplitAt(o, s, y, i);
  }

  /** An item with nothing but smaller ones in front of the cut, and all smaller ones there, is right behind it. */
  lemma FoundAt(o: Order, s: seq<Entry>, y: Entry, lo: nat)
    requires Sorted(o, s) && lo <= |s| && y in s
    requires Below(o, s, RankOf(o, y)) == s[..lo]
    ensures lo < |s| && s[lo] == y
  {
    hide RankOf;
    var i :| 0 <= i < |s| && s[i] == y;
    RankLessTotal(RankOf(o, y), RankOf(o, y));
    SortedAt(o, s, y, i);
    assert |s[..lo]| == |s[..i]|;
  }

  /** A lookup finds what the search finds. */
  lemma FindWhere(o: Order, s: seq<Entry>, x: Entry, lo: nat)
    requires Sorted(o, s) && lo <= |s|
    requires Below(o, s, RankOf(o, x)) == s[..lo]
    ensures Find(o, s, x) == if lo < |s| && RankOf(o, s[lo]) == RankOf(o, x) then Some(s[lo]) else None
  {
    FindMembers(o, s, x);
    hide Find, Above, RankOf;
    if lo < |s| && RankOf(o, s[lo]) == RankOf(o, x) {
      assert s[lo] in s;
    } else if Find(o, s, x).Some? {
      var y := Find(o, s, x).value;
      assert y in s && RankOf(o, y) == RankOf(o, x);
      FoundAt(o, s, y, lo);
    }
  }

  class Tree {
    const order: Order
    var items: seq<EntryRef>

    function Contents(): seq<Entry>
      reads this
    {
      Vals(items)
    }

    ghost predicate Valid()
      reads this
    {
      Sorted(order, Contents())
    }

    constructor (order: Order)
      ensures this.order == order && items == [] && Valid()
    {
      this.order := order;
      items := [];
    }

    /** Where `x` belongs, and whether an item of its rank is there. */
    method Search(x: Entry) returns (lo: nat, found: bool)
      requires Valid()
      ensures lo <= |items|
      ensures found <==> lo < |items| && RankOf(order, items[lo].val) == RankOf(order, x)
      ensures Below(order, Contents(), RankOf(order, x)) == Contents()[..lo]
      ensures Above(order, Contents(), RankOf(order, x)) == Contents()[if found then lo + 1 else lo..]
    {
      lo := 0;
      while lo < |items| && Less(order, items[lo].val, x)
        invariant lo <= |items|
        invariant forall i :: 0 <= i < lo ==> Less(order, items[i].val, x)
      {
        lo := lo + 1;
      }
      found := lo < |items| && !Less(order, x, items[lo].val);
      if lo < |items| {
        RankLessTotal(RankOf(order, items[lo].val), RankOf(order, x));
      }
      SplitAt(order, Contents(), x, lo);
    }

    method ReplaceOrInsert(x: EntryRef) returns (prev: EntryRef?)
      requires Valid()
      modifies this
      ensures Valid() && Contents() == Put(order, old(Contents()), x.val)
      ensures Find(order, old(Contents()), x.val) == OptVal(prev)
      ensures prev != null ==> prev in old(items)
      ensures forall r :: r in items ==> r == x || r in old(items)
    {
      var lo, found := Search(x.val);
      FindWhere(order, Contents(), x.val, lo);
      PutSorted(order, Contents(), x.val);
      hide Below, Above, Find, RankOf, Sorted;
      var hi := if found then lo + 1 else lo;
      prev := if found then items[lo] else null;
      ValsSplice(items, lo, x, hi);
      items := items[..lo] + [x] + items[hi..];
    }

    method Delete(x: Entry) returns (prev: EntryRef?)
      requires Valid()
      modifies this
      ensures Valid() && Contents() == Remove(order, old(Contents()), x)
      ensures Find(order, old(Contents()), x) == OptVal(prev)
      ensures prev != null ==> prev in old(items)
      ensures forall r :: r in items ==> r in old(items)
    {
      var lo, found := Search(x);
      FindWhere(order, Contents(), x, lo);
      RemoveSorted(order, Contents(), x);
      hide Below, Above, Find, RankOf, Sorted;
      var hi := if found then lo + 1 else lo;
      prev := if found then items[lo] else null;
      ValsCut(items, lo, hi);
      items := items[..lo] + items[hi..];
    }

    method Get(x: Entry) returns (r: EntryRef?)
      requires Valid()
      ensures Find(order, Contents(), x) == OptVal(r)
      ensures r != null ==> r in items
    {
      var lo, found := Search(x);
      FindWhere(order, Contents(), x, lo);
      if found {
        return items[lo];
      }
      return null;
    }

    /** The least item, or nil. */
    method Min() returns (r: EntryRef?)
      ensures if items == [] then r == null else r == items[0]
    {
      if |items| > 0 {
        return items[0];
      }
      return null;
    }
  }

  // ---------- indexes ----------

  class Index {
    const json: Json
    const ppath: string
    const vtype: IndexValueType

    /** A rebuild empties this tree where the original replaces it; nothing else refers to it. */
    const t: Tree

    ghost function Abs(): IndexState
      reads t
    {
      IndexState(ppath, vtype, t.Contents())
    }

    function Ordering(): Order
    {
      ByField(json, ppath, vtype)
    }

    ghost predicate Valid()
      reads t
    {
      t.order == Ordering() && t.Valid()
    }

    /** NewIndex: initialized but not built. */
    constructor (json: Json, ppath: string, vtype: IndexValueType)
      ensures this.json == json && this.ppath == ppath && this.vtype == vtype
      ensures Valid() && fresh(t) && t.items == []
    {
      this.json, this.ppath, this.vtype := json, ppath, vtype;
      t := new Tree(ByField(json, ppath, vtype));
    }

    method Get(e: Entry) returns (r: EntryRef?)
      requires Valid()
      ensures OptVal(r) == if Member(Ordering(), e) then Find(Ordering(), t.Contents(), e) else None
    {
      if !json.Has(e.v, ppath) {
        return null;
      }
      r := t.Get(e);
    }

    method Insert(e: EntryRef) returns (prev: EntryRef?)
      requires Valid()
      modifies t
      ensures Valid() && t.Contents() == Link(Ordering(), old(t.Contents()), e.val)
      ensures OptVal(prev) == if Member(Ordering(), e.val) then Find(Ordering(), old(t.Contents()), e.val) else None
    {
      if !json.Has(e.val.v, ppath) {
        return null;
      }
      prev := t.ReplaceOrInsert(e);
    }

    method Delete(e: Entry) returns (prev: EntryRef?)
      requires Valid()
      modifies t
      ensures Valid() && t.Contents() == Unlink(Ordering(), old(t.Contents()), Some(e))
      ensures OptVal(prev) == if Member(Ordering(), e) then Find(Ordering(), old(t.Contents()), e) else None
    {
      if !json.Has(e.v, ppath) {
        return null;
      }
      prev := t.Delete(e);
    }

    /** Inserts the entries of the primary tree in key order. */
    method Build(data: Tree)
      requires Valid() && t.items == [] && data != t
      modifies t
      ensures Valid() && t.Contents() == BucketSpec.Build(Ordering(), data.Contents())
      ensures Abs() == IndexState(ppath, vtype, BucketSpec.Build(ByField(json, ppath, vtype), data.Contents()))
    {
      for i := 0 to |data.items|
        invariant Valid() && data.items == old(data.items)
        invariant t.Contents() == BucketSpec.Build(Ordering(), data.Contents()[..i])
      {
        assert data.Contents()[..i + 1][..i] == data.Contents()[..i];
        var _ := Insert(data.items[i]);
      }
      assert data.Contents()[..|data.items|] == data.Contents();
    }

    method Rebuild(data: Tree)
      requires Valid() && data != t
      modifies t
      ensures Valid() && t.Contents() == BucketSpec.Build(Ordering(), data.Contents())
    {
      t.items := [];
      Build(data);
    }
  }
}
