/** The B-trees of a bucket as sequences strictly sorted by the comparator of entry.go and index.go.
    A tree replaces an item that neither precedes nor follows the new one, so items whose ranks coincide
    displace each other. */
module Trees {
  import opened Prelude
  import opened Entries

  datatype IndexValueType = StringIndex | UintIndex | IntIndex | FloatIndex | OtherIndex

  /** The context a B-tree passes to Entry.Less. */
  datatype Order =
    | ByKey
    | ByExpiry
    | ByInvalidation
    | ByField(json: Json, ppath: string, vtype: IndexValueType)

  /** What the comparator looks at. */
  datatype Rank = Num(n: real) | Str(s: string)

  function RankOf(o: Order, e: Entry): Rank
  {
    match o
    case ByKey => Str(e.k)
    case ByExpiry => Num(if e.opts.Some? then e.opts.value.expTime as real else 0.0)
    case ByInvalidation => Num(if e.opts.Some? then e.opts.value.invTime as real else 0.0)
    case ByField(json, ppath, vtype) =>
      var f := json.Read(e.v, ppath);
      match vtype
      case IntIndex => Num(f.asInt as real)
      case UintIndex => Num(f.asUint as real)
      case FloatIndex => Num(f.asFloat)
      case StringIndex => Num(f.asFloat)
      case OtherIndex => Str(f.asString)
  }

  /** Whether an entry belongs in the tree kept under this order. */
  predicate Member(o: Order, e: Entry)
  {
    match o
    case ByKey => true
    case ByExpiry => e.opts.Some? && e.opts.value.doesExp
    case ByInvalidation => e.opts.Some? && e.opts.value.doesInv
    case ByField(json, ppath, vtype) => json.Has(e.v, ppath)
  }

  /** Go's string comparison, byte by byte. */
  predicate StrLess(a: string, b: string)
  {
    if b == "" then false
    else if a == "" then true
    else if a[0] != b[0] then a[0] < b[0]
    else StrLess(a[1..], b[1..])
  }

  predicate RankLess(a: Rank, b: Rank)
  {
    match (a, b)
    case (Num(x), Num(y)) => x < y
    case (Str(x), Str(y)) => StrLess(x, y)
    case (Num(_), Str(_)) => true
    case (Str(_), Num(_)) => false
  }

  predicate Less(o: Order, x: Entry, y: Entry)
  {
    RankLess(RankOf(o, x), RankOf(o, y))
  }

  lemma {:induction false} StrLessTotal(a: string, b: string)
    ensures StrLess(a, b) || StrLess(b, a) <==> a != b
    ensures !(StrLess(a, b) && StrLess(b, a))
  {
    if a == "" || b == "" || a[0] != b[0] {
    } else {
      StrLessTotal(a[1..], b[1..]);
      assert a == [a[0]] + a[1..] && b == [b[0]] + b[1..];
    }
  }

  lemma {:induction false} StrLessTransitive(a: string, b: string, c: string)
    requires StrLess(a, b) && StrLess(b, c)
    ensures StrLess(a, c)
  {
    if a == "" || a[0] != b[0] || b[0] != c[0] {
    } else {
      StrLessTransitive(a[1..], b[1..], c[1..]);
    }
  }

  /** The texts agree up to position `i`, where they differ or one of them ends. */
  predicate DiffersAt(a: string, b: string, i: nat)
  {
    i <= |a| && i <= |b| && a[..i] == b[..i] && a != b && (i == |a| || i == |b| || a[i] != b[i])
  }

  lemma PrefixesDiffer(a: string, b: string, i: nat)
    requires (a == "" || b == "" || a[0] != b[0]) && i <= |a| && i <= |b|
    ensures a[..i] == b[..i] <==> i == 0
  {
    assert i > 0 ==> a[..i][0] == a[0] && b[..i][0] == b[0];
  }

  lemma FirstByteSame(a: string, b: string)
    requires a != "" && b != "" && a[0] == b[0]
    ensures forall i: nat {:trigger DiffersAt(a[1..], b[1..], i)} ::
      DiffersAt(a[1..], b[1..], i) <==> DiffersAt(a, b, i + 1)
    ensures !DiffersAt(a, b, 0)
  {
    assert a == [a[0]] + a[1..] && b == [b[0]] + b[1..];
    forall i: nat
      ensures DiffersAt(a[1..], b[1..], i) <==> DiffersAt(a, b, i + 1)
    {
      if i < |a| && i < |b| {
        assert a[..i + 1] == [a[0]] + a[1..][..i] && b[..i + 1] == [b[0]] + b[1..][..i];
        assert a[..i + 1][1..] == a[1..][..i] && b[..i + 1][1..] == b[1..][..i];
      }
    }
  }

  lemma {:induction false} StrLessDiffers(a: string, b: string)
    ensures StrLess(a, b) <==> exists i: nat :: DiffersAt(a, b, i) && (i == |a| || (i < |b| && a[i] < b[i]))
  {
    if a == "" || b == "" || a[0] != b[0] {
      assert a != b ==> DiffersAt(a, b, 0);
      forall i: nat | DiffersAt(a, b, i)
        ensures i == 0
      {
        PrefixesDiffer(a, b, i);
      }
    } else {
      StrLessDiffers(a[1..], b[1..]);
      FirstByteSame(a, b);
      if i: nat :| DiffersAt(a[1..], b[1..], i) && (i == |a[1..]| || (i < |b[1..]| && a[1..][i] < b[1..][i])) {
        assert DiffersAt(a, b, i + 1);
      }
      if i: nat :| DiffersAt(a, b, i) && (i == |a| || (i < |b| && a[i] < b[i])) {
        assert i > 0 && DiffersAt(a[1..], b[1..], i - 1);
      }
    }
  }

  lemma WholePrefix(a: string, b: string, i: nat)
    requires i <= |a| && i <= |b| && a[..i] == b[..i] && a != b
    ensures i < |a| || i < |b|
  {
    assert i == |a| ==> a == a[..i];
    assert i == |b| ==> b == b[..i];
  }

  /** Byte by byte: behind a common beginning the smaller byte decides, or the end of the text. */
  lemma StrLessMeaning(a: string, b: string)
    ensures StrLess(a, b) <==> exists i: nat ::
      i <= |a| && i <= |b| && a[..i] == b[..i] && (i == |a| < |b| || (i < |a| && i < |b| && a[i] < b[i]))
  {
    StrLessDiffers(a, b);
    hide StrLess;
    if StrLess(a, b) {
      var i: nat :| DiffersAt(a, b, i) && (i == |a| || (i < |b| && a[i] < b[i]));
      WholePrefix(a, b, i);
    }
    if i: nat :|
      i <= |a| && i <= |b| && a[..i] == b[..i] && (i == |a| < |b| || (i < |a| && i < |b| && a[i] < b[i])) {
      assert DiffersAt(a, b, i);
    }
  }

  /** The comparators of entry.go and index.go. A missing field reads as zero or as no text, and a string index
      compares numbers. */
  lemma LessMeaning(json: Json, p: string, x: Entry, y: Entry)
    ensures Less(ByKey, x, y) <==> StrLess(x.k, y.k)
    ensures x.opts.Some? && y.opts.Some? ==>
      (Less(ByExpiry, x, y) <==> x.opts.value.expTime < y.opts.value.expTime)
    ensures x.opts.Some? && y.opts.Some? ==>
      (Less(ByInvalidation, x, y) <==> x.opts.value.invTime < y.opts.value.invTime)
    ensures var f, g := json.get(x.v, p), json.get(y.v, p);
      && (Less(ByField(json, p, IntIndex), x, y) <==>
            (if f.Some? then f.value.asInt else 0) < (if g.Some? then g.value.asInt else 0))
      && (Less(ByField(json, p, UintIndex), x, y) <==>
            (if f.Some? then f.value.asUint else 0) < (if g.Some? then g.value.asUint else 0))
      && (Less(ByField(json, p, FloatIndex), x, y) <==>
            (if f.Some? then f.value.asFloat else 0.0) < (if g.Some? then g.value.asFloat else 0.0))
      && (Less(ByField(json, p, StringIndex), x, y) <==>
            (if f.Some? then f.value.asFloat else 0.0) < (if g.Some? then g.value.asFloat else 0.0))
      && (Less(ByField(json, p, OtherIndex), x, y) <==>
            StrLess(if f.Some? then f.value.asString else "", if g.Some? then g.value.asString else ""))
  {
  }

  /** What belongs in which tree. */
  lemma MemberMeaning(json: Json, p: string, vtype: IndexValueType, e: Entry)
    ensures Member(ByKey, e)
    ensures e.opts.Some? ==> (Member(ByExpiry, e) <==> e.opts.value.doesExp)
    ensures e.opts.Some? ==> (Member(ByInvalidation, e) <==> e.opts.value.doesInv)
    ensures Member(ByField(json, p, vtype), e) <==> json.get(e.v, p).Some?
  {
  }

  /** Two items the comparator cannot tell apart have the same rank. */
  lemma RankLessTotal(a: Rank, b: Rank)
    ensures RankLess(a, b) || RankLess(b, a) <==> a != b
    ensures !(RankLess(a, b) && RankLess(b, a))
  {
    if a.Str? && b.Str? {
      StrLessTotal(a.s, b.s);
    }
  }

  /** The readings of a field an index compares. */
  predicate SameReading(vtype: IndexValueType, f: JsonValue, g: JsonValue)
  {
    || (vtype == IntIndex && f.asInt == g.asInt)
    || (vtype == UintIndex && f.asUint == g.asUint)
    || ((vtype == FloatIndex || vtype == StringIndex) && f.asFloat == g.asFloat)
    || (vtype == OtherIndex && f.asString == g.asString)
  }

  /** Neither of two entries with the field precedes the other exactly if an index reads the same of both. */
  lemma SameReadingMeaning(json: Json, p: string, vtype: IndexValueType, x: Entry, y: Entry)
    requires json.get(x.v, p).Some? && json.get(y.v, p).Some?
    ensures var o := ByField(json, p, vtype);
      Less(o, x, y) || Less(o, y, x) <==> !SameReading(vtype, json.get(x.v, p).value, json.get(y.v, p).value)
  {
    RankLessTotal(RankOf(ByField(json, p, vtype), x), RankOf(ByField(json, p, vtype), y));
    hide StrLess;
  }

  lemma RankLessTransitive(a: Rank, b: Rank, c: Rank)
    requires RankLess(a, b) && RankLess(b, c)
    ensures RankLess(a, c)
  {
    if a.Str? && b.Str? && c.Str? {
      StrLessTransitive(a.s, b.s, c.s);
    }
  }

  ghost predicate Sorted(o: Order, s: seq<Entry>)
  {
    forall i, j :: 0 <= i < j < |s| ==> Less(o, s[i], s[j])
  }

  lemma SortedPart(o: Order, s: seq<Entry>, from: nat, to: nat)
    requires Sorted(o, s) && from <= to <= |s|
    ensures Sorted(o, s[from..to]) && forall e :: e in s[from..to] ==> e in s
  {
    hide Less;
  }

  // ---------- the tree operations ----------

  function Below(o: Order, s: seq<Entry>, r: Rank): (t: seq<Entry>)
    ensures forall y :: y in t <==> y in s && RankLess(RankOf(o, y), r)
  {
    if s == [] then []
    else (if RankLess(RankOf(o, s[0]), r) then [s[0]] else []) + Below(o, s[1..], r)
  }

  function Above(o: Order, s: seq<Entry>, r: Rank): (t: seq<Entry>)
    ensures forall y :: y in t <==> y in s && RankLess(r, RankOf(o, y))
  {
    if s == [] then []
    else (if RankLess(r, RankOf(o, s[0])) then [s[0]] else []) + Above(o, s[1..], r)
  }

  /** ReplaceOrInsert */
  function Put(o: Order, s: seq<Entry>, x: Entry): seq<Entry>
  {
    Below(o, s, RankOf(o, x)) + [x] + Above(o, s, RankOf(o, x))
  }

  /** Delete of whatever ranks like the probe. */
  function Remove(o: Order, s: seq<Entry>, x: Entry): seq<Entry>
  {
    Below(o, s, RankOf(o, x)) + Above(o, s, RankOf(o, x))
  }

  /** Get of whatever ranks like the probe. */
  function Find(o: Order, s: seq<Entry>, x: Entry): Option<Entry>
  {
    if s == [] then None
    else if RankOf(o, s[0]) == RankOf(o, x) then Some(s[0])
    else Find(o, s[1..], x)
  }

  lemma PutMembers(o: Order, s: seq<Entry>, x: Entry)
    ensures forall y :: y in Put(o, s, x) <==> y == x || (y in s && RankOf(o, y) != RankOf(o, x))
  {
    forall y { RankLessTotal(RankOf(o, y), RankOf(o, x)); }
  }

  lemma RemoveMembers(o: Order, s: seq<Entry>, x: Entry)
    ensures forall y :: y in Remove(o, s, x) <==> y in s && RankOf(o, y) != RankOf(o, x)
  {
    forall y { RankLessTotal(RankOf(o, y), RankOf(o, x)); }
  }

  lemma {:induction false} FindMembers(o: Order, s: seq<Entry>, x: Entry)
    requires Sorted(o, s)
    ensures forall y :: Find(o, s, x) == Some(y) <==> y in s && RankOf(o, y) == RankOf(o, x)
  {
    if s == [] {
    } else {
      FindMembers(o, s[1..], x);
      forall y | y in s[1..]
        ensures RankOf(o, y) != RankOf(o, s[0])
      {
        RankLessTotal(RankOf(o, s[0]), RankOf(o, y));
      }
      assert s == [s[0]] + s[1..];
    }
  }

  // ---------- sortedness ----------

  lemma SortedConcat(o: Order, a: seq<Entry>, b: seq<Entry>)
    requires Sorted(o, a) && Sorted(o, b)
    requires forall x, y :: x in a && y in b ==> Less(o, x, y)
    ensures Sorted(o, a + b)
  {
  }

  lemma {:induction false} BelowSorted(o: Order, s: seq<Entry>, r: Rank)
    requires Sorted(o, s)
    ensures Sorted(o, Below(o, s, r))
  {
    if s == [] {
    } else {
      BelowSorted(o, s[1..], r);
      assert forall y :: y in s[1..] ==> Less(o, s[0], y);
      SortedConcat(o, if RankLess(RankOf(o, s[0]), r) then [s[0]] else [], Below(o, s[1..], r));
    }
  }

  lemma {:induction false} AboveSorted(o: Order, s: seq<Entry>, r: Rank)
    requires Sorted(o, s)
    ensures Sorted(o, Above(o, s, r))
  {
    if s == [] {
    } else {
      AboveSorted(o, s[1..], r);
      assert forall y :: y in s[1..] ==> Less(o, s[0], y);
      SortedConcat(o, if RankLess(r, RankOf(o, s[0])) then [s[0]] else [], Above(o, s[1..], r));
    }
  }

  lemma BelowLessAbove(o: Order, s: seq<Entry>, r: Rank)
    ensures forall x, y :: x in Below(o, s, r) && y in Above(o, s, r) ==> Less(o, x, y)
  {
    forall x, y | x in Below(o, s, r) && y in Above(o, s, r)
      ensures Less(o, x, y)
    {
      RankLessTransitive(RankOf(o, x), r, RankOf(o, y));
    }
  }

  lemma PutSorted(o: Order, s: seq<Entry>, x: Entry)
    requires Sorted(o, s)
    ensures Sorted(o, Put(o, s, x))
  {
    var r := RankOf(o, x);
    BelowSorted(o, s, r);
    AboveSorted(o, s, r);
    BelowLessAbove(o, s, r);
    SortedConcat(o, Below(o, s, r), [x]);
    SortedConcat(o, Below(o, s, r) + [x], Above(o, s, r));
  }

  lemma RemoveSorted(o: Order, s: seq<Entry>, x: Entry)
    requires Sorted(o, s)
    ensures Sorted(o, Remove(o, s, x))
  {
    var r := RankOf(o, x);
    BelowSorted(o, s, r);
    AboveSorted(o, s, r);
    BelowLessAbove(o, s, r);
    SortedConcat(o, Below(o, s, r), Above(o, s, r));
  }

  /** Items of a sorted tree are pairwise distinct in rank. */
  lemma SortedDistinct(o: Order, s: seq<Entry>, x: Entry, y: Entry)
    requires Sorted(o, s) && x in s && y in s && RankOf(o, x) == RankOf(o, y)
    ensures x == y
  {
    var i :| 0 <= i < |s| && s[i] == x;
    var j :| 0 <= j < |s| && s[j] == y;
    RankLessTotal(RankOf(o, x), RankOf(o, y));
  }

  lemma TailMembers(o: Order, s: seq<Entry>, y: Entry)
    requires Sorted(o, s) && s != []
    ensures y in s[1..] <==> y in s && y != s[0]
  {
    RankLessTotal(RankOf(o, s[0]), RankOf(o, y));
    assert s == [s[0]] + s[1..];
    assert y in s[1..] ==> Less(o, s[0], y);
  }

  /** A sorted tree is determined by its items. */
  lemma {:induction false} SortedUnique(o: Order, a: seq<Entry>, b: seq<Entry>)
    requires Sorted(o, a) && Sorted(o, b)
    requires forall y :: y in a <==> y in b
    ensures a == b
  {
    assert a != [] ==> a[0] in b;
    assert b != [] ==> b[0] in a;
    if a == [] {
    } else {
      RankLessTotal(RankOf(o, a[0]), RankOf(o, b[0]));
      assert a[0] == b[0] by {
        var i :| 0 <= i < |a| && a[i] == b[0];
        var j :| 0 <= j < |b| && b[j] == a[0];
      }
      forall y
        ensures y in a[1..] <==> y in b[1..]
      {
        TailMembers(o, a, y);
        TailMembers(o, b, y);
      }
      SortedUnique(o, a[1..], b[1..]);
    }
  }

  /** Where a search by rank lands in a sorted tree. */
  lemma SplitAt(o: Order, s: seq<Entry>, x: Entry, lo: nat)
    requires Sorted(o, s) && lo <= |s|
    requires forall i :: 0 <= i < lo ==> Less(o, s[i], x)
    requires lo < |s| ==> !Less(o, s[lo], x)
    ensures Below(o, s, RankOf(o, x)) == s[..lo]
    ensures Above(o, s, RankOf(o, x)) ==
            if lo < |s| && RankOf(o, s[lo]) == RankOf(o, x) then s[lo + 1..] else s[lo..]
  {
    var r := RankOf(o, x);
    var hi := if lo < |s| && RankOf(o, s[lo]) == r then lo + 1 else lo;
    BelowSorted(o, s, r);
    AboveSorted(o, s, r);
    forall i | 0 <= i < |s|
      ensures i < lo <==> Less(o, s[i], x)
      ensures hi <= i <==> RankLess(r, RankOf(o, s[i]))
    {
      RankLessTotal(RankOf(o, s[i]), r);
      if lo <= i {
        RankLessTotal(RankOf(o, s[lo]), r);
        if lo < i {
          assert Less(o, s[lo], s[i]);
          if RankOf(o, s[lo]) != r {
            RankLessTransitive(r, RankOf(o, s[lo]), RankOf(o, s[i]));
          }
        }
      }
    }
    SortedUnique(o, Below(o, s, r), s[..lo]);
    SortedUnique(o, Above(o, s, r), s[hi..]);
  }
}
