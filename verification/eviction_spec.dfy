/** The eviction pass of the bucket manager (bucket.go:424-436): what it removes, and why no reader notices. */
module EvictionSpec {
  import opened Prelude
  import opened Entries
  import opened Trees
  import opened BucketSpec

  lemma {:induction false} RemoveNoLonger(o: Order, t: seq<Entry>, r: Rank)
    ensures |Below(o, t, r)| + |Above(o, t, r)| <= |t|
  {
    if t == [] {
    } else {
      RemoveNoLonger(o, t[1..], r);
      RankLessTotal(RankOf(o, t[0]), r);
    }
  }

  lemma DeleteNoLonger(c: Schema, st: State, k: string)
    ensures |Delete(c, st, k).eviction| <= |st.eviction|
  {
    if k in st.data {
      RemoveNoLonger(ByExpiry, st.eviction, RankOf(ByExpiry, st.data[k]));
    }
  }

  /** The loop from iteration `i`: its limit is the length of a tree that shrinks as it deletes. */
  function EvictFrom(c: Schema, st: State, i: nat, now: Instant): State
    decreases |st.eviction| - i
  {
    if i < |st.eviction| then
      if Expired(st.eviction[0], now) then
        DeleteNoLonger(c, st, st.eviction[0].k);
        EvictFrom(c, Delete(c, st, st.eviction[0].k), i + 1, now)
      else
        EvictFrom(c, st, i + 1, now)
    else st
  }

  function Evict(c: Schema, st: State, now: Instant): State
  {
    EvictFrom(c, st, 0, now)
  }

  lemma RemoveFirst(o: Order, t: seq<Entry>)
    requires Sorted(o, t) && t != []
    ensures Remove(o, t, t[0]) == t[1..]
  {
    RankLessTotal(RankOf(o, t[0]), RankOf(o, t[0]));
    SplitAt(o, t, t[0], 0);
    assert [] + t[1..] == t[1..];
  }

  /** Deleting by the key of the least item takes exactly that item out of the tree. */
  lemma DeleteHead(c: Schema, st: State)
    requires StateSound(c, st) && st.eviction != []
    ensures StateSound(c, Delete(c, st, st.eviction[0].k))
    ensures var st1 := Delete(c, st, st.eviction[0].k);
      && st1.eviction == st.eviction[1..] && st1.data == st.data - {st.eviction[0].k} && st1.rct == st.rct + 1
  {
    var head := st.eviction[0];
    DeleteSound(c, st, head.k);
    RemoveFirst(ByExpiry, st.eviction);
    hide Remove, Sorted;
    assert head in st.eviction && Lookup(st.data, head.k) == Some(head) && Member(ByExpiry, head);
  }

  /** The items at the front of a tree sorted by expiry that have expired. */
  function ExpiredCount(t: seq<Entry>, now: Instant): (m: nat)
    ensures m <= |t|
  {
    if t == [] || !Expired(t[0], now) then 0 else 1 + ExpiredCount(t[1..], now)
  }

  /** These are all the expired ones, since the tree is sorted by expiry. */
  lemma {:induction false} ExpiredAreInFront(t: seq<Entry>, now: Instant)
    requires Sorted(ByExpiry, t) && forall e :: e in t ==> Member(ByExpiry, e)
    ensures forall i :: 0 <= i < |t| ==> (Expired(t[i], now) <==> i < ExpiredCount(t, now))
  {
    if t == [] {
    } else {
      ExpiredAreInFront(t[1..], now);
      forall i | 0 < i < |t|
        ensures t[i] == t[1..][i - 1] && (Expired(t[i], now) ==> Expired(t[0], now))
      {
        assert Less(ByExpiry, t[0], t[i]) && t[0] in t && t[i] in t;
      }
    }
  }

  /** To the nanosecond. */
  lemma FrontMeaning(t: seq<Entry>, now: Instant, i: nat)
    requires Sorted(ByExpiry, t) && (forall e :: e in t ==> Member(ByExpiry, e)) && i < |t|
    ensures t[i].opts.Some? && (t[i].opts.value.expTime < now <==> i < ExpiredCount(t, now))
  {
    ExpiredAreInFront(t, now);
    assert t[i] in t;
    hide Sorted, ExpiredCount;
  }

  /** Earlier items of the tree expire earlier. */
  lemma InOrderOfExpiry(c: Schema, st: State, i: nat, j: nat)
    requires StateSound(c, st) && i < j < |st.eviction|
    ensures st.eviction[i].opts.Some? && st.eviction[j].opts.Some?
    ensures st.eviction[i].opts.value.expTime < st.eviction[j].opts.value.expTime
  {
    assert st.eviction[i] in st.eviction && st.eviction[j] in st.eviction;
    assert Less(ByExpiry, st.eviction[i], st.eviction[j]);
  }

  function Min(a: nat, b: nat): nat { if a < b then a else b }

  /** How many items the loop deletes from iteration `i` on, with `n` left of which `m` have expired. */
  function Quota(n: nat, m: nat, i: nat): (q: nat)
    requires m <= n
    ensures q <= m
  {
    Min(m, if i < n then (n - i + 1) / 2 else 0)
  }

  lemma QuotaStep(n: nat, m: nat, i: nat)
    requires 0 < m <= n && i < n
    ensures Quota(n, m, i) == Quota(n - 1, m - 1, i + 1) + 1
  {
  }

  lemma QuotaFromStart(n: nat, m: nat)
    requires m <= n
    ensures Quota(n, m, 0) == if m <= (n + 1) / 2 then m else (n + 1) / 2
  {
  }

  /** The key map without the keys of these entries. */
  ghost function Without(d: map<string, Entry>, s: seq<Entry>): map<string, Entry>
  {
    if s == [] then d else Without(d - {s[0].k}, s[1..])
  }

  lemma {:induction false} WithoutLookup(d: map<string, Entry>, s: seq<Entry>, k: string)
    ensures Lookup(Without(d, s), k) == if exists e :: e in s && e.k == k then None else Lookup(d, k)
  {
    if s == [] {
    } else {
      WithoutLookup(d - {s[0].k}, s[1..], k);
      assert forall e :: e in s <==> e == s[0] || e in s[1..];
    }
  }

  /** `st'` is `st` less its first `r` items of the eviction tree. */
  ghost predicate LessFirst(c: Schema, st: State, st': State, r: nat)
    requires r <= |st.eviction|
  {
    && StateSound(c, st')
    && st'.eviction == st.eviction[r..]
    && st'.data == Without(st.data, st.eviction[..r])
    && st'.rct == st.rct + r
  }

  lemma FirstAndMore(c: Schema, st: State, st1: State, st': State, r: nat)
    requires st.eviction != [] && r <= |st1.eviction|
    requires st1.eviction == st.eviction[1..] && st1.data == st.data - {st.eviction[0].k} && st1.rct == st.rct + 1
    requires LessFirst(c, st1, st', r)
    ensures LessFirst(c, st, st', r + 1)
  {
    hide StateSound;
    assert st.eviction[..r + 1][1..] == st1.eviction[..r];
  }

  /** Deleting the least item first, and then what the rest of the loop deletes. */
  lemma LessFirstStep(c: Schema, st: State, st': State, i: nat, now: Instant)
    requires StateSound(c, st) && i < |st.eviction| && Expired(st.eviction[0], now)
    requires var st1 := Delete(c, st, st.eviction[0].k);
      LessFirst(c, st1, st', Quota(|st1.eviction|, ExpiredCount(st1.eviction, now), i + 1))
    ensures LessFirst(c, st, st', Quota(|st.eviction|, ExpiredCount(st.eviction, now), i))
  {
    hide StateSound, Delete, Quota, Expired, LessFirst;
    var n, m := |st.eviction|, ExpiredCount(st.eviction, now);
    DeleteHead(c, st);
    QuotaStep(n, m, i);
    FirstAndMore(c, st, Delete(c, st, st.eviction[0].k), st', Quota(n - 1, m - 1, i + 1));
  }

  lemma {:induction false} EvictFromExactly(c: Schema, st: State, i: nat, now: Instant)
    requires StateSound(c, st)
    ensures LessFirst(c, st, EvictFrom(c, st, i, now), Quota(|st.eviction|, ExpiredCount(st.eviction, now), i))
    decreases |st.eviction| - i
  {
    hide StateSound;
    if i >= |st.eviction| {
    } else {
      if Expired(st.eviction[0], now) {
        DeleteHead(c, st);
        EvictFromExactly(c, Delete(c, st, st.eviction[0].k), i + 1, now);
        LessFirstStep(c, st, EvictFrom(c, st, i, now), i, now);
      } else {
        EvictFromExactly(c, st, i + 1, now);
      }
    }
  }

  /** With n entries that may expire, m of which have, one pass deletes exactly min(m, ceil(n/2)) of them: the
      ones in front, which expired first. */
  lemma EvictExactly(c: Schema, st: State, now: Instant)
    requires StateSound(c, st)
    ensures var n, m := |st.eviction|, ExpiredCount(st.eviction, now);
      LessFirst(c, st, Evict(c, st, now), if m <= (n + 1) / 2 then m else (n + 1) / 2)
  {
    EvictFromExactly(c, st, 0, now);
    QuotaFromStart(|st.eviction|, ExpiredCount(st.eviction, now));
    hide StateSound, LessFirst, EvictFrom, ExpiredCount, Quota;
  }

  // ---------- no reader notices ----------

  /** Every entry a pass deletes has expired. */
  lemma EvictedHaveExpired(c: Schema, st: State, now: Instant, k: string)
    requires StateSound(c, st)
    ensures k in Evict(c, st, now).data ==> Lookup(Evict(c, st, now).data, k) == Lookup(st.data, k)
    ensures k in st.data && k !in Evict(c, st, now).data ==> Expired(st.data[k], now)
    ensures k in st.data && k !in Evict(c, st, now).data ==>
      && st.data[k].opts.Some?
      && st.data[k].opts.value.doesExp && st.data[k].opts.value.expTime < now
  {
    EvictExactly(c, st, now);
    ExpiredAreInFront(st.eviction, now);
    var n, m := |st.eviction|, ExpiredCount(st.eviction, now);
    hide ExpiredCount, Evict, Sorted, Without;
    var gone := st.eviction[..if m <= (n + 1) / 2 then m else (n + 1) / 2];
    WithoutLookup(st.data, gone, k);
    if e :| e in gone && e.k == k {
      assert e in st.eviction;
    }
  }

  /** No read at the time of the pass or later changes. */
  lemma EvictInvisible(c: Schema, st: State, now: Instant, k: string, later: Instant)
    requires StateSound(c, st) && now <= later
    ensures GetAt(Evict(c, st, now).data, k, later) == GetAt(st.data, k, later)
  {
    EvictedHaveExpired(c, st, now, k);
  }

  // ---------- repeated passes ----------

  function EvictPasses(c: Schema, st: State, passes: nat, now: Instant): State
    decreases passes
  {
    if passes == 0 then st else EvictPasses(c, Evict(c, st, now), passes - 1, now)
  }

  /** floor(log2 n) */
  function Log2(n: nat): nat
    requires n >= 1
  {
    if n == 1 then 0 else 1 + Log2(n / 2)
  }

  function Power2(n: nat): nat { if n == 0 then 1 else 2 * Power2(n - 1) }

  lemma {:induction false} Log2Meaning(n: nat)
    requires n >= 1
    ensures Power2(Log2(n)) <= n < Power2(Log2(n) + 1)
  {
    if n == 1 {
    } else {
      Log2Meaning(n / 2);
    }
  }

  /** A pass either deletes every expired entry or halves the tree, rounding down. */
  lemma PassDrainsOrHalves(c: Schema, st: State, now: Instant)
    requires StateSound(c, st)
    ensures StateSound(c, Evict(c, st, now))
    ensures (forall e :: e in Evict(c, st, now).eviction ==> !Expired(e, now))
         || (|Evict(c, st, now).eviction| == |st.eviction| / 2 && |st.eviction| >= 2)
  {
    ExpiredAreInFront(st.eviction, now);
    EvictExactly(c, st, now);
    hide StateSound, Evict, Without, Expired, ExpiredCount;
    var n, m := |st.eviction|, ExpiredCount(st.eviction, now);
    if m <= (n + 1) / 2 {
      assert Evict(c, st, now).eviction == st.eviction[m..];
    }
  }

  lemma {:induction false} PassesStayDrained(c: Schema, st: State, passes: nat, now: Instant)
    requires StateSound(c, st) && forall e :: e in st.eviction ==> !Expired(e, now)
    ensures forall e :: e in EvictPasses(c, st, passes, now).eviction ==> !Expired(e, now)
    decreases passes
  {
    hide StateSound;
    if passes == 0 {
    } else {
      EvictExactly(c, st, now);
      PassesStayDrained(c, Evict(c, st, now), passes - 1, now);
    }
  }

  /** floor(log2 n) + 1 passes at one time leave no expired entry in a tree of n. */
  lemma {:induction false} PassesDrain(c: Schema, st: State, passes: nat, now: Instant)
    requires StateSound(c, st)
    requires |st.eviction| == 0 || passes >= Log2(|st.eviction|) + 1
    ensures forall e :: e in EvictPasses(c, st, passes, now).eviction ==> !Expired(e, now)
    decreases passes
  {
    hide StateSound, EvictFrom, Without;
    if passes == 0 {
    } else {
      PassDrainsOrHalves(c, st, now);
      var st1 := Evict(c, st, now);
      if forall e :: e in st1.eviction ==> !Expired(e, now) {
        PassesStayDrained(c, st1, passes - 1, now);
      } else {
        PassesDrain(c, st1, passes - 1, now);
      }
    }
  }

  // ---------- the key map ----------

  lemma {:induction false} EvictStaysExact(c: Schema, st: State, i: nat, now: Instant)
    requires Keyed(st.data) && Exact(ByExpiry, st.data, st.eviction)
    ensures var st' := EvictFrom(c, st, i, now);
      Keyed(st'.data) && Exact(ByExpiry, st'.data, st'.eviction)
    decreases |st.eviction| - i
  {
    hide Exact, Expired;
    if i >= |st.eviction| {
    } else {
      var k := st.eviction[0].k;
      UnlinkExact(ByExpiry, st.data, st.eviction, k);
      DeleteNoLonger(c, st, k);
      EvictStaysExact(c, if Expired(st.eviction[0], now) then Delete(c, st, k) else st, i + 1, now);
    }
  }

  lemma {:induction false} PassesStayExact(c: Schema, st: State, passes: nat, now: Instant)
    requires Keyed(st.data) && Exact(ByExpiry, st.data, st.eviction)
    ensures var st' := EvictPasses(c, st, passes, now);
      Keyed(st'.data) && Exact(ByExpiry, st'.data, st'.eviction)
    decreases passes
  {
    hide Exact, EvictFrom;
    if passes == 0 {
    } else {
      EvictStaysExact(c, st, 0, now);
      PassesStayExact(c, Evict(c, st, now), passes - 1, now);
    }
  }

  /** If no live entry that may expire is missing from the tree, these passes leave no expired entry in the
      bucket. */
  lemma PassesDrainData(c: Schema, st: State, passes: nat, now: Instant)
    requires StateSound(c, st) && Exact(ByExpiry, st.data, st.eviction)
    requires |st.eviction| == 0 || passes >= Log2(|st.eviction|) + 1
    ensures var data := EvictPasses(c, st, passes, now).data;
      forall k :: k in data ==> !Expired(data[k], now)
  {
    PassesDrain(c, st, passes, now);
    PassesStayExact(c, st, passes, now);
    hide EvictPasses, StateSound, Sound, RankOf;
  }
}
