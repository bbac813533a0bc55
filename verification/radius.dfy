/** Search within a radius (tx.go:479-538, entry.go:128-133) over exact reals. The R-tree is taken as handing
    out, in some order, the items whose closed box meets the closed query box. A distance is compared through
    its square, which for a positive radius is the same comparison. */
module Radius {
  import opened Prelude
  import opened Entries
  import opened BucketSpec

  // ---------- what is asked for ----------

  function Square(x: real): (s: real)
    ensures s >= 0.0
  {
    x * x
  }

  /** The square of the Euclidean distance. */
  function DistanceSquared(p: seq<real>, q: seq<real>): (d: real)
    requires |p| == |q|
    ensures d >= 0.0
  {
    if p == [] then 0.0
    else DistanceSquared(p[..|p| - 1], q[..|q| - 1]) + Square(p[|p| - 1] - q[|q| - 1])
  }

  lemma {:induction false} DistanceSplits(p1: seq<real>, p2: seq<real>, q1: seq<real>, q2: seq<real>)
    requires |p1| == |q1| && |p2| == |q2|
    ensures DistanceSquared(p1 + p2, q1 + q2) == DistanceSquared(p1, q1) + DistanceSquared(p2, q2)
  {
    if p2 == [] {
      assert p1 + p2 == p1 && q1 + q2 == q1;
    } else {
      var m := |p2| - 1;
      DistanceSplits(p1, p2[..m], q1, q2[..m]);
      assert (p1 + p2)[..|p1 + p2| - 1] == p1 + p2[..m] && (q1 + q2)[..|q1 + q2| - 1] == q1 + q2[..m];
    }
  }

  lemma DistanceOfOne(a: real, b: real)
    ensures DistanceSquared([a], [b]) == (a - b) * (a - b)
  {
    assert [a][..0] == [] && [b][..0] == [];
    assert DistanceSquared([], []) == 0.0 && Square(a - b) == (a - b) * (a - b);
    hide Square;
  }

  /** Pythagoras: the square of a difference for one coordinate, and sums over concatenated points. */
  lemma DistanceMeaning(a: real, b: real, p1: seq<real>, p2: seq<real>, q1: seq<real>, q2: seq<real>)
    requires |p1| == |q1| && |p2| == |q2|
    ensures DistanceSquared([a], [b]) == (a - b) * (a - b)
    ensures DistanceSquared(p1 + p2, q1 + q2) == DistanceSquared(p1, q1) + DistanceSquared(p2, q2)
  {
    DistanceOfOne(a, b);
    hide DistanceSquared;
    DistanceSplits(p1, p2, q1, q2);
  }

  /** Nearer than the radius, or on the sphere if the bucket includes it. */
  predicate InBall(e: Entry, pt: seq<real>, radius: real, inclusive: bool)
    requires |e.location| == |pt|
  {
    var d := DistanceSquared(e.location, pt);
    d < Square(radius) || (d == Square(radius) && inclusive)
  }

  ghost predicate SearchableAt(items: seq<Entry>, dims: nat)
  {
    forall e :: e in items ==> |e.location| == dims && e.opts.Some?
  }

  ghost predicate Tolerant(items: seq<Entry>)
  {
    forall e :: e in items ==> e.opts.Some? && e.opts.value.tol >= 0.0
  }

  /** The items inside the ball, found by looking at every one. */
  function BruteForce(items: seq<Entry>, pt: seq<real>, radius: real, inclusive: bool): seq<Entry>
    requires forall e :: e in items ==> |e.location| == |pt|
  {
    if items == [] then []
    else
      var last := items[|items| - 1];
      BruteForce(items[..|items| - 1], pt, radius, inclusive)
        + if InBall(last, pt, radius, inclusive) then [last] else []
  }

  // ---------- the query box ----------

  /** The box of an entry, its location widened by its tolerance, meets the box from `corner` with these sides. */
  predicate Intersects(e: Entry, corner: seq<real>, sides: seq<real>)
    requires |e.location| == |corner| == |sides| && e.opts.Some?
  {
    forall i :: 0 <= i < |corner| ==>
      && e.location[i] - e.opts.value.tol <= corner[i] + sides[i]
      && corner[i] <= e.location[i] + e.opts.value.tol
  }

  /** The entry lies, coordinate by coordinate, within radius and tolerance; a negative tolerance takes away. */
  predicate Reached(e: Entry, pt: seq<real>, radius: real)
    requires |e.location| == |pt| && e.opts.Some?
  {
    forall i :: 0 <= i < |pt| ==>
      -(radius + e.opts.value.tol) <= e.location[i] - pt[i] <= radius + e.opts.value.tol
  }

  predicate InBoth(x: real, low: real, high: real, low': real, high': real)
  {
    low <= x <= high && low' <= x <= high'
  }

  ghost predicate Meet(low: real, high: real, low': real, high': real)
  {
    exists x: real :: InBoth(x, low, high, low', high')
  }

  lemma IntervalsMeet(low: real, high: real, low': real, high': real)
    requires low <= high && low' <= high'
    ensures Meet(low, high, low', high') <==> low <= high' && low' <= high
  {
    if low <= high' && low' <= high {
      assert InBoth(if low < low' then low' else low, low, high, low', high');
    }
  }

  /** Two boxes meet if their intervals have a point in common in each coordinate: so the query box and the box of
      an entry. */
  lemma IntersectsMeaning(e: Entry, corner: seq<real>, sides: seq<real>)
    requires |e.location| == |corner| == |sides| && e.opts.Some? && e.opts.value.tol >= 0.0
    requires forall i :: 0 <= i < |corner| ==> sides[i] >= 0.0
    ensures Intersects(e, corner, sides) <==>
      forall i :: 0 <= i < |corner| ==>
        Meet(e.location[i] - e.opts.value.tol, e.location[i] + e.opts.value.tol, corner[i], corner[i] + sides[i])
  {
    var tol := e.opts.value.tol;
    forall i | 0 <= i < |corner|
      ensures (e.location[i] - tol <= corner[i] + sides[i] && corner[i] <= e.location[i] + tol) <==>
        Meet(e.location[i] - tol, e.location[i] + tol, corner[i], corner[i] + sides[i])
    {
      IntervalsMeet(e.location[i] - tol, e.location[i] + tol, corner[i], corner[i] + sides[i]);
    }
    hide Meet;
  }

  /** The items the query box reaches. */
  function AllReached(items: seq<Entry>, pt: seq<real>, radius: real): (r: seq<Entry>)
    requires forall e :: e in items ==> |e.location| == |pt| && e.opts.Some?
    ensures forall e :: e in r <==> e in items && Reached(e, pt, radius)
  {
    if items == [] then []
    else
      var last := items[|items| - 1];
      assert items == items[..|items| - 1] + [last];
      AllReached(items[..|items| - 1], pt, radius) + if Reached(last, pt, radius) then [last] else []
  }

  lemma {:induction false} CoordinateWithinDistance(p: seq<real>, q: seq<real>, i: nat)
    requires |p| == |q| && i < |p|
    ensures Square(p[i] - q[i]) <= DistanceSquared(p, q)
  {
    if i == |p| - 1 {
    } else {
      CoordinateWithinDistance(p[..|p| - 1], q[..|q| - 1], i);
    }
  }

  lemma ProductGrows(x: real, r: real, f: real)
    requires r < x && 0.0 < f
    ensures r * f < x * f
  {
  }

  lemma SquareGrows(x: real, r: real)
    requires 0.0 < r < x
    ensures Square(x) > Square(r) && Square(-x) > Square(r)
  {
    calc {
      Square(r);
    ==
      r * r;
    <  { ProductGrows(x, r, r); }
      x * r;
    ==
      r * x;
    <  { ProductGrows(x, r, x); }
      x * x;
    ==
      Square(x);
    ==
      Square(-x);
    }
  }

  lemma SquareBounds(x: real, r: real)
    requires r > 0.0 && Square(x) <= Square(r)
    ensures -r <= x <= r
  {
    if x > r {
      SquareGrows(x, r);
    } else if x < -r {
      SquareGrows(-x, r);
    }
  }

  lemma BallReached(e: Entry, pt: seq<real>, radius: real, inclusive: bool)
    requires |e.location| == |pt| && e.opts.Some? && e.opts.value.tol >= 0.0
    requires radius > 0.0 && InBall(e, pt, radius, inclusive)
    ensures Reached(e, pt, radius)
  {
    forall i | 0 <= i < |pt|
      ensures -radius <= e.location[i] - pt[i] <= radius
    {
      CoordinateWithinDistance(e.location, pt, i);
      SquareBounds(e.location[i] - pt[i], radius);
    }
  }

  /** The box loses no point of the ball. */
  lemma BallInBox(e: Entry, pt: seq<real>, radius: real, inclusive: bool, corner: seq<real>, sides: seq<real>)
    requires |e.location| == |pt| == |corner| == |sides| && e.opts.Some? && e.opts.value.tol >= 0.0
    requires radius > 0.0 && InBall(e, pt, radius, inclusive)
    requires forall i :: 0 <= i < |pt| ==> corner[i] == pt[i] - radius && sides[i] == 2.0 * radius
    ensures Intersects(e, corner, sides)
  {
    BallReached(e, pt, radius, inclusive);
  }

  lemma BoxReaches(e: Entry, pt: seq<real>, radius: real, corner: seq<real>, sides: seq<real>)
    requires |e.location| == |pt| == |corner| == |sides| && e.opts.Some?
    requires forall i :: 0 <= i < |pt| ==> corner[i] == pt[i] - radius && sides[i] == 2.0 * radius
    ensures Intersects(e, corner, sides) <==> Reached(e, pt, radius)
  {
  }

  ghost predicate BallReachedIn(items: seq<Entry>, pt: seq<real>, radius: real, inclusive: bool)
    requires SearchableAt(items, |pt|)
  {
    forall e :: e in items && InBall(e, pt, radius, inclusive) ==> Reached(e, pt, radius)
  }

  lemma BallReachedSnoc(init: seq<Entry>, last: Entry, pt: seq<real>, radius: real, inclusive: bool)
    requires SearchableAt(init + [last], |pt|) && SearchableAt(init, |pt|)
    requires |last.location| == |pt| && last.opts.Some?
    ensures BallReachedIn(init + [last], pt, radius, inclusive) <==>
      BallReachedIn(init, pt, radius, inclusive) && (InBall(last, pt, radius, inclusive) ==> Reached(last, pt, radius))
  {
    hide InBall, Reached;
    assert forall e :: e in init + [last] <==> e in init || e == last;
  }

  lemma SameButLast(a: seq<Entry>, b: seq<Entry>, last: Entry)
    ensures a + [last] == b + [last] <==> a == b
    ensures |a| <= |b| ==> a != b + [last]
    ensures a + [] == a && b + [] == b
  {
    assert (a + [last])[..|a|] == a && (b + [last])[..|b|] == b;
  }

  lemma BruteForceSnoc(init: seq<Entry>, last: Entry, pt: seq<real>, radius: real, inclusive: bool)
    requires forall e :: e in init + [last] ==> |e.location| == |pt|
    ensures forall e :: e in init ==> |e.location| == |pt|
    ensures |last.location| == |pt|
    ensures BruteForce(init + [last], pt, radius, inclusive) ==
      BruteForce(init, pt, radius, inclusive) + if InBall(last, pt, radius, inclusive) then [last] else []
  {
    hide InBall;
    var items := init + [last];
    assert items[..|items| - 1] == init && last in items && forall e :: e in init ==> e in items;
  }

  lemma ReachedSnoc(init: seq<Entry>, last: Entry, pt: seq<real>, radius: real, inclusive: bool)
    requires SearchableAt(init + [last], |pt|)
    ensures SearchableAt(init, |pt|) && |last.location| == |pt| && last.opts.Some?
    ensures BruteForce(AllReached(init + [last], pt, radius), pt, radius, inclusive) ==
      BruteForce(AllReached(init, pt, radius), pt, radius, inclusive)
        + if Reached(last, pt, radius) && InBall(last, pt, radius, inclusive) then [last] else []
  {
    hide InBall, Reached, BruteForce;
    var items := init + [last];
    assert items[..|items| - 1] == init && last in items && forall e :: e in init ==> e in items;
    var r := AllReached(init, pt, radius);
    assert AllReached(items, pt, radius) == r + if Reached(last, pt, radius) then [last] else [];
    hide AllReached;
    if Reached(last, pt, radius) {
      BruteForceSnoc(r, last, pt, radius, inclusive);
    } else {
      assert r + [] == r;
    }
  }

  lemma {:induction false} ReachedNoLonger(items: seq<Entry>, pt: seq<real>, radius: real, inclusive: bool)
    requires SearchableAt(items, |pt|)
    ensures var part := BruteForce(AllReached(items, pt, radius), pt, radius, inclusive);
      var whole := BruteForce(items, pt, radius, inclusive);
      |part| <= |whole| && (part == whole <==> BallReachedIn(items, pt, radius, inclusive))
  {
    hide InBall, Reached;
    if items == [] {
    } else {
      var init, last := items[..|items| - 1], items[|items| - 1];
      assert items == init + [last];
      ReachedNoLonger(init, pt, radius, inclusive);
      BruteForceSnoc(init, last, pt, radius, inclusive);
      ReachedSnoc(init, last, pt, radius, inclusive);
      hide BruteForce, AllReached;
      BallReachedSnoc(init, last, pt, radius, inclusive);
      hide BallReachedIn;
      SameButLast(BruteForce(AllReached(init, pt, radius), pt, radius, inclusive),
                  BruteForce(init, pt, radius, inclusive), last);
    }
  }

  /** Looking at every item the box reaches finds what looking at every item finds precisely when the box reaches
      every item in the ball, as it does if no tolerance is negative. */
  lemma SearchComplete(items: seq<Entry>, pt: seq<real>, radius: real, inclusive: bool)
    requires radius > 0.0 && SearchableAt(items, |pt|)
    ensures var part := BruteForce(AllReached(items, pt, radius), pt, radius, inclusive);
      part == BruteForce(items, pt, radius, inclusive) <==> BallReachedIn(items, pt, radius, inclusive)
    ensures Tolerant(items) ==> BallReachedIn(items, pt, radius, inclusive)
  {
    ReachedNoLonger(items, pt, radius, inclusive);
    hide InBall, Reached, BruteForce;
    forall e | Tolerant(items) && e in items && InBall(e, pt, radius, inclusive)
      ensures Reached(e, pt, radius)
    {
      BallReached(e, pt, radius, inclusive);
    }
  }

  // ---------- the search ----------

  /** The filter moves the corner back to the center and compares distances; items of another dimension are
      refused and end the search. */
  method Filter(e: Entry, corner: seq<real>, radius: real, inclusive: bool, ghost pt: seq<real>)
    returns (refuse: bool, abort: bool)
    requires |corner| == |pt| && forall i :: 0 <= i < |pt| ==> corner[i] + radius == pt[i]
    ensures |e.location| != |pt| ==> refuse && abort
    ensures |e.location| == |pt| ==> !abort && (refuse <==> !InBall(e, pt, radius, inclusive))
    ensures |e.location| == |pt| ==>
      var d := DistanceSquared(e.location, pt);
      refuse <==> d > radius * radius || (d == radius * radius && !inclusive)
  {
    var center := [];
    for i := 0 to |corner|
      invariant center == pt[..i]
    {
      center := center + [corner[i] + radius];
    }
    if |center| != |e.location| {
      return true, true;
    }
    var sum := 0.0;
    for i := 0 to |center|
      invariant sum == DistanceSquared(e.location[..i], pt[..i])
    {
      assert e.location[..i + 1][..i] == e.location[..i] && pt[..i + 1][..i] == pt[..i];
      sum := sum + Square(e.location[i] - center[i]);
    }
    assert e.location[..|pt|] == e.location && pt[..|pt|] == pt;
    if sum < Square(radius) {
      return false, false;
    } else if sum == Square(radius) {
      return !inclusive, false;
    } else {
      return true, false;
    }
  }

  /** An item of another dimension, should the R-tree hand it out, ends the search. */
  predicate Ended(items: seq<Entry>, dims: nat, handsOut: Entry -> bool)
  {
    exists e :: e in items && |e.location| != dims && handsOut(e)
  }

  /** The items of the right dimension that come before that. */
  function InTurn(items: seq<Entry>, dims: nat, handsOut: Entry -> bool): (r: seq<Entry>)
    ensures forall e :: e in r ==> e in items && |e.location| == dims
    ensures !Ended(items, dims, handsOut) ==> forall e :: e in items && |e.location| == dims ==> e in r
    ensures (forall e :: e in items ==> |e.location| == dims) ==> r == items
  {
    if items == [] then []
    else
      var init, last := items[..|items| - 1], items[|items| - 1];
      assert items == init + [last];
      if Ended(init, dims, handsOut) || |last.location| != dims then InTurn(init, dims, handsOut)
      else InTurn(init, dims, handsOut) + [last]
  }

  lemma InTurnSnoc(items: seq<Entry>, n: nat, dims: nat, handsOut: Entry -> bool)
    requires n < |items| && !Ended(items[..n], dims, handsOut)
    ensures InTurn(items[..n + 1], dims, handsOut) ==
      if |items[n].location| == dims then InTurn(items[..n], dims, handsOut) + [items[n]]
      else InTurn(items[..n], dims, handsOut)
    ensures Ended(items[..n + 1], dims, handsOut) <==> |items[n].location| != dims && handsOut(items[n])
  {
    assert items[..n + 1][..n] == items[..n] && items[..n + 1] == items[..n] + [items[n]];
  }

  lemma NothingFound(pt: seq<real>, radius: real, inclusive: bool, handsOut: Entry -> bool)
    ensures !Ended([], |pt|, handsOut)
    ensures BruteForce(AllReached(InTurn([], |pt|, handsOut), pt, radius), pt, radius, inclusive) == []
  {
  }

  lemma {:induction false} NothingAfter(items: seq<Entry>, n: nat, dims: nat, handsOut: Entry -> bool)
    requires n <= |items| && Ended(items[..n], dims, handsOut)
    ensures InTurn(items, dims, handsOut) == InTurn(items[..n], dims, handsOut)
  {
    if n == |items| {
      assert items[..n] == items;
    } else {
      var init := items[..|items| - 1];
      assert init[..n] == items[..n] && forall e :: e in items[..n] ==> e in init;
      NothingAfter(init, n, dims, handsOut);
    }
  }

  /** The box of side 2r around the center. */
  method QueryBox(pt: seq<real>, radius: real) returns (corner: seq<real>, sides: seq<real>)
    ensures |corner| == |sides| == |pt|
    ensures forall i :: 0 <= i < |pt| ==> corner[i] == pt[i] - radius && sides[i] == 2.0 * radius
  {
    sides, corner := [], [];
    for i := 0 to |pt|
      invariant |sides| == |corner| == i
      invariant forall j :: 0 <= j < i ==> sides[j] == 2.0 * radius && corner[j] == pt[j] - radius
    {
      sides := sides + [2.0 * radius];
      corner := corner + [pt[i] - radius];
    }
  }

  lemma AllInTurn(items: seq<Entry>, pt: seq<real>, radius: real, inclusive: bool, handsOut: Entry -> bool)
    requires radius > 0.0
    ensures SearchableAt(items, |pt|) ==>
      && InTurn(items, |pt|, handsOut) == items && (forall e :: e in items ==> |e.location| == |pt| && e.opts.Some?)
      && (Tolerant(items) ==> BruteForce(AllReached(items, pt, radius), pt, radius, inclusive) ==
                              BruteForce(items, pt, radius, inclusive))
  {
    if SearchableAt(items, |pt|) {
      SearchComplete(items, pt, radius, inclusive);
    }
    hide BruteForce, AllReached, Tolerant, BallReachedIn, InTurn;
  }

  lemma NextReached(init: seq<Entry>, last: Entry, pt: seq<real>, radius: real, inclusive: bool)
    requires forall e :: e in init ==> |e.location| == |pt| && e.opts.Some?
    requires |last.location| == |pt| && last.opts.Some?
    ensures forall e :: e in init + [last] ==> |e.location| == |pt| && e.opts.Some?
    ensures var found := BruteForce(AllReached(init, pt, radius), pt, radius, inclusive);
      BruteForce(AllReached(init + [last], pt, radius), pt, radius, inclusive) ==
        if Reached(last, pt, radius) && InBall(last, pt, radius, inclusive) then found + [last] else found
  {
    hide BruteForce, AllReached, Reached, InBall;
    ReachedSnoc(init, last, pt, radius, inclusive);
  }

  /** The search finds exactly the items inside the ball that the box reaches, among those that come before an item
      of another dimension: all items inside the ball if there is none and no tolerance is negative. The R-tree
      holds `items` in the order in which it searches them; whether it hands out an item of another dimension, to
      which the box cannot be compared, is left to it. */
  method SearchWithinRadius(
    items: seq<Entry>, pt: seq<real>, radius: real, inclusive: bool, handsOut: Entry -> bool) returns (res: seq<Entry>)
    requires radius > 0.0 && forall e :: e in items ==> e.opts.Some?
    ensures res == BruteForce(AllReached(InTurn(items, |pt|, handsOut), pt, radius), pt, radius, inclusive)
    ensures SearchableAt(items, |pt|) ==> res == BruteForce(AllReached(items, pt, radius), pt, radius, inclusive)
    ensures SearchableAt(items, |pt|) && Tolerant(items) ==> res == BruteForce(items, pt, radius, inclusive)
  {
    hide *;
    AllInTurn(items, pt, radius, inclusive, handsOut);
    var corner, sides := QueryBox(pt, radius);
    res := [];
    NothingFound(pt, radius, inclusive, handsOut);
    for n := 0 to |items|
      invariant !Ended(items[..n], |pt|, handsOut)
      invariant res == BruteForce(AllReached(InTurn(items[..n], |pt|, handsOut), pt, radius), pt, radius, inclusive)
    {
      var e := items[n];
      InTurnSnoc(items, n, |pt|, handsOut);
      assert e in items;
      if |e.location| == |pt| {
        NextReached(InTurn(items[..n], |pt|, handsOut), e, pt, radius, inclusive);
        BoxReaches(e, pt, radius, corner, sides);
      }
      if (if |e.location| == |pt| then Intersects(e, corner, sides) else handsOut(e)) {
        var refuse, abort := Filter(e, corner, radius, inclusive, pt);
        if !refuse {
          res := res + [e];
        }
        if abort {
          NothingAfter(items, n + 1, |pt|, handsOut);
          return;
        }
      }
    }
    assert items[..|items|] == items;
  }

  /** What the brute-force search finds is what lies in the ball, each item as often as the tree holds it. */
  lemma {:induction false} BruteForceMeaning(items: seq<Entry>, pt: seq<real>, radius: real, inclusive: bool, e: Entry)
    requires forall x :: x in items ==> |x.location| == |pt|
    ensures multiset(BruteForce(items, pt, radius, inclusive))[e] ==
      if e in items && InBall(e, pt, radius, inclusive) then multiset(items)[e] else 0
    ensures e in items ==>
      var d := DistanceSquared(e.location, pt);
      e in BruteForce(items, pt, radius, inclusive) <==> d < radius * radius || (d == radius * radius && inclusive)
  {
    if items == [] {
    } else {
      var init, last := items[..|items| - 1], items[|items| - 1];
      assert items == init + [last];
      BruteForceMeaning(init, pt, radius, inclusive, e);
    }
  }

  lemma {:induction false} CountOnce(s: seq<Entry>, e: Entry)
    requires NoRepeats(s)
    ensures multiset(s)[e] <= 1
  {
    if s == [] {
    } else {
      var init, last := s[..|s| - 1], s[|s| - 1];
      CountOnce(init, e);
      assert s == init + [last] && last !in init;
    }
  }

  lemma CountTwice(s: seq<Entry>, i: nat, j: nat)
    requires i < j < |s| && s[i] == s[j]
    ensures multiset(s)[s[i]] >= 2
  {
    assert s == s[..j] + s[j..] && s[..j][i] == s[i] && s[j..][0] == s[j];
  }

  /** A tree without repetitions is searched without repetitions. */
  lemma FoundOnce(rt: seq<Entry>, pt: seq<real>, radius: real, inclusive: bool)
    requires NoRepeats(rt) && forall e :: e in rt ==> |e.location| == |pt|
    ensures NoRepeats(BruteForce(rt, pt, radius, inclusive))
    ensures forall e :: e in BruteForce(rt, pt, radius, inclusive) <==> e in rt && InBall(e, pt, radius, inclusive)
  {
    var res := BruteForce(rt, pt, radius, inclusive);
    hide BruteForce, InBall, DistanceSquared;
    forall e
      ensures multiset(res)[e] == if e in rt && InBall(e, pt, radius, inclusive) then multiset(rt)[e] else 0
    {
      BruteForceMeaning(rt, pt, radius, inclusive, e);
    }
    forall i, j | 0 <= i < j < |res|
      ensures res[i] != res[j]
    {
      if res[i] == res[j] {
        CountTwice(res, i, j);
        CountOnce(rt, res[i]);
      }
    }
    forall e
      ensures e in res <==> multiset(res)[e] > 0
    {
    }
  }

  lemma PlottedMeaning(c: Schema)
    ensures forall e :: Plotted(c, e) <==> c.geo && c.json.get(e.v, "coords").Some?
  {
  }

  /** On a bucket's R-tree the search finds, once each, exactly the live entries with coordinates in the ball;
      entries that have expired are found as long as they have not been evicted. */
  lemma SearchFindsLive(c: Schema, data: map<string, Entry>, rt: seq<Entry>, pt: seq<real>, radius: real)
    requires SpatialExact(c, data, rt) && forall e :: e in rt ==> |e.location| == |pt|
    ensures var res := BruteForce(rt, pt, radius, c.georincl);
      && NoRepeats(res)
      && forall e :: e in res <==>
        && Lookup(data, e.k) == Some(e) && c.geo && c.json.get(e.v, "coords").Some?
        && |e.location| == |pt| && InBall(e, pt, radius, c.georincl)
  {
    FoundOnce(rt, pt, radius, c.georincl);
    PlottedMeaning(c);
    hide BruteForce, InBall, Plotted, NoRepeats;
  }
}
