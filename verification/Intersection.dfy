/** What the join finds, compared with the intersection of the two lists. */
module Intersection {
  import opened Wrappers
  import opened Permutations
  import opened HashJoin

  /** The elements of xs that occur in ys, in the order of xs. */
  function Intersect<T(==)>(xs: seq<T>, ys: seq<T>): seq<T> {
    if xs == [] then []
    else Intersect(xs[..|xs| - 1], ys) + if xs[|xs| - 1] in ys then [xs[|xs| - 1]] else []
  }

  /** The positions in xs of those elements. */
  function Positions<T(==)>(xs: seq<T>, ys: seq<T>): (r: seq<nat>)
    ensures Below(r, |xs|)
  {
    if xs == [] then []
    else Positions(xs[..|xs| - 1], ys) + if xs[|xs| - 1] in ys then [|xs| - 1] else []
  }

  function Pick<T>(s: seq<T>, at: seq<nat>): (r: seq<T>)
    requires Below(at, |s|)
    ensures |r| == |at| && forall i :: 0 <= i < |at| ==> r[i] == s[at[i]]
  {
    seq(|at|, (i: int) requires 0 <= i < |at| => s[at[i]])
  }

  lemma {:induction false} PositionsMean<T(!new)>(xs: seq<T>, ys: seq<T>)
    ensures StrictlyAscending(Positions(xs, ys))
    ensures forall i: nat :: i in Positions(xs, ys) <==> i < |xs| && xs[i] in ys
  {
    if xs == [] {
    } else {
      PositionsMean(xs[..|xs| - 1], ys);
    }
  }

  lemma {:induction false} PickPositions<T(!new)>(xs: seq<T>, ys: seq<T>)
    ensures Pick(xs, Positions(xs, ys)) == Intersect(xs, ys)
  {
    if xs == [] {
    } else {
      var init := xs[..|xs| - 1];
      PickPositions(init, ys);
      assert Pick(xs, Positions(init, ys)) == Pick(init, Positions(init, ys));
    }
  }

  lemma {:induction false} IntersectMeans<T(!new)>(xs: seq<T>, ys: seq<T>)
    requires Distinct(xs)
    ensures Distinct(Intersect(xs, ys))
    ensures forall x :: x in Intersect(xs, ys) <==> x in xs && x in ys
  {
    if xs == [] {
    } else {
      var init := xs[..|xs| - 1];
      IntersectMeans(init, ys);
      assert xs == init + [xs[|xs| - 1]];
      assert xs[|xs| - 1] !in init;
    }
  }

  /* ---- Members of the join ---- */

  /** Record j of the second list is found in the table, at position Hit(own, peer, j). */
  function Hit(own: seq<int>, peer: seq<int>, j: nat): int
    requires j < |peer|
  {
    LastIndex(own, peer[j])
  }

  ghost predicate HitAt(own: seq<int>, peer: seq<int>, inv: seq<nat>, j: nat, v: nat)
    requires |inv| == |own|
  {
    j < |peer| && Hit(own, peer, j) >= 0 && inv[Hit(own, peer, j)] == v
  }

  lemma HitAtSnoc(own: seq<int>, peer: seq<int>, inv: seq<nat>, j: nat, v: nat)
    requires |inv| == |own| && peer != []
    ensures var n := |peer| - 1;
      && (j < n ==> (HitAt(own, peer, inv, j, v) <==> HitAt(own, peer[..n], inv, j, v)))
      && (j > n ==> !HitAt(own, peer, inv, j, v))
  {
  }

  lemma JoinSnocMember(own: seq<int>, peer: seq<int>, inv: seq<nat>, v: nat)
    requires |inv| == |own| && peer != []
    ensures var n := |peer| - 1;
      v in Join(own, peer, inv) <==> v in Join(own, peer[..n], inv) || HitAt(own, peer, inv, n, v)
  {
    var n := |peer| - 1;
    JoinSnoc(own, peer, inv);
    if Hit(own, peer, n) >= 0 {
      MemberSnoc(Join(own, peer[..n], inv), inv[Hit(own, peer, n)], v);
    }
  }

  /** The join of one more record. */
  lemma JoinSnoc(own: seq<int>, peer: seq<int>, inv: seq<nat>)
    requires |inv| == |own| && peer != []
    ensures var n := |peer| - 1; var h := Hit(own, peer, n);
      Join(own, peer, inv) == if h >= 0 then Join(own, peer[..n], inv) + [inv[h]] else Join(own, peer[..n], inv)
  {
  }

  lemma MemberSnoc<T>(s: seq<T>, x: T, y: T)
    ensures y in s + [x] <==> y in s || y == x
  {
  }

  lemma {:induction false} JoinMember(own: seq<int>, peer: seq<int>, inv: seq<nat>, v: nat)
    requires |inv| == |own|
    ensures v in Join(own, peer, inv) <==> exists j: nat :: HitAt(own, peer, inv, j, v)
  {
    if peer == [] {
    } else {
      var n := |peer| - 1;
      JoinMember(own, peer[..n], inv, v);
      JoinSnocMember(own, peer, inv, v);
      HitsSnoc(own, peer, inv, v);
    }
  }

  lemma HitsSnoc(own: seq<int>, peer: seq<int>, inv: seq<nat>, v: nat)
    requires |inv| == |own| && peer != []
    ensures var n := |peer| - 1;
      (exists j: nat :: HitAt(own, peer, inv, j, v)) <==>
      (exists j: nat :: HitAt(own, peer[..n], inv, j, v)) || HitAt(own, peer, inv, n, v)
  {
    var n := |peer| - 1;
    if j: nat :| HitAt(own, peer, inv, j, v) {
      HitAtSnoc(own, peer, inv, j, v);
    }
    if j: nat :| HitAt(own, peer[..n], inv, j, v) {
      HitAtSnoc(own, peer, inv, j, v);
    }
  }

  /** No two records of the second list are found at the same place. */
  ghost predicate HitsDistinct(own: seq<int>, peer: seq<int>) {
    forall j, k :: 0 <= j < k < |peer| && Hit(own, peer, j) >= 0 && Hit(own, peer, k) >= 0 ==>
      Hit(own, peer, j) != Hit(own, peer, k)
  }

  /** An earlier record is found where the last one is. */
  ghost predicate HitBefore(own: seq<int>, peer: seq<int>, h: int) {
    exists j :: 0 <= j < |peer| - 1 && Hit(own, peer, j) == h
  }

  lemma HitsDistinctSnoc(own: seq<int>, peer: seq<int>)
    requires peer != []
    ensures var n := |peer| - 1; var h := Hit(own, peer, n);
      HitsDistinct(own, peer) <==> HitsDistinct(own, peer[..n]) && (h >= 0 ==> !HitBefore(own, peer, h))
  {
    var n := |peer| - 1;
    assert forall j :: 0 <= j < n ==> Hit(own, peer[..n], j) == Hit(own, peer, j);
  }

  lemma HitBeforeIsMember(own: seq<int>, peer: seq<int>, inv: seq<nat>)
    requires |inv| == |own| && Distinct(inv) && peer != [] && Hit(own, peer, |peer| - 1) >= 0
    ensures var n := |peer| - 1; var h := Hit(own, peer, n);
      inv[h] in Join(own, peer[..n], inv) <==> HitBefore(own, peer, h)
  {
    var n := |peer| - 1;
    var h := Hit(own, peer, n);
    JoinMember(own, peer[..n], inv, inv[h]);
    if HitBefore(own, peer, h) {
      var j :| 0 <= j < n && Hit(own, peer, j) == h;
      assert HitAt(own, peer[..n], inv, j, inv[h]);
    }
    if j: nat :| HitAt(own, peer[..n], inv, j, inv[h]) {
      assert Hit(own, peer, j) == h;
    }
  }

  lemma {:induction false} JoinDistinct(own: seq<int>, peer: seq<int>, inv: seq<nat>)
    requires |inv| == |own| && Distinct(inv)
    ensures Distinct(Join(own, peer, inv)) <==> HitsDistinct(own, peer)
  {
    if peer == [] {
    } else {
      var init := peer[..|peer| - 1];
      var h := Hit(own, peer, |peer| - 1);
      JoinDistinct(own, init, inv);
      HitsDistinctSnoc(own, peer);
      if h >= 0 {
        assert Join(own, peer, inv) == Join(own, init, inv) + [inv[h]];
        HitBeforeIsMember(own, peer, inv);
        DistinctSnoc(Join(own, init, inv), inv[h]);
      } else {
        assert Join(own, peer, inv) == Join(own, init, inv);
      }
    }
  }

  lemma DistinctSnoc<T(!new)>(s: seq<T>, x: T)
    ensures Distinct(s + [x]) <==> Distinct(s) && x !in s
  {
    assert (s + [x])[|s|] == x;
    forall i | 0 <= i < |s| ensures (s + [x])[i] == s[i] {
    }
    if x in s {
      var i :| 0 <= i < |s| && s[i] == x;
      assert (s + [x])[i] == (s + [x])[|s|];
    }
    if Distinct(s + [x]) {
      forall i, j | 0 <= i < j < |s| ensures s[i] != s[j] {
        assert (s + [x])[i] != (s + [x])[j];
      }
    }
  }

  lemma {:induction false} JoinBelow(own: seq<int>, peer: seq<int>, inv: seq<nat>)
    requires |inv| == |own| && Below(inv, |own|)
    ensures Below(Join(own, peer, inv), |own|)
  {
    if peer == [] {
    } else {
      JoinBelow(own, peer[..|peer| - 1], inv);
    }
  }

  /**
   * Whatever permutation is used: with distinct hits the matches are pairwise distinct and at most
   * min(neles, pneles) many, so the assertion in the loop of find_intersection holds.
   */
  lemma AssertionHolds(own: seq<int>, peer: seq<int>, perm: seq<nat>)
    requires |perm| == |own| && IsPermutation(perm) && HitsDistinct(own, peer)
    ensures Distinct(Join(own, peer, InversePerm(perm)))
    ensures |Join(own, peer, InversePerm(perm))| <= Min(|own|, |peer|)
  {
    var inv := InversePerm(perm);
    InverseIsTwoSided(perm);
    JoinDistinct(own, peer, inv);
    JoinBelow(own, peer, inv);
    Pigeonhole(Join(own, peer, inv), |own|);
  }

  /** Distinct keys in the second list are enough for that. */
  lemma AssertionHoldsForDistinctKeys(own: seq<int>, peer: seq<int>, perm: seq<nat>)
    requires |perm| == |own| && IsPermutation(perm) && Distinct(peer)
    ensures Distinct(Join(own, peer, InversePerm(perm)))
    ensures |Join(own, peer, InversePerm(perm))| <= Min(|own|, |peer|)
  {
    assert HitsDistinct(own, peer);
    AssertionHolds(own, peer, perm);
  }

  /* ---- When the join is the intersection ---- */

  function MapCodes<T>(key: T -> int, xs: seq<T>): (r: seq<int>)
    ensures |r| == |xs| && forall i :: 0 <= i < |xs| ==> r[i] == key(xs[i])
  {
    seq(|xs|, (i: int) requires 0 <= i < |xs| => key(xs[i]))
  }

  /** What find_intersection and std::sort leave in matches, None when the assertion fails. */
  datatype Matches = AssertionFailed | Found(at: seq<nat>)

  function SortedMatches<T>(key: T -> int, xs: seq<T>, ys: seq<T>): Matches {
    var found := Join(MapCodes(key, xs), MapCodes(key, ys), Identity(|xs|));
    if |found| <= Min(|xs|, |ys|) then Found(Sorted(found)) else AssertionFailed
  }

  lemma MatchesBelow<T>(key: T -> int, xs: seq<T>, ys: seq<T>)
    ensures SortedMatches(key, xs, ys).Found? ==> Below(SortedMatches(key, xs, ys).at, |xs|)
  {
    JoinBelow(MapCodes(key, xs), MapCodes(key, ys), Identity(|xs|));
    SortedBelow(Join(MapCodes(key, xs), MapCodes(key, ys), Identity(|xs|)), |xs|);
  }

  /** The values of xs at the matches, None when the assertion fails. */
  function Matched<T>(key: T -> int, xs: seq<T>, ys: seq<T>): Option<seq<T>> {
    match SortedMatches(key, xs, ys)
    case AssertionFailed => None
    case Found(at) =>
      MatchesBelow(key, xs, ys);
      Some(Pick(xs, at))
  }

  /**
   * No harmful collision of keys: where the key of xs[i] equals that of another value ys[j], the
   * entry of xs[i] is overwritten by that of an equal value xs[k] further on.
   */
  ghost predicate Harmless<T(!new)>(key: T -> int, xs: seq<T>, ys: seq<T>) {
    forall i, j :: 0 <= i < |xs| && 0 <= j < |ys| && key(xs[i]) == key(ys[j]) && xs[i] != ys[j] ==>
      exists k :: i < k < |xs| && xs[k] == ys[j]
  }

  /** The usual reason: the key tells apart all values in play. */
  lemma InjectiveKeyHarmless<T(!new)>(key: T -> int, xs: seq<T>, ys: seq<T>)
    requires forall x, y :: x in xs && y in ys && key(x) == key(y) ==> x == y
    ensures Harmless(key, xs, ys)
  {
  }

  /** Every record that is found is found at an equal value. */
  ghost predicate HitsAreEqual<T(!new)>(key: T -> int, xs: seq<T>, ys: seq<T>) {
    var own, peer := MapCodes(key, xs), MapCodes(key, ys);
    forall j :: 0 <= j < |ys| && Hit(own, peer, j) >= 0 ==> xs[Hit(own, peer, j)] == ys[j]
  }

  lemma HarmlessHits<T(!new)>(key: T -> int, xs: seq<T>, ys: seq<T>)
    ensures Harmless(key, xs, ys) <==> HitsAreEqual(key, xs, ys)
  {
    var own, peer := MapCodes(key, xs), MapCodes(key, ys);
    if Harmless(key, xs, ys) {
      forall j | 0 <= j < |ys| && Hit(own, peer, j) >= 0 ensures xs[Hit(own, peer, j)] == ys[j] {
        var h := Hit(own, peer, j);
        assert own[h] == peer[j];
        assert forall k :: h < k < |xs| ==> own[k] == key(xs[k]) != peer[j];
      }
    }
    if HitsAreEqual(key, xs, ys) {
      forall i, j | 0 <= i < |xs| && 0 <= j < |ys| && key(xs[i]) == key(ys[j]) && xs[i] != ys[j]
        ensures exists k :: i < k < |xs| && xs[k] == ys[j]
      {
        assert own[i] == peer[j];
        var k := Hit(own, peer, j);
        assert xs[k] == ys[j];
      }
    }
  }

  /** No value that is in both lists occurs twice in either of them. */
  ghost predicate CommonOnce<T(!new)>(xs: seq<T>, ys: seq<T>) {
    && (forall i, j :: 0 <= i < j < |xs| && xs[i] == xs[j] ==> xs[i] !in ys)
    && (forall i, j :: 0 <= i < j < |ys| && ys[i] == ys[j] ==> ys[i] !in xs)
  }

  /** Lists without duplicates are the usual case. */
  lemma DistinctCommonOnce<T(!new)>(xs: seq<T>, ys: seq<T>)
    requires Distinct(xs) && Distinct(ys)
    ensures CommonOnce(xs, ys)
  {
  }

  lemma CommonOnceHits<T(!new)>(key: T -> int, xs: seq<T>, ys: seq<T>)
    requires CommonOnce(xs, ys) && HitsAreEqual(key, xs, ys)
    ensures HitsDistinct(MapCodes(key, xs), MapCodes(key, ys))
  {
    var own, peer := MapCodes(key, xs), MapCodes(key, ys);
    forall j, k | 0 <= j < k < |ys| && Hit(own, peer, j) >= 0 && Hit(own, peer, k) >= 0
      ensures Hit(own, peer, j) != Hit(own, peer, k)
    {
      assert xs[Hit(own, peer, j)] == ys[j] && xs[Hit(own, peer, k)] == ys[k];
    }
  }

  /** Where common values occur once, such a value is found at its only position. */
  lemma CommonIsHit<T(!new)>(key: T -> int, xs: seq<T>, ys: seq<T>, v: nat, j: nat)
    requires CommonOnce(xs, ys) && HitsAreEqual(key, xs, ys)
    requires v < |xs| && j < |ys| && ys[j] == xs[v]
    ensures Hit(MapCodes(key, xs), MapCodes(key, ys), j) == v
  {
    var own, peer := MapCodes(key, xs), MapCodes(key, ys);
    assert own[v] == peer[j];
    assert xs[Hit(own, peer, j)] == xs[v];
  }

  lemma EqualHitsArePositions<T(!new)>(key: T -> int, xs: seq<T>, ys: seq<T>)
    requires CommonOnce(xs, ys) && HitsAreEqual(key, xs, ys)
    ensures SortedMatches(key, xs, ys) == Found(Positions(xs, ys))
  {
    var own, peer, inv := MapCodes(key, xs), MapCodes(key, ys), Identity(|xs|);
    IdentityInverse(|xs|);
    CommonOnceHits(key, xs, ys);
    AssertionHolds(own, peer, inv);
    var found := Join(own, peer, inv);
    SortedDistinct(found);
    PositionsMean(xs, ys);
    forall v: nat ensures v in found <==> v in Positions(xs, ys) {
      JoinMember(own, peer, inv, v);
      if v < |xs| && xs[v] in ys {
        var j :| 0 <= j < |ys| && ys[j] == xs[v];
        CommonIsHit(key, xs, ys, v, j);
        assert HitAt(own, peer, inv, j, v);
      }
    }
    AscendingUnique(Sorted(found), Positions(xs, ys));
  }

  lemma PositionsNeedDistinctHits(own: seq<int>, peer: seq<int>, inv: seq<nat>, at: seq<nat>)
    requires |inv| == |own| && Distinct(inv)
    requires StrictlyAscending(at) && Sorted(Join(own, peer, inv)) == at
    ensures HitsDistinct(own, peer)
    ensures forall v :: v in Join(own, peer, inv) <==> v in at
  {
    var found := Join(own, peer, inv);
    SortedSorts(found);
    StrictIsDistinct(at);
    MultisetDistinct(at);
    DistinctMultiset(found);
    JoinDistinct(own, peer, inv);
    forall v ensures v in found <==> v in at {
      assert v in found <==> v in multiset(found);
      assert v in at <==> v in multiset(at);
    }
  }

  lemma OnlyHitOfValue<T(!new)>(key: T -> int, xs: seq<T>, ys: seq<T>, j: nat)
    requires HitsDistinct(MapCodes(key, xs), MapCodes(key, ys)) && j < |ys|
    requires var h := Hit(MapCodes(key, xs), MapCodes(key, ys), j); h >= 0 && xs[h] in ys
    ensures xs[Hit(MapCodes(key, xs), MapCodes(key, ys), j)] == ys[j]
  {
    var own, peer := MapCodes(key, xs), MapCodes(key, ys);
    var h := Hit(own, peer, j);
    var k :| 0 <= k < |ys| && ys[k] == xs[h];
    assert own[h] == peer[k] == peer[j];
    assert Hit(own, peer, k) == h;
  }

  lemma PositionsNeedEqualHits<T(!new)>(key: T -> int, xs: seq<T>, ys: seq<T>)
    requires SortedMatches(key, xs, ys) == Found(Positions(xs, ys))
    ensures HitsAreEqual(key, xs, ys)
  {
    var own, peer, inv := MapCodes(key, xs), MapCodes(key, ys), Identity(|xs|);
    PositionsMean(xs, ys);
    PositionsNeedDistinctHits(own, peer, inv, Positions(xs, ys));
    forall j | 0 <= j < |ys| && Hit(own, peer, j) >= 0 ensures xs[Hit(own, peer, j)] == ys[j] {
      var h := Hit(own, peer, j);
      assert h in Join(own, peer, inv) by {
        JoinMember(own, peer, inv, h);
        assert HitAt(own, peer, inv, j, h);
      }
      OnlyHitOfValue(key, xs, ys, j);
    }
  }

  /** A position of a common value is the last one with its code. */
  lemma PositionIsLast<T(!new)>(key: T -> int, xs: seq<T>, ys: seq<T>, v: nat)
    requires SortedMatches(key, xs, ys) == Found(Positions(xs, ys))
    requires v < |xs| && xs[v] in ys
    ensures LastIndex(MapCodes(key, xs), key(xs[v])) == v
  {
    var own, peer, inv := MapCodes(key, xs), MapCodes(key, ys), Identity(|xs|);
    PositionsMean(xs, ys);
    PositionsNeedDistinctHits(own, peer, inv, Positions(xs, ys));
    assert v in Join(own, peer, inv);
    JoinMember(own, peer, inv, v);
    var k: nat :| HitAt(own, peer, inv, k, v);
    assert own[v] == peer[k];
  }

  lemma PositionsNeedCommonOnce<T(!new)>(key: T -> int, xs: seq<T>, ys: seq<T>)
    requires SortedMatches(key, xs, ys) == Found(Positions(xs, ys))
    ensures CommonOnce(xs, ys)
  {
    var own, peer, inv := MapCodes(key, xs), MapCodes(key, ys), Identity(|xs|);
    PositionsMean(xs, ys);
    PositionsNeedDistinctHits(own, peer, inv, Positions(xs, ys));
    forall i, j | 0 <= i < j < |xs| && xs[i] == xs[j] ensures xs[i] !in ys {
      if xs[i] in ys {
        PositionIsLast(key, xs, ys, i);
        PositionIsLast(key, xs, ys, j);
        assert false;
      }
    }
    forall i, j | 0 <= i < j < |ys| && ys[i] == ys[j] ensures ys[i] !in xs {
      assert Hit(own, peer, i) == Hit(own, peer, j);
      assert forall v :: 0 <= v < |xs| && own[v] == peer[i] ==> Hit(own, peer, i) >= v;
      assert forall v :: 0 <= v < |xs| ==> own[v] == key(xs[v]);
    }
  }

  lemma StrictIsDistinct(s: seq<nat>)
    requires StrictlyAscending(s)
    ensures Distinct(s)
  {
  }

  /**
   * The sorted matches are exactly the positions of the common values, in ascending order, if and
   * only if no collision of keys is harmful and no common value occurs twice in either list.
   */
  lemma JoinIsIntersection<T(!new)>(key: T -> int, xs: seq<T>, ys: seq<T>)
    ensures SortedMatches(key, xs, ys) == Found(Positions(xs, ys)) <==> Harmless(key, xs, ys) && CommonOnce(xs, ys)
  {
    HarmlessHits(key, xs, ys);
    if SortedMatches(key, xs, ys) == Found(Positions(xs, ys)) {
      PositionsNeedEqualHits(key, xs, ys);
      PositionsNeedCommonOnce(key, xs, ys);
    } else if HitsAreEqual(key, xs, ys) && CommonOnce(xs, ys) {
      EqualHitsArePositions(key, xs, ys);
    }
  }
}
