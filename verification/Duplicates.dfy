/**
 * When the values at the matches are the common values, for all lists and keys: lists may hold
 * duplicates, and keys may collide.
 */
module Duplicates {
  import opened Wrappers
  import opened Permutations
  import opened HashJoin
  import opened Intersection

  /* ---- Common values ---- */

  lemma {:induction false} IntersectIn<T(!new)>(xs: seq<T>, ys: seq<T>)
    ensures |Intersect(xs, ys)| <= |xs|
    ensures forall z :: z in Intersect(xs, ys) <==> z in xs && z in ys
  {
    if xs == [] {
    } else {
      var init := xs[..|xs| - 1];
      IntersectIn(init, ys);
      assert xs == init + [xs[|xs| - 1]];
    }
  }

  /** A common value stands in the intersection as often as in the first list. */
  lemma {:induction false} IntersectCount<T(!new)>(xs: seq<T>, ys: seq<T>, v: T)
    requires v in ys
    ensures multiset(Intersect(xs, ys))[v] == multiset(xs)[v]
  {
    if xs == [] {
    } else {
      var init, last := xs[..|xs| - 1], xs[|xs| - 1];
      IntersectCount(init, ys, v);
      MultisetLast(xs);
      MultisetSnoc(Intersect(init, ys), last);
    }
  }

  /* ---- The last places of values ---- */

  /** For each of zs, the last place in xs with its code. */
  function Places<T>(key: T -> int, xs: seq<T>, zs: seq<T>): seq<nat> {
    Join(MapCodes(key, xs), MapCodes(key, zs), Identity(|xs|))
  }

  /** The numbers of r are the last places of the codes. */
  ghost predicate LastPlaces(own: seq<int>, peer: seq<int>, r: seq<nat>) {
    |r| == |peer| && forall j :: 0 <= j < |peer| ==> r[j] == LastIndex(own, peer[j])
  }

  lemma OnePlaceMore(own: seq<int>, peer: seq<int>, r: seq<nat>)
    requires peer != [] && LastPlaces(own, peer[..|peer| - 1], r) && LastIndex(own, peer[|peer| - 1]) >= 0
    ensures LastPlaces(own, peer, r + [LastIndex(own, peer[|peer| - 1])])
  {
  }

  lemma {:induction false} JoinAll(own: seq<int>, peer: seq<int>)
    requires forall c :: c in peer ==> LastIndex(own, c) >= 0
    ensures LastPlaces(own, peer, Join(own, peer, Identity(|own|)))
  {
    if peer == [] {
    } else {
      var init, last := peer[..|peer| - 1], peer[|peer| - 1];
      assert last in peer && forall c :: c in init ==> c in peer;
      JoinAll(own, init);
      OneMore(own, peer);
      OnePlaceMore(own, peer, Join(own, init, Identity(|own|)));
    }
  }

  lemma OneMore(own: seq<int>, peer: seq<int>)
    requires peer != [] && LastIndex(own, peer[|peer| - 1]) >= 0
    ensures Join(own, peer, Identity(|own|))
         == Join(own, peer[..|peer| - 1], Identity(|own|)) + [LastIndex(own, peer[|peer| - 1])]
  {
    JoinSnoc(own, peer, Identity(|own|));
  }

  lemma PlacesAre<T(!new)>(key: T -> int, xs: seq<T>, zs: seq<T>)
    requires forall z :: z in zs ==> z in xs
    ensures var r := Places(key, xs, zs);
      && |r| == |zs| && Below(r, |xs|)
      && forall j :: 0 <= j < |zs| ==> r[j] == LastIndex(MapCodes(key, xs), key(zs[j]))
  {
    var own, peer := MapCodes(key, xs), MapCodes(key, zs);
    forall c | c in peer ensures LastIndex(own, c) >= 0 {
      var j :| 0 <= j < |zs| && key(zs[j]) == c;
      assert zs[j] in zs;
      CodeIn(key, xs, zs[j]);
    }
    JoinAll(own, peer);
  }

  /** The last record with the code of z holds z itself. */
  ghost predicate Survives<T(!new)>(key: T -> int, xs: seq<T>, z: T) {
    var h := LastIndex(MapCodes(key, xs), key(z));
    h >= 0 && xs[h] == z
  }

  lemma PlacesPick<T(!new)>(key: T -> int, xs: seq<T>, zs: seq<T>)
    requires forall z :: z in zs ==> z in xs
    ensures Below(Places(key, xs, zs), |xs|)
    ensures Pick(xs, Places(key, xs, zs)) == zs <==> forall z :: z in zs ==> Survives(key, xs, z)
  {
    PlacesAre(key, xs, zs);
    var r := Places(key, xs, zs);
    forall j | 0 <= j < |zs| ensures Pick(xs, r)[j] == zs[j] <==> Survives(key, xs, zs[j]) {
    }
    if Pick(xs, r) == zs {
      forall z | z in zs ensures Survives(key, xs, z) {
        var j :| 0 <= j < |zs| && zs[j] == z;
        assert Pick(xs, r)[j] == zs[j];
      }
    }
    if forall z :: z in zs ==> Survives(key, xs, z) {
      forall j | 0 <= j < |zs| ensures Pick(xs, r)[j] == zs[j] {
        assert Survives(key, xs, zs[j]);
      }
    }
  }

  /* ---- How often a place is matched ---- */

  lemma LastPlaceOf(own: seq<int>, c: int, p: nat)
    requires p < |own|
    ensures LastIndex(own, c) == p <==> own[p] == c && LastIndex(own, own[p]) == p
  {
  }

  lemma {:induction false} JoinCount(own: seq<int>, peer: seq<int>, p: nat)
    ensures multiset(Join(own, peer, Identity(|own|)))[p]
         == if p < |own| && LastIndex(own, own[p]) == p then multiset(peer)[own[p]] else 0
  {
    if peer == [] {
    } else {
      var n := |peer| - 1;
      JoinCount(own, peer[..n], p);
      JoinSnoc(own, peer, Identity(|own|));
      MultisetLast(peer);
      if p < |own| {
        LastPlaceOf(own, peer[n], p);
      }
      if Hit(own, peer, n) >= 0 {
        MultisetSnoc(Join(own, peer[..n], Identity(|own|)), Identity(|own|)[Hit(own, peer, n)]);
      }
    }
  }

  /** Every code of own occurs equally often in a and in b. */
  ghost predicate CountsAgree(own: seq<int>, a: seq<int>, b: seq<int>) {
    forall c :: c in own ==> multiset(a)[c] == multiset(b)[c]
  }

  lemma JoinsAgree(own: seq<int>, a: seq<int>, b: seq<int>)
    ensures multiset(Join(own, a, Identity(|own|))) == multiset(Join(own, b, Identity(|own|)))
            <==> CountsAgree(own, a, b)
  {
    var r, t := multiset(Join(own, a, Identity(|own|))), multiset(Join(own, b, Identity(|own|)));
    if CountsAgree(own, a, b) {
      forall p: nat ensures r[p] == t[p] {
        AgreeAtPlace(own, a, b, p);
      }
      assert r == t;
    }
    if r == t {
      forall c | c in own ensures multiset(a)[c] == multiset(b)[c] {
        AgreeAtCode(own, a, b, c);
      }
    }
  }

  lemma AgreeAtPlace(own: seq<int>, a: seq<int>, b: seq<int>, p: nat)
    requires CountsAgree(own, a, b)
    ensures multiset(Join(own, a, Identity(|own|)))[p] == multiset(Join(own, b, Identity(|own|)))[p]
  {
    JoinCount(own, a, p);
    JoinCount(own, b, p);
    if p < |own| {
      var c := own[p];
      assert c in own;
      assert multiset(a)[c] == multiset(b)[c];
    }
  }

  lemma AgreeAtCode(own: seq<int>, a: seq<int>, b: seq<int>, c: int)
    requires multiset(Join(own, a, Identity(|own|))) == multiset(Join(own, b, Identity(|own|))) && c in own
    ensures multiset(a)[c] == multiset(b)[c]
  {
    JoinCount(own, a, LastIndex(own, c));
    JoinCount(own, b, LastIndex(own, c));
  }

  /** Every match is the last place of its code. */
  lemma MatchIsLast(own: seq<int>, peer: seq<int>, i: nat)
    requires i < |Sorted(Join(own, peer, Identity(|own|)))|
    ensures var p := Sorted(Join(own, peer, Identity(|own|)))[i]; p < |own| && LastIndex(own, own[p]) == p
  {
    var found := Join(own, peer, Identity(|own|));
    SortedSorts(found);
    var p := Sorted(found)[i];
    assert p in multiset(Sorted(found));
    JoinCount(own, peer, p);
  }

  lemma MatchesArePlaces<T(!new)>(key: T -> int, xs: seq<T>, ys: seq<T>, zs: seq<T>)
    requires var at := Sorted(Places(key, xs, ys)); Below(at, |xs|) && Pick(xs, at) == zs
    ensures Sorted(Places(key, xs, ys)) == Places(key, xs, zs)
  {
    var own, at := MapCodes(key, xs), Sorted(Places(key, xs, ys));
    assert forall z :: z in zs ==> z in xs;
    PlacesAre(key, xs, zs);
    forall i | 0 <= i < |at| ensures at[i] == Places(key, xs, zs)[i] {
      MatchIsLast(own, MapCodes(key, ys), i);
      assert zs[i] == Pick(xs, at)[i] == xs[at[i]];
    }
  }

  /* ---- The exact condition ---- */

  /**
   * Every code of the first list occurs as often in the second list as among the common values; the
   * common values stand in the order of the last places of their codes; and no common value is
   * overwritten by another one with its code.
   */
  ghost predicate Delivers<T(!new)>(key: T -> int, xs: seq<T>, ys: seq<T>) {
    var zs := Intersect(xs, ys);
    && CountsAgree(MapCodes(key, xs), MapCodes(key, ys), MapCodes(key, zs))
    && Ascending(Places(key, xs, zs))
    && (forall z :: z in zs ==> Survives(key, xs, z))
  }

  lemma DeliversGives<T(!new)>(key: T -> int, xs: seq<T>, ys: seq<T>)
    requires Delivers(key, xs, ys)
    ensures Matched(key, xs, ys) == Some(Intersect(xs, ys))
  {
    var zs, found := Intersect(xs, ys), Places(key, xs, ys);
    IntersectIn(xs, ys);
    JoinsAgree(MapCodes(key, xs), MapCodes(key, ys), MapCodes(key, zs));
    SortedSorts(found);
    AscendingDetermined(Sorted(found), Places(key, xs, zs));
    PlacesAre(key, xs, zs);
    PlacesPick(key, xs, zs);
  }

  lemma GivesDelivers<T(!new)>(key: T -> int, xs: seq<T>, ys: seq<T>)
    requires Matched(key, xs, ys) == Some(Intersect(xs, ys))
    ensures Delivers(key, xs, ys)
  {
    var zs, found := Intersect(xs, ys), Places(key, xs, ys);
    IntersectIn(xs, ys);
    MatchesBelow(key, xs, ys);
    MatchesArePlaces(key, xs, ys, zs);
    SortedSorts(found);
    JoinsAgree(MapCodes(key, xs), MapCodes(key, ys), MapCodes(key, zs));
    PlacesPick(key, xs, zs);
  }

  /** For all lists and keys: the values at the matches are the common values exactly then. */
  lemma MatchedExactly<T(!new)>(key: T -> int, xs: seq<T>, ys: seq<T>)
    ensures Matched(key, xs, ys) == Some(Intersect(xs, ys)) <==> Delivers(key, xs, ys)
  {
    if Delivers(key, xs, ys) {
      DeliversGives(key, xs, ys);
    } else if Matched(key, xs, ys) == Some(Intersect(xs, ys)) {
      GivesDelivers(key, xs, ys);
    }
  }

  /* ---- A first list without duplicates ---- */

  lemma PickDetermines<T(!new)>(xs: seq<T>, at: seq<nat>, bt: seq<nat>)
    requires Distinct(xs) && Below(at, |xs|) && Below(bt, |xs|) && Pick(xs, at) == Pick(xs, bt)
    ensures at == bt
  {
    forall i | 0 <= i < |at| ensures at[i] == bt[i] {
      assert Pick(xs, at)[i] == Pick(xs, bt)[i];
    }
    assert |at| == |Pick(xs, at)| == |bt|;
  }

  lemma DistinctMatched<T(!new)>(key: T -> int, xs: seq<T>, ys: seq<T>)
    requires Distinct(xs)
    ensures Matched(key, xs, ys) == Some(Intersect(xs, ys)) <==> Harmless(key, xs, ys) && CommonOnce(xs, ys)
    ensures Distinct(ys) ==> CommonOnce(xs, ys)
  {
    if Distinct(ys) {
      DistinctCommonOnce(xs, ys);
    }
    JoinIsIntersection(key, xs, ys);
    PickPositions(xs, ys);
    MatchesBelow(key, xs, ys);
    if Matched(key, xs, ys) == Some(Intersect(xs, ys)) {
      PickDetermines(xs, SortedMatches(key, xs, ys).at, Positions(xs, ys));
    }
  }

  /* ---- Harmless keys ---- */

  /** Every common value occurs equally often in both lists. */
  ghost predicate EquallyOften<T(!new)>(xs: seq<T>, ys: seq<T>) {
    forall v :: v in xs && v in ys ==> multiset(xs)[v] == multiset(ys)[v]
  }

  /** The common values stand in the first list in the order of their last occurrences. */
  ghost predicate InLastOrder<T(!new)>(xs: seq<T>, ys: seq<T>) {
    var zs := Intersect(xs, ys);
    forall i, j :: 0 <= i < j < |zs| ==> LastIndex(xs, zs[i]) <= LastIndex(xs, zs[j])
  }

  lemma {:induction false} CodeCount<T(!new)>(key: T -> int, zs: seq<T>, v: T)
    requires forall z :: z in zs && key(z) == key(v) ==> z == v
    ensures multiset(MapCodes(key, zs))[key(v)] == multiset(zs)[v]
  {
    var codes := MapCodes(key, zs);
    if zs == [] {
    } else {
      var n := |zs| - 1;
      assert codes[..n] == MapCodes(key, zs[..n]);
      assert zs[n] in zs && forall z :: z in zs[..n] ==> z in zs;
      CodeCount(key, zs[..n], v);
      MultisetLast(zs);
      MultisetLast(codes);
    }
  }

  lemma NoCode<T(!new)>(key: T -> int, zs: seq<T>, c: int)
    requires forall z :: z in zs ==> key(z) != c
    ensures multiset(MapCodes(key, zs))[c] == 0
  {
    assert c !in MapCodes(key, zs);
  }

  /** A common value is found where it is, so its code belongs to it alone in the second list. */
  lemma CodeOfCommon<T(!new)>(key: T -> int, xs: seq<T>, ys: seq<T>, v: T, y: T)
    requires HitsAreEqual(key, xs, ys) && v in xs && v in ys && y in ys && key(y) == key(v)
    ensures y == v && LastIndex(MapCodes(key, xs), key(v)) == LastIndex(xs, v)
    ensures Survives(key, xs, v)
  {
    var own, peer := MapCodes(key, xs), MapCodes(key, ys);
    var j :| 0 <= j < |ys| && ys[j] == v;
    var k :| 0 <= k < |ys| && ys[k] == y;
    var i :| 0 <= i < |xs| && xs[i] == v;
    assert own[i] == peer[j] == peer[k];
    var h := Hit(own, peer, j);
    assert h == Hit(own, peer, k);
    assert forall q :: h < q < |xs| ==> own[q] == key(xs[q]) != key(v);
  }

  lemma CountOfCommon<T(!new)>(key: T -> int, xs: seq<T>, ys: seq<T>, v: T)
    requires HitsAreEqual(key, xs, ys) && v in xs && v in ys
    ensures multiset(MapCodes(key, ys))[key(v)] == multiset(ys)[v]
    ensures multiset(MapCodes(key, Intersect(xs, ys)))[key(v)] == multiset(xs)[v]
  {
    IntersectIn(xs, ys);
    forall y | y in ys && key(y) == key(v) ensures y == v {
      CodeOfCommon(key, xs, ys, v, y);
    }
    CodeCount(key, ys, v);
    CodeCount(key, Intersect(xs, ys), v);
    IntersectCount(xs, ys, v);
  }

  lemma CountsMean<T(!new)>(key: T -> int, xs: seq<T>, ys: seq<T>)
    requires HitsAreEqual(key, xs, ys)
    ensures CountsAgree(MapCodes(key, xs), MapCodes(key, ys), MapCodes(key, Intersect(xs, ys)))
            <==> EquallyOften(xs, ys)
  {
    var own, peer, common := MapCodes(key, xs), MapCodes(key, ys), MapCodes(key, Intersect(xs, ys));
    IntersectIn(xs, ys);
    if CountsAgree(own, peer, common) {
      forall v | v in xs && v in ys ensures multiset(xs)[v] == multiset(ys)[v] {
        CountOfCommon(key, xs, ys, v);
        CodeIn(key, xs, v);
      }
    }
    if EquallyOften(xs, ys) {
      forall c | c in own ensures multiset(peer)[c] == multiset(common)[c] {
        CountsAgreeAt(key, xs, ys, c);
      }
    }
  }

  lemma CodeIn<T(!new)>(key: T -> int, xs: seq<T>, v: T)
    requires v in xs
    ensures key(v) in MapCodes(key, xs)
  {
    var i :| 0 <= i < |xs| && xs[i] == v;
    assert MapCodes(key, xs)[i] == key(v);
  }

  lemma CountsAgreeAt<T(!new)>(key: T -> int, xs: seq<T>, ys: seq<T>, c: int)
    requires HitsAreEqual(key, xs, ys) && EquallyOften(xs, ys) && c in MapCodes(key, xs)
    ensures multiset(MapCodes(key, ys))[c] == multiset(MapCodes(key, Intersect(xs, ys)))[c]
  {
    var own, peer := MapCodes(key, xs), MapCodes(key, ys);
    IntersectIn(xs, ys);
    if j :| 0 <= j < |ys| && key(ys[j]) == c {
      assert peer[j] == c && Hit(own, peer, j) >= 0;
      var v := xs[Hit(own, peer, j)];
      assert v == ys[j];
      CountOfCommon(key, xs, ys, v);
    } else {
      NoCode(key, ys, c);
      NoCode(key, Intersect(xs, ys), c);
    }
  }

  lemma OrderMeans<T(!new)>(key: T -> int, xs: seq<T>, ys: seq<T>)
    requires HitsAreEqual(key, xs, ys)
    ensures Ascending(Places(key, xs, Intersect(xs, ys))) <==> InLastOrder(xs, ys)
    ensures forall z :: z in Intersect(xs, ys) ==> Survives(key, xs, z)
  {
    var zs := Intersect(xs, ys);
    IntersectIn(xs, ys);
    PlacesAre(key, xs, zs);
    forall z | z in zs
      ensures LastIndex(MapCodes(key, xs), key(z)) == LastIndex(xs, z) && Survives(key, xs, z)
    {
      CodeOfCommon(key, xs, ys, z, z);
    }
    forall i | 0 <= i < |zs| ensures Places(key, xs, zs)[i] == LastIndex(xs, zs[i]) {
      assert zs[i] in zs;
    }
  }

  /** When no collision is harmful, what counts is how often the common values occur, and their order. */
  lemma HarmlessMatched<T(!new)>(key: T -> int, xs: seq<T>, ys: seq<T>)
    requires Harmless(key, xs, ys)
    ensures Matched(key, xs, ys) == Some(Intersect(xs, ys)) <==> EquallyOften(xs, ys) && InLastOrder(xs, ys)
  {
    HarmlessHits(key, xs, ys);
    MatchedExactly(key, xs, ys);
    CountsMean(key, xs, ys);
    OrderMeans(key, xs, ys);
  }

  /** Common values that occur once are delivered. */
  lemma HarmlessOnce<T(!new)>(key: T -> int, xs: seq<T>, ys: seq<T>)
    requires Harmless(key, xs, ys) && CommonOnce(xs, ys)
    ensures Matched(key, xs, ys) == Some(Intersect(xs, ys))
    ensures EquallyOften(xs, ys) && InLastOrder(xs, ys)
  {
    JoinIsIntersection(key, xs, ys);
    PickPositions(xs, ys);
    HarmlessMatched(key, xs, ys);
  }
}
