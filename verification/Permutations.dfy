/** Finite counting: injections between index ranges, permutations and sorting. */
module Permutations {

  ghost predicate Distinct<T(!new)>(s: seq<T>) {
    forall i, j :: 0 <= i < j < |s| ==> s[i] != s[j]
  }

  predicate Below(s: seq<nat>, n: nat) {
    forall i :: 0 <= i < |s| ==> s[i] < n
  }

  ghost function Elements(s: seq<nat>): set<nat> { set x | x in s }

  ghost function Range(n: nat): (r: set<nat>)
    ensures |r| == n && forall x: nat :: x in r <==> x < n
  {
    if n == 0 then {} else Range(n - 1) + {n - 1}
  }

  lemma {:induction false} DistinctCount(s: seq<nat>)
    requires Distinct(s)
    ensures |Elements(s)| == |s|
  {
    if s == [] {
    } else {
      var init, last := s[..|s| - 1], s[|s| - 1];
      DistinctCount(init);
      assert last !in init;
      assert Elements(s) == Elements(init) + {last};
    }
  }

  lemma SubsetCount(a: set<nat>, b: set<nat>)
    requires a <= b
    ensures |a| <= |b| && (|a| == |b| ==> a == b)
  {
    assert b == a + (b - a);
    assert |b| == |a| + |b - a|;
  }

  /** Pigeonhole: distinct numbers below n are at most n many. */
  lemma Pigeonhole(s: seq<nat>, n: nat)
    requires Distinct(s) && Below(s, n)
    ensures |s| <= n
    ensures |s| == n ==> forall v :: 0 <= v < n ==> v in s
  {
    DistinctCount(s);
    assert Elements(s) <= Range(n);
    SubsetCount(Elements(s), Range(n));
    if |s| == n {
      forall v | 0 <= v < n ensures v in s {
        assert v in Elements(s);
      }
    }
  }

  ghost predicate IsPermutation(p: seq<nat>) { Distinct(p) && Below(p, |p|) }

  function IndexOf(s: seq<nat>, v: nat): (i: nat)
    ensures v in s ==> i < |s| && s[i] == v
  {
    if s == [] || s[|s| - 1] == v then (if s == [] then 0 else |s| - 1) else IndexOf(s[..|s| - 1], v)
  }

  function InversePerm(p: seq<nat>): (q: seq<nat>)
    ensures |q| == |p|
  {
    seq(|p|, (v: int) requires 0 <= v < |p| => IndexOf(p, v))
  }

  /** The inverse is two-sided, and again a permutation. */
  lemma InverseIsTwoSided(p: seq<nat>)
    requires IsPermutation(p)
    ensures var q := InversePerm(p);
      && IsPermutation(q)
      && (forall i :: 0 <= i < |p| ==> p[i] < |q| && q[p[i]] == i)
      && (forall v :: 0 <= v < |p| ==> q[v] < |p| && p[q[v]] == v)
  {
    Pigeonhole(p, |p|);
    var q := InversePerm(p);
    forall v | 0 <= v < |p| ensures q[v] < |p| && p[q[v]] == v {
      assert v in p;
    }
    forall i, j | 0 <= i < j < |q| ensures q[i] != q[j] {
      assert p[q[i]] == i && p[q[j]] == j;
    }
  }

  function Identity(n: nat): (p: seq<nat>)
    ensures |p| == n && forall i :: 0 <= i < n ==> p[i] == i
  {
    seq(n, i => i)
  }

  lemma IdentityInverse(n: nat)
    ensures IsPermutation(Identity(n)) && InversePerm(Identity(n)) == Identity(n)
  {
    InverseIsTwoSided(Identity(n));
    var q := InversePerm(Identity(n));
    forall v | 0 <= v < n ensures q[v] == v {
      assert Identity(n)[q[v]] == v;
    }
  }

  /* ---- Sorting ---- */

  ghost predicate Ascending(s: seq<nat>) {
    forall i, j :: 0 <= i < j < |s| ==> s[i] <= s[j]
  }

  ghost predicate StrictlyAscending(s: seq<nat>) {
    forall i, j :: 0 <= i < j < |s| ==> s[i] < s[j]
  }

  function Insert(s: seq<nat>, x: nat): (r: seq<nat>)
    ensures |r| == |s| + 1
  {
    if s == [] || s[|s| - 1] <= x then s + [x] else Insert(s[..|s| - 1], x) + [s[|s| - 1]]
  }

  function Sorted(s: seq<nat>): (r: seq<nat>)
    ensures |r| == |s|
  {
    if s == [] then [] else Insert(Sorted(s[..|s| - 1]), s[|s| - 1])
  }

  lemma MultisetSnoc<T>(s: seq<T>, x: T)
    ensures multiset(s + [x]) == multiset(s) + multiset{x}
  {
  }

  lemma MultisetLast<T>(s: seq<T>)
    requires s != []
    ensures multiset(s) == multiset(s[..|s| - 1]) + multiset{s[|s| - 1]}
  {
    assert s == s[..|s| - 1] + [s[|s| - 1]];
    MultisetSnoc(s[..|s| - 1], s[|s| - 1]);
  }

  lemma {:induction false} InsertKeeps(s: seq<nat>, x: nat)
    ensures multiset(Insert(s, x)) == multiset(s) + multiset{x}
  {
    if s == [] || s[|s| - 1] <= x {
      MultisetSnoc(s, x);
    } else {
      InsertKeeps(s[..|s| - 1], x);
      MultisetLast(s);
      MultisetSnoc(Insert(s[..|s| - 1], x), s[|s| - 1]);
    }
  }

  lemma InsertMember(s: seq<nat>, x: nat, y: nat)
    ensures y in Insert(s, x) <==> y in s || y == x
  {
    InsertKeeps(s, x);
    assert y in Insert(s, x) <==> y in multiset(Insert(s, x));
    assert y in s <==> y in multiset(s);
  }

  lemma {:induction false} InsertSorts(s: seq<nat>, x: nat)
    requires Ascending(s)
    ensures Ascending(Insert(s, x))
  {
    if s == [] || s[|s| - 1] <= x {
    } else {
      var init := s[..|s| - 1];
      InsertSorts(init, x);
      var t := Insert(init, x);
      forall i | 0 <= i < |t| ensures t[i] <= s[|s| - 1] {
        InsertMember(init, x, t[i]);
      }
    }
  }

  /** What std::sort promises: the same numbers in ascending order. */
  lemma {:induction false} SortedSorts(s: seq<nat>)
    ensures Ascending(Sorted(s)) && multiset(Sorted(s)) == multiset(s)
  {
    if s == [] {
    } else {
      var init, last := s[..|s| - 1], s[|s| - 1];
      SortedSorts(init);
      InsertSorts(Sorted(init), last);
      InsertKeeps(Sorted(init), last);
      MultisetLast(s);
    }
  }

  lemma DistinctMultiset<T(!new)>(s: seq<T>)
    requires forall x :: multiset(s)[x] <= 1
    ensures Distinct(s)
  {
    forall i, j | 0 <= i < j < |s| ensures s[i] != s[j] {
      assert s == s[..i] + [s[i]] + s[i + 1..];
      assert multiset(s) == multiset(s[..i]) + multiset{s[i]} + multiset(s[i + 1..]);
      assert s[j] == s[i + 1..][j - i - 1];
      assert multiset(s[i + 1..])[s[j]] >= 1;
      assert multiset(s)[s[i]] == multiset(s[..i])[s[i]] + 1 + multiset(s[i + 1..])[s[i]];
      assert multiset(s)[s[i]] <= 1;
    }
  }

  lemma {:induction false} MultisetDistinct<T(!new)>(s: seq<T>)
    requires Distinct(s)
    ensures forall x :: multiset(s)[x] <= 1
  {
    if s == [] {
    } else {
      var init, last := s[..|s| - 1], s[|s| - 1];
      MultisetDistinct(init);
      assert s == init + [last];
      assert last !in init;
    }
  }

  /** A strictly ascending list is determined by its elements. */
  lemma {:induction false} AscendingUnique(s: seq<nat>, t: seq<nat>)
    requires StrictlyAscending(s) && StrictlyAscending(t)
    requires forall x :: x in s <==> x in t
    ensures s == t
    decreases |s|
  {
    assert s != [] ==> s[0] in t;
    assert t != [] ==> t[0] in s;
    if s == [] {
    } else {
      var a, b := s[|s| - 1], t[|t| - 1];
      assert a in t && b in s;
      assert a == b;
      var s', t' := s[..|s| - 1], t[..|t| - 1];
      forall x ensures x in s' <==> x in t' {
        assert x in s' <==> x in s && x != a;
        assert x in t' <==> x in t && x != b;
      }
      AscendingUnique(s', t');
    }
  }

  /** The last number of an ascending list is the largest one. */
  lemma LastIsLargest(s: seq<nat>, x: nat)
    requires Ascending(s) && x in s
    ensures x <= s[|s| - 1]
  {
  }

  lemma SameLast(s: seq<nat>, t: seq<nat>)
    requires Ascending(s) && Ascending(t) && multiset(s) == multiset(t) && s != [] && t != []
    ensures s[|s| - 1] == t[|t| - 1]
    ensures multiset(s[..|s| - 1]) == multiset(t[..|t| - 1])
  {
    var a, b := s[|s| - 1], t[|t| - 1];
    assert a in multiset(s) && b in multiset(t);
    LastIsLargest(s, b);
    LastIsLargest(t, a);
    DropLast(s);
    DropLast(t);
  }

  lemma DropLast(s: seq<nat>)
    requires s != []
    ensures multiset(s[..|s| - 1]) == multiset(s) - multiset{s[|s| - 1]}
  {
    MultisetLast(s);
  }

  lemma SameLength(s: seq<nat>, t: seq<nat>)
    requires multiset(s) == multiset(t)
    ensures |s| == |t|
  {
    assert |multiset(s)| == |s| && |multiset(t)| == |t|;
  }

  /** An ascending list is determined by how often each number occurs. */
  lemma {:induction false} AscendingDetermined(s: seq<nat>, t: seq<nat>)
    requires Ascending(s) && Ascending(t) && multiset(s) == multiset(t)
    ensures s == t
    decreases |s|
  {
    SameLength(s, t);
    if s == [] {
    } else {
      SameLast(s, t);
      AscendingDetermined(s[..|s| - 1], t[..|t| - 1]);
      assert s == s[..|s| - 1] + [s[|s| - 1]];
      assert t == t[..|t| - 1] + [t[|t| - 1]];
    }
  }

  lemma SortedDistinct(s: seq<nat>)
    requires Distinct(s)
    ensures StrictlyAscending(Sorted(s)) && forall x :: x in Sorted(s) <==> x in s
  {
    SortedSorts(s);
    MultisetDistinct(s);
    DistinctMultiset(Sorted(s));
    forall x ensures x in Sorted(s) <==> x in s {
      assert x in Sorted(s) <==> x in multiset(Sorted(s));
      assert x in s <==> x in multiset(s);
    }
  }

  lemma SortedBelow(s: seq<nat>, n: nat)
    requires Below(s, n)
    ensures Below(Sorted(s), n)
  {
    SortedSorts(s);
    forall i | 0 <= i < |Sorted(s)| ensures Sorted(s)[i] < n {
      assert Sorted(s)[i] in multiset(Sorted(s));
      assert Sorted(s)[i] in multiset(s);
    }
  }
}
