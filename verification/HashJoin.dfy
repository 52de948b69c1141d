/**
 * The hash-table join and the copy-out of the matches (src/util/helpers.h, find_intersection and
 * create_result_from_matches_var_bitlen).
 */
module HashJoin {
  import opened Bytes
  import opened Permutations

  /* ---- The hash table of GLib, as far as the program uses it ---- */

  /** A uint64_t variable that holds a key, such as tmpkey; the table keeps pointers to it. */
  class KeyCell {
    var octets: seq<byte>

    constructor ()
      ensures octets == []
    {
      octets := [];
    }
  }

  /** An entry: the hash code at insertion time, the address of the key, and the value. */
  datatype Node = Node(code: int, key: KeyCell, value: nat)

  type KeyHash = seq<byte> -> int

  /** The values by hash code, a later entry overriding an earlier one. */
  function ByCode(nodes: seq<Node>): map<int, nat> {
    if nodes == [] then map[] else ByCode(nodes[..|nodes| - 1])[nodes[|nodes| - 1].code := nodes[|nodes| - 1].value]
  }

  ghost predicate CodesDistinct(nodes: seq<Node>) {
    forall i, j :: 0 <= i < j < |nodes| ==> nodes[i].code != nodes[j].code
  }

  ghost predicate HasCode(nodes: seq<Node>, c: int) {
    exists i :: 0 <= i < |nodes| && nodes[i].code == c
  }

  lemma {:induction false} ByCodeLookup(nodes: seq<Node>)
    requires CodesDistinct(nodes)
    ensures forall i :: 0 <= i < |nodes| ==>
      nodes[i].code in ByCode(nodes) && ByCode(nodes)[nodes[i].code] == nodes[i].value
    ensures forall c :: c in ByCode(nodes) ==> HasCode(nodes, c)
  {
    if nodes == [] {
    } else {
      var n := |nodes| - 1;
      var init := nodes[..n];
      ByCodeLookup(init);
      forall i | 0 <= i < |nodes|
        ensures nodes[i].code in ByCode(nodes) && ByCode(nodes)[nodes[i].code] == nodes[i].value
      {
        if i < n { assert init[i] == nodes[i]; }
      }
      forall c | c in ByCode(nodes) ensures HasCode(nodes, c) {
        assert HasCode(nodes, nodes[n].code);
        if c != nodes[n].code {
          assert c in ByCode(init);
          assert HasCode(init, c);
          var i :| 0 <= i < |init| && init[i].code == c;
          assert nodes[i].code == c;
        }
      }
    }
  }

  lemma MapByCode(nodes: seq<Node>, m: map<int, nat>)
    requires CodesDistinct(nodes)
    requires forall i :: 0 <= i < |nodes| ==> nodes[i].code in m && m[nodes[i].code] == nodes[i].value
    requires forall c :: c in m ==> HasCode(nodes, c)
    ensures ByCode(nodes) == m
  {
    ByCodeLookup(nodes);
    forall c | c in m || c in ByCode(nodes) ensures c in m && c in ByCode(nodes) && m[c] == ByCode(nodes)[c] {
      var i :| 0 <= i < |nodes| && nodes[i].code == c;
    }
  }

  class HashTable {
    var nodes: seq<Node>

    constructor ()
      ensures nodes == []
    {
      nodes := [];
    }

    /** Every entry points to the same key variable. */
    ghost predicate Shares(key: KeyCell)
      reads this
    {
      CodesDistinct(nodes) && forall i :: 0 <= i < |nodes| ==> nodes[i].key == key
    }

    /** The entry with this code whose key compares equal NOW, |nodes| when there is none. */
    method Locate(code: int, key: KeyCell) returns (i: nat)
      ensures i <= |nodes|
      ensures i < |nodes| ==> nodes[i].code == code && nodes[i].key.octets == key.octets
      ensures forall j :: 0 <= j < i ==> !(nodes[j].code == code && nodes[j].key.octets == key.octets)
    {
      i := 0;
      while i < |nodes| && !(nodes[i].code == code && nodes[i].key.octets == key.octets)
        invariant i <= |nodes|
        invariant forall j :: 0 <= j < i ==> !(nodes[j].code == code && nodes[j].key.octets == key.octets)
      {
        i := i + 1;
      }
    }

    /** g_hash_table_insert: an equal key keeps its entry and gets the new value. */
    method Insert(hash: KeyHash, key: KeyCell, value: nat)
      requires Shares(key)
      modifies this
      ensures Shares(key)
      ensures ByCode(nodes) == ByCode(old(nodes))[hash(key.octets) := value]
    {
      var code := hash(key.octets);
      var i := Locate(code, key);
      ByCodeLookup(nodes);
      if i < |nodes| {
        ghost var was := nodes;
        nodes := nodes[i := Node(code, nodes[i].key, value)];
        forall c | c in ByCode(was)[code := value] ensures HasCode(nodes, c) {
          if c == code {
            assert nodes[i].code == c;
          } else {
            assert HasCode(was, c);
            var k :| 0 <= k < |was| && was[k].code == c;
            assert nodes[k].code == c;
          }
        }
        MapByCode(nodes, ByCode(old(nodes))[code := value]);
      } else {
        nodes := nodes + [Node(code, key, value)];
        assert nodes[..|nodes| - 1] == old(nodes);
      }
    }

    /** g_hash_table_lookup_extended. */
    method Lookup(hash: KeyHash, key: KeyCell) returns (found: bool, value: nat)
      requires Shares(key)
      ensures found <==> hash(key.octets) in ByCode(nodes)
      ensures found ==> value == ByCode(nodes)[hash(key.octets)]
    {
      var i := Locate(hash(key.octets), key);
      ByCodeLookup(nodes);
      found := i < |nodes|;
      value := if found then nodes[i].value else 0;
    }
  }

  /* ---- The join ---- */

  function Min(a: nat, b: nat): nat { if a < b then a else b }

  /** The octets of record i that become the key: at most the eight of a uint64_t. */
  function KeyOctets(buf: seq<byte>, width: nat, i: nat): seq<byte>
    requires i * width + width <= |buf|
  {
    buf[i * width..i * width + Min(width, 8)]
  }

  /** The hash codes of the first n records of a buffer. */
  function Codes(hash: KeyHash, buf: seq<byte>, width: nat, n: nat): (r: seq<int>)
    requires n * width <= |buf|
    ensures |r| == n
  {
    if n == 0 then []
    else
      assert n * width == (n - 1) * width + width;
      Codes(hash, buf, width, n - 1) + [hash(KeyOctets(buf, width, n - 1))]
  }

  lemma RecordInBuffer(i: nat, n: nat, width: nat)
    requires i < n
    ensures i * width + width <= n * width
  {
    assert n * width == i * width + width + (n - i - 1) * width;
    assert (n - i - 1) * width >= 0;
  }

  /** The last position of c, -1 when there is none. */
  function LastIndex<T(==)>(s: seq<T>, c: T): (i: int)
    ensures -1 <= i < |s| && (i >= 0 ==> s[i] == c)
    ensures forall j :: i < j < |s| ==> s[j] != c
  {
    if s == [] then -1
    else if s[|s| - 1] == c then |s| - 1
    else LastIndex(s[..|s| - 1], c)
  }

  /**
   * The reference join, a nested loop: for each code of the second list, in order, the last equal
   * code of the first list, mapped by inv.
   */
  function Join(own: seq<int>, peer: seq<int>, inv: seq<nat>): (r: seq<nat>)
    requires |inv| == |own|
    ensures |r| <= |peer|
  {
    if peer == [] then []
    else
      var i := LastIndex(own, peer[|peer| - 1]);
      Join(own, peer[..|peer| - 1], inv) + if i >= 0 then [inv[i]] else []
  }

  /** The table holds, for each code, the value of the last of these records. */
  ghost predicate Tabulates(m: map<int, nat>, codes: seq<int>, inv: seq<nat>) {
    && |codes| <= |inv|
    && forall c :: (c in m <==> LastIndex(codes, c) >= 0) && (c in m ==> m[c] == inv[LastIndex(codes, c)])
  }

  lemma TabulatesNext(m: map<int, nat>, codes: seq<int>, inv: seq<nat>, c: int)
    requires Tabulates(m, codes, inv) && |codes| < |inv|
    ensures Tabulates(m[c := inv[|codes|]], codes + [c], inv)
  {
    assert (codes + [c])[..|codes|] == codes;
  }

  /** invperm[perm[i]] = i for each i. */
  method InvertPermutation(perm: seq<nat>) returns (invperm: array<nat>)
    requires IsPermutation(perm)
    ensures fresh(invperm) && invperm[..] == InversePerm(perm)
  {
    invperm := new nat[|perm|](_ => 0);
    var i := 0;
    while i < |perm|
      invariant i <= |perm|
      invariant forall k :: 0 <= k < i ==> invperm[perm[k]] == k
    {
      invperm[perm[i]] := i;
      i := i + 1;
    }
    InverseIsTwoSided(perm);
    var q := InversePerm(perm);
    forall v | 0 <= v < |perm| ensures invperm[v] == q[v] {
      assert perm[q[v]] == v;
    }
  }

  method FillTable(hash: KeyHash, table: HashTable, tmpkey: KeyCell, hashes: seq<byte>, neles: nat,
                   hashbytelen: nat, invperm: seq<nat>)
    requires neles * hashbytelen <= |hashes| && |invperm| == neles
    requires table.nodes == []
    modifies table, tmpkey
    ensures table.Shares(tmpkey)
    ensures Tabulates(ByCode(table.nodes), Codes(hash, hashes, hashbytelen, neles), invperm)
  {
    var i := 0;
    while i < neles
      invariant i <= neles && table.Shares(tmpkey)
      invariant Tabulates(ByCode(table.nodes), Codes(hash, hashes, hashbytelen, i), invperm)
    {
      RecordInBuffer(i, neles, hashbytelen);
      RecordInBuffer(0, 1, hashbytelen);
      tmpkey.octets := KeyOctets(hashes, hashbytelen, i);
      TabulatesNext(ByCode(table.nodes), Codes(hash, hashes, hashbytelen, i), invperm, hash(tmpkey.octets));
      table.Insert(hash, tmpkey, invperm[i]);
      i := i + 1;
    }
  }

  /** Loads record i into tmpkey and looks it up. */
  method ProbeOne(hash: KeyHash, table: HashTable, tmpkey: KeyCell, phashes: seq<byte>, pneles: nat, hashbytelen: nat,
                  i: nat, ghost own: seq<int>, ghost inv: seq<nat>)
      returns (found: bool, value: nat)
    requires pneles * hashbytelen <= |phashes| && i < pneles
    requires table.Shares(tmpkey) && Tabulates(ByCode(table.nodes), own, inv)
    modifies tmpkey
    ensures var last := LastIndex(own, Codes(hash, phashes, hashbytelen, pneles)[i]);
      && (found <==> last >= 0)
      && (found ==> |own| > 0 && value == inv[last])
  {
    RecordInBuffer(i, pneles, hashbytelen);
    CodeAt(hash, phashes, hashbytelen, pneles, i);
    tmpkey.octets := KeyOctets(phashes, hashbytelen, i);
    found, value := table.Lookup(hash, tmpkey);
  }

  method NoteMatch(matches: array<nat>, size: nat, value: nat)
    requires size < matches.Length
    modifies matches
    ensures matches[..size + 1] == old(matches[..size]) + [value]
  {
    matches[size] := value;
  }

  method Probe(hash: KeyHash, table: HashTable, tmpkey: KeyCell, phashes: seq<byte>, pneles: nat, hashbytelen: nat,
               neles: nat, matches: array<nat>, ghost own: seq<int>, ghost inv: seq<nat>)
      returns (passed: bool, size: nat)
    requires pneles * hashbytelen <= |phashes| && |own| == |inv| == neles
    requires table.Shares(tmpkey) && Tabulates(ByCode(table.nodes), own, inv)
    requires 4 * Min(neles, pneles) <= matches.Length
    modifies tmpkey, matches
    ensures var found := Join(own, Codes(hash, phashes, hashbytelen, pneles), inv);
      && (passed <==> |found| <= Min(neles, pneles))
      && (passed ==> size == |found| <= matches.Length && matches[..size] == found)
  {
    ghost var codes := Codes(hash, phashes, hashbytelen, pneles);
    var i := 0;
    size := 0;
    while i < pneles
      invariant i <= pneles && table.Shares(tmpkey) && Tabulates(ByCode(table.nodes), own, inv)
      invariant size <= Min(neles, pneles) && size <= i && size <= matches.Length
      invariant matches[..size] == Join(own, codes[..i], inv)
    {
      var found, value := ProbeOne(hash, table, tmpkey, phashes, pneles, hashbytelen, i, own, inv);
      JoinNext(own, codes, i, inv);
      i := i + 1;
      if found {
        NoteMatch(matches, size, value);
        size := size + 1;
        if size > Min(neles, pneles) {
          JoinGrows(own, codes, i, inv);
          return false, size;
        }
      }
    }
    passed := true;
    assert codes[..pneles] == codes;
  }

  lemma {:induction false} CodeAt(hash: KeyHash, buf: seq<byte>, width: nat, n: nat, i: nat)
    requires n * width <= |buf| && i < n && i * width + width <= |buf|
    ensures Codes(hash, buf, width, n)[i] == hash(KeyOctets(buf, width, i))
    ensures Codes(hash, buf, width, n)[i] == hash(buf[i * width..i * width + if width < 8 then width else 8])
  {
    assert n * width == (n - 1) * width + width;
    if i < n - 1 {
      CodeAt(hash, buf, width, n - 1, i);
    }
  }

  /**
   * find_intersection. Every insertion passes a pointer to the same tmpkey, so what tells entries
   * apart is the stored hash code alone. The method stops at the assertion when it fails.
   */
  method FindIntersection(hash: KeyHash, hashes: seq<byte>, neles: nat, phashes: seq<byte>, pneles: nat,
                          hashbytelen: nat, perm: seq<nat>, matches: array<nat>)
      returns (passed: bool, size: nat)
    requires neles * hashbytelen <= |hashes| && pneles * hashbytelen <= |phashes|
    requires neles == |perm| && IsPermutation(perm)
    requires 4 * Min(neles, pneles) <= matches.Length
    modifies matches
    ensures var found := Join(Codes(hash, hashes, hashbytelen, neles),
                              Codes(hash, phashes, hashbytelen, pneles), InversePerm(perm));
      && (passed <==> |found| <= Min(neles, pneles))
      && (passed ==> size == |found| <= matches.Length && matches[..size] == found)
  {
    ghost var own := Codes(hash, hashes, hashbytelen, neles);
    ghost var inv := InversePerm(perm);
    var invperm := InvertPermutation(perm);
    var tmpkey := new KeyCell();
    var table := new HashTable();
    FillTable(hash, table, tmpkey, hashes, neles, hashbytelen, invperm[..]);
    passed, size := Probe(hash, table, tmpkey, phashes, pneles, hashbytelen, neles, matches, own, inv);
  }

  lemma JoinNext(own: seq<int>, peer: seq<int>, i: nat, inv: seq<nat>)
    requires |inv| == |own| && i < |peer|
    ensures var last := LastIndex(own, peer[i]);
            Join(own, peer[..i + 1], inv) == Join(own, peer[..i], inv) + if last >= 0 then [inv[last]] else []
  {
    assert peer[..i + 1][..i] == peer[..i];
  }

  lemma {:induction false} JoinGrows(own: seq<int>, peer: seq<int>, k: nat, inv: seq<nat>)
    requires |inv| == |own| && k <= |peer|
    ensures |Join(own, peer[..k], inv)| <= |Join(own, peer, inv)|
  {
    if k < |peer| {
      JoinGrows(own, peer[..|peer| - 1], k, inv);
      assert peer[..|peer| - 1][..k] == peer[..k];
    } else {
      assert peer[..k] == peer;
    }
  }
}
