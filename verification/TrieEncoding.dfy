/**
 * The bytes that `MptTrie::rootHash` hashes, as a function of the stored map
 * alone, and exactly which maps share them.
 */
module TrieEncoding {
  import opened Common
  import opened Rlp
  import opened RlpTheory
  import opened Trie

  /** A bound on the length of the keys. */
  ghost function Longest(keys: set<Path>): (b: nat)
    ensures forall k :: k in keys ==> |k| <= b
  {
    if keys == {} then 0
    else
      var k :| k in keys;
      var rest := Longest(keys - {k});
      if |k| <= rest then rest else |k|
  }

  /** How deep the trie can still go below `p`. */
  ghost function Room(m: Contents, p: Path): nat {
    if |p| <= Longest(m.Keys) then Longest(m.Keys) - |p| + 1 else 0
  }

  /** The value field: nothing stored and an empty value read the same. */
  function ValueAt(m: Contents, p: Path): Bytes {
    if p in m then m[p] else []
  }

  lemma LiveHasRoom(m: Contents, p: Path, n: Nibble)
    requires Live(m, p + [n])
    ensures Room(m, p + [n]) < Room(m, p)
  {
    var k :| k in m && IsPrefix(p + [n], k);
  }

  /** `encodeNode` as an RLP item: sixteen children, each embedded as a string, then the value. */
  ghost function NodeItem(m: Contents, p: Path): (x: Item)
    ensures x.List? && |x.items| == 17
    decreases Room(m, p)
  {
    List(seq(17, n requires 0 <= n < 17 =>
      if n == 16 then Str(ValueAt(m, p))
      else if Live(m, p + [n]) then
        LiveHasRoom(m, p, n);
        Str(Enc(NodeItem(m, p + [n])))
      else Str([])))
  }

  ghost function NodeBytes(m: Contents, p: Path): Bytes {
    Enc(NodeItem(m, p))
  }

  lemma NodeItemValue(m: Contents, p: Path)
    ensures NodeItem(m, p).items[16] == Str(ValueAt(m, p))
  {
  }

  lemma NodeItemChild(m: Contents, p: Path, n: Nibble)
    ensures NodeItem(m, p).items[n] == Str(if Live(m, p + [n]) then NodeBytes(m, p + [n]) else [])
  {
  }

  /** The two tries look the same below `p`. */
  ghost predicate SameBelow(m1: Contents, m2: Contents, p: Path) {
    forall q :: IsPrefix(p, q) ==>
      ValueAt(m1, q) == ValueAt(m2, q) && (q != p ==> (Live(m1, q) <==> Live(m2, q)))
  }

  /** Equal bytes at `p` mean an equal value and equal liveness at every path below `p`. */
  lemma {:induction false} EqualBytesEqualBelow(m1: Contents, m2: Contents, p: Path, q: Path)
    requires NodeBytes(m1, p) == NodeBytes(m2, p) && |NodeBytes(m1, p)| <= MAX_SIZE
    requires IsPrefix(p, q)
    ensures ValueAt(m1, q) == ValueAt(m2, q)
    ensures q != p ==> (Live(m1, q) <==> Live(m2, q))
    decreases |q| - |p|
  {
    var x1, x2 := NodeItem(m1, p), NodeItem(m2, p);
    EncInjective(x1, x2);
    if q == p {
      NodeItemValue(m1, p);
      NodeItemValue(m2, p);
    } else {
      var n := q[|p|];
      var c := p + [n];
      assert IsPrefix(c, q);
      NodeItemChild(m1, p, n);
      NodeItemChild(m2, p, n);
      EncListBound(x1.items, n);
      if Live(m1, c) && Live(m2, c) {
        EqualBytesEqualBelow(m1, m2, c, q);
      } else {
        if Live(m1, c) { EncNonEmpty(NodeItem(m1, c)); }
        if Live(m2, c) { EncNonEmpty(NodeItem(m2, c)); }
        LiveAbove(m1, c, q);
        LiveAbove(m2, c, q);
      }
    }
  }

  /** Nodes are live all the way up. */
  lemma LiveAbove(m: Contents, c: Path, q: Path)
    requires IsPrefix(c, q)
    ensures Live(m, q) || q in m ==> Live(m, c)
  {
    if Live(m, q) && q != [] {
      var k :| k in m && IsPrefix(q, k);
      assert IsPrefix(c, k);
    }
  }

  /** Tries that look the same below `p` have the same item at `p`. */
  lemma {:induction false} EqualBelowEqualItem(m1: Contents, m2: Contents, p: Path)
    requires SameBelow(m1, m2, p)
    ensures NodeItem(m1, p) == NodeItem(m2, p)
    decreases Room(m1, p)
  {
    var x1, x2 := NodeItem(m1, p), NodeItem(m2, p);
    forall n | 0 <= n < 17 ensures x1.items[n] == x2.items[n] {
      if n == 16 {
        assert IsPrefix(p, p);
        NodeItemValue(m1, p);
        NodeItemValue(m2, p);
      } else {
        var c := p + [n];
        assert IsPrefix(p, c) && c != p;
        NodeItemChild(m1, p, n);
        NodeItemChild(m2, p, n);
        if Live(m1, c) {
          LiveHasRoom(m1, p, n);
          assert SameBelow(m1, m2, c) by {
            forall q | IsPrefix(c, q)
              ensures ValueAt(m1, q) == ValueAt(m2, q) && (q != c ==> (Live(m1, q) <==> Live(m2, q)))
            {
              assert IsPrefix(p, q);
            }
          }
          EqualBelowEqualItem(m1, m2, c);
        }
      }
    }
  }

  /** The hashed bytes are equal exactly when the nodes and the values at them are. */
  lemma RootBytesEqualIff(m1: Contents, m2: Contents)
    requires |NodeBytes(m1, [])| <= MAX_SIZE
    ensures NodeBytes(m1, []) == NodeBytes(m2, []) <==>
            && (forall q :: Live(m1, q) <==> Live(m2, q))
            && (forall q :: ValueAt(m1, q) == ValueAt(m2, q))
  {
    if NodeBytes(m1, []) == NodeBytes(m2, []) {
      forall q ensures (Live(m1, q) <==> Live(m2, q)) && ValueAt(m1, q) == ValueAt(m2, q) {
        assert IsPrefix([], q);
        EqualBytesEqualBelow(m1, m2, [], q);
      }
    }
    if (forall q :: Live(m1, q) <==> Live(m2, q)) && (forall q :: ValueAt(m1, q) == ValueAt(m2, q)) {
      EqualBelowEqualItem(m1, m2, []);
    }
  }

  /** No value is empty. */
  ghost predicate NoEmptyValue(m: Contents) {
    forall p :: p in m ==> m[p] != []
  }

  /** Without empty values the bytes determine the map. */
  lemma RootBytesInjective(m1: Contents, m2: Contents)
    requires |NodeBytes(m1, [])| <= MAX_SIZE
    requires NoEmptyValue(m1) && NoEmptyValue(m2)
    ensures NodeBytes(m1, []) == NodeBytes(m2, []) <==> m1 == m2
  {
    RootBytesEqualIff(m1, m2);
    if NodeBytes(m1, []) == NodeBytes(m2, []) {
      forall p ensures p in m1 <==> p in m2 {
        assert ValueAt(m1, p) == ValueAt(m2, p);
      }
      forall p | p in m1 ensures m1[p] == m2[p] {
        assert ValueAt(m1, p) == ValueAt(m2, p);
      }
    }
  }

  /**
   * An empty value is invisible exactly when its node would be there anyway:
   * at the root or on the way to another key.
   */
  lemma EmptyValueInvisibleIff(m: Contents, k: Path)
    requires k in m && m[k] == []
    requires |NodeBytes(m, [])| <= MAX_SIZE
    ensures NodeBytes(m, []) == NodeBytes(m - {k}, []) <==> Live(m - {k}, k)
  {
    var m' := m - {k};
    RootBytesEqualIff(m, m');
    assert IsPrefix(k, k) && Live(m, k);
    forall q ensures ValueAt(m, q) == ValueAt(m', q) {
    }
    if Live(m', k) {
      forall q ensures Live(m, q) <==> Live(m', q) {
        if Live(m', q) && q != [] {
          var j :| j in m' && IsPrefix(q, j);
          assert j in m;
        }
        if Live(m, q) && q != [] {
          var j :| j in m && IsPrefix(q, j);
          if j == k {
            var i :| i in m' && IsPrefix(k, i);
            assert IsPrefix(q, i);
          } else {
            assert j in m';
          }
        }
      }
    }
  }

  /** So two different stores can share a root: an empty value under the empty key leaves no trace. */
  lemma EmptyValueExample()
    ensures var m: Contents := map[]; map[[] := []] != m
    ensures NodeBytes(map[[] := []], []) == NodeBytes(map[], [])
  {
    var m1: Contents, m2: Contents := map[[] := []], map[];
    assert [] in m1;
    forall q ensures ValueAt(m1, q) == ValueAt(m2, q) && (q != [] ==> !Live(m1, q) && !Live(m2, q)) {
      assert q != [] ==> !IsPrefix(q, []);
    }
    assert SameBelow(m1, m2, []);
    EqualBelowEqualItem(m1, m2, []);
  }
}
