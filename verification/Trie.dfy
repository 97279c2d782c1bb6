/** The nibble trie of src/mpt.cpp: heap nodes, `put` and `get`, against a map. */
module Trie {
  import opened Common

  type Path = seq<Nibble>

  /** What a trie stores: the value under each nibble path. */
  type Contents = map<Path, Bytes>

  /** High nibble first, two nibbles a byte. */
  function Nibbles(key: Bytes): (p: Path)
    ensures |p| == 2 * |key|
  {
    seq(2 * |key|, i requires 0 <= i < 2 * |key| =>
      if i % 2 == 0 then key[i / 2] / 16 else key[i / 2] % 16)
  }

  /** Keys of any lengths keep their identity as paths. */
  lemma NibblesInjective(a: Bytes, b: Bytes)
    requires Nibbles(a) == Nibbles(b)
    ensures a == b
  {
    assert |a| == |b|;
    forall i | 0 <= i < |a| ensures a[i] == b[i] {
      assert a[i] / 16 == Nibbles(a)[2 * i] == b[i] / 16;
      assert a[i] % 16 == Nibbles(a)[2 * i + 1] == b[i] % 16;
    }
  }

  predicate IsPrefix(p: Path, k: Path) {
    p <= k
  }

  /** A path on the way to a stored key; the root always is. */
  ghost predicate Live(m: Contents, p: Path) {
    p == [] || exists k :: k in m && IsPrefix(p, k)
  }

  lemma LastStep(at: Path, nib: Nibble)
    ensures forall p: Path, n: Nibble :: p + [n] == at + [nib] ==> p == at && n == nib
  {
    forall p: Path, n: Nibble | p + [n] == at + [nib] ensures p == at && n == nib {
      assert p == (p + [n])[..|p|] && at == (at + [nib])[..|at|];
      assert n == (p + [n])[|p|] && nib == (at + [nib])[|at|];
    }
  }

  lemma NoSteps(path: Path)
    ensures path[..0] == []
    ensures forall p :: IsPrefix(p, path[..0]) <==> p == []
  {
  }

  lemma PrefixStep(path: Path, i: nat)
    requires i < |path|
    ensures path[..i + 1] == path[..i] + [path[i]]
    ensures forall p :: IsPrefix(p, path[..i + 1]) <==> IsPrefix(p, path[..i]) || p == path[..i + 1]
  {
    forall p | IsPrefix(p, path[..i + 1]) ensures IsPrefix(p, path[..i]) || p == path[..i + 1] {
      if |p| <= i {
        assert p == path[..i + 1][..|p|] == path[..i][..|p|];
      }
    }
  }

  /** Storing under `path` makes exactly the prefixes of `path` live. */
  lemma LiveAfterPut(m: Contents, path: Path, value: Bytes)
    ensures forall p :: Live(m[path := value], p) <==> Live(m, p) || IsPrefix(p, path)
  {
    var m' := m[path := value];
    forall p ensures Live(m', p) <==> Live(m, p) || IsPrefix(p, path) {
      if Live(m, p) && p != [] {
        var k :| k in m && IsPrefix(p, k);
        assert k in m';
      }
      if IsPrefix(p, path) {
        assert path in m';
      }
    }
  }

  function Lookup(m: Contents, p: Path): Option<Bytes> {
    if p in m then Some(m[p]) else None
  }

  method ToNibbles(key: Bytes) returns (out: Path)
    ensures out == Nibbles(key)
  {
    out := [];
    for i := 0 to |key|
      invariant out == Nibbles(key[..i])
    {
      out := out + [key[i] / 16, key[i] % 16];
    }
    assert key[..|key|] == key;
  }

  class Node {
    /** Where the node hangs in its trie. */
    ghost const path: Path
    var children: seq<Node?>
    var value: Option<Bytes>

    constructor (ghost path: Path)
      ensures this.path == path
      ensures children == seq(16, _ => null) && value == None
    {
      this.path := path;
      children := seq(16, _ => null);
      value := None;
    }
  }

  /** The sixteen links below `p`. */
  ghost function Children(nodes: map<Path, Node>, p: Path): (c: seq<Node?>)
    ensures |c| == 16
  {
    seq(16, n requires 0 <= n < 16 => if p + [n] in nodes then nodes[p + [n]] else null)
  }

  lemma ChildrenAfterLink(nodes: map<Path, Node>, at: Path, nib: Nibble, made: Node)
    requires at in nodes && at + [nib] !in nodes
    requires forall p: Path, n: Nibble :: p + [n] in nodes ==> p in nodes
    ensures var after := nodes[at + [nib] := made];
            && Children(after, at) == Children(nodes, at)[nib := made]
            && Children(after, at + [nib]) == seq(16, _ => null)
            && (forall p :: p in nodes && p != at ==> Children(after, p) == Children(nodes, p))
            && (forall p: Path, n: Nibble :: p + [n] in after ==> p in after)
  {
    LastStep(at, nib);
  }

  class MptTrie {
    var root: Node

    /** The node at the end of every path that has one. */
    ghost var nodes: map<Path, Node>
    ghost var repr: set<Node>

    /** What has been put. */
    ghost var stored: Contents

    /** The nodes form a tree: one node a path, one path a node, child links only. */
    ghost predicate Linked()
      reads this, repr
    {
      && [] in nodes && nodes[[]] == root
      && (forall p :: p in nodes ==> nodes[p] in repr && nodes[p].path == p)
      && (forall p :: p in nodes ==> nodes[p].children == Children(nodes, p))
      && (forall p: Path, n: Nibble :: p + [n] in nodes ==> p in nodes)
    }

    /** The values in the nodes are the stored map. */
    ghost predicate Holds()
      requires Linked()
      reads this, repr
    {
      && stored.Keys <= nodes.Keys
      && forall p :: p in nodes ==> nodes[p].value == Lookup(stored, p)
    }

    /** Apart from the root, a node exists exactly on the way to a stored key. */
    ghost predicate Valid()
      reads this, repr
    {
      && Linked()
      && Holds()
      && forall p :: p in nodes <==> Live(stored, p)
    }

    constructor ()
      ensures Valid() && fresh(repr)
      ensures stored == map[]
    {
      root := new Node([]);
      stored := map[];
      new;
      nodes := map[[] := root];
      repr := {root};
    }

    lemma ChildLink(p: Path, n: Nibble)
      requires Linked() && p in nodes
      ensures |nodes[p].children| == 16
      ensures nodes[p].children[n] == if p + [n] in nodes then nodes[p + [n]] else null
    {
    }

    /** The assignment to a missing child in `put`. */
    method Link(node: Node, ghost at: Path, nib: Nibble, made: Node)
      requires Linked() && Holds() && at in nodes && nodes[at] == node && at + [nib] !in nodes
      requires made !in repr && made.path == at + [nib]
      requires made.value == None && made.children == seq(16, _ => null)
      modifies this`nodes, this`repr, node`children
      ensures Linked() && Holds()
      ensures nodes == old(nodes)[at + [nib] := made] && repr == old(repr) + {made}
    {
      hide Children;
      ChildrenAfterLink(nodes, at, nib, made);
      node.children := node.children[nib := made];
      nodes := nodes[at + [nib] := made];
      repr := repr + {made};
    }

    /** The loop of `put`: afterwards every prefix of `path` has its node, and nothing else is new. */
    method Walk(path: Path) returns (node: Node)
      requires Linked() && Holds()
      modifies this`nodes, this`repr, repr
      ensures Linked() && Holds()
      ensures path in nodes && nodes[path] == node
      ensures forall p :: p in nodes <==> p in old(nodes) || IsPrefix(p, path)
      ensures fresh(repr - old(repr))
    {
      hide IsPrefix, Holds, Children;
      node := root;
      var i := 0;
      NoSteps(path);
      while i < |path|
        invariant 0 <= i <= |path|
        invariant Linked() && Holds()
        invariant path[..i] in nodes && nodes[path[..i]] == node
        invariant forall p :: p in nodes <==> p in old(nodes) || IsPrefix(p, path[..i])
        invariant fresh(repr - old(repr))
      {
        PrefixStep(path, i);
        ChildLink(path[..i], path[i]);
        if node.children[path[i]] == null {
          var made := new Node(path[..i + 1]);
          Link(node, path[..i], path[i], made);
        }
        ChildLink(path[..i], path[i]);
        node := node.children[path[i]];
        i := i + 1;
      }
      assert path[..i] == path;
    }

    /** The last statement of `put`. */
    method SetValue(node: Node, ghost path: Path, value: Bytes)
      requires Linked() && Holds() && path in nodes && nodes[path] == node
      modifies node`value, this`stored
      ensures Linked() && Holds()
      ensures stored == old(stored)[path := value]
    {
      node.value := Some(value);
      stored := stored[path := value];
    }

    method Put(key: Bytes, value: Bytes)
      requires Valid()
      modifies this`nodes, this`repr, this`stored, repr
      ensures Valid() && fresh(repr - old(repr))
      ensures stored == old(stored)[Nibbles(key) := value]
    {
      hide IsPrefix, Live, Holds, Nibbles;
      var path := ToNibbles(key);
      var node := Walk(path);
      SetValue(node, path, value);
      LiveAfterPut(old(stored), path, value);
    }

    method Get(key: Bytes) returns (r: Option<Bytes>)
      requires Valid()
      ensures r == Lookup(stored, Nibbles(key))
    {
      var path := ToNibbles(key);
      var node := root;
      var i := 0;
      assert path[..0] == [];
      while i < |path|
        invariant 0 <= i <= |path|
        invariant path[..i] in nodes && nodes[path[..i]] == node
      {
        PrefixStep(path, i);
        if node.children[path[i]] == null {
          NotStored(path, i + 1);
          return None;
        }
        node := node.children[path[i]];
        i := i + 1;
      }
      assert path[..i] == path;
      r := node.value;
    }

    lemma NotStored(path: Path, i: nat)
      requires Valid() && i <= |path| && path[..i] !in nodes
      ensures path !in stored
    {
      if path in stored {
        assert IsPrefix(path[..i], path);
        assert Live(stored, path[..i]);
        assert false;
      }
    }
  }

  // --------------------------------------------------- any sequence of puts

  datatype Entry = Entry(key: Bytes, value: Bytes)

  /** What is stored after a sequence of puts. */
  function PutAll(m: Contents, puts: seq<Entry>): Contents {
    if puts == [] then m
    else PutAll(m, puts[..|puts| - 1])[Nibbles(puts[|puts| - 1].key) := puts[|puts| - 1].value]
  }

  /** The last value put under a key, by searching the puts from the end. */
  function LastPut(puts: seq<Entry>, key: Bytes): Option<Bytes> {
    if puts == [] then None
    else if puts[|puts| - 1].key == key then Some(puts[|puts| - 1].value)
    else LastPut(puts[..|puts| - 1], key)
  }

  /** Looking a key up gives the last value put under it, or nothing. */
  lemma {:induction false} LookupIsLastPut(puts: seq<Entry>, key: Bytes)
    ensures Lookup(PutAll(map[], puts), Nibbles(key)) == LastPut(puts, key)
  {
    if puts != [] {
      LookupIsLastPut(puts[..|puts| - 1], key);
      if Nibbles(puts[|puts| - 1].key) == Nibbles(key) {
        NibblesInjective(puts[|puts| - 1].key, key);
      }
    }
  }
}
