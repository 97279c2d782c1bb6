/** The recursive encoder of src/mpt.cpp over heap nodes. */
module TrieCodec {
  import opened Common
  import opened Rlp
  import opened RlpTheory
  import opened RlpCodec
  import opened Hex
  import opened Trie
  import opened TrieEncoding

  lemma ChildLink(trie: MptTrie, p: Path, n: Nibble)
    requires trie.Valid() && p in trie.nodes
    ensures |trie.nodes[p].children| == 16
    ensures trie.nodes[p].children[n] == null <==> !Live(trie.stored, p + [n])
    ensures Live(trie.stored, p + [n]) ==>
              p + [n] in trie.nodes && trie.nodes[p + [n]] == trie.nodes[p].children[n]
  {
  }

  lemma EncOfStr(b: Bytes)
    ensures Enc(Str(b)) == EncBytes(b)
  {
  }

  /** One turn of the loop in `encodeNode`. */
  method EncodeChild(trie: MptTrie, child: Node?, ghost p: Path, n: Nibble) returns (field: Bytes)
    requires trie.Valid() && p in trie.nodes
    requires |trie.nodes[p].children| == 16 && trie.nodes[p].children[n] == child
    ensures field == Enc(NodeItem(trie.stored, p).items[n])
    decreases Room(trie.stored, p), 0
  {
    hide NodeItem, Live, Room, Enc, EncBytes;
    ChildLink(trie, p, n);
    NodeItemChild(trie.stored, p, n);
    if child == null {
      EncOfStr([]);
      field := EncodeBytes([]);
    } else {
      LiveHasRoom(trie.stored, p, n);
      var enc := EncodeNode(trie, child, p + [n]);
      EncOfStr(enc);
      field := EncodeBytes(enc);
    }
  }

  /** `encodeNodeValue` and `encodeNode`: the bytes depend on the stored map alone. */
  method EncodeNode(trie: MptTrie, node: Node, ghost p: Path) returns (out: Bytes)
    requires trie.Valid() && p in trie.nodes && trie.nodes[p] == node
    ensures out == NodeBytes(trie.stored, p)
    decreases Room(trie.stored, p), 1
  {
    hide NodeItem, Live, Room, Enc, EncBytes;
    ghost var x := NodeItem(trie.stored, p);
    var fields: seq<Bytes> := [];
    for i := 0 to 16
      invariant |fields| == i
      invariant forall j :: 0 <= j < i ==> fields[j] == Enc(x.items[j])
    {
      var field := EncodeChild(trie, node.children[i], p, i);
      fields := fields + [field];
    }
    NodeItemValue(trie.stored, p);
    EncOfStr(ValueAt(trie.stored, p));
    var value := EncodeBytes(if node.value.None? then [] else node.value.value);
    fields := fields + [value];
    EncListOfEnc(fields, x.items);
    out := EncodeList(fields);
  }

  /** `rootHash` of a stored map. */
  ghost function RootText(hash: Hash, m: Contents): Text {
    HashText(hash, NodeBytes(m, []))
  }

  function HashText(hash: Hash, preimage: Bytes): Text {
    HEX_PREFIX + ToHex(hash(preimage))
  }

  method RootHash(hash: Hash, trie: MptTrie) returns (out: Text)
    requires trie.Valid()
    ensures out == RootText(hash, trie.stored)
  {
    var enc := EncodeNode(trie, trie.root, []);
    var hex := WriteHex(hash(enc));
    out := HEX_PREFIX + hex;
  }
}
