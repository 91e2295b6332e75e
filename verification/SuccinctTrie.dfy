/**
 The succinct trie of binary rule-sets (`succinct_keys`, `bit` and `collect_keys` in
 src/srs.rs): a breadth-first bitmap in which each node contributes a zero per child and a
 closing one, a label per child, and a bitmap of the nodes that end a key.
 */
module SuccinctTrie {
  import opened Basics

  // ---------------------------------------------------------------- bits in 64-bit words

  const WORD := 64

  /** Bit `i` of a word: `word & (1 << i) != 0`. */
  predicate TestBit(word: nat, i: nat) {
    if i == 0 then word % 2 == 1 else TestBit(word / 2, i - 1)
  }

  /** `bit`: bits beyond the last word read as zero. */
  predicate Bit(words: seq<nat>, index: nat) {
    index / WORD < |words| && TestBit(words[index / WORD], index % WORD)
  }

  function ToWord(bits: seq<bool>): nat {
    if bits == [] then 0 else (if bits[0] then 1 else 0) + 2 * ToWord(bits[1..])
  }

  function Pack(bits: seq<bool>): (words: seq<nat>)
    ensures |words| == (|bits| + WORD - 1) / WORD
    decreases |bits|
  {
    if |bits| == 0 then []
    else if |bits| <= WORD then [ToWord(bits)]
    else [ToWord(bits[..WORD])] + Pack(bits[WORD..])
  }

  lemma {:induction false} ToWordBit(bits: seq<bool>, i: nat)
    ensures TestBit(ToWord(bits), i) == (i < |bits| && bits[i])
    decreases i
  {
    if bits == [] {
      if i > 0 {
        ToWordBit([], i - 1);
      }
    } else if i > 0 {
      ToWordBit(bits[1..], i - 1);
      assert ToWord(bits) / 2 == ToWord(bits[1..]);
    }
  }

  lemma {:induction false} PackBit(bits: seq<bool>, i: nat)
    ensures Bit(Pack(bits), i) == (i < |bits| && bits[i])
    decreases |bits|
  {
    if 0 < |bits| <= WORD {
      if i < WORD {
        ToWordBit(bits, i);
      }
    } else if |bits| > WORD {
      var rest := bits[WORD..];
      if i < WORD {
        ToWordBit(bits[..WORD], i);
      } else {
        PackBit(rest, i - WORD);
        assert i / WORD == (i - WORD) / WORD + 1 && i % WORD == (i - WORD) % WORD;
        assert i / WORD < |Pack(bits)| ==> Pack(bits)[i / WORD] == Pack(rest)[(i - WORD) / WORD];
      }
    }
  }

  // ---------------------------------------------------------------- decoding the tree

  datatype Edge = Edge(symbol: byte, child: nat)

  type Children = seq<seq<Edge>>

  /** The decoder as a function of its state: tree so far, position in bitmap and labels, node. */
  function DecodeFrom(bitmap: seq<nat>, labels: seq<byte>, tree: Children, bitIndex: nat, labelIndex: nat,
    node: nat): Result<Children>
    requires labelIndex <= |labels|
    decreases |labels| - labelIndex, |tree| - node
  {
    if node >= |tree| then (if labelIndex == |labels| then Ok(tree) else Err)
    else if Bit(bitmap, bitIndex) then DecodeFrom(bitmap, labels, tree, bitIndex + 1, labelIndex, node + 1)
    else if labelIndex >= |labels| then Err
    else DecodeFrom(bitmap, labels, AddChild(tree, node, labels[labelIndex]), bitIndex + 1, labelIndex + 1, node)
  }

  function AddChild(tree: Children, node: nat, symbol: byte): (t: Children)
    requires node < |tree|
    ensures |t| == |tree| + 1
  {
    tree[node := tree[node] + [Edge(symbol, |tree|)]] + [[]]
  }

  function DecodeTree(bitmap: seq<nat>, labels: seq<byte>): Result<Children> {
    DecodeFrom(bitmap, labels, [[]], 0, 0, 0)
  }

  /** The nested loops of `succinct_keys`. */
  method DecodeLoop(bitmap: seq<nat>, labels: seq<byte>) returns (r: Result<Children>)
    ensures r == DecodeTree(bitmap, labels)
  {
    var tree: Children := [[]];
    var bitIndex, labelIndex, node := 0, 0, 0;
    while node < |tree|
      invariant 0 <= labelIndex <= |labels| && 0 <= bitIndex && 0 <= node <= |tree|
      invariant DecodeTree(bitmap, labels) == DecodeFrom(bitmap, labels, tree, bitIndex, labelIndex, node)
      decreases |labels| - labelIndex, |tree| - node
    {
      ghost var before, size := labelIndex, |tree|;
      while !Bit(bitmap, bitIndex)
        invariant before <= labelIndex <= |labels| && 0 <= bitIndex && 0 <= node < |tree|
        invariant |tree| - size == labelIndex - before
        invariant DecodeTree(bitmap, labels) == DecodeFrom(bitmap, labels, tree, bitIndex, labelIndex, node)
        decreases |labels| - labelIndex
      {
        if labelIndex >= |labels| {
          return Err;
        }
        tree := AddChild(tree, node, labels[labelIndex]);
        bitIndex, labelIndex := bitIndex + 1, labelIndex + 1;
      }
      bitIndex, node := bitIndex + 1, node + 1;
    }
    if labelIndex != |labels| {
      return Err;
    }
    return Ok(tree);
  }

  // ---------------------------------------------------------------- accepted inputs describe trees

  /** One more than the number of edges that leave the nodes before `m`. */
  function FirstChild(tree: Children, m: nat): (c: nat)
    requires m <= |tree|
    ensures c >= 1
  {
    if m == 0 then 1 else FirstChild(tree, m - 1) + |tree[m - 1]|
  }

  /**
   The nodes before `m` have their children at consecutive indices, in breadth-first order,
   and every child lies behind its parent.
   */
  ghost predicate LaidOut(tree: Children, m: nat)
    requires m <= |tree|
  {
    && (forall i :: 0 <= i < m ==> i < FirstChild(tree, i))
    && (forall i, j :: 0 <= i < m && 0 <= j < |tree[i]| ==> tree[i][j].child == FirstChild(tree, i) + j)
  }

  /** A tree in which every node but the root is the child of exactly one node, behind it. */
  ghost predicate IsTree(tree: Children) {
    |tree| > 0 && LaidOut(tree, |tree|) && FirstChild(tree, |tree|) == |tree|
  }

  lemma {:induction false} FirstChildFrame(tree: Children, tree': Children, m: nat)
    requires m <= |tree| && m <= |tree'| && forall i :: 0 <= i < m ==> tree'[i] == tree[i]
    ensures FirstChild(tree', m) == FirstChild(tree, m)
    decreases m
  {
    if m > 0 {
      FirstChildFrame(tree, tree', m - 1);
    }
  }

  lemma {:induction false} FirstChildGrows(tree: Children, i: nat, m: nat)
    requires i <= m <= |tree|
    ensures FirstChild(tree, i) <= FirstChild(tree, m)
    ensures i < m ==> FirstChild(tree, i) + |tree[i]| <= FirstChild(tree, m)
    decreases m
  {
    if i < m {
      FirstChildGrows(tree, i, m - 1);
    }
  }

  /** The state of the decoder: nodes before `node` are done, those behind it have no children yet. */
  ghost predicate Decoding(tree: Children, labelIndex: nat, node: nat) {
    && node <= |tree| == labelIndex + 1
    && LaidOut(tree, node)
    && (forall k :: node < k < |tree| ==> tree[k] == [])
    && (node < |tree| ==>
          && FirstChild(tree, node) + |tree[node]| == |tree|
          && node < FirstChild(tree, node)
          && forall j :: 0 <= j < |tree[node]| ==> tree[node][j].child == FirstChild(tree, node) + j)
    && (node == |tree| ==> FirstChild(tree, node) == |tree|)
  }

  lemma DecodingCloses(tree: Children, labelIndex: nat, node: nat)
    requires Decoding(tree, labelIndex, node) && node < |tree|
    ensures Decoding(tree, labelIndex, node + 1)
  {
    FirstChildGrows(tree, node, node + 1);
  }

  lemma DecodingAdds(tree: Children, labelIndex: nat, node: nat, symbol: byte)
    requires Decoding(tree, labelIndex, node) && node < |tree|
    ensures Decoding(AddChild(tree, node, symbol), labelIndex + 1, node)
  {
    var tree' := AddChild(tree, node, symbol);
    forall i | 0 <= i <= node ensures FirstChild(tree', i) == FirstChild(tree, i) {
      FirstChildFrame(tree, tree', i);
    }
  }

  /** Whatever the decoder accepts is a tree with one node more than there are labels. */
  lemma {:induction false} DecodeFromIsTree(bitmap: seq<nat>, labels: seq<byte>, tree: Children, bitIndex: nat,
    labelIndex: nat, node: nat)
    requires labelIndex <= |labels| && Decoding(tree, labelIndex, node)
    ensures
      var r := DecodeFrom(bitmap, labels, tree, bitIndex, labelIndex, node);
      r.Ok? ==> IsTree(r.value) && |r.value| == |labels| + 1
    decreases |labels| - labelIndex, |tree| - node
  {
    if node < |tree| {
      if Bit(bitmap, bitIndex) {
        DecodingCloses(tree, labelIndex, node);
        DecodeFromIsTree(bitmap, labels, tree, bitIndex + 1, labelIndex, node + 1);
      } else if labelIndex < |labels| {
        DecodingAdds(tree, labelIndex, node, labels[labelIndex]);
        DecodeFromIsTree(bitmap, labels, AddChild(tree, node, labels[labelIndex]), bitIndex + 1, labelIndex + 1, node);
      }
    }
  }

  lemma AcceptedIsTree(bitmap: seq<nat>, labels: seq<byte>)
    requires DecodeTree(bitmap, labels).Ok?
    ensures IsTree(DecodeTree(bitmap, labels).value)
    ensures |DecodeTree(bitmap, labels).value| == |labels| + 1
  {
    assert FirstChild([[]], 0) == 1;
    DecodeFromIsTree(bitmap, labels, [[]], 0, 0, 0);
  }

  /** Every node but the root has exactly one parent, which lies before it. */
  lemma UniqueParent(tree: Children, c: nat) returns (parent: nat, j: nat)
    requires IsTree(tree) && 0 < c < |tree|
    ensures parent < c && j < |tree[parent]| && tree[parent][j].child == c
    ensures forall p, i :: 0 <= p < |tree| && 0 <= i < |tree[p]| && tree[p][i].child == c ==> p == parent && i == j
  {
    parent := 0;
    while FirstChild(tree, parent + 1) <= c
      invariant parent < |tree| && FirstChild(tree, parent) <= c
      decreases |tree| - parent
    {
      parent := parent + 1;
    }
    j := c - FirstChild(tree, parent);
    forall p, i | 0 <= p < |tree| && 0 <= i < |tree[p]| && tree[p][i].child == c ensures p == parent && i == j {
      if p < parent {
        FirstChildGrows(tree, p, parent);
      } else if parent < p {
        FirstChildGrows(tree, parent, p);
      }
    }
  }

  // ---------------------------------------------------------------- collecting keys

  /** `collect_keys`: the key of a marked node, then the keys below each edge. */
  function Collect(tree: Children, leaves: seq<nat>, node: nat, key: seq<byte>): seq<seq<byte>>
    requires IsTree(tree) && node < |tree|
    decreases |tree| - node, 0, 0
  {
    (if Bit(leaves, node) then [key] else []) + CollectEdges(tree, leaves, node, 0, key)
  }

  function CollectEdges(tree: Children, leaves: seq<nat>, node: nat, j: nat, key: seq<byte>): seq<seq<byte>>
    requires IsTree(tree) && node < |tree| && j <= |tree[node]|
    decreases |tree| - node - 1, 1, |tree[node]| - j
  {
    if j == |tree[node]| then []
    else
      ChildBounds(tree, node, j);
      Collect(tree, leaves, tree[node][j].child, key + [tree[node][j].symbol])
      + CollectEdges(tree, leaves, node, j + 1, key)
  }

  lemma ChildBounds(tree: Children, node: nat, j: nat)
    requires IsTree(tree) && node < |tree| && j < |tree[node]|
    ensures node < tree[node][j].child < |tree|
    ensures tree[node][j].child == FirstChild(tree, node) + j
  {
    FirstChildGrows(tree, node, |tree|);
  }

  /** The shared key buffer and result vector of `collect_keys`. */
  class KeyCollector {
    var key: seq<byte>
    var result: seq<seq<byte>>

    constructor ()
      ensures key == [] && result == []
    {
      key, result := [], [];
    }

    method CollectKeys(tree: Children, leaves: seq<nat>, node: nat)
      requires IsTree(tree) && node < |tree|
      modifies this
      ensures key == old(key)
      ensures result == old(result) + Collect(tree, leaves, node, old(key))
      decreases |tree| - node
    {
      if Bit(leaves, node) {
        result := result + [key];
      }
      ghost var own := result;
      for j := 0 to |tree[node]|
        invariant key == old(key)
        invariant result + CollectEdges(tree, leaves, node, j, key) == own + CollectEdges(tree, leaves, node, 0, key)
      {
        var edge := tree[node][j];
        ChildBounds(tree, node, j);
        key := key + [edge.symbol];
        CollectKeys(tree, leaves, edge.child);
        key := key[..|key| - 1];
      }
      assert result + [] == result;
      assert own + CollectEdges(tree, leaves, node, 0, key) == old(result) + Collect(tree, leaves, node, key);
    }
  }

  /** The number of marked nodes among `[lo, hi)`. */
  function Marks(leaves: seq<nat>, lo: nat, hi: nat): nat
    decreases hi - lo
  {
    if lo >= hi then 0 else (if Bit(leaves, lo) then 1 else 0) + Marks(leaves, lo + 1, hi)
  }

  /** Keys collected from all nodes of `[lo, hi)`. */
  function Total(tree: Children, leaves: seq<nat>, lo: nat, hi: nat): nat
    requires IsTree(tree) && hi <= |tree|
    decreases hi - lo
  {
    if lo >= hi then 0 else |Collect(tree, leaves, lo, [])| + Total(tree, leaves, lo + 1, hi)
  }

  lemma {:induction false} TotalSplit(tree: Children, leaves: seq<nat>, lo: nat, mid: nat, hi: nat)
    requires IsTree(tree) && lo <= mid <= hi <= |tree|
    ensures Total(tree, leaves, lo, hi) == Total(tree, leaves, lo, mid) + Total(tree, leaves, mid, hi)
    decreases mid - lo
  {
    if lo < mid {
      TotalSplit(tree, leaves, lo + 1, mid, hi);
    }
  }

  /** The number of keys below a node does not depend on the key it is reached by. */
  lemma {:induction false} CollectLength(tree: Children, leaves: seq<nat>, node: nat, key: seq<byte>, key': seq<byte>)
    requires IsTree(tree) && node < |tree|
    ensures |Collect(tree, leaves, node, key)| == |Collect(tree, leaves, node, key')|
    decreases |tree| - node, 0, 0
  {
    EdgesLength(tree, leaves, node, 0, key, key');
  }

  lemma {:induction false} EdgesLength(tree: Children, leaves: seq<nat>, node: nat, j: nat, key: seq<byte>,
    key': seq<byte>)
    requires IsTree(tree) && node < |tree| && j <= |tree[node]|
    ensures |CollectEdges(tree, leaves, node, j, key)| == |CollectEdges(tree, leaves, node, j, key')|
    decreases |tree| - node - 1, 1, |tree[node]| - j
  {
    if j < |tree[node]| {
      ChildBounds(tree, node, j);
      var edge := tree[node][j];
      CollectLength(tree, leaves, edge.child, key + [edge.symbol], key' + [edge.symbol]);
      EdgesLength(tree, leaves, node, j + 1, key, key');
    }
  }

  /** The keys below a node's edges are those of the consecutive block of its children. */
  lemma {:induction false} EdgesTotal(tree: Children, leaves: seq<nat>, node: nat, j: nat, key: seq<byte>)
    requires IsTree(tree) && node < |tree| && j <= |tree[node]|
    ensures FirstChild(tree, node + 1) <= |tree|
    ensures |CollectEdges(tree, leaves, node, j, key)| ==
      Total(tree, leaves, FirstChild(tree, node) + j, FirstChild(tree, node + 1))
    decreases |tree[node]| - j
  {
    FirstChildGrows(tree, node + 1, |tree|);
    if j < |tree[node]| {
      ChildBounds(tree, node, j);
      var edge := tree[node][j];
      CollectLength(tree, leaves, edge.child, key + [edge.symbol], []);
      EdgesTotal(tree, leaves, node, j + 1, key);
    }
  }

  /** The breadth-first frontier at node `i` yields the marks from `i` on. */
  lemma {:induction false} FrontierTotal(tree: Children, leaves: seq<nat>, i: nat)
    requires IsTree(tree) && i <= |tree|
    ensures i <= FirstChild(tree, i) <= |tree|
    ensures Total(tree, leaves, i, FirstChild(tree, i)) == Marks(leaves, i, |tree|)
    decreases |tree| - i
  {
    FirstChildGrows(tree, i, |tree|);
    if i < |tree| {
      FrontierTotal(tree, leaves, i + 1);
      EdgesTotal(tree, leaves, i, 0, []);
      TotalSplit(tree, leaves, i + 1, FirstChild(tree, i), FirstChild(tree, i + 1));
    }
  }

  /** For every accepted input, collection emits exactly one key per marked node. */
  lemma OneKeyPerMark(bitmap: seq<nat>, labels: seq<byte>, leaves: seq<nat>)
    requires DecodeTree(bitmap, labels).Ok?
    ensures
      var tree := DecodeTree(bitmap, labels).value;
      IsTree(tree) && |Collect(tree, leaves, 0, [])| == Marks(leaves, 0, |labels| + 1)
  {
    AcceptedIsTree(bitmap, labels);
    var tree := DecodeTree(bitmap, labels).value;
    FrontierTotal(tree, leaves, 0);
    assert Total(tree, leaves, 1, 1) == 0;
  }
}
