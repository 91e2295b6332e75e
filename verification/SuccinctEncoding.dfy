/**
 The reference encoder of the succinct trie: the breadth-first encoding of a finite key set.
 Decoding it with the functions of `SuccinctTrie` returns that set, each key once.
 */
module SuccinctEncoding {
  import opened Basics
  import opened SuccinctTrie

  /** A trie node carries the symbol on the edge that leads to it; at the root it means nothing. */
  datatype Trie = Node(symbol: byte, leaf: bool, kids: seq<Trie>)

  // ---------------------------------------------------------------- breadth-first order

  function Size(t: Trie): (n: nat)
    ensures n >= 1
    decreases t, 0
  {
    1 + QueueSize(t.kids)
  }

  function QueueSize(queue: seq<Trie>): nat
    decreases queue, 1
  {
    if queue == [] then 0 else Size(queue[0]) + QueueSize(queue[1..])
  }

  lemma {:induction false} QueueSizeAppend(a: seq<Trie>, b: seq<Trie>)
    ensures QueueSize(a + b) == QueueSize(a) + QueueSize(b)
    decreases |a|
  {
    if a == [] {
      assert a + b == b;
    } else {
      assert (a + b)[1..] == a[1..] + b;
      QueueSizeAppend(a[1..], b);
    }
  }

  /** The nodes reached from a queue, in breadth-first order. */
  function Bfs(queue: seq<Trie>): seq<Trie>
    decreases QueueSize(queue)
  {
    if queue == [] then []
    else
      QueueSizeAppend(queue[1..], queue[0].kids);
      assert Size(queue[0]) == 1 + QueueSize(queue[0].kids);
      [queue[0]] + Bfs(queue[1..] + queue[0].kids)
  }

  /** The number of edges that leave the first `m` nodes. */
  function Edges(nodes: seq<Trie>, m: nat): nat
    requires m <= |nodes|
  {
    if m == 0 then 0 else Edges(nodes, m - 1) + |nodes[m - 1].kids|
  }

  lemma {:induction false} EdgesCons(t: Trie, nodes: seq<Trie>, m: nat)
    requires m <= |nodes|
    ensures Edges([t] + nodes, m + 1) == |t.kids| + Edges(nodes, m)
    decreases m
  {
    if m > 0 {
      EdgesCons(t, nodes, m - 1);
    } else {
      assert Edges([t] + nodes, 0) == 0;
    }
  }

  lemma {:induction false} EdgesGrow(nodes: seq<Trie>, i: nat, m: nat)
    requires i <= m <= |nodes|
    ensures Edges(nodes, i) <= Edges(nodes, m)
    ensures i < m ==> Edges(nodes, i) + |nodes[i].kids| <= Edges(nodes, m)
    decreases m
  {
    if i < m {
      EdgesGrow(nodes, i, m - 1);
    }
  }

  /** Node `m` comes after the nodes queued before it, and its kids stand where it appends them. */
  ghost predicate Placed(nodes: seq<Trie>, queued: nat, m: nat)
    requires m < |nodes|
  {
    var first := queued + Edges(nodes, m);
    && m < first
    && first + |nodes[m].kids| <= |nodes|
    && nodes[first..first + |nodes[m].kids|] == nodes[m].kids
  }

  /** The queue comes first; each node adds its kids behind what is queued already. */
  ghost predicate InOrder(nodes: seq<Trie>, queued: nat) {
    && |nodes| == queued + Edges(nodes, |nodes|)
    && forall m :: 0 <= m < |nodes| ==> Placed(nodes, queued, m)
  }

  lemma PlacedCons(t: Trie, tail: seq<Trie>, queued: nat, m: nat)
    requires m < |tail| && Placed(tail, queued + |t.kids|, m)
    ensures Placed([t] + tail, 1 + queued, m + 1)
  {
    hide Edges;
    EdgesCons(t, tail, m);
    var first, n := queued + |t.kids| + Edges(tail, m), |tail[m].kids|;
    assert ([t] + tail)[1 + first..1 + first + n] == tail[first..first + n];
  }

  lemma PlacedFirst(t: Trie, queue: seq<Trie>, tail: seq<Trie>)
    requires |queue| + |t.kids| <= |tail| && tail[..|queue| + |t.kids|] == queue + t.kids
    ensures Placed([t] + tail, 1 + |queue|, 0)
  {
    var nodes, q, n := [t] + tail, |queue|, |t.kids|;
    assert Edges(nodes, 0) == 0;
    assert nodes[1 + q..1 + q + n] == tail[..q + n][q..];
  }

  /** Taking one node off the queue and appending its kids keeps the order. */
  lemma InOrderCons(t: Trie, queue: seq<Trie>, tail: seq<Trie>)
    requires |queue| + |t.kids| <= |tail| && tail[..|queue| + |t.kids|] == queue + t.kids
    requires InOrder(tail, |queue| + |t.kids|)
    ensures InOrder([t] + tail, 1 + |queue|)
  {
    hide Edges, Placed;
    EdgesCons(t, tail, |tail|);
    var nodes, queued := [t] + tail, 1 + |queue|;
    forall m | 0 <= m < |nodes| ensures Placed(nodes, queued, m) {
      if m == 0 {
        PlacedFirst(t, queue, tail);
      } else {
        PlacedCons(t, tail, |queue|, m - 1);
      }
    }
  }

  lemma {:induction false} BfsInOrder(queue: seq<Trie>)
    ensures |queue| <= |Bfs(queue)| && Bfs(queue)[..|queue|] == queue
    ensures InOrder(Bfs(queue), |queue|)
    decreases QueueSize(queue)
  {
    hide InOrder;
    if queue == [] {
      InOrderEmpty();
    } else {
      var t, rest := queue[0], queue[1..] + queue[0].kids;
      QueueSizeAppend(queue[1..], t.kids);
      assert Size(t) == 1 + QueueSize(t.kids);
      BfsInOrder(rest);
      InOrderCons(t, queue[1..], Bfs(rest));
      assert Bfs(rest)[..|queue| - 1] == rest[..|queue| - 1] == queue[1..];
      assert queue == [t] + queue[1..];
    }
  }

  lemma InOrderEmpty()
    ensures InOrder([], 0)
  {
  }

  // ---------------------------------------------------------------- the encoding

  function NodeBits(t: Trie): seq<bool> {
    seq(|t.kids|, _ => false) + [true]
  }

  function NodeLabels(t: Trie): (s: seq<byte>)
    ensures |s| == |t.kids|
  {
    seq(|t.kids|, j requires 0 <= j < |t.kids| => t.kids[j].symbol)
  }

  /** The bitmap of the first `m` nodes: a zero per kid and a closing one each. */
  function Bitmap(nodes: seq<Trie>, m: nat): (b: seq<bool>)
    requires m <= |nodes|
    ensures |b| == Edges(nodes, m) + m
  {
    if m == 0 then [] else Bitmap(nodes, m - 1) + NodeBits(nodes[m - 1])
  }

  function Labels(nodes: seq<Trie>, m: nat): (s: seq<byte>)
    requires m <= |nodes|
    ensures |s| == Edges(nodes, m)
  {
    if m == 0 then [] else Labels(nodes, m - 1) + NodeLabels(nodes[m - 1])
  }

  function Leaves(nodes: seq<Trie>): seq<bool> {
    seq(|nodes|, m requires 0 <= m < |nodes| => nodes[m].leaf)
  }

  lemma {:induction false} BitmapAt(nodes: seq<Trie>, m: nat, n: nat, j: nat)
    requires m < n <= |nodes| && j <= |nodes[m].kids|
    ensures Edges(nodes, m) + m + j < |Bitmap(nodes, n)|
    ensures Bitmap(nodes, n)[Edges(nodes, m) + m + j] == (j == |nodes[m].kids|)
    decreases n
  {
    if m < n - 1 {
      BitmapAt(nodes, m, n - 1, j);
    }
  }

  lemma {:induction false} LabelsAt(nodes: seq<Trie>, m: nat, n: nat, j: nat)
    requires m < n <= |nodes| && j < |nodes[m].kids|
    ensures Edges(nodes, m) + j < |Labels(nodes, n)|
    ensures Labels(nodes, n)[Edges(nodes, m) + j] == nodes[m].kids[j].symbol
    decreases n
  {
    if m < n - 1 {
      LabelsAt(nodes, m, n - 1, j);
    }
  }

  // ---------------------------------------------------------------- decoding the encoding

  /** The tree with the first `m` nodes done, `j` kids of the next one, and `size` nodes in all. */
  ghost predicate Built(tree: Children, nodes: seq<Trie>, m: nat, j: nat) {
    && m <= |nodes|
    && (m < |nodes| ==> j <= |nodes[m].kids|) && (m == |nodes| ==> j == 0)
    && |tree| == 1 + Edges(nodes, m) + j
    && m <= |tree| <= |nodes|
    && (forall i, k :: 0 <= i < m && 0 <= k < |nodes[i].kids| ==>
          |tree[i]| == |nodes[i].kids| && tree[i][k] == Edge(nodes[i].kids[k].symbol, 1 + Edges(nodes, i) + k))
    && (forall i :: 0 <= i < m ==> |tree[i]| == |nodes[i].kids|)
    && (m < |tree| ==> |tree[m]| == j && forall k :: 0 <= k < j ==>
          tree[m][k] == Edge(nodes[m].kids[k].symbol, 1 + Edges(nodes, m) + k))
    && (forall i :: m < i < |tree| ==> tree[i] == [])
  }

  lemma BuiltKid(tree: Children, nodes: seq<Trie>, m: nat, j: nat)
    requires InOrder(nodes, 1) && Built(tree, nodes, m, j) && m < |nodes| && j < |nodes[m].kids| && m < |tree|
    ensures Built(AddChild(tree, m, nodes[m].kids[j].symbol), nodes, m, j + 1)
  {
    EdgesGrow(nodes, m, |nodes|);
  }

  lemma BuiltNode(tree: Children, nodes: seq<Trie>, m: nat)
    requires InOrder(nodes, 1) && m < |nodes| && Built(tree, nodes, m, |nodes[m].kids|) && m < |tree|
    ensures Built(tree, nodes, m + 1, 0)
  {
    EdgesGrow(nodes, m, m + 1);
    assert Placed(nodes, 1, m);
    if m + 1 < |nodes| { assert Placed(nodes, 1, m + 1); }
  }

  lemma BuiltSize(tree: Children, nodes: seq<Trie>, m: nat, j: nat)
    requires InOrder(nodes, 1) && Built(tree, nodes, m, j)
    ensures m <= |nodes| && (m == |nodes| ==> j == 0 && |tree| == |nodes| == 1 + Edges(nodes, |nodes|))
    ensures m < |nodes| ==> m < |tree| && j <= |nodes[m].kids|
    ensures m < |nodes| ==> Edges(nodes, m) + |nodes[m].kids| == Edges(nodes, m + 1) <= Edges(nodes, |nodes|)
  {
    if m < |nodes| {
      EdgesGrow(nodes, m + 1, |nodes|);
      assert Placed(nodes, 1, m);
    }
  }

  /** What the decoder sees at kid `j` of node `m`. */
  lemma EncodedAt(nodes: seq<Trie>, m: nat, j: nat)
    requires m < |nodes| && j <= |nodes[m].kids|
    ensures Bit(Pack(Bitmap(nodes, |nodes|)), Edges(nodes, m) + m + j) == (j == |nodes[m].kids|)
    ensures j < |nodes[m].kids| ==>
              && Edges(nodes, m) + j < |Labels(nodes, |nodes|)|
              && Labels(nodes, |nodes|)[Edges(nodes, m) + j] == nodes[m].kids[j].symbol
  {
    BitmapAt(nodes, m, |nodes|, j);
    PackBit(Bitmap(nodes, |nodes|), Edges(nodes, m) + m + j);
    if j < |nodes[m].kids| {
      LabelsAt(nodes, m, |nodes|, j);
    }
  }

  /** The decoder rebuilds the breadth-first node list of the encoding. */
  lemma {:induction false} DecodeBuilt(nodes: seq<Trie>, bitmap: seq<nat>, labels: seq<byte>, tree: Children, m: nat,
    j: nat)
    requires InOrder(nodes, 1) && Built(tree, nodes, m, j)
    requires bitmap == Pack(Bitmap(nodes, |nodes|)) && labels == Labels(nodes, |nodes|)
    requires Edges(nodes, m) + j <= |labels|
    ensures
      var r := DecodeFrom(bitmap, labels, tree, Edges(nodes, m) + m + j, Edges(nodes, m) + j, m);
      r.Ok? && Built(r.value, nodes, |nodes|, 0)
    decreases |nodes| - m, if m < |nodes| then |nodes[m].kids| - j else 0
  {
    hide Built, InOrder, Bit, Pack, Bitmap, Labels, AddChild;
    BuiltSize(tree, nodes, m, j);
    if m < |nodes| {
      EncodedAt(nodes, m, j);
      if j < |nodes[m].kids| {
        BuiltKid(tree, nodes, m, j);
        DecodeBuilt(nodes, bitmap, labels, AddChild(tree, m, nodes[m].kids[j].symbol), m, j + 1);
      } else {
        BuiltNode(tree, nodes, m);
        DecodeBuilt(nodes, bitmap, labels, tree, m + 1, 0);
      }
    }
  }

  /** The keys of a trie in pre-order, as the collector emits them. */
  function Keys(t: Trie, key: seq<byte>): seq<seq<byte>>
    decreases t, 0
  {
    (if t.leaf then [key] else []) + KidKeys(t.kids, key)
  }

  function KidKeys(kids: seq<Trie>, key: seq<byte>): seq<seq<byte>>
    decreases kids, 1
  {
    if kids == [] then [] else Keys(kids[0], key + [kids[0].symbol]) + KidKeys(kids[1..], key)
  }

  /** An edge of the rebuilt tree leads to the node that holds the kid. */
  lemma BuiltEdge(tree: Children, nodes: seq<Trie>, m: nat)
    requires InOrder(nodes, 1) && Built(tree, nodes, |nodes|, 0) && m < |nodes| && |tree| == |nodes|
    ensures |tree[m]| == |nodes[m].kids|
    ensures forall j :: 0 <= j < |tree[m]| ==>
              && tree[m][j].symbol == nodes[m].kids[j].symbol
              && tree[m][j].child < |nodes| && nodes[tree[m][j].child] == nodes[m].kids[j]
  {
    hide Edges;
    assert Placed(nodes, 1, m);
    forall j | 0 <= j < |tree[m]|
      ensures tree[m][j].child < |nodes| && nodes[tree[m][j].child] == nodes[m].kids[j]
    {
      var first := 1 + Edges(nodes, m);
      assert tree[m][j] == Edge(nodes[m].kids[j].symbol, first + j);
      assert nodes[first..first + |nodes[m].kids|][j] == nodes[m].kids[j];
    }
  }

  /** Collection from the rebuilt tree follows the trie. */
  lemma {:induction false} CollectIsKeys(nodes: seq<Trie>, tree: Children, leaves: seq<nat>, m: nat, key: seq<byte>)
    requires InOrder(nodes, 1) && IsTree(tree) && Built(tree, nodes, |nodes|, 0) && m < |nodes| && |tree| == |nodes|
    requires forall i :: 0 <= i < |nodes| ==> Bit(leaves, i) == nodes[i].leaf
    ensures Collect(tree, leaves, m, key) == Keys(nodes[m], key)
    decreases |tree| - m, 0, 0
  {
    CollectIsKidKeys(nodes, tree, leaves, m, 0, key);
    assert nodes[m].kids[0..] == nodes[m].kids;
  }

  lemma {:induction false} CollectIsKidKeys(nodes: seq<Trie>, tree: Children, leaves: seq<nat>, m: nat, j: nat,
    key: seq<byte>)
    requires InOrder(nodes, 1) && IsTree(tree) && Built(tree, nodes, |nodes|, 0) && m < |nodes| && |tree| == |nodes|
    requires forall i :: 0 <= i < |nodes| ==> Bit(leaves, i) == nodes[i].leaf
    requires j <= |tree[m]|
    ensures |tree[m]| == |nodes[m].kids| && CollectEdges(tree, leaves, m, j, key) == KidKeys(nodes[m].kids[j..], key)
    decreases |tree| - m - 1, 1, |tree[m]| - j
  {
    hide Built, InOrder, Bit;
    BuiltEdge(tree, nodes, m);
    if j < |tree[m]| {
      ChildBounds(tree, m, j);
      var kid := nodes[m].kids[j];
      CollectIsKeys(nodes, tree, leaves, tree[m][j].child, key + [kid.symbol]);
      CollectIsKidKeys(nodes, tree, leaves, m, j + 1, key);
      assert nodes[m].kids[j..][1..] == nodes[m].kids[j + 1..];
    }
  }

  /** Decoding the breadth-first encoding of any trie emits exactly the keys of the trie. */
  lemma DecodeTrie(t: Trie)
    ensures
      var nodes := Bfs([t]);
      var r := DecodeTree(Pack(Bitmap(nodes, |nodes|)), Labels(nodes, |nodes|));
      r.Ok? && IsTree(r.value) && Collect(r.value, Pack(Leaves(nodes)), 0, []) == Keys(t, [])
  {
    var nodes := Bfs([t]);
    BfsInOrder([t]);
    assert nodes[0] == t;
    var bitmap, labels, leaves := Pack(Bitmap(nodes, |nodes|)), Labels(nodes, |nodes|), Pack(Leaves(nodes));
    assert Edges(nodes, 0) == 0;
    EdgesGrow(nodes, 0, |nodes|);
    DecodeBuilt(nodes, bitmap, labels, [[]], 0, 0);
    AcceptedIsTree(bitmap, labels);
    forall i | 0 <= i < |nodes| ensures Bit(leaves, i) == nodes[i].leaf {
      PackBit(Leaves(nodes), i);
    }
    CollectIsKeys(nodes, DecodeTree(bitmap, labels).value, leaves, 0, []);
  }

  // ---------------------------------------------------------------- key sets

  ghost predicate Bounded(keys: set<seq<byte>>, n: nat) {
    forall k :: k in keys ==> |k| <= n
  }

  /** What follows the first symbol `b` in the keys that start with it. */
  ghost function Tails(keys: set<seq<byte>>, b: byte): (r: set<seq<byte>>)
    ensures forall k :: k in r <==> [b] + k in keys
  {
    var r := set k | k in keys && |k| > 0 && k[0] == b :: k[1..];
    assert forall k :: [b] + k in keys ==> ([b] + k)[1..] == k;
    assert forall k :: k in keys && |k| > 0 && k[0] == b ==> [b] + k[1..] == k;
    r
  }

  /** The trie of a key set; its kids are ordered by symbol and lead to at least one key each. */
  ghost function TrieOf(symbol: byte, keys: set<seq<byte>>, n: nat): Trie
    requires Bounded(keys, n)
    decreases n, 257
  {
    Node(symbol, [] in keys, if n == 0 then [] else KidsFrom(keys, n, 0))
  }

  ghost function KidsFrom(keys: set<seq<byte>>, n: nat, b: nat): seq<Trie>
    requires n > 0 && Bounded(keys, n) && b <= 256
    decreases n, 256 - b
  {
    if b == 256 then []
    else
      var symbol := b as byte;
      var tails := Tails(keys, symbol);
      TailsBounded(keys, n, symbol);
      (if tails == {} then [] else [TrieOf(symbol, tails, n - 1)]) + KidsFrom(keys, n, b + 1)
  }

  lemma TailsBounded(keys: set<seq<byte>>, n: nat, b: byte)
    requires n > 0 && Bounded(keys, n)
    ensures Bounded(Tails(keys, b), n - 1)
  {
    forall k | k in Tails(keys, b) ensures |k| <= n - 1 {
      assert |[b] + k| <= n;
    }
  }

  /** How often `x` is among the keys: once if it is `prefix` extended by a key of the set. */
  ghost function Once(keys: set<seq<byte>>, prefix: seq<byte>, x: seq<byte>): nat {
    if prefix <= x && x[|prefix|..] in keys then 1 else 0
  }

  /** The symbol of `x` that follows `prefix`, or -1. */
  ghost function Next(prefix: seq<byte>, x: seq<byte>): (i: int)
    ensures -1 <= i < 256
  {
    if prefix < x then x[|prefix|] as int else -1
  }

  lemma {:induction false} TrieKeys(symbol: byte, keys: set<seq<byte>>, n: nat, prefix: seq<byte>, x: seq<byte>)
    requires Bounded(keys, n)
    ensures multiset(Keys(TrieOf(symbol, keys, n), prefix))[x] == Once(keys, prefix, x)
    decreases n, 257
  {
    var t := TrieOf(symbol, keys, n);
    var own := if t.leaf then [prefix] else [];
    assert multiset(Keys(t, prefix)) == multiset(own) + multiset(KidKeys(t.kids, prefix));
    if prefix <= x {
      assert x == prefix + x[|prefix|..];
      assert x[|prefix|..] == [] <==> x == prefix;
    }
    if n > 0 {
      KidsKeys(keys, n, 0, prefix, x);
    }
  }

  /** The keys below the kid of symbol `b`, if there is one, and below the later kids. */
  lemma KidsSplit(keys: set<seq<byte>>, n: nat, b: nat, prefix: seq<byte>)
    requires n > 0 && Bounded(keys, n) && b < 256
    ensures
      var symbol := b as byte;
      var tails := Tails(keys, symbol);
      var later := multiset(KidKeys(KidsFrom(keys, n, b + 1), prefix));
      && Bounded(tails, n - 1)
      && multiset(KidKeys(KidsFrom(keys, n, b), prefix))
         == if tails == {} then later
            else multiset(Keys(TrieOf(symbol, tails, n - 1), prefix + [symbol])) + later
  {
    hide Tails, Keys;
    var symbol := b as byte;
    var tails, rest := Tails(keys, symbol), KidsFrom(keys, n, b + 1);
    TailsBounded(keys, n, symbol);
    if tails == {} {
      assert KidsFrom(keys, n, b) == [] + rest == rest;
    } else {
      KidKeysCons(TrieOf(symbol, tails, n - 1), rest, prefix);
    }
  }

  lemma {:induction false} KidsKeys(keys: set<seq<byte>>, n: nat, b: nat, prefix: seq<byte>, x: seq<byte>)
    requires n > 0 && Bounded(keys, n) && b <= 256
    ensures multiset(KidKeys(KidsFrom(keys, n, b), prefix))[x] ==
            if Next(prefix, x) >= b then Once(keys, prefix, x) else 0
    decreases n, 256 - b
  {
    hide Tails, Keys, TrieOf, Bounded, KidKeys, KidsFrom, Next, Once;
    if b == 256 {
      NoKids(keys, n, b, prefix, x);
      return;
    }
    var symbol := b as byte;
    var tails := Tails(keys, symbol);
    var later := multiset(KidKeys(KidsFrom(keys, n, b + 1), prefix));
    KidsKeys(keys, n, b + 1, prefix, x);
    TailsOnce(keys, prefix, symbol, x);
    KidsSplit(keys, n, b, prefix);
    if tails == {} {
      NeverInEmpty(prefix + [symbol], x);
    } else {
      TrieKeys(symbol, tails, n - 1, prefix + [symbol], x);
      var own := multiset(Keys(TrieOf(symbol, tails, n - 1), prefix + [symbol]));
      assert (own + later)[x] == own[x] + later[x];
    }
  }

  lemma NoKids(keys: set<seq<byte>>, n: nat, b: nat, prefix: seq<byte>, x: seq<byte>)
    requires n > 0 && Bounded(keys, n) && b == 256
    ensures multiset(KidKeys(KidsFrom(keys, n, b), prefix))[x] == 0
  {
  }

  lemma NeverInEmpty(prefix: seq<byte>, x: seq<byte>)
    ensures Once({}, prefix, x) == 0
  {
  }

  lemma KidKeysCons(kid: Trie, rest: seq<Trie>, prefix: seq<byte>)
    ensures multiset(KidKeys([kid] + rest, prefix))
         == multiset(Keys(kid, prefix + [kid.symbol])) + multiset(KidKeys(rest, prefix))
  {
    assert ([kid] + rest)[1..] == rest;
  }

  /** The keys with one more symbol of the prefix fixed. */
  lemma TailsOnce(keys: set<seq<byte>>, prefix: seq<byte>, symbol: byte, x: seq<byte>)
    ensures Once(Tails(keys, symbol), prefix + [symbol], x)
         == if Next(prefix, x) == symbol as int then Once(keys, prefix, x) else 0
  {
    var longer := prefix + [symbol];
    if longer <= x {
      assert x[..|longer|] == longer && x[..|prefix|] == prefix;
      assert [symbol] + x[|longer|..] == x[|prefix|..];
    }
  }

  /** A length no key exceeds. */
  lemma {:induction false} SomeBound(keys: set<seq<byte>>) returns (n: nat)
    ensures Bounded(keys, n)
    decreases keys
  {
    if keys == {} {
      n := 0;
    } else {
      var k :| k in keys;
      n := SomeBound(keys - {k});
      n := Max(n, |k|);
    }
  }

  /** Every finite key set is the key set of a trie, each key once. */
  lemma TrieOfKeySet(keys: set<seq<byte>>) returns (t: Trie)
    ensures multiset(Keys(t, [])) == multiset(keys)
  {
    var n := SomeBound(keys);
    t := TrieOf(0, keys, n);
    forall x ensures multiset(Keys(t, []))[x] == multiset(keys)[x] {
      TrieKeys(0, keys, n, [], x);
      assert x[0..] == x;
    }
  }

  /**
   For every finite key set there is a trie whose encoding decodes to exactly that set, each
   key once.
   */
  lemma DecodeKeySet(keys: set<seq<byte>>) returns (t: Trie)
    ensures
      var nodes := Bfs([t]);
      var r := DecodeTree(Pack(Bitmap(nodes, |nodes|)), Labels(nodes, |nodes|));
      r.Ok? && IsTree(r.value) && multiset(Collect(r.value, Pack(Leaves(nodes)), 0, [])) == multiset(keys)
  {
    t := TrieOfKeySet(keys);
    DecodeTrie(t);
  }
}
