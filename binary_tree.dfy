/**
 * The binary search tree exercise: nodes carrying a key and a C string, a
 * recursive insertion that sends keys at most the current one left and
 * larger keys right, and a bounded preorder collection of the nodes.
 *
 * Node pointers are indices into an arena of node records; a NULL link is
 * None. A record only ever links to records allocated after it, which keeps
 * every structure acyclic.
 */
module BinaryTree {
  import opened Wrappers

  const MAX_NODES := 1024

  /** The data a node carries: a C string, or NULL. */
  type Data = Option<string>

  /** struct Node: key, data and the two child links. */
  datatype Rec = Rec(value: nat, data: Data, left: Option<nat>, right: Option<nat>)

  /** A key and its data, as the traversal reports them. */
  datatype Item = Item(value: nat, data: Data)

  /** The tree a node heads, as a value. */
  datatype Tree = Empty | Branch(left: Tree, value: nat, data: Data, right: Tree)

  // ------------------------------------------------------------ tree values

  function Leaf(it: Item): Tree {
    Branch(Empty, it.value, it.data, Empty)
  }

  function Values(t: Tree): multiset<nat> {
    match t
    case Empty => multiset{}
    case Branch(l, v, _, r) => Values(l) + multiset{v} + Values(r)
  }

  function Size(t: Tree): nat {
    match t
    case Empty => 0
    case Branch(l, _, _, r) => Size(l) + 1 + Size(r)
  }

  /** Every key of the left subtree is at most the node's key, every key of the right one is greater. */
  predicate IsBst(t: Tree) {
    match t
    case Empty => true
    case Branch(l, v, _, r) =>
      IsBst(l) && IsBst(r) &&
      (forall x :: x in Values(l) ==> x <= v) &&
      (forall x :: x in Values(r) ==> x > v)
  }

  /** insert on values: sub hangs at the empty slot its key leads to. */
  function Inserted(t: Tree, sub: Tree): Tree
    requires sub.Branch?
  {
    match t
    case Empty => sub
    case Branch(l, v, d, r) =>
      if sub.value <= v then Branch(Inserted(l, sub), v, d, r)
      else Branch(l, v, d, Inserted(r, sub))
  }

  /** Insertion adds exactly the keys of the inserted subtree. */
  lemma {:induction false} InsertedValues(t: Tree, sub: Tree)
    requires sub.Branch?
    ensures Values(Inserted(t, sub)) == Values(t) + Values(sub)
  {
    match t
    case Empty =>
    case Branch(l, v, d, r) =>
      if sub.value <= v {
        InsertedValues(l, sub);
        assert Inserted(t, sub) == Branch(Inserted(l, sub), v, d, r);
        Regroup(Values(l), Values(sub), multiset{v}, Values(r));
      } else {
        InsertedValues(r, sub);
        assert Inserted(t, sub) == Branch(l, v, d, Inserted(r, sub));
      }
  }

  lemma Regroup(a: multiset<nat>, s: multiset<nat>, m: multiset<nat>, b: multiset<nat>)
    ensures (a + s) + m + b == a + m + b + s
  {
  }

  /** Insertion adds exactly the nodes of the inserted subtree. */
  lemma {:induction false} InsertedSize(t: Tree, sub: Tree)
    requires sub.Branch?
    ensures Size(Inserted(t, sub)) == Size(t) + Size(sub)
  {
    match t
    case Empty =>
    case Branch(l, v, d, r) =>
      if sub.value <= v {
        InsertedSize(l, sub);
      } else {
        InsertedSize(r, sub);
      }
  }

  /** Inserting a single node keeps the search-tree order. */
  lemma {:induction false} InsertedBst(t: Tree, it: Item)
    requires IsBst(t)
    ensures IsBst(Inserted(t, Leaf(it)))
  {
    match t
    case Empty =>
    case Branch(l, v, d, r) =>
      if it.value <= v {
        InsertedBst(l, it);
        InsertedValues(l, Leaf(it));
      } else {
        InsertedBst(r, it);
        InsertedValues(r, Leaf(it));
      }
  }

  /** The keys and data in traversal order: left subtree, node, right subtree. */
  function InOrder(t: Tree): seq<Item> {
    match t
    case Empty => []
    case Branch(l, v, d, r) => InOrder(l) + [Item(v, d)] + InOrder(r)
  }

  /** The keys of a sequence of items, in order. */
  function KeyList(s: seq<Item>): (keys: seq<nat>)
    ensures |keys| == |s| && forall k :: 0 <= k < |s| ==> keys[k] == s[k].value
  {
    seq(|s|, k requires 0 <= k < |s| => s[k].value)
  }

  function Keys(s: seq<Item>): multiset<nat> {
    multiset(KeyList(s))
  }

  lemma KeysConcat(a: seq<Item>, b: seq<Item>)
    ensures Keys(a + b) == Keys(a) + Keys(b)
  {
    assert KeyList(a + b) == KeyList(a) + KeyList(b);
  }

  /** Keys never decrease along the sequence. */
  predicate Ascending(s: seq<Item>) {
    forall i, j :: 0 <= i < j < |s| ==> s[i].value <= s[j].value
  }

  /** The traversal lists every key of the tree, once per node. */
  lemma {:induction false} InOrderKeys(t: Tree)
    ensures Keys(InOrder(t)) == Values(t)
  {
    match t
    case Empty =>
    case Branch(l, v, d, r) =>
      InOrderKeys(l);
      InOrderKeys(r);
      KeysConcat(InOrder(l), [Item(v, d)]);
      KeysConcat(InOrder(l) + [Item(v, d)], InOrder(r));
      assert KeyList([Item(v, d)]) == [v];
  }

  lemma AscendingJoin(sl: seq<Item>, it: Item, sr: seq<Item>)
    requires Ascending(sl) && Ascending(sr)
    requires forall k :: 0 <= k < |sl| ==> sl[k].value <= it.value
    requires forall k :: 0 <= k < |sr| ==> sr[k].value > it.value
    ensures Ascending(sl + [it] + sr)
  {
    var s := sl + [it] + sr;
    forall i, j | 0 <= i < j < |s| ensures s[i].value <= s[j].value {
      if j < |sl| {
        assert s[i] == sl[i] && s[j] == sl[j];
      } else if i > |sl| {
        assert s[i] == sr[i - |sl| - 1] && s[j] == sr[j - |sl| - 1];
      } else if i == |sl| {
        assert s[j] == sr[j - |sl| - 1];
      } else {
        assert s[i] == sl[i];
        if j > |sl| {
          assert s[j] == sr[j - |sl| - 1];
        }
      }
    }
  }

  /** The traversal of a search tree lists its keys in ascending order. */
  lemma {:induction false} InOrderAscending(t: Tree)
    requires IsBst(t)
    ensures Ascending(InOrder(t))
  {
    match t
    case Empty =>
    case Branch(l, v, d, r) =>
      InOrderAscending(l);
      InOrderAscending(r);
      InOrderKeys(l);
      InOrderKeys(r);
      var sl, sr := InOrder(l), InOrder(r);
      forall k | 0 <= k < |sl| ensures sl[k].value <= v {
        KeyIn(sl, k);
      }
      forall k | 0 <= k < |sr| ensures sr[k].value > v {
        KeyIn(sr, k);
      }
      AscendingJoin(sl, Item(v, d), sr);
  }

  lemma KeyIn(s: seq<Item>, k: nat)
    requires k < |s|
    ensures s[k].value in Keys(s)
  {
    assert KeyList(s)[k] in KeyList(s);
  }

  /** The tree built by inserting items, one node each, below a root node. */
  function Build(root: Item, items: seq<Item>): Tree {
    if items == [] then Leaf(root)
    else Inserted(Build(root, items[..|items| - 1]), Leaf(items[|items| - 1]))
  }

  /** Whatever the order of insertion, the result is a search tree. */
  lemma {:induction false} BuildBst(root: Item, items: seq<Item>)
    ensures IsBst(Build(root, items))
  {
    if items != [] {
      var init := items[..|items| - 1];
      BuildBst(root, init);
      InsertedBst(Build(root, init), items[|items| - 1]);
    }
  }

  /** The built tree holds the root's key and every inserted key. */
  lemma {:induction false} BuildValues(root: Item, items: seq<Item>)
    ensures Values(Build(root, items)) == Keys([root] + items)
  {
    if items == [] {
      assert KeyList([root]) == [root.value];
    } else {
      BuildValues(root, items[..|items| - 1]);
      BuildValuesStep(root, items);
      KeysStep(root, items);
    }
  }

  lemma BuildValuesStep(root: Item, items: seq<Item>)
    requires items != []
    ensures Values(Build(root, items)) ==
      Values(Build(root, items[..|items| - 1])) + multiset{items[|items| - 1].value}
  {
    var last := items[|items| - 1];
    InsertedValues(Build(root, items[..|items| - 1]), Leaf(last));
    assert Values(Leaf(last)) == multiset{last.value};
  }

  lemma KeysStep(root: Item, items: seq<Item>)
    requires items != []
    ensures Keys([root] + items) == Keys([root] + items[..|items| - 1]) + multiset{items[|items| - 1].value}
  {
    var last := items[|items| - 1];
    assert [root] + items == ([root] + items[..|items| - 1]) + [last];
    KeysConcat([root] + items[..|items| - 1], [last]);
    assert KeyList([last]) == [last.value];
  }

  // ----------------------------------------------- order of insertion

  /** The set of keys in a tree. */
  function KeySet(t: Tree): set<nat> {
    match t
    case Empty => {}
    case Branch(l, v, _, r) => KeySet(l) + {v} + KeySet(r)
  }

  /** The key set holds exactly the keys the key multiset counts. */
  lemma {:induction false} KeySetIsValues(t: Tree)
    ensures forall x :: x in KeySet(t) <==> x in Values(t)
  {
    match t
    case Empty =>
    case Branch(l, v, _, r) =>
      KeySetIsValues(l);
      KeySetIsValues(r);
  }

  /** A search tree whose keys are pairwise distinct. */
  predicate IsStrictBst(t: Tree) {
    match t
    case Empty => true
    case Branch(l, v, _, r) =>
      IsStrictBst(l) && IsStrictBst(r) &&
      (forall x :: x in KeySet(l) ==> x < v) &&
      (forall x :: x in KeySet(r) ==> x > v)
  }

  lemma {:induction false} InsertedKeySet(t: Tree, it: Item)
    ensures KeySet(Inserted(t, Leaf(it))) == KeySet(t) + {it.value}
  {
    match t
    case Empty =>
    case Branch(l, v, d, r) =>
      if it.value <= v {
        InsertedKeySet(l, it);
      } else {
        InsertedKeySet(r, it);
      }
  }

  /** Inserting a key the tree does not hold keeps the keys distinct. */
  lemma {:induction false} InsertedStrict(t: Tree, it: Item)
    requires IsStrictBst(t) && it.value !in KeySet(t)
    ensures IsStrictBst(Inserted(t, Leaf(it)))
  {
    match t
    case Empty =>
    case Branch(l, v, d, r) =>
      if it.value <= v {
        InsertedStrict(l, it);
        InsertedKeySet(l, it);
      } else {
        InsertedStrict(r, it);
        InsertedKeySet(r, it);
      }
  }

  /** No two items share a key. */
  predicate DistinctKeys(s: seq<Item>) {
    forall i, j :: 0 <= i < j < |s| ==> s[i].value != s[j].value
  }

  function SeqKeys(s: seq<Item>): set<nat> {
    set k | 0 <= k < |s| :: s[k].value
  }

  /** The key set of a list of items holds exactly the keys its key multiset counts. */
  lemma SeqKeysIsKeys(s: seq<Item>)
    ensures forall x :: x in SeqKeys(s) <==> x in Keys(s)
  {
    forall x ensures x in SeqKeys(s) <==> x in Keys(s) {
      if x in Keys(s) {
        var k :| 0 <= k < |s| && KeyList(s)[k] == x;
      }
    }
  }

  /** A strict search tree is a search tree over the same keys. */
  lemma {:induction false} StrictBstIsBst(t: Tree)
    requires IsStrictBst(t)
    ensures IsBst(t)
  {
    match t
    case Empty =>
    case Branch(l, v, _, r) =>
      StrictBstIsBst(l);
      StrictBstIsBst(r);
      KeySetIsValues(l);
      KeySetIsValues(r);
  }

  /** The built tree holds the keys of the root and of the inserted items. */
  lemma {:induction false} BuildKeySet(root: Item, items: seq<Item>)
    ensures KeySet(Build(root, items)) == SeqKeys([root] + items)
  {
    if items == [] {
      assert [root] + items == [root];
      assert SeqKeys([root]) == {root.value} by {
        assert [root][0] == root;
      }
    } else {
      var init, last := items[..|items| - 1], items[|items| - 1];
      var u, w := [root] + items, [root] + init;
      BuildKeySet(root, init);
      InsertedKeySet(Build(root, init), last);
      assert u == w + [last];
      forall x | x in SeqKeys(u) ensures x in SeqKeys(w) + {last.value} {
        var k :| 0 <= k < |u| && u[k].value == x;
        if k < |w| {
          assert w[k] == u[k];
        }
      }
      forall x | x in SeqKeys(w) ensures x in SeqKeys(u) {
        var k :| 0 <= k < |w| && w[k].value == x;
        assert u[k] == w[k];
      }
      assert u[|w|] == last;
      assert last.value in SeqKeys(u);
    }
  }

  /** Inserting items with distinct keys, in any order, builds a search tree without repeated keys. */
  lemma {:induction false} BuildStrict(root: Item, items: seq<Item>)
    requires DistinctKeys([root] + items)
    ensures IsStrictBst(Build(root, items))
  {
    if items != [] {
      var init, last := items[..|items| - 1], items[|items| - 1];
      var u, w := [root] + items, [root] + init;
      assert w == u[..|items|];
      BuildStrict(root, init);
      BuildKeySet(root, init);
      assert last == u[|items|];
      assert last.value !in SeqKeys(w);
      InsertedStrict(Build(root, init), last);
    }
  }

  /** The traversal of the built tree holds exactly the root and the inserted items. */
  lemma {:induction false} BuildItems(root: Item, items: seq<Item>)
    ensures forall x :: x in InOrder(Build(root, items)) <==> x in [root] + items
  {
    if items == [] {
      assert InOrder(Leaf(root)) == [root];
      assert [root] + items == [root];
    } else {
      var init, last := items[..|items| - 1], items[|items| - 1];
      BuildItems(root, init);
      InOrderInserted(Build(root, init), last);
      assert [root] + items == ([root] + init) + [last];
    }
  }

  /** The traversal after an insertion holds the old items and the new one. */
  lemma {:induction false} InOrderInserted(t: Tree, it: Item)
    ensures forall x :: x in InOrder(Inserted(t, Leaf(it))) <==> x in InOrder(t) || x == it
  {
    match t
    case Empty =>
      assert InOrder(Leaf(it)) == [it];
    case Branch(l, v, d, r) =>
      if it.value <= v {
        InOrderInserted(l, it);
      } else {
        InOrderInserted(r, it);
      }
  }

  /** Keys strictly increase along the sequence. */
  predicate StrictlyAscending(s: seq<Item>) {
    forall i, j :: 0 <= i < j < |s| ==> s[i].value < s[j].value
  }

  lemma StrictJoin(sl: seq<Item>, it: Item, sr: seq<Item>)
    requires StrictlyAscending(sl) && StrictlyAscending(sr)
    requires forall k :: 0 <= k < |sl| ==> sl[k].value < it.value
    requires forall k :: 0 <= k < |sr| ==> sr[k].value > it.value
    ensures StrictlyAscending(sl + [it] + sr)
  {
    var s := sl + [it] + sr;
    forall i, j | 0 <= i < j < |s| ensures s[i].value < s[j].value {
      if j < |sl| {
        assert s[i] == sl[i] && s[j] == sl[j];
      } else if i > |sl| {
        assert s[i] == sr[i - |sl| - 1] && s[j] == sr[j - |sl| - 1];
      } else if i == |sl| {
        assert s[j] == sr[j - |sl| - 1];
      } else {
        assert s[i] == sl[i];
        if j > |sl| {
          assert s[j] == sr[j - |sl| - 1];
        }
      }
    }
  }

  /** A search tree without repeated keys lists its keys in strictly ascending order. */
  lemma {:induction false} InOrderStrict(t: Tree)
    requires IsStrictBst(t)
    ensures StrictlyAscending(InOrder(t))
  {
    match t
    case Empty =>
    case Branch(l, v, d, r) =>
      InOrderStrict(l);
      InOrderStrict(r);
      InOrderKeySet(l);
      InOrderKeySet(r);
      var sl, sr := InOrder(l), InOrder(r);
      forall k | 0 <= k < |sl| ensures sl[k].value < v {
        assert sl[k].value in KeySet(l);
      }
      forall k | 0 <= k < |sr| ensures sr[k].value > v {
        assert sr[k].value in KeySet(r);
      }
      StrictJoin(sl, Item(v, d), sr);
  }

  /** Every key the traversal lists is a key of the tree. */
  lemma {:induction false} InOrderKeySet(t: Tree)
    ensures forall k :: 0 <= k < |InOrder(t)| ==> InOrder(t)[k].value in KeySet(t)
  {
    match t
    case Empty =>
    case Branch(l, v, d, r) =>
      InOrderKeySet(l);
      InOrderKeySet(r);
      var sl, sr := InOrder(l), InOrder(r);
      var s := sl + [Item(v, d)] + sr;
      forall k | 0 <= k < |s| ensures s[k].value in KeySet(t) {
        if k < |sl| {
          assert s[k] == sl[k];
        } else if k > |sl| {
          assert s[k] == sr[k - |sl| - 1];
        }
      }
  }

  /** Two strictly ascending sequences holding the same items are the same sequence. */
  lemma {:induction false} StrictlyAscendingUnique(a: seq<Item>, b: seq<Item>)
    requires StrictlyAscending(a) && StrictlyAscending(b)
    requires forall x :: x in a <==> x in b
    ensures a == b
  {
    assert a != [] ==> a[0] in b;
    assert b != [] ==> b[0] in a;
    if a != [] && b != [] {
      SameFirst(a, b);
      SameTail(a, b);
      SameTail(b, a);
      StrictlyAscendingUnique(a[1..], b[1..]);
      assert a == [a[0]] + a[1..] && b == [b[0]] + b[1..];
    }
  }

  /** The smallest key comes first, so both sequences start with the same item. */
  lemma SameFirst(a: seq<Item>, b: seq<Item>)
    requires StrictlyAscending(a) && StrictlyAscending(b)
    requires a != [] && b != []
    requires a[0] in b && b[0] in a
    ensures a[0] == b[0]
  {
    var i :| 0 <= i < |b| && b[i] == a[0];
    var j :| 0 <= j < |a| && a[j] == b[0];
  }

  lemma SameTail(a: seq<Item>, b: seq<Item>)
    requires StrictlyAscending(a) && StrictlyAscending(b)
    requires forall x :: x in a ==> x in b
    requires a != [] && b != [] && a[0] == b[0]
    ensures forall x :: x in a[1..] ==> x in b[1..]
  {
    forall x | x in a[1..] ensures x in b[1..] {
      var k :| 0 <= k < |a[1..]| && a[1..][k] == x;
      assert x == a[k + 1] && x.value > a[0].value;
      assert x in a;
      var m :| 0 <= m < |b| && b[m] == x;
      assert b[1..][m - 1] == x;
    }
  }

  /**
   * Whatever the order of insertion, the traversal of a tree built from
   * items with distinct keys is those items sorted by key.
   */
  lemma InOrderIsSorted(root: Item, items: seq<Item>, sorted: seq<Item>)
    requires DistinctKeys([root] + items)
    requires StrictlyAscending(sorted)
    requires forall x :: x in [root] + items <==> x in sorted
    ensures InOrder(Build(root, items)) == sorted
  {
    BuildStrict(root, items);
    BuildItems(root, items);
    InOrderStrict(Build(root, items));
    StrictlyAscendingUnique(InOrder(Build(root, items)), sorted);
  }

  /** Insertion order does not matter: the same items traverse the same way. */
  lemma InsertionOrderIrrelevant(root1: Item, items1: seq<Item>, root2: Item, items2: seq<Item>)
    requires DistinctKeys([root1] + items1) && DistinctKeys([root2] + items2)
    requires forall x :: x in [root1] + items1 <==> x in [root2] + items2
    ensures InOrder(Build(root1, items1)) == InOrder(Build(root2, items2))
  {
    BuildStrict(root1, items1);
    BuildItems(root1, items1);
    InOrderStrict(Build(root1, items1));
    InOrderIsSorted(root2, items2, InOrder(Build(root1, items1)));
  }

  // ------------------------------------------------------ degenerate trees

  /** Every node has an empty left subtree: the tree is a list going right. */
  predicate RightChain(t: Tree) {
    match t
    case Empty => true
    case Branch(l, _, _, r) => l == Empty && RightChain(r)
  }

  /** Every node has an empty right subtree: the tree is a list going left. */
  predicate LeftChain(t: Tree) {
    match t
    case Empty => true
    case Branch(l, _, _, r) => r == Empty && LeftChain(l)
  }

  lemma {:induction false} InsertedRightChain(t: Tree, it: Item)
    requires RightChain(t) && forall x :: x in KeySet(t) ==> x < it.value
    ensures RightChain(Inserted(t, Leaf(it)))
  {
    match t
    case Empty =>
    case Branch(l, v, d, r) =>
      assert v in KeySet(t);
      InsertedRightChain(r, it);
  }

  lemma {:induction false} InsertedLeftChain(t: Tree, it: Item)
    requires LeftChain(t) && forall x :: x in KeySet(t) ==> it.value <= x
    ensures LeftChain(Inserted(t, Leaf(it)))
  {
    match t
    case Empty =>
    case Branch(l, v, d, r) =>
      assert v in KeySet(t);
      InsertedLeftChain(l, it);
  }

  /** Keys never increase along the sequence. */
  predicate Descending(s: seq<Item>) {
    forall i, j :: 0 <= i < j < |s| ==> s[i].value >= s[j].value
  }

  /** Inserting strictly increasing keys after the root gives a tree that only grows right. */
  lemma {:induction false} IncreasingBuildsRightChain(root: Item, items: seq<Item>)
    requires StrictlyAscending([root] + items)
    ensures RightChain(Build(root, items))
  {
    if items != [] {
      var init, last := items[..|items| - 1], items[|items| - 1];
      var u, w := [root] + items, [root] + init;
      assert w == u[..|items|];
      IncreasingBuildsRightChain(root, init);
      BuildKeySet(root, init);
      forall x | x in KeySet(Build(root, init)) ensures x < last.value {
        var k :| 0 <= k < |w| && w[k].value == x;
        assert u[k] == w[k] && u[|items|] == last;
      }
      InsertedRightChain(Build(root, init), last);
    }
  }

  /**
   * Inserting non-increasing keys after the root gives a tree that only
   * grows left; equal keys go left too, so repeats do not break the chain.
   */
  lemma {:induction false} DecreasingBuildsLeftChain(root: Item, items: seq<Item>)
    requires Descending([root] + items)
    ensures LeftChain(Build(root, items))
  {
    if items != [] {
      var init, last := items[..|items| - 1], items[|items| - 1];
      var u, w := [root] + items, [root] + init;
      assert w == u[..|items|];
      DecreasingBuildsLeftChain(root, init);
      BuildKeySet(root, init);
      forall x | x in KeySet(Build(root, init)) ensures last.value <= x {
        var k :| 0 <= k < |w| && w[k].value == x;
        assert u[k] == w[k] && u[|items|] == last;
      }
      InsertedLeftChain(Build(root, init), last);
    }
  }

  // ------------------------------------------------------ nodes in memory

  /** A link is NULL or points to a record allocated after p. */
  predicate Later(link: Option<nat>, p: nat, n: nat) {
    link.None? || p < link.value < n
  }

  /** Every child link points forward in the arena, so no chain of links is a cycle. */
  predicate Linked(nodes: seq<Rec>) {
    forall p :: 0 <= p < |nodes| ==> Later(nodes[p].left, p, |nodes|) && Later(nodes[p].right, p, |nodes|)
  }

  /** The records reachable from record i, i included. */
  function Reach(nodes: seq<Rec>, i: nat): (reach: set<nat>)
    requires Linked(nodes) && i < |nodes|
    ensures i in reach
    ensures forall q :: q in reach ==> i <= q < |nodes|
    decreases |nodes| - i
  {
    var r := nodes[i];
    {i} +
    (if r.left.Some? then Reach(nodes, r.left.value) else {}) +
    (if r.right.Some? then Reach(nodes, r.right.value) else {})
  }

  /** The tree record i heads. */
  function TreeAt(nodes: seq<Rec>, i: nat): (t: Tree)
    requires Linked(nodes) && i < |nodes|
    decreases |nodes| - i
  {
    var r := nodes[i];
    Branch(if r.left.Some? then TreeAt(nodes, r.left.value) else Empty,
           r.value, r.data,
           if r.right.Some? then TreeAt(nodes, r.right.value) else Empty)
  }

  /** The two subtrees of every reachable record share no record: the links form a tree. */
  predicate Shaped(nodes: seq<Rec>, i: nat)
    requires Linked(nodes) && i < |nodes|
    decreases |nodes| - i
  {
    var r := nodes[i];
    (r.left.Some? ==> Shaped(nodes, r.left.value)) &&
    (r.right.Some? ==> Shaped(nodes, r.right.value)) &&
    (r.left.Some? && r.right.Some? ==> Reach(nodes, r.left.value) !! Reach(nodes, r.right.value))
  }

  /** A tree depends only on the records reachable from its root. */
  lemma {:induction false} TreeFrame(n1: seq<Rec>, n2: seq<Rec>, i: nat)
    requires Linked(n1) && Linked(n2) && i < |n1| == |n2|
    requires forall q :: q in Reach(n1, i) ==> n1[q] == n2[q]
    ensures TreeAt(n1, i) == TreeAt(n2, i)
    ensures Reach(n1, i) == Reach(n2, i)
    ensures Shaped(n1, i) == Shaped(n2, i)
    decreases |n1| - i
  {
    var r := n1[i];
    assert n2[i] == r;
    if r.left.Some? {
      TreeFrame(n1, n2, r.left.value);
    }
    if r.right.Some? {
      TreeFrame(n1, n2, r.right.value);
    }
  }

  /** The record below which insert hangs a node of key v: the last one on v's search path. */
  function Slot(nodes: seq<Rec>, i: nat, v: nat): (p: nat)
    requires Linked(nodes) && i < |nodes|
    ensures p in Reach(nodes, i)
    ensures if v <= nodes[p].value then nodes[p].left.None? else nodes[p].right.None?
    decreases |nodes| - i
  {
    var r := nodes[i];
    if v <= r.value then
      if r.left.Some? then Slot(nodes, r.left.value, v) else i
    else
      if r.right.Some? then Slot(nodes, r.right.value, v) else i
  }

  /** The arena after insert(node, root): the one empty link at the slot now points to node. */
  function Attached(nodes: seq<Rec>, root: nat, node: nat): seq<Rec>
    requires Linked(nodes) && root < |nodes| && node < |nodes|
  {
    var v := nodes[node].value;
    var p := Slot(nodes, root, v);
    nodes[p := if v <= nodes[p].value then nodes[p].(left := Some(node)) else nodes[p].(right := Some(node))]
  }

  /**
   * insert changes a single link, one that was NULL, to point to node, and
   * keeps every link pointing forward when node is younger than every
   * record of root's tree.
   */
  lemma AttachedLinked(nodes: seq<Rec>, root: nat, node: nat)
    requires Linked(nodes) && root < |nodes| && node < |nodes|
    requires forall q :: q in Reach(nodes, root) ==> q < node
    ensures var a, p := Attached(nodes, root, node), Slot(nodes, root, nodes[node].value);
      && Linked(a) && |a| == |nodes|
      && (forall q :: 0 <= q < |nodes| && q != p ==> a[q] == nodes[q])
      && a[p].value == nodes[p].value && a[p].data == nodes[p].data
      && ((nodes[p].left.None? && a[p].left == Some(node) && a[p].right == nodes[p].right) ||
          (nodes[p].right.None? && a[p].right == Some(node) && a[p].left == nodes[p].left))
  {
  }

  /** What attaching node below root's tree does to that tree, as a value. */
  predicate AttachedIsInserted(nodes: seq<Rec>, root: nat, node: nat)
    requires Linked(nodes) && root < |nodes| && node < |nodes|
  {
    var a := Attached(nodes, root, node);
    && Linked(a)
    && TreeAt(a, root) == Inserted(TreeAt(nodes, root), TreeAt(nodes, node))
    && Reach(a, root) == Reach(nodes, root) + Reach(nodes, node)
    && Shaped(a, root)
  }

  /**
   * Hanging a tree-shaped node below a tree of older records inserts the
   * node's tree into root's tree and keeps the links a tree.
   */
  lemma {:induction false} AttachedTree(nodes: seq<Rec>, root: nat, node: nat)
    requires Linked(nodes) && root < |nodes| && node < |nodes|
    requires Shaped(nodes, root) && Shaped(nodes, node)
    requires forall q :: q in Reach(nodes, root) ==> q < node
    ensures AttachedIsInserted(nodes, root, node)
    decreases |nodes| - root, 1
  {
    AttachedLinked(nodes, root, node);
    TreeFrame(nodes, Attached(nodes, root, node), node);
    if nodes[node].value <= nodes[root].value {
      AttachedLeft(nodes, root, node);
    } else {
      AttachedRight(nodes, root, node);
    }
  }

  lemma {:induction false} AttachedLeft(nodes: seq<Rec>, root: nat, node: nat)
    requires Linked(nodes) && root < |nodes| && node < |nodes|
    requires Shaped(nodes, root) && Shaped(nodes, node)
    requires forall q :: q in Reach(nodes, root) ==> q < node
    requires nodes[node].value <= nodes[root].value
    requires Linked(Attached(nodes, root, node)) && |Attached(nodes, root, node)| == |nodes|
    requires TreeAt(Attached(nodes, root, node), node) == TreeAt(nodes, node)
    requires Reach(Attached(nodes, root, node), node) == Reach(nodes, node)
    requires Shaped(Attached(nodes, root, node), node) == Shaped(nodes, node)
    ensures AttachedIsInserted(nodes, root, node)
    decreases |nodes| - root, 0
  {
    var a, r := Attached(nodes, root, node), nodes[root];
    if r.left.Some? {
      AttachedTree(nodes, r.left.value, node);
      assert a == Attached(nodes, r.left.value, node);
    }
    if r.right.Some? {
      TreeFrame(nodes, a, r.right.value);
    }
  }

  lemma {:induction false} AttachedRight(nodes: seq<Rec>, root: nat, node: nat)
    requires Linked(nodes) && root < |nodes| && node < |nodes|
    requires Shaped(nodes, root) && Shaped(nodes, node)
    requires forall q :: q in Reach(nodes, root) ==> q < node
    requires nodes[node].value > nodes[root].value
    requires Linked(Attached(nodes, root, node)) && |Attached(nodes, root, node)| == |nodes|
    requires TreeAt(Attached(nodes, root, node), node) == TreeAt(nodes, node)
    requires Reach(Attached(nodes, root, node), node) == Reach(nodes, node)
    requires Shaped(Attached(nodes, root, node), node) == Shaped(nodes, node)
    ensures AttachedIsInserted(nodes, root, node)
    decreases |nodes| - root, 0
  {
    var a, r := Attached(nodes, root, node), nodes[root];
    if r.right.Some? {
      AttachedTree(nodes, r.right.value, node);
      assert a == Attached(nodes, r.right.value, node);
    }
    if r.left.Some? {
      TreeFrame(nodes, a, r.left.value);
    }
  }

  // ------------------------------------------------------ preorder collection

  /** The records of the tree at i, root first, then the left subtree, then the right one. */
  function Preorder(nodes: seq<Rec>, i: nat): seq<nat>
    requires Linked(nodes) && i < |nodes|
    decreases |nodes| - i
  {
    var r := nodes[i];
    [i] +
    (if r.left.Some? then Preorder(nodes, r.left.value) else []) +
    (if r.right.Some? then Preorder(nodes, r.right.value) else [])
  }

  /** The preorder of a NULL pointer is empty. */
  function PreorderAt(nodes: seq<Rec>, root: Option<nat>): seq<nat>
    requires Linked(nodes) && (root.Some? ==> root.value < |nodes|)
  {
    if root.Some? then Preorder(nodes, root.value) else []
  }

  /** The preorder lists one record per node of the tree. */
  lemma {:induction false} PreorderSize(nodes: seq<Rec>, i: nat)
    requires Linked(nodes) && i < |nodes|
    ensures |Preorder(nodes, i)| == Size(TreeAt(nodes, i))
    decreases |nodes| - i
  {
    var r := nodes[i];
    if r.left.Some? {
      PreorderSize(nodes, r.left.value);
    }
    if r.right.Some? {
      PreorderSize(nodes, r.right.value);
    }
  }

  /** The preorder lists exactly the reachable records. */
  lemma {:induction false} PreorderReach(nodes: seq<Rec>, i: nat)
    requires Linked(nodes) && i < |nodes|
    ensures forall q :: q in Preorder(nodes, i) <==> q in Reach(nodes, i)
    decreases |nodes| - i
  {
    var r := nodes[i];
    if r.left.Some? {
      PreorderReach(nodes, r.left.value);
    }
    if r.right.Some? {
      PreorderReach(nodes, r.right.value);
    }
  }

  /** In a tree-shaped structure the preorder never lists a record twice. */
  lemma {:induction false} PreorderDistinct(nodes: seq<Rec>, i: nat)
    requires Linked(nodes) && i < |nodes| && Shaped(nodes, i)
    ensures NoRepeats(Preorder(nodes, i))
    decreases |nodes| - i
  {
    var r := nodes[i];
    var pl, pr := PreorderAt(nodes, r.left), PreorderAt(nodes, r.right);
    var rl := if r.left.Some? then Reach(nodes, r.left.value) else {};
    var rr := if r.right.Some? then Reach(nodes, r.right.value) else {};
    if r.left.Some? {
      PreorderDistinct(nodes, r.left.value);
      PreorderReach(nodes, r.left.value);
    }
    if r.right.Some? {
      PreorderDistinct(nodes, r.right.value);
      PreorderReach(nodes, r.right.value);
    }
    assert rl !! rr;
    assert forall q :: q in pl ==> q in rl && i < q;
    assert forall q :: q in pr ==> q in rr && i < q;
    assert Preorder(nodes, i) == [i] + pl + pr;
    DistinctJoin(i, pl, pr, rl, rr);
  }

  /** No element occurs twice in s. */
  predicate NoRepeats(s: seq<nat>) {
    forall j, k :: 0 <= j < k < |s| ==> s[j] != s[k]
  }

  lemma DistinctJoin(i: nat, pl: seq<nat>, pr: seq<nat>, rl: set<nat>, rr: set<nat>)
    requires NoRepeats(pl) && NoRepeats(pr) && rl !! rr
    requires forall q :: q in pl ==> q in rl && i < q
    requires forall q :: q in pr ==> q in rr && i < q
    ensures NoRepeats([i] + pl + pr)
  {
    var s := [i] + pl + pr;
    forall j, k | 0 <= j < k < |s| ensures s[j] != s[k] {
      if 0 < j && k <= |pl| {
        assert s[j] == pl[j - 1] && s[k] == pl[k - 1];
      } else if j > |pl| {
        assert s[j] == pr[j - 1 - |pl|] && s[k] == pr[k - 1 - |pl|];
      } else if j == 0 {
        if k <= |pl| {
          assert s[k] == pl[k - 1] && pl[k - 1] in pl;
        } else {
          assert s[k] == pr[k - 1 - |pl|] && pr[k - 1 - |pl|] in pr;
        }
      } else {
        assert s[j] == pl[j - 1] && pl[j - 1] in pl;
        assert s[k] == pr[k - 1 - |pl|] && pr[k - 1 - |pl|] in pr;
      }
    }
  }

  function Min(a: int, b: int): int {
    if a <= b then a else b
  }

  // ------------------------------------------------------------------ heap

  /** The nodes malloc has handed out; a node pointer is an index into nodes. */
  class Heap {
    var nodes: seq<Rec>

    /** An empty heap. */
    constructor()
      ensures nodes == []
    {
      nodes := [];
    }

    /**
     * allocate_node_with_data: a new record with the key, the data and two
     * NULL links, or NULL when malloc fails.
     */
    method AllocateNodeWithData(value: nat, data: Data, mallocFails: bool) returns (node: Option<nat>)
      requires Linked(nodes)
      modifies this
      ensures mallocFails ==> node == None && nodes == old(nodes)
      ensures !mallocFails ==> node == Some(|old(nodes)|) && nodes == old(nodes) + [Rec(value, data, None, None)]
      ensures Linked(nodes)
      ensures node.Some? ==> TreeAt(nodes, node.value) == Leaf(Item(value, data)) && Shaped(nodes, node.value)
      ensures node.Some? ==> Reach(nodes, node.value) == {node.value}
      ensures forall q :: 0 <= q < |old(nodes)| ==>
                TreeAt(nodes, q) == TreeAt(old(nodes), q) && Reach(nodes, q) == Reach(old(nodes), q) &&
                Shaped(nodes, q) == Shaped(old(nodes), q)
    {
      if mallocFails {
        return None;
      }
      ghost var before := nodes;
      node := Some(|nodes|);
      nodes := nodes + [Rec(value, data, None, None)];
      forall q | 0 <= q < |before|
        ensures TreeAt(nodes, q) == TreeAt(before, q) && Reach(nodes, q) == Reach(before, q)
        ensures Shaped(nodes, q) == Shaped(before, q)
      {
        Extended(before, nodes, q);
      }
    }

    /** allocate_node: a node without data. */
    method AllocateNode(value: nat, mallocFails: bool) returns (node: Option<nat>)
      requires Linked(nodes)
      modifies this
      ensures mallocFails ==> node == None && nodes == old(nodes)
      ensures !mallocFails ==> node == Some(|old(nodes)|) && nodes == old(nodes) + [Rec(value, None, None, None)]
      ensures Linked(nodes)
      ensures node.Some? ==> TreeAt(nodes, node.value) == Leaf(Item(value, None)) && Shaped(nodes, node.value)
    {
      node := AllocateNodeWithData(value, None, mallocFails);
    }

    /**
     * insert: walks down from root, left for a key at most the current
     * one, right otherwise, and links node in at the first NULL child.
     * node must be younger than every record of root's tree, which rules
     * out hanging a tree below itself.
     */
    method Insert(node: nat, root: nat)
      requires Linked(nodes) && root < |nodes| && node < |nodes|
      requires Shaped(nodes, root) && Shaped(nodes, node)
      requires forall q :: q in Reach(nodes, root) ==> q < node
      modifies this
      ensures nodes == Attached(old(nodes), root, node)
      ensures Linked(nodes) && Shaped(nodes, root)
      ensures TreeAt(nodes, root) == Inserted(TreeAt(old(nodes), root), TreeAt(old(nodes), node))
      ensures Reach(nodes, root) == Reach(old(nodes), root) + Reach(old(nodes), node)
      decreases |nodes| - root
    {
      ghost var before := nodes;
      var r := nodes[root];
      if nodes[node].value <= r.value {
        if r.left.Some? {
          assert Reach(nodes, r.left.value) <= Reach(nodes, root);
          Insert(node, r.left.value);
        } else {
          nodes := nodes[root := r.(left := Some(node))];
        }
      } else {
        if r.right.Some? {
          assert Reach(nodes, r.right.value) <= Reach(nodes, root);
          Insert(node, r.right.value);
        } else {
          nodes := nodes[root := r.(right := Some(node))];
        }
      }
      AttachedTree(before, root, node);
    }

    /**
     * get_all_nodes: stores the records of root's tree in preorder into
     * the buffer from index num on, stopping once the array's MAX_NODES slots
     * are full, and returns the index after the last one written.
     */
    method GetAllNodes(root: Option<nat>, buffer: array?<nat>, num: nat) returns (r: nat)
      requires Linked(nodes) && (root.Some? ==> root.value < |nodes|)
      requires num <= MAX_NODES && (buffer != null ==> buffer.Length >= MAX_NODES)
      modifies buffer
      ensures root.None? || buffer == null ==> r == num
      ensures buffer != null ==> r == num + Min(|PreorderAt(nodes, root)|, MAX_NODES - num)
      ensures buffer != null ==> Spliced(old(buffer[..]), buffer[..], num, r, PreorderAt(nodes, root))
      decreases if root.Some? then |nodes| - root.value else 0
    {
      if root.None? {
        return num;
      }
      if buffer == null {
        return num;
      }
      if num == MAX_NODES {
        return num;
      }
      ghost var s := buffer[..];
      var rec := nodes[root.value];
      buffer[num] := root.value;
      r := num + 1;
      ghost var s0, mid := buffer[..], r;
      ghost var pl, pr := PreorderAt(nodes, rec.left), PreorderAt(nodes, rec.right);
      if rec.left.Some? {
        r := GetAllNodes(rec.left, buffer, r);
      }
      ghost var s1, last := buffer[..], r;
      if rec.right.Some? {
        r := GetAllNodes(rec.right, buffer, r);
      }
      CollectedPreorder(nodes, root.value, num, mid, last, r);
      Collected(s, s0, s1, buffer[..], root.value, pl, pr, num, last, r);
    }
  }

  /** Appending a record leaves every older record's tree as it was. */
  lemma {:induction false} Extended(before: seq<Rec>, after: seq<Rec>, q: nat)
    requires Linked(before) && Linked(after) && q < |before| <= |after|
    requires after[..|before|] == before
    ensures TreeAt(after, q) == TreeAt(before, q) && Reach(after, q) == Reach(before, q)
    ensures Shaped(after, q) == Shaped(before, q)
    decreases |before| - q
  {
    assert after[q] == before[q];
    var r := before[q];
    if r.left.Some? {
      Extended(before, after, r.left.value);
    }
    if r.right.Some? {
      Extended(before, after, r.right.value);
    }
  }

  /** How the counts of get_all_nodes' two recursive calls add up. */
  lemma CollectedPreorder(nodes: seq<Rec>, i: nat, num: nat, mid: nat, last: nat, r: nat)
    requires Linked(nodes) && i < |nodes| && num < MAX_NODES && mid == num + 1
    requires last == mid + Min(|PreorderAt(nodes, nodes[i].left)|, MAX_NODES - mid)
    requires r == last + Min(|PreorderAt(nodes, nodes[i].right)|, MAX_NODES - last)
    ensures r == num + Min(|Preorder(nodes, i)|, MAX_NODES - num)
  {
  }

  /** after is before with its slots from..to overwritten by a prefix of p. */
  ghost predicate Spliced(before: seq<nat>, after: seq<nat>, from: nat, to: nat, p: seq<nat>) {
    |after| == |before| && from <= to <= |after| && to - from <= |p| &&
    after[..from] == before[..from] && after[from..to] == p[..to - from] && after[to..] == before[to..]
  }

  /** How get_all_nodes' three writes make up the preorder prefix. */
  lemma Collected(s: seq<nat>, s0: seq<nat>, s1: seq<nat>, s2: seq<nat>, i: nat, pl: seq<nat>, pr: seq<nat>,
                  num: nat, last: nat, r: nat)
    requires num < |s| == |s0| == |s1| == |s2| && num < last <= r <= |s|
    requires s0 == s[num := i]
    requires Spliced(s0, s1, num + 1, last, pl) && Spliced(s1, s2, last, r, pr)
    requires r > last ==> last - num - 1 == |pl|
    requires r - num <= 1 + |pl| + |pr|
    ensures Spliced(s, s2, num, r, [i] + pl + pr)
  {
    var pre := [i] + pl + pr;
    forall k | num <= k < r ensures s2[k] == pre[k - num] {
      if k == num {
        assert s2[k] == s1[k] == s0[k];
      } else if k < last {
        assert s2[k] == s1[k] == s1[num + 1..last][k - num - 1] == pl[k - num - 1];
        assert pre[k - num] == pl[k - num - 1];
      } else {
        assert s2[k] == s2[last..r][k - last] == pr[k - last];
        assert pre[k - num] == pr[k - num - 1 - |pl|];
      }
    }
    forall k | 0 <= k < num ensures s2[k] == s[k] {
      assert s2[k] == s1[k] == s0[k];
    }
    forall k | r <= k < |s| ensures s2[k] == s[k] {
      assert s2[k] == s2[r..][k - r] == s1[k];
      assert s1[k] == s1[last..][k - last] == s0[k];
    }
  }

  // ------------------------------------------------------ the lab's trees

  function W(value: nat, word: string): Item {
    Item(value, Some(word))
  }

  /** The lab's sentence, in key order. */
  const QUICK_FOX := [W(1, "A"), W(3, "quick"), W(4, "brown"), W(6, "fox"), W(7, "jumps"),
                      W(8, "over"), W(10, "the"), W(13, "lazy"), W(14, "dog")]

  /** Both insertion orders of the first two example trees traverse as the same sentence. */
  lemma QuickFoxExamples()
    ensures InOrder(Build(W(8, "over"), [W(3, "quick"), W(10, "the"), W(1, "A"), W(6, "fox"),
                                         W(13, "lazy"), W(7, "jumps"), W(4, "brown"), W(14, "dog")])) == QUICK_FOX
    ensures InOrder(Build(W(6, "fox"), [W(1, "A"), W(8, "over"), W(7, "jumps"), W(3, "quick"),
                                        W(10, "the"), W(14, "dog"), W(13, "lazy"), W(4, "brown")])) == QUICK_FOX
  {
    InOrderIsSorted(W(8, "over"), [W(3, "quick"), W(10, "the"), W(1, "A"), W(6, "fox"),
                                   W(13, "lazy"), W(7, "jumps"), W(4, "brown"), W(14, "dog")], QUICK_FOX);
    InOrderIsSorted(W(6, "fox"), [W(1, "A"), W(8, "over"), W(7, "jumps"), W(3, "quick"),
                                  W(10, "the"), W(14, "dog"), W(13, "lazy"), W(4, "brown")], QUICK_FOX);
  }

  const OWLS := [W(2, "The"), W(3, "owls"), W(5, "are"), W(7, "not"), W(8, "what"),
                 W(10, "they"), W(15, "seem"), W(16, "!")]

  /** The third example: increasing keys build a right-going list that traverses in insertion order. */
  lemma OwlsExample()
    ensures RightChain(Build(OWLS[0], OWLS[1..]))
    ensures InOrder(Build(OWLS[0], OWLS[1..])) == OWLS
  {
    assert [OWLS[0]] + OWLS[1..] == OWLS;
    IncreasingBuildsRightChain(OWLS[0], OWLS[1..]);
    InOrderIsSorted(OWLS[0], OWLS[1..], OWLS);
  }

  const NI := [W(2, "We"), W(3, "shall"), W(4, "say"), W(5, "\"Ni\""), W(6, "to"), W(8, "you..."),
               W(10, "if"), W(11, "you"), W(15, "do"), W(16, "not"), W(17, "appease"), W(19, "us.")]

  /** The fourth example: decreasing keys build a left-going list that traverses in reverse insertion order. */
  lemma NiExample()
    ensures LeftChain(Build(W(19, "us."), [W(17, "appease"), W(16, "not"), W(15, "do"), W(11, "you"), W(10, "if"),
                                           W(8, "you..."), W(6, "to"), W(5, "\"Ni\""), W(4, "say"), W(3, "shall"), W(2, "We")]))
    ensures InOrder(Build(W(19, "us."), [W(17, "appease"), W(16, "not"), W(15, "do"), W(11, "you"), W(10, "if"),
                                         W(8, "you..."), W(6, "to"), W(5, "\"Ni\""), W(4, "say"), W(3, "shall"), W(2, "We")])) == NI
  {
    var items := [W(17, "appease"), W(16, "not"), W(15, "do"), W(11, "you"), W(10, "if"),
                  W(8, "you..."), W(6, "to"), W(5, "\"Ni\""), W(4, "say"), W(3, "shall"), W(2, "We")];
    DecreasingBuildsLeftChain(W(19, "us."), items);
    InOrderIsSorted(W(19, "us."), items, NI);
  }
}
