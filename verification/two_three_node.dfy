/** The nodes of the 2-3 tree and the vocabulary that describes a store of
    nodes.

    Node objects are records in a store (a map from references to records)
    owned by the tree; a `null` reference is `None`. The structural facts
    about the tree (which nodes form it, the order of its leaves, the
    balance, the cached keys and sizes, the parent pointers, the leaf list)
    are predicates over the store, and what an assignment to a field leaves
    intact is decided once, by the `...Kept` lemmas. */
module TwoThreeNode {
  import opened Wrappers

  /** A reference to a node. */
  type Ref = nat

  /** A possibly-null reference to a node. */
  type Ptr = Option<Ref>

  /** The fields that make up the shape of the tree and its caches: an
      internal node has 2 or 3 children and caches the largest key below it
      (`key`) and the number of leaves below it (`size`); a leaf has its own
      key and size 1. A `None` key is the `null` key of a fresh internal
      node. */
  datatype Shape = Shape(key: Option<int>, left: Ptr, middle: Ptr, right: Ptr, isLeaf: bool, size: int)

  /** A node: its shape, its parent, and (for leaves) its neighbours in the
      leaf list and its value. */
  datatype Node<V> = Node(shape: Shape, parent: Ptr, prev: Ptr, next: Ptr, value: Option<V>)

  /** A store of nodes: the heap of the tree. */
  type Store<V> = map<Ref, Node<V>>

  /** An internal node with no children yet (always created with a `null`
      key). */
  function InternalNode<V>(): (n: Node<V>)
    ensures !n.shape.isLeaf && n.shape.key == None && n.shape.size == 0
    ensures n.shape.left == n.shape.middle == n.shape.right == n.parent == None
    ensures n.prev == n.next == None
  {
    Node(Shape(None, None, None, None, false, 0), None, None, None, None)
  }

  /** A detached leaf holding `key` and `value`. */
  function LeafNode<V>(key: int, value: Option<V>): (n: Node<V>)
    ensures n.shape.isLeaf && n.shape.key == Some(key) && n.shape.size == 1 && n.value == value
    ensures n.shape.left == n.shape.middle == n.shape.right == n.parent == None
    ensures n.prev == n.next == None
  {
    Node(Shape(Some(key), None, None, None, true, 1), None, None, None, value)
  }

  /** The `i`-th reference of `cs`, or null past its end. */
  function At(cs: seq<Ref>, i: nat): Ptr
  {
    if i < |cs| then Some(cs[i]) else None
  }

  /** A leaf as seen in the in-order leaf sequence. */
  datatype Entry = Entry(node: Ref, key: int)

  /** The ghost shape of a subtree: which nodes it is made of and, for each
      leaf, its key. */
  datatype Tree = Leaf(node: Ref, key: int) | Inner(node: Ref, kids: seq<Tree>)

  /** One step of a path towards the root: the parent node and the siblings
      on either side of the child the path comes from. */
  datatype Frame = Frame(node: Ref, before: seq<Tree>, after: seq<Tree>)

  // ---------------------------------------------------------------- nodes

  ghost function Nodes(t: Tree): set<Ref>
    decreases t, 2
  {
    {t.node} + Below(t)
  }

  /** The nodes strictly below the root of `t`. */
  ghost function Below(t: Tree): set<Ref>
    decreases t, 1
  {
    match t
    case Leaf(_, _) => {}
    case Inner(_, kids) => NodesOf(kids)
  }

  ghost function NodesOf(ts: seq<Tree>): set<Ref>
    decreases ts, 0
  {
    if ts == [] then {} else NodesOf(ts[..|ts| - 1]) + Nodes(ts[|ts| - 1])
  }

  /** The nodes strictly below the roots of a sequence of subtrees. */
  ghost function BelowOf(ts: seq<Tree>): set<Ref>
  {
    if ts == [] then {} else BelowOf(ts[..|ts| - 1]) + Below(ts[|ts| - 1])
  }

  /** Each subtree's nodes, and in particular its root, are among the nodes
      of the sequence. */
  lemma NodesOfContains(ts: seq<Tree>)
    ensures forall i | 0 <= i < |ts| :: Nodes(ts[i]) <= NodesOf(ts)
    ensures Elems(Roots(ts)) <= NodesOf(ts)
    decreases |ts|
  {
    if ts != [] {
      NodesOfContains(ts[..|ts| - 1]);
      forall i | 0 <= i < |ts| - 1 ensures Nodes(ts[i]) <= NodesOf(ts) {
        assert ts[..|ts| - 1][i] == ts[i];
      }
    }
    forall c | c in Elems(Roots(ts)) ensures c in NodesOf(ts) {
      var i :| 0 <= i < |ts| && Roots(ts)[i] == c;
      assert c in Nodes(ts[i]);
    }
  }

  /** The root nodes of a sequence of subtrees. */
  ghost function Roots(ts: seq<Tree>): (r: seq<Ref>)
    ensures |r| == |ts| && forall i | 0 <= i < |ts| :: r[i] == ts[i].node
  {
    seq(|ts|, i requires 0 <= i < |ts| => ts[i].node)
  }

  ghost function Elems(cs: seq<Ref>): set<Ref>
  {
    set c | c in cs
  }

  // --------------------------------------------------------------- leaves

  ghost function Leaves(t: Tree): seq<Entry>
    decreases t, 1
  {
    match t
    case Leaf(n, k) => [Entry(n, k)]
    case Inner(_, kids) => LeavesOf(kids)
  }

  ghost function LeavesOf(ts: seq<Tree>): seq<Entry>
    decreases ts, 0
  {
    if ts == [] then []
    else
      LeavesOf(ts[..|ts| - 1]) + Leaves(ts[|ts| - 1])
  }

  ghost function Keys(es: seq<Entry>): (r: seq<int>)
    ensures |r| == |es| && forall i | 0 <= i < |es| :: r[i] == es[i].key
  {
    seq(|es|, i requires 0 <= i < |es| => es[i].key)
  }

  ghost function LeafNodes(es: seq<Entry>): (r: seq<Ref>)
    ensures |r| == |es| && forall i | 0 <= i < |es| :: r[i] == es[i].node
  {
    seq(|es|, i requires 0 <= i < |es| => es[i].node)
  }

  /** Keys strictly increase along the sequence. */
  ghost predicate Ascending(es: seq<Entry>)
  {
    forall i, j | 0 <= i < j < |es| :: es[i].key < es[j].key
  }

  /** No node occurs twice in the sequence. */
  ghost predicate Unique(ns: seq<Ref>)
  {
    forall i, j | 0 <= i < j < |ns| :: ns[i] != ns[j]
  }

  /** The largest key of a subtree (its last leaf's key). */
  ghost function MaxKey(t: Tree): int
    requires |Leaves(t)| > 0
  {
    Leaves(t)[|Leaves(t)| - 1].key
  }

  // --------------------------------------------------------- distinctness

  /** No node occurs twice in `t`. */
  ghost predicate Distinct(t: Tree)
    decreases t, 1
  {
    match t
    case Leaf(_, _) => true
    case Inner(n, kids) => n !in NodesOf(kids) && DistinctOf(kids)
  }

  ghost predicate DistinctOf(ts: seq<Tree>)
    decreases ts, 0
  {
    (forall i | 0 <= i < |ts| :: Distinct(ts[i])) &&
    (forall i, j | 0 <= i < j < |ts| :: Nodes(ts[i]) !! Nodes(ts[j]))
  }

  // ---------------------------------------------------------- tree shape

  /** In the store, `n` is an internal node whose child pointers are
      exactly `cs` (1 to 3 of them, unused slots null). */
  ghost predicate Kids<V>(G: Store<V>, n: Ref, cs: seq<Ref>)
  {
    n in G && 1 <= |cs| <= 3 && !G[n].shape.isLeaf &&
    G[n].shape.left == Some(cs[0]) && G[n].shape.middle == At(cs, 1) && G[n].shape.right == At(cs, 2) &&
    forall i | 0 <= i < |cs| :: cs[i] in G
  }

  /** `n` has as children the roots of `kids` except the `j`-th. */
  ghost predicate KidsExcept<V>(G: Store<V>, n: Ref, kids: seq<Tree>, j: nat)
  {
    j < |kids| && Kids(G, n, Roots(kids[..j] + kids[j + 1..]))
  }

  /** Moreover the children point back to `n`. */
  ghost predicate Links<V>(G: Store<V>, n: Ref, cs: seq<Ref>)
  {
    Kids(G, n, cs) && forall i | 0 <= i < |cs| :: G[cs[i]].parent == Some(n)
  }

  /** The sum of the cached sizes of 1 to 3 nodes. */
  ghost function SizeSum<V>(G: Store<V>, cs: seq<Ref>): int
    requires 1 <= |cs| <= 3 && forall i | 0 <= i < |cs| :: cs[i] in G
  {
    G[cs[0]].shape.size + (if |cs| >= 2 then G[cs[1]].shape.size else 0) + (if |cs| == 3 then G[cs[2]].shape.size else 0)
  }

  /** The cached fields of the root of `t` are current: its key is the
      largest key below it and its size is the number of leaves below it. */
  ghost predicate Cached<V>(G: Store<V>, t: Tree)
  {
    var ls := Leaves(t);
    t.node in G && |ls| > 0 && G[t.node].shape.key == Some(ls[|ls| - 1].key) && G[t.node].shape.size == |ls|
  }

  /** `t` is a well-formed subtree of height `h` whose cached fields are all
      current. */
  ghost predicate Wf<V>(G: Store<V>, t: Tree, h: nat)
    decreases t, 2
  {
    Sound(G, t, h) && Cached(G, t)
  }

  /** Like `Wf`, except that the cached fields of the root itself may be
      stale. Every leaf is at depth `h`. */
  ghost predicate Sound<V>(G: Store<V>, t: Tree, h: nat)
    decreases t, 1
  {
    match t
    case Leaf(n, _) => h == 0 && n in G && G[n].shape.isLeaf
    case Inner(_, kids) => 2 <= |kids| && Partial(G, t, h)
  }

  /** An internal node of height `h` with 1 to 3 well-formed children: the
      shape of a node under repair, which may have lost a child. */
  ghost predicate Partial<V>(G: Store<V>, t: Tree, h: nat)
    decreases t, 0
  {
    match t
    case Leaf(_, _) => false
    case Inner(n, kids) =>
      h > 0 && 1 <= |kids| <= 3 && Links(G, n, Roots(kids)) &&
      forall i | 0 <= i < |kids| :: Wf(G, kids[i], h - 1)
  }

  ghost predicate WfAll<V>(G: Store<V>, ts: seq<Tree>, h: nat)
  {
    forall i | 0 <= i < |ts| :: Wf(G, ts[i], h)
  }

  // -------------------------------------------------------------- zippers

  /** All nodes of the frames of a path, siblings included. */
  ghost function CtxNodes(ctx: seq<Frame>): set<Ref>
    decreases |ctx|
  {
    if ctx == [] then {}
    else {ctx[0].node} + NodesOf(ctx[0].before + ctx[0].after) + CtxNodes(ctx[1..])
  }

  ghost predicate CtxDistinct(ctx: seq<Frame>)
    decreases |ctx|
  {
    ctx == [] ||
    (var f := ctx[0];
     f.node !in NodesOf(f.before + f.after) && DistinctOf(f.before + f.after) &&
     ({f.node} + NodesOf(f.before + f.after)) !! CtxNodes(ctx[1..]) &&
     CtxDistinct(ctx[1..]))
  }

  /** The leaves to the left of a path, in order. */
  ghost function LeftLeaves(ctx: seq<Frame>): seq<Entry>
    decreases |ctx|
  {
    if ctx == [] then [] else LeftLeaves(ctx[1..]) + LeavesOf(ctx[0].before)
  }

  /** The leaves to the right of a path, in order. */
  ghost function RightLeaves(ctx: seq<Frame>): seq<Entry>
    decreases |ctx|
  {
    if ctx == [] then [] else LeavesOf(ctx[0].after) + RightLeaves(ctx[1..])
  }

  /** Plugging a sequence of subtrees into the hole of a frame. */
  ghost function Up(f: Frame, ts: seq<Tree>): Tree
  {
    Inner(f.node, f.before + ts + f.after)
  }

  /** The frames of `ctx` are, in the store, the ancestors of `below` up to
      `root`: each frame's node has the frame's siblings and the node below
      as children (in that order), its siblings are well-formed subtrees of
      the height of the node below, and the root has no parent. */
  ghost predicate CtxOk<V>(G: Store<V>, ctx: seq<Frame>, below: Ref, h: nat, root: Ref)
    decreases |ctx|
  {
    if ctx == [] then below == root && below in G && G[below].parent == None
    else
      var f := ctx[0];
      1 <= |f.before| + |f.after| <= 2 &&
      Links(G, f.node, Roots(f.before) + [below] + Roots(f.after)) &&
      WfAll(G, f.before + f.after, h) &&
      CtxOk(G, ctx[1..], f.node, h + 1, root)
  }

  // ------------------------------------------------------------ leaf list

  /** The `prev`/`next` links thread exactly the nodes of `es`, in order,
      with null at both ends. */
  ghost predicate List<V>(G: Store<V>, es: seq<Entry>)
  {
    |es| > 0 && (forall i | 0 <= i < |es| :: es[i].node in G) &&
    G[es[0].node].prev == None && G[es[|es| - 1].node].next == None &&
    forall i | 0 <= i < |es| - 1 ::
      G[es[i].node].next == Some(es[i + 1].node) && G[es[i + 1].node].prev == Some(es[i].node)
  }

  // ---------------------------------------------------------- whole tree

  /** `T`, of height `H`, is the whole tree in the store: an internal root
      without parent, every leaf at depth `H`, every internal node with 2
      or 3 children, cached keys and sizes current (the root's only once
      the tree has been modified), no node twice, the leaves ascending from
      `lo` to `hi` and threaded in order by the `prev`/`next` links. */
  ghost predicate Shaped<V>(G: Store<V>, root: Ref, T: Tree, H: nat, lo: int, hi: int)
  {
    T.Inner? && root == T.node && root in G && G[root].parent == None &&
    Sound(G, T, H) && (Cached(G, T) || (G[root].shape.key == None && G[root].shape.size == 0)) &&
    Distinct(T) &&
    var ls := Leaves(T);
    Ascending(ls) && |ls| >= 2 && ls[0].key == lo && ls[|ls| - 1].key == hi &&
    List(G, ls)
  }

  // ---------------------------------------------------------------- items

  /** A key with the value stored beside it (none for the sentinels). */
  datatype Item<V> = Item(key: int, value: Option<V>)

  /** The items of the leaves `es`, in order, as recorded in the store. */
  ghost function ItemsOf<V>(G: Store<V>, es: seq<Entry>): (r: seq<Item<V>>)
    ensures |r| == |es| && forall i | 0 <= i < |es| :: r[i].key == es[i].key
  {
    seq(|es|, i requires 0 <= i < |es| => Item(es[i].key, if es[i].node in G then G[es[i].node].value else None))
  }

  /** Inserting an item into a sequence ordered by key, before the first
      item with a larger key: the reference behaviour of insertion. */
  function InsertSorted<V>(s: seq<Item<V>>, it: Item<V>): (r: seq<Item<V>>)
    ensures |r| == |s| + 1 && it in r && forall x | x in s :: x in r
  {
    if s == [] || it.key < s[0].key then [it] + s else [s[0]] + InsertSorted(s[1..], it)
  }

  /** Removing the first item with the given key, if any: the reference
      behaviour of deletion. */
  function RemoveKey<V>(s: seq<Item<V>>, key: int): (r: seq<Item<V>>)
    ensures |r| == |s| || |r| == |s| - 1
    ensures forall x | x in r :: x in s
  {
    if s == [] then [] else if s[0].key == key then s[1..] else [s[0]] + RemoveKey(s[1..], key)
  }

  // --------------------------------------------------------- store change

  /** `G'` keeps what `G` records of the shape of the nodes of `S` and of
      the parent pointers of the nodes of `P`. */
  ghost predicate Kept<V>(G: Store<V>, G': Store<V>, S: set<Ref>, P: set<Ref>)
  {
    (forall n | n in S && n in G :: n in G' && G'[n].shape == G[n].shape) &&
    (forall n | n in P && n in G :: n in G' && G'[n].parent == G[n].parent)
  }

  /** `G'` extends `G` and keeps the values of its nodes. */
  ghost predicate ValuesKept<V>(G: Store<V>, G': Store<V>)
  {
    forall n {:trigger G[n]} | n in G :: n in G' && G'[n].value == G[n].value
  }

  lemma ValuesKeptTrans<V>(G0: Store<V>, G1: Store<V>, G2: Store<V>)
    requires ValuesKept(G0, G1) && ValuesKept(G1, G2)
    ensures ValuesKept(G0, G2)
  {
  }

  /** `G'` extends `G` and differs from it only in the shape of the nodes
      of `X` and the parent pointers of the nodes of `P`. */
  ghost predicate Changes<V>(G: Store<V>, G': Store<V>, X: set<Ref>, P: set<Ref>)
  {
    forall n {:trigger G[n]} | n in G ::
      n in G' && G'[n].value == G[n].value && G'[n].prev == G[n].prev && G'[n].next == G[n].next &&
      (n !in X ==> G'[n].shape == G[n].shape) && (n !in P ==> G'[n].parent == G[n].parent)
  }

  /** A store change that only rewires shapes and parents keeps every
      value. */
  lemma ChangesKeepValues<V>(G: Store<V>, G': Store<V>, X: set<Ref>, P: set<Ref>)
    requires Changes(G, G', X, P)
    ensures ValuesKept(G, G')
  {
  }
}
