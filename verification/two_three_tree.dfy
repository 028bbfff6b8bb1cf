/** The 2-3 tree itself: a root reference, a store of nodes, two sentinel
    leaves holding the smallest and largest keys, and the operations that
    search, insert, delete and rank leaves by walking and rewiring the
    nodes in place.

    The ghost field `T` is the abstract shape of the tree (which nodes it
    is made of and in which order its leaves are) and `H` its height.
    `Valid()` ties them to the store. */
module TwoThreeTree {
  import opened Wrappers
  import opened TwoThreeNode
  import opened TwoThreeLemmas
  import opened TwoThreePaths
  import opened TwoThreeRank
  import opened TwoThreeRepair

  class TwoThreeTree<V> {
    var root: Ref
    /** The nodes allocated so far, by reference. */
    var nodes: Store<V>
    /** A reference that no node has yet. */
    var free: Ref
    /** The keys of the two sentinel leaves (minus and plus infinity). */
    const lo: int
    const hi: int

    ghost var T: Tree
    ghost var H: nat

    /** The store holds the tree `T` rooted at `root`, and no node has a
        reference `free` or above. */
    ghost predicate Valid()
      reads this
    {
      Allocated() && Shaped(nodes, root, T, H, lo, hi)
    }

    /** Every node in the store has a reference below `free`. */
    ghost predicate Allocated()
      reads this
    {
      forall n | n in nodes :: n < free
    }

    /** The keys of the leaves, in order (sentinels included). */
    ghost function LeafKeys(): seq<int>
      reads this
    {
      Keys(Leaves(T))
    }

    /** The keys and values of the leaves, in order (sentinels
        included). */
    ghost function Items(): seq<Item<V>>
      reads this
    {
      ItemsOf(nodes, Leaves(T))
    }

    /** A tree holding only the two sentinels, below a root whose cached
        key is still unset. */
    constructor (lo: int, hi: int)
      requires lo < hi
      ensures Valid()
      ensures this.lo == lo && this.hi == hi
      ensures LeafKeys() == [lo, hi] && Items() == [Item(lo, None), Item(hi, None)]
      ensures nodes[root].shape.key == None && nodes[root].shape.size == 0
    {
      this.lo := lo;
      this.hi := hi;
      var r, sentinelLeft, sentinelRight := 0, 1, 2;
      var G: Store<V> := map[r := InternalNode(), sentinelLeft := LeafNode(lo, None), sentinelRight := LeafNode(hi, None)];
      G := G[sentinelLeft := G[sentinelLeft].(next := Some(sentinelRight))];
      G := G[sentinelRight := G[sentinelRight].(prev := Some(sentinelLeft))];
      G := G[r := G[r].(shape := G[r].shape.(left := Some(sentinelLeft)))];
      G := G[r := G[r].(shape := G[r].shape.(middle := Some(sentinelRight)))];
      G := G[sentinelLeft := G[sentinelLeft].(parent := Some(r))];
      G := G[sentinelRight := G[sentinelRight].(parent := Some(r))];
      nodes := G;
      root := r;
      free := 3;
      ghost var t := TwoLeaves(G, r, sentinelLeft, sentinelRight, lo, hi);
      T := t;
      H := 1;
    }

    /** A fresh reference holding node `n` (Java's `new Node`). */
    method Alloc(n: Node<V>) returns (x: Ref)
      requires Allocated()
      modifies this`nodes, this`free
      ensures x !in old(nodes) && nodes == old(nodes)[x := n]
      ensures Allocated()
    {
      x := free;
      nodes := nodes[x := n];
      free := free + 1;
    }

    /** Recomputes the cached key (the key of the last child) and size (the
        sum of the children's sizes) of an internal node, whose children are
        `cs`. */
    method UpdateKey(x: Ref, ghost cs: seq<Ref>)
      requires Kids(nodes, x, cs) && x !in cs
      modifies this`nodes
      ensures nodes == Recache(old(nodes), x, cs) && nodes.Keys == old(nodes).Keys
      ensures Allocated() == old(Allocated())
      ensures Links(old(nodes), x, cs) ==> Links(nodes, x, cs)
      ensures nodes[x].shape.key == nodes[cs[|cs| - 1]].shape.key && nodes[x].shape.size == SizeSum(nodes, cs)
    {
      var s := nodes[x].shape;
      s := s.(key := nodes[s.left.value].shape.key);
      if s.middle != None {
        s := s.(key := nodes[s.middle.value].shape.key);
      }
      if s.right != None {
        s := s.(key := nodes[s.right.value].shape.key);
      }
      s := s.(size := 0);
      if s.left != None {
        s := s.(size := s.size + nodes[s.left.value].shape.size);
      }
      if s.middle != None {
        s := s.(size := s.size + nodes[s.middle.value].shape.size);
      }
      if s.right != None {
        s := s.(size := s.size + nodes[s.right.value].shape.size);
      }
      nodes := nodes[x := nodes[x].(shape := s)];
      RecacheChanges(old(nodes), x, cs);
    }

    /** Makes `l`, `m`, `r` (the last two possibly null) the children of `x`
        and recomputes the cached fields of `x`; `cs` lists the non-null
        ones. */
    method SetChildren(x: Ref, l: Ref, m: Ptr, r: Ptr, ghost cs: seq<Ref>)
      requires x in nodes && !nodes[x].shape.isLeaf && x !in cs
      requires 1 <= |cs| <= 3 && cs[0] == l && Unique(cs) && forall i | 0 <= i < |cs| :: cs[i] in nodes
      requires m == At(cs, 1) && r == At(cs, 2)
      modifies this`nodes
      ensures nodes == Rewire(old(nodes), x, cs) && nodes.Keys == old(nodes).Keys
      ensures Allocated() == old(Allocated())
      ensures Links(nodes, x, cs)
      ensures nodes[x].shape.key == nodes[cs[|cs| - 1]].shape.key && nodes[x].shape.size == SizeSum(nodes, cs)
    {
      nodes := nodes[x := nodes[x].(shape := nodes[x].shape.(left := Some(l)))];
      nodes := nodes[x := nodes[x].(shape := nodes[x].shape.(middle := m))];
      nodes := nodes[x := nodes[x].(shape := nodes[x].shape.(right := r))];
      nodes := nodes[l := nodes[l].(parent := Some(x))];
      if m != None {
        nodes := nodes[m.value := nodes[m.value].(parent := Some(x))];
      }
      if r != None {
        nodes := nodes[r.value := nodes[r.value].(parent := Some(x))];
      }
      UpdateKey(x, cs);
      RewireChanges(old(nodes), x, cs);
    }

    /** Finds the leaf holding `key` in the subtree `t` rooted at `node`,
        going down into the first child whose cached key is at least
        `key`; null when there is none. */
    function SearchInternal(node: Ref, key: int, ghost t: Tree, ghost h: nat): (r: Ptr)
      reads this
      requires node == t.node && Sound(nodes, t, h) && (t.Leaf? ==> Cached(nodes, t))
      requires Ascending(Leaves(t)) && |Leaves(t)| > 0 && key <= MaxKey(t)
      ensures r.Some? <==> key in Keys(Leaves(t))
      ensures r.Some? ==> Entry(r.value, key) in Leaves(t) && r.value in nodes && nodes[r.value].shape.key == Some(key)
      decreases t
    {
      SoundIsLeaf(nodes, t, h);
      var n := nodes[node];
      if n.shape.isLeaf then
        if n.shape.key == Some(key) then Some(node) else None
      else
        InnerShape(nodes, t, h);
        if key <= nodes[n.shape.left.value].shape.key.value then
          SearchStep(t, 0, key);
          SearchInternal(n.shape.left.value, key, t.kids[0], h - 1)
        else if n.shape.middle != None && key <= nodes[n.shape.middle.value].shape.key.value then
          SearchStep(t, 1, key);
          SearchInternal(n.shape.middle.value, key, t.kids[1], h - 1)
        else
          SearchStep(t, 2, key);
          SearchInternal(n.shape.right.value, key, t.kids[2], h - 1)
    }

    /** The leaf holding `key`, or null. A key above the largest sentinel
        would send the search into a missing right child. */
    function Search(key: int): (r: Ptr)
      reads this
      requires Valid() && key <= hi
      ensures r.Some? <==> key in LeafKeys()
      ensures r.Some? ==> Entry(r.value, key) in Leaves(T) && nodes[r.value].shape.key == Some(key)
    {
      SearchInternal(root, key, T, H)
    }

    /** The downward pass of `insert`: from the root, goes down into the
        first child whose cached key is above `key` (the last child when
        none is) and stops at a leaf, the first whose key is above `key`. The
        ghost results are the path down and the leaf, and `avoid` is a node
        the pass meets nowhere. */
    method FindLeaf(key: int, ghost avoid: Ref) returns (y: Ref, ghost ctx: seq<Frame>, ghost t: Tree)
      requires Valid() && key < hi && avoid !in Nodes(T)
      ensures Descent(nodes, ctx, t, 0, root, T, key, avoid) && y == t.node && |ctx| == H
      ensures var es, i := Leaves(T), |LeftLeaves(ctx)|;
        i < |es| && es[i].node == y && key < es[i].key && forall j | 0 <= j < i :: es[j].key <= key
    {
      assert Searchable(nodes, T, H, root, key, avoid);
      y := root;
      ghost var d := 0;
      while !nodes[y].shape.isLeaf
        invariant d <= H && y == Path(T, key, d).1.node && y in nodes
        decreases H - d
      {
        PathStep(nodes, T, H, root, key, avoid, d);
        var left, middle := nodes[y].shape.left.value, nodes[y].shape.middle.value;
        if key < nodes[left].shape.key.value {
          y := left;
        } else if key < nodes[middle].shape.key.value {
          y := middle;
        } else {
          y := nodes[y].shape.right.value;
        }
        d := d + 1;
        PathStep(nodes, T, H, root, key, avoid, d);
      }
      PathStep(nodes, T, H, root, key, avoid, d);
      ctx, t := PathDescent(nodes, T, H, root, key, avoid, d);
      PathLength(nodes, T, H, root, key, avoid, d);
      Found(nodes, ctx, t, root, T, key, avoid);
    }

    /** Hangs the new subtree `z` (the `j`-th of `kids`) under `x`, whose
        children are the other subtrees of `kids`, in key order. With four
        children `x` keeps the first two and a fresh node, which is
        returned, takes the last two. */
    method InsertAndSplit(x: Ref, z: Ref, ghost kids: seq<Tree>, ghost j: nat, ghost h: nat) returns (y: Ptr)
      requires Allocated()
      requires 3 <= |kids| <= 4 && j < |kids| && kids[j].node == z
      requires KidsExcept(nodes, x, kids, j)
      requires WfAll(nodes, kids, h) && DistinctOf(kids) && x !in NodesOf(kids) && Ascending(LeavesOf(kids))
      modifies this`nodes, this`free
      ensures Allocated()
      ensures Changes(old(nodes), nodes, {x}, Elems(Roots(kids)))
      ensures y == None ==> |kids| == 3 && nodes.Keys == old(nodes).Keys && Wf(nodes, Inner(x, kids), h + 1)
      ensures y.Some? ==>
        |kids| == 4 && y.value !in old(nodes) && nodes.Keys == old(nodes).Keys + {y.value} &&
        Wf(nodes, Inner(x, kids[..2]), h + 1) && Wf(nodes, Inner(y.value, kids[2..]), h + 1)
    {
      InsertPlacement(nodes, x, kids, j, h);
      if nodes[x].shape.right == None {
        InsertRoom(x, z, kids, j, h);
        y := None;
      } else {
        var w := InsertSplit(x, z, kids, j, h);
        y := Some(w);
      }
    }

    /** `insertAndSplit` when `x` has room for a third child: `z` takes its
        place among the two in key order. */
    method InsertRoom(x: Ref, z: Ref, ghost kids: seq<Tree>, ghost j: nat, ghost h: nat)
      requires |kids| == 3 && j < |kids| && kids[j].node == z
      requires KidsExcept(nodes, x, kids, j)
      requires WfAll(nodes, kids, h) && DistinctOf(kids) && x !in NodesOf(kids) && Ascending(LeavesOf(kids))
      modifies this`nodes
      ensures Allocated() == old(Allocated())
      ensures Changes(old(nodes), nodes, {x}, Elems(Roots(kids)))
      ensures nodes.Keys == old(nodes).Keys && Wf(nodes, Inner(x, kids), h + 1)
    {
      InsertPlacement(nodes, x, kids, j, h);
      RootsUnique(kids, x);
      ghost var cs := Roots(kids);
      var left, middle := nodes[x].shape.left.value, nodes[x].shape.middle.value;
      assert cs == [cs[0], cs[1], cs[2]];
      if nodes[z].shape.key.value < nodes[left].shape.key.value {
        SetChildren(x, z, Some(left), Some(middle), cs);
      } else if nodes[z].shape.key.value < nodes[middle].shape.key.value {
        SetChildren(x, left, Some(z), Some(middle), cs);
      } else {
        SetChildren(x, left, Some(middle), Some(z), cs);
      }
      Rewired(old(nodes), x, kids, h);
    }

    /** `insertAndSplit` when `x` already has three children: of the four,
        the two smallest stay with `x` and the two largest go to the fresh
        node `w`. */
    method InsertSplit(x: Ref, z: Ref, ghost kids: seq<Tree>, ghost j: nat, ghost h: nat) returns (w: Ref)
      requires Allocated()
      requires |kids| == 4 && j < |kids| && kids[j].node == z
      requires KidsExcept(nodes, x, kids, j)
      requires WfAll(nodes, kids, h) && DistinctOf(kids) && x !in NodesOf(kids) && Ascending(LeavesOf(kids))
      modifies this`nodes, this`free
      ensures Allocated()
      ensures Changes(old(nodes), nodes, {x}, Elems(Roots(kids)))
      ensures w !in old(nodes) && nodes.Keys == old(nodes).Keys + {w}
      ensures Wf(nodes, Inner(x, kids[..2]), h + 1) && Wf(nodes, Inner(w, kids[2..]), h + 1)
    {
      InsertPlacement(nodes, x, kids, j, h);
      RootsUnique(kids, x);
      ghost var cs := Roots(kids);
      var left, middle, right := nodes[x].shape.left.value, nodes[x].shape.middle.value, nodes[x].shape.right.value;
      ghost var a, b := Roots(kids[..2]), Roots(kids[2..]);
      assert a == [cs[0], cs[1]] && b == [cs[2], cs[3]];
      w := Alloc(InternalNode());
      SplitReady(old(nodes), w, x, kids, h);
      if nodes[z].shape.key.value < nodes[left].shape.key.value {
        SetChildren(x, z, Some(left), None, a);
        SetChildren(w, middle, Some(right), None, b);
      } else if nodes[z].shape.key.value < nodes[middle].shape.key.value {
        SetChildren(x, left, Some(z), None, a);
        SetChildren(w, middle, Some(right), None, b);
      } else if nodes[z].shape.key.value < nodes[right].shape.key.value {
        SetChildren(x, left, Some(middle), None, a);
        SetChildren(w, z, Some(right), None, b);
      } else {
        SetChildren(x, left, Some(middle), None, a);
        SetChildren(w, right, Some(z), None, b);
      }
      SplitRewired(old(nodes), w, x, kids, h);
    }
  

    /** Threads the new leaf `z` into the leaf list just before the leaf
        `y`. */
    method Splice(y: Ref, z: Ref)
      requires y in nodes && z in nodes && (nodes[y].prev.Some? ==> nodes[y].prev.value in nodes)
      modifies this`nodes
      ensures nodes == Spliced(old(nodes), y, z)
    {
      var p := nodes[y].prev;
      if p != None {
        nodes := nodes[p.value := nodes[p.value].(next := Some(z))];
      }
      nodes := nodes[z := nodes[z].(prev := p)];
      nodes := nodes[z := nodes[z].(next := Some(y))];
      nodes := nodes[y := nodes[y].(prev := Some(z))];
    }

    /** One step of the upward pass of `insert` while a subtree is split
        off: `z`, split off from `x` (or the new leaf next to the leaf `x`),
        is hung under the parent of `x` with `insertAndSplit`, which may
        split off a subtree in turn. */
    method InsertUp(x: Ref, z: Ref, ghost ctx: seq<Frame>, ghost ts: seq<Tree>, ghost k: nat, ghost h: nat, ghost L: seq<Entry>)
        returns (x': Ref, z': Ptr, ghost ts': seq<Tree>, ghost k': nat, ghost ctx': seq<Frame>, ghost h': nat)
      requires Allocated()
      requires Ascent(nodes, ctx, ts, k, h, root, L) && x == Held(ts, k) && x != root
      requires |ts| == 2 && z == ts[k].node
      modifies this`nodes, this`free
      ensures Allocated() && |ctx'| == |ctx| - 1 && h' == h + 1
      ensures Ascent(nodes, ctx', ts', k', h', root, L) && x' == Held(ts', k') && k' == |ts'| - 1
      ensures z'.Some? <==> |ts'| == 2
      ensures z'.Some? ==> z'.value == ts'[k'].node
      ensures ValuesKept(old(nodes), nodes)
    {
      ghost var f := ctx[0];
      AscendReady(nodes, ctx, ts, k, h, root, L);
      x' := nodes[x].parent.value;
      z' := InsertAndSplit(x', z, Around(f, ts), |f.before| + k, h);
      ts' := Lift(f, ts, z');
      k', ctx', h' := |ts'| - 1, ctx[1..], h + 1;
      ChangesKeepValues(old(nodes), nodes, {x'}, Elems(Roots(Around(f, ts))));
      if z' == None {
        AscendJoined(old(nodes), nodes, ctx, ts, k, h, root, L);
      } else {
        AscendSplit(old(nodes), nodes, ctx, ts, k, h, root, L, z'.value);
      }
    }

    /** One step of the upward pass of `insert` once nothing is split off
        any more: the parent of `x` refreshes its caches with
        `updateKey`. */
    method UpdateUp(x: Ref, ghost ctx: seq<Frame>, ghost ts: seq<Tree>, ghost h: nat, ghost L: seq<Entry>)
        returns (x': Ref, ghost ts': seq<Tree>, ghost ctx': seq<Frame>, ghost h': nat)
      requires Ascent(nodes, ctx, ts, 0, h, root, L) && x == Held(ts, 0) && x != root && |ts| == 1
      modifies this`nodes
      ensures Allocated() == old(Allocated()) && |ctx'| == |ctx| - 1 && h' == h + 1
      ensures Ascent(nodes, ctx', ts', 0, h', root, L) && x' == Held(ts', 0) && |ts'| == 1
      ensures ValuesKept(old(nodes), nodes)
    {
      ghost var f := ctx[0];
      UpdateReady(nodes, ctx, ts, h, root, L);
      x' := nodes[x].parent.value;
      Recached(nodes, x', Around(f, ts), h);
      UpdateKey(x', Roots(Around(f, ts)));
      ChangesKeepValues(old(nodes), nodes, {x'}, Elems(Roots(Around(f, ts))));
      AscendJoined(old(nodes), nodes, ctx, ts, 0, h, root, L);
      ts', ctx', h' := Lift(f, ts, None), ctx[1..], h + 1;
    }

    /** The upward pass of `insert`, from the leaf `y` whose new left
        neighbour `z0` still has to be hung under `y`'s parent. It stops at
        the root, which is returned with the subtree split off from it, if
        any. */
    method Climb(y: Ref, z0: Ref, ghost ctx0: seq<Frame>, ghost t: Tree, ghost key: int, ghost L: seq<Entry>)
        returns (x: Ref, z: Ptr, ghost ts: seq<Tree>, ghost h: nat)
      requires Allocated() && y != root
      requires Ascent(nodes, ctx0, [Leaf(z0, key), t], 0, 0, root, L) && y == t.node
      modifies this`nodes, this`free
      ensures Allocated() && h > 0 && h == |ctx0|
      ensures 1 <= |ts| <= 2 && Ascent(nodes, [], ts, |ts| - 1, h, root, L) && x == root && x == ts[0].node
      ensures z.Some? <==> |ts| == 2
      ensures z.Some? ==> z.value == ts[1].node
      ensures ValuesKept(old(nodes), nodes)
    {
      x, z, ts, h := y, Some(z0), [Leaf(z0, key), t], 0;
      ghost var ctx, k: nat := ctx0, 0;
      while x != root
        invariant Allocated()
        invariant Ascent(nodes, ctx, ts, k, h, root, L) && x == Held(ts, k)
        invariant z.Some? <==> |ts| == 2
        invariant z.Some? ==> z.value == ts[k].node
        invariant k == |ts| - 1 || h == 0
        invariant h > 0 || x != root
        invariant h + |ctx| == |ctx0|
        invariant ValuesKept(old(nodes), nodes)
        decreases |ctx|
      {
        ghost var G := nodes;
        if z != None {
          x, z, ts, k, ctx, h := InsertUp(x, z.value, ctx, ts, k, h, L);
        } else {
          x, ts, ctx, h := UpdateUp(x, ctx, ts, h, L);
          k := 0;
        }
        ValuesKeptTrans(old(nodes), G, nodes);
      }
      CtxRootParent(nodes, ctx, x, h, root);
    }

    /** The new leaf of `insert` (Java's `new Node<>(key, value)`), not yet
        linked to anything. */
    method NewLeaf(key: int, value: Option<V>) returns (z: Ref)
      requires Valid()
      modifies this`nodes, this`free
      ensures Valid() && z !in Nodes(T) && z in nodes && nodes[z] == LeafNode(key, value)
      ensures ValuesKept(old(nodes), nodes) && Items() == old(Items())
    {
      ghost var G0 := nodes;
      z := Alloc(LeafNode(key, value));
      Extended(G0, z, LeafNode(key, value), T, H, Leaves(T));
      SoundInStore(G0, T, H);
      ItemsKept(G0, nodes, Leaves(T));
    }

    /** The first half of `insert` for the allocated leaf `z`: `z` is
        threaded into the leaf list just before the leaf `y` found by the
        downward pass, whose path is `ctx`, and the upward pass can start.
        The leaf sequence is now `L`: the old one with `z` spliced in at
        position `i`, whose items are the old ones with the new one
        inserted in key order. */
    method InsertLeaf(key: int, z: Ref) returns (y: Ref, ghost ctx: seq<Frame>, ghost t: Tree, ghost L: seq<Entry>, ghost i: nat)
      requires Valid() && lo < key < hi && key !in LeafKeys() && z !in Nodes(T)
      requires z in nodes && nodes[z].shape.isLeaf && nodes[z].shape.key == Some(key) && nodes[z].shape.size == 1
      modifies this`nodes
      ensures Allocated() && y != root && y == t.node && |ctx| == H
      ensures Ascent(nodes, ctx, [Leaf(z, key), t], 0, 0, root, L)
      ensures |L| >= 2 && L[0].key == lo && L[|L| - 1].key == hi
      ensures ItemsOf(nodes, L) == InsertSorted(old(Items()), Item(key, old(nodes)[z].value))
      ensures i <= |Leaves(T)| && L == Leaves(T)[..i] + [Entry(z, key)] + Leaves(T)[i..]
    {
      ghost var G';
      y, ctx, t, L, i, G' := LocateLeaf(key, z);
      Splice(y, z);
    }

    /** The downward pass of `insert` for the allocated leaf `z`: the leaf
        `y` before which `z` goes, and the store `G'`, leaf sequence `L` and
        upward pass that splicing `z` in front of `y` starts. */
    method LocateLeaf(key: int, z: Ref) returns (y: Ref, ghost ctx: seq<Frame>, ghost t: Tree, ghost L: seq<Entry>, ghost i: nat, ghost G': Store<V>)
      requires Valid() && lo < key < hi && key !in LeafKeys() && z !in Nodes(T)
      requires z in nodes && nodes[z].shape.isLeaf && nodes[z].shape.key == Some(key) && nodes[z].shape.size == 1
      ensures y == t.node && y in nodes && (nodes[y].prev.Some? ==> nodes[y].prev.value in nodes) && y != root
      ensures |ctx| == H && G' == Spliced(nodes, y, z)
      ensures G'.Keys == nodes.Keys && Ascent(G', ctx, [Leaf(z, key), t], 0, 0, root, L)
      ensures ItemsOf(G', L) == InsertSorted(Items(), Item(key, nodes[z].value))
      ensures |L| >= 2 && L[0].key == lo && L[|L| - 1].key == hi
      ensures i <= |Leaves(T)| && L == Leaves(T)[..i] + [Entry(z, key)] + Leaves(T)[i..]
    {
      y, ctx, t := FindLeaf(key, z);
      L, i := SpliceStart(nodes, ctx, t, root, T, key, z, lo, hi);
      G' := Spliced(nodes, y, z);
    }

    /** `insert`: a new leaf for `key` and `value` goes just before the
        first leaf whose key is above `key`, and the nodes above it take it
        in, splitting on the way up; a split root gets a fresh parent. The
        leaves keep ascending, so the items are the old ones with the new
        one inserted in key order. */
    method Insert(key: int, value: Option<V>) returns (ghost z: Ref, ghost i: nat)
      requires Valid() && lo < key < hi && key !in LeafKeys()
      modifies this`nodes, this`free, this`root, this`T, this`H
      ensures Valid() && Cached(nodes, T) && nodes[root].shape.size == |old(Items())| + 1
      ensures Items() == InsertSorted(old(Items()), Item(key, value))
      ensures i <= |old(Leaves(T))| && Leaves(T) == old(Leaves(T))[..i] + [Entry(z, key)] + old(Leaves(T))[i..]
      ensures (H == old(H) && root == old(root)) ||
              (H == old(H) + 1 && T.Inner? && |T.kids| == 2 && T.kids[0].node == old(root))
    {
      var leaf := NewLeaf(key, value);
      var y;
      ghost var ctx, t, L;
      y, ctx, t, L, i := InsertLeaf(key, leaf);
      z := leaf;
      ghost var G2 := nodes;
      Rise(y, leaf, ctx, t, key, L);
      ItemsKept(G2, nodes, L);
    }

    /** The second half of `insert`: the upward pass from the leaf `y`,
        whose new left neighbour is `z0`, and the top of the tree, which
        grows by one level if the old root was split. */
    method Rise(y: Ref, z0: Ref, ghost ctx0: seq<Frame>, ghost t: Tree, ghost key: int, ghost L: seq<Entry>)
      requires Allocated() && y != root
      requires Ascent(nodes, ctx0, [Leaf(z0, key), t], 0, 0, root, L) && y == t.node
      requires |L| >= 2 && L[0].key == lo && L[|L| - 1].key == hi
      modifies this`nodes, this`free, this`root, this`T, this`H
      ensures Valid() && Leaves(T) == L && ValuesKept(old(nodes), nodes)
      ensures Cached(nodes, T) && nodes[root].shape.size == |L|
      ensures (H == |ctx0| && root == old(root)) ||
              (H == |ctx0| + 1 && T.Inner? && |T.kids| == 2 && T.kids[0].node == old(root))
    {
      var x, w, ts, h := Climb(y, z0, ctx0, t, key, L);
      Reroot(x, w, ts, h, L);
    }

    /** The top of the insertion loop when the old root was split into the
        two trees `ts`: a fresh internal node above them becomes the root. */
    method GrowRoot(x: Ref, w: Ref, ghost ts: seq<Tree>, ghost h: nat, ghost L: seq<Entry>)
      requires Allocated()
      requires |ts| == 2 && Ascent(nodes, [], ts, 1, h, root, L) && x == ts[0].node && w == ts[1].node
      requires |L| >= 2 && L[0].key == lo && L[|L| - 1].key == hi
      modifies this`nodes, this`free, this`root, this`T, this`H
      ensures Valid() && Leaves(T) == L && ValuesKept(old(nodes), nodes)
      ensures root !in old(nodes) && T == Inner(root, ts) && H == h + 1 && Cached(nodes, T)
    {
      var r := Alloc(InternalNode());
      NewRoot(old(nodes), ts, h, root, L, r);
      NewRootKids(old(nodes), ts, h, root, L, r);
      SetChildren(r, x, Some(w), None, Roots(ts));
      root := r;
      T := Inner(r, ts);
      H := h + 1;
      ShapedFrom(nodes, T, H, lo, hi);
    }

    /** The top of the insertion loop: either the root was split and the
        tree grows by one level, or the climb ended at the old root. */
    method Reroot(x: Ref, w: Ptr, ghost ts: seq<Tree>, ghost h: nat, ghost L: seq<Entry>)
      requires Allocated() && h > 0
      requires 1 <= |ts| <= 2 && Ascent(nodes, [], ts, |ts| - 1, h, root, L) && x == root && x == ts[0].node
      requires w.Some? <==> |ts| == 2
      requires w.Some? ==> w.value == ts[1].node
      requires |L| >= 2 && L[0].key == lo && L[|L| - 1].key == hi
      modifies this`nodes, this`free, this`root, this`T, this`H
      ensures Valid() && Leaves(T) == L && ValuesKept(old(nodes), nodes) && Cached(nodes, T)
      ensures nodes[root].shape.size == |L|
      ensures w.None? ==> root == x && T == ts[0] && H == h
      ensures w.Some? ==> root !in old(nodes) && T == Inner(root, ts) && H == h + 1
    {
      if w != None {
        GrowRoot(x, w.value, ts, h, L);
      } else {
        ClimbedToRoot(nodes, ts, h, root, L, lo, hi);
        T := ts[0];
        H := h;
      }
    }

    /** Borrowing, the `x.right != null` branches of `borrowOrMerge`: the
        four grandchildren below two adjacent children are shared out two
        and two, first `a` taking `a0`, `a1`, then `b` taking `b0`, `b1`;
        `BorrowRegroup` says what this does to their parent. */
    method Borrow(a: Ref, a0: Ref, a1: Ref, b: Ref, b0: Ref, b1: Ref, ghost ta: seq<Tree>, ghost tb: seq<Tree>,
                  ghost h: nat)
      requires h > 0 && |ta| == 2 && |tb| == 2 && WfAll(nodes, ta, h - 1) && WfAll(nodes, tb, h - 1)
      requires DistinctOf(ta) && DistinctOf(tb) && NodesOf(ta) !! NodesOf(tb)
      requires a in nodes && b in nodes && a != b && !nodes[a].shape.isLeaf && !nodes[b].shape.isLeaf
      requires a !in NodesOf(ta) && a !in NodesOf(tb) && b !in NodesOf(ta) && b !in NodesOf(tb)
      requires Roots(ta) == [a0, a1] && Roots(tb) == [b0, b1]
      modifies this`nodes
      ensures nodes.Keys == old(nodes).Keys && Allocated() == old(Allocated())
      ensures Changes(old(nodes), nodes, {a, b}, Elems(Roots(ta)) + Elems(Roots(tb)))
      ensures Wf(nodes, Inner(a, ta), h) && Wf(nodes, Inner(b, tb), h)
    {
      TwoRewired(nodes, a, ta, b, tb, h - 1);
      SetChildren(a, a0, Some(a1), None, Roots(ta));
      SetChildren(b, b0, Some(b1), None, Roots(tb));
    }

    /** Merging, the `x.right == null` branches of `borrowOrMerge`: `m`, one
        of the adjacent children `u` and `v`, takes all three grandchildren
        `m0`, `m1`, `m2`, and then the parent `p` takes `p0` and `p1` as
        children, the merged node in place of the pair. */
    method Merge(m: Ref, m0: Ref, m1: Ref, m2: Ref, p: Ref, p0: Ref, p1: Ptr, ghost g: Frame, ghost u: Tree,
                 ghost v: Tree, ghost h: nat)
        returns (ghost X: set<Ref>, ghost P: set<Ref>)
      requires Pair(nodes, g, u, v, h) && |u.kids| + |v.kids| == 3 && (m == u.node || m == v.node) && p == g.node
      requires Roots(u.kids + v.kids) == [m0, m1, m2]
      requires var cs := Roots(Around(g, [Inner(m, u.kids + v.kids)])); |cs| > 0 && cs[0] == p0 && At(cs, 1) == p1
      modifies this`nodes
      ensures nodes.Keys == old(nodes).Keys && Allocated() == old(Allocated())
      ensures Regrouping(old(nodes), nodes, p, Around(g, [u, v]), Around(g, [Inner(m, u.kids + v.kids)]), h, X, P)
    {
      ghost var gs := u.kids + v.kids;
      ghost var pk2 := Around(g, [Inner(m, gs)]);
      MergeReady(nodes, g, u, v, h, m);
      SetChildren(m, m0, Some(m1), Some(m2), [m0, m1, m2]);
      ghost var G1 := nodes;
      MergeLinks(old(nodes), G1, g, u, v, h, m);
      Reparented(G1, p, pk2, h);
      SetChildren(p, p0, p1, None, Roots(pk2));
      Merged(old(nodes), G1, nodes, g, u, v, h, m);
      X, P := {m} + {p}, Elems(Roots(gs)) + Elems(Roots(pk2));
    }

    /** `borrowOrMerge`: the node `y` under repair has a single child, and
        `x` is its sibling on the right if `y` is the left child, on the
        left otherwise. When `x` has three children, the two share out the
        four grandchildren two and two; otherwise `x` takes all three and
        alone takes the place of both below the parent `z`. The repair pass
        then continues at `z`. */
    method BorrowOrMerge(y: Ref, ghost ctx: seq<Frame>, ghost t: Tree, ghost h: nat, ghost L: seq<Entry>)
        returns (z: Ref, ghost t': Tree)
      requires Repair(nodes, ctx, t, h, root, L) && ctx != [] && t.Inner? && |t.kids| == 1 && y == t.node
      modifies this`nodes
      ensures nodes.Keys == old(nodes).Keys && Allocated() == old(Allocated())
      ensures z == ctx[0].node == t'.node && Repair(nodes, ctx[1..], t', h + 1, root, L)
      ensures ValuesKept(old(nodes), nodes)
    {
      ghost var g, u, v := Regroupable(nodes, ctx, t, h, root, L);
      z := nodes[y].parent.value;
      ghost var X, P, pk2 := Regroup(y, z, g, u, v, h);
      RepairUp(old(nodes), nodes, ctx, t, h, root, L, pk2, X, P);
      t' := Inner(z, pk2);
    }

    /** The three cases of `borrowOrMerge`, by the position of `y` below its
        parent `z`: `y` and its sibling `x` are the adjacent children `u`,
        `v` of `z`. */
    method Regroup(y: Ref, z: Ref, ghost g: Frame, ghost u: Tree, ghost v: Tree, ghost h: nat)
        returns (ghost X: set<Ref>, ghost P: set<Ref>, ghost pk2: seq<Tree>)
      requires Pair(nodes, g, u, v, h) && 3 <= |u.kids| + |v.kids| <= 4 && z == g.node
      requires (y == u.node && |u.kids| == 1 && |g.before| == 0) || (y == v.node && |v.kids| == 1)
      modifies this`nodes
      ensures nodes.Keys == old(nodes).Keys && Allocated() == old(Allocated())
      ensures Regrouping(old(nodes), nodes, z, Around(g, [u, v]), pk2, h, X, P)
    {
      ParentFields(nodes, g, u, v, h);
      var x: Ref;
      if nodes[z].shape.left == Some(y) {
        x := nodes[z].shape.middle.value;
        X, P, pk2 := RegroupLeft(y, x, z, g, u, v, h);
      } else if nodes[z].shape.middle == Some(y) {
        x := nodes[z].shape.left.value;
        X, P, pk2 := RegroupMiddle(y, x, z, g, u, v, h);
      } else {
        x := nodes[z].shape.middle.value;
        X, P, pk2 := RegroupRight(y, x, z, g, u, v, h);
      }
    }

    /** The `y == z.left` branch of `borrowOrMerge`: `y` is the left child
        `u` and `x` the middle child `v`. */
    method RegroupLeft(y: Ref, x: Ref, z: Ref, ghost g: Frame, ghost u: Tree, ghost v: Tree, ghost h: nat)
        returns (ghost X: set<Ref>, ghost P: set<Ref>, ghost pk2: seq<Tree>)
      requires Pair(nodes, g, u, v, h) && 3 <= |u.kids| + |v.kids| <= 4 && |u.kids| == 1
      requires y == u.node && x == v.node && z == g.node && |g.before| == 0
      modifies this`nodes
      ensures nodes.Keys == old(nodes).Keys && Allocated() == old(Allocated())
      ensures Regrouping(old(nodes), nodes, z, Around(g, [u, v]), pk2, h, X, P)
    {
      ghost var gs := u.kids + v.kids;
      PairFields(nodes, g, u, v, h);
      if nodes[x].shape.right != None {
        BorrowParts(nodes, g, u, v, h, y, gs[..2], x, gs[2..]);
        Borrow(y, nodes[y].shape.left.value, nodes[x].shape.left.value,
               x, nodes[x].shape.middle.value, nodes[x].shape.right.value, gs[..2], gs[2..], h);
        X, P := {y, x}, Elems(Roots(gs[..2])) + Elems(Roots(gs[2..]));
        BorrowRegroup(old(nodes), nodes, g, u, v, h, y, gs[..2], x, gs[2..]);
        pk2 := Around(g, [Inner(u.node, gs[..2]), Inner(v.node, gs[2..])]);
      } else {
        MergeFields(nodes, g, u, v, h, x);
        X, P := Merge(x, nodes[y].shape.left.value, nodes[x].shape.left.value, nodes[x].shape.middle.value,
                      z, x, nodes[z].shape.right, g, u, v, h);
        pk2 := Around(g, [Inner(x, gs)]);
      }
    }

    /** The `y == z.middle` branch of `borrowOrMerge`: `x` is the left child
        `u` and `y` the middle child `v`. */
    method RegroupMiddle(y: Ref, x: Ref, z: Ref, ghost g: Frame, ghost u: Tree, ghost v: Tree, ghost h: nat)
        returns (ghost X: set<Ref>, ghost P: set<Ref>, ghost pk2: seq<Tree>)
      requires Pair(nodes, g, u, v, h) && 3 <= |u.kids| + |v.kids| <= 4 && |v.kids| == 1
      requires y == v.node && x == u.node && z == g.node && |g.before| == 0
      modifies this`nodes
      ensures nodes.Keys == old(nodes).Keys && Allocated() == old(Allocated())
      ensures Regrouping(old(nodes), nodes, z, Around(g, [u, v]), pk2, h, X, P)
    {
      ghost var gs := u.kids + v.kids;
      PairFields(nodes, g, u, v, h);
      if nodes[x].shape.right != None {
        BorrowParts(nodes, g, u, v, h, y, gs[2..], x, gs[..2]);
        Borrow(y, nodes[x].shape.right.value, nodes[y].shape.left.value,
               x, nodes[x].shape.left.value, nodes[x].shape.middle.value, gs[2..], gs[..2], h);
        X, P := {y, x}, Elems(Roots(gs[2..])) + Elems(Roots(gs[..2]));
        BorrowRegroup(old(nodes), nodes, g, u, v, h, y, gs[2..], x, gs[..2]);
        pk2 := Around(g, [Inner(u.node, gs[..2]), Inner(v.node, gs[2..])]);
      } else {
        MergeFields(nodes, g, u, v, h, x);
        X, P := Merge(x, nodes[x].shape.left.value, nodes[x].shape.middle.value, nodes[y].shape.left.value,
                      z, x, nodes[z].shape.right, g, u, v, h);
        pk2 := Around(g, [Inner(x, gs)]);
      }
    }

    /** The last branch of `borrowOrMerge`, `y` the right child: `x` is the
        middle child `u` and `y` is `v`. */
    method RegroupRight(y: Ref, x: Ref, z: Ref, ghost g: Frame, ghost u: Tree, ghost v: Tree, ghost h: nat)
        returns (ghost X: set<Ref>, ghost P: set<Ref>, ghost pk2: seq<Tree>)
      requires Pair(nodes, g, u, v, h) && 3 <= |u.kids| + |v.kids| <= 4 && |v.kids| == 1
      requires y == v.node && x == u.node && z == g.node && |g.before| == 1
      modifies this`nodes
      ensures nodes.Keys == old(nodes).Keys && Allocated() == old(Allocated())
      ensures Regrouping(old(nodes), nodes, z, Around(g, [u, v]), pk2, h, X, P)
    {
      ghost var gs := u.kids + v.kids;
      PairFields(nodes, g, u, v, h);
      if nodes[x].shape.right != None {
        BorrowParts(nodes, g, u, v, h, y, gs[2..], x, gs[..2]);
        Borrow(y, nodes[x].shape.right.value, nodes[y].shape.left.value,
               x, nodes[x].shape.left.value, nodes[x].shape.middle.value, gs[2..], gs[..2], h);
        X, P := {y, x}, Elems(Roots(gs[2..])) + Elems(Roots(gs[..2]));
        BorrowRegroup(old(nodes), nodes, g, u, v, h, y, gs[2..], x, gs[..2]);
        pk2 := Around(g, [Inner(u.node, gs[..2]), Inner(v.node, gs[2..])]);
      } else {
        MergeFields(nodes, g, u, v, h, x);
        X, P := Merge(x, nodes[x].shape.left.value, nodes[x].shape.middle.value, nodes[y].shape.left.value,
                      z, nodes[z].shape.left.value, Some(x), g, u, v, h);
        pk2 := Around(g, [Inner(x, gs)]);
      }
    }

    /** Takes the leaf `z` out of the leaf list: its left neighbour's `next`
        becomes its `next`, and its right neighbour's `prev` its `prev`. */
    method Unlink(z: Ref)
      requires z in nodes && nodes[z].prev.Some? && nodes[z].next.Some?
      requires nodes[z].prev.value in nodes && nodes[z].next.value in nodes
      modifies this`nodes
      ensures nodes == Unlinked(old(nodes), z) && nodes.Keys == old(nodes).Keys
      ensures Allocated() == old(Allocated())
    {
      var p, n := nodes[z].prev, nodes[z].next;
      nodes := nodes[p.value := nodes[p.value].(next := n)];
      nodes := nodes[n.value := nodes[n.value].(prev := p)];
    }

    /** The parent `y` of the leaf `z` taken out of the leaf list keeps its
        other children, in order, and becomes the first node under repair. */
    method RemoveChild(y: Ref, z: Ref, ghost ctx: seq<Frame>, ghost L: seq<Entry>) returns (ghost t: Tree)
      requires Hole(nodes, ctx, z, root, L) && y == ctx[0].node
      modifies this`nodes
      ensures nodes.Keys == old(nodes).Keys && Allocated() == old(Allocated()) && ValuesKept(old(nodes), nodes)
      ensures t == Inner(y, ctx[0].before + ctx[0].after) && Repair(nodes, ctx[1..], t, 1, root, L)
    {
      ghost var cs := Roots(ctx[0].before + ctx[0].after);
      RemoveFields(nodes, ctx, z, root, L);
      if nodes[y].shape.left == Some(z) {
        SetChildren(y, nodes[y].shape.middle.value, nodes[y].shape.right, None, cs);
      } else if nodes[y].shape.middle == Some(z) {
        SetChildren(y, nodes[y].shape.left.value, nodes[y].shape.right, None, cs);
      } else {
        SetChildren(y, nodes[y].shape.left.value, nodes[y].shape.middle, None, cs);
      }
      RewireChanges(old(nodes), y, cs);
      LeafRemoved(old(nodes), nodes, ctx, z, root, L);
      t := Inner(y, ctx[0].before + ctx[0].after);
    }

    /** The first half of `delete`, for the leaf `z`, the `m`-th leaf and
        neither sentinel: `z` leaves the leaf list and its parent `y`, which
        becomes the node under repair. The leaf sequence `L` is the old one
        without `z`. */
    method DeleteLeaf(z: Ref, ghost m: nat) returns (y: Ref, ghost ctx: seq<Frame>, ghost t: Tree, ghost L: seq<Entry>)
      requires Valid() && 0 < m < |Leaves(T)| - 1 && Leaves(T)[m].node == z
      modifies this`nodes
      ensures Allocated() && ValuesKept(old(nodes), nodes)
      ensures y == t.node && Repair(nodes, ctx, t, 1, root, L)
      ensures L == Leaves(T)[..m] + Leaves(T)[m + 1..]
      ensures |L| >= 2 && L[0].key == lo && L[|L| - 1].key == hi
      ensures |ctx| + 1 == H
    {
      ghost var es := Leaves(T);
      assert free !in nodes;
      ghost var ctx0 := DeleteStart(nodes, root, T, H, lo, hi, m, free);
      L := es[..m] + es[m + 1..];
      y, t := Detach(z, ctx0, L);
      ctx := ctx0[1..];
    }

    /** The leaf `z` leaves the leaf list and its parent `y`, which keeps
        its other children and becomes the node under repair. */
    method Detach(z: Ref, ghost ctx0: seq<Frame>, ghost L: seq<Entry>) returns (y: Ref, ghost t: Tree)
      requires z in nodes && nodes[z].prev.Some? && nodes[z].next.Some?
      requires nodes[z].prev.value in nodes && nodes[z].next.value in nodes
      requires ctx0 != [] && nodes[z].parent == Some(ctx0[0].node)
      requires ValuesKept(nodes, Unlinked(nodes, z)) && Hole(Unlinked(nodes, z), ctx0, z, root, L)
      modifies this`nodes
      ensures nodes.Keys == old(nodes).Keys && Allocated() == old(Allocated()) && ValuesKept(old(nodes), nodes)
      ensures y == t.node && t == Inner(y, ctx0[0].before + ctx0[0].after) && Repair(nodes, ctx0[1..], t, 1, root, L)
    {
      y := nodes[z].parent.value;
      Unlink(z);
      ghost var G1 := nodes;
      t := RemoveChild(y, z, ctx0, L);
      ValuesKeptTrans(old(nodes), G1, nodes);
    }

    /** The `y.middle != null` branch of the loop of `delete`: `y`, with two
        or three children, is well formed once its caches are refreshed, and
        the pass moves up to its parent, or ends at the root with the tree
        valid again. */
    method RepairUpdate(y: Ref, ghost ctx: seq<Frame>, ghost t: Tree, ghost h: nat, ghost L: seq<Entry>)
        returns (cur: Ptr, ghost ctx': seq<Frame>, ghost t': Tree, ghost h': nat)
      requires Allocated() && Repair(nodes, ctx, t, h, root, L) && y == t.node && t.Inner? && |t.kids| >= 2
      requires |L| >= 2 && L[0].key == lo && L[|L| - 1].key == hi
      modifies this`nodes, this`T, this`H
      ensures Allocated() && ValuesKept(old(nodes), nodes)
      ensures cur.Some? ==> Repair(nodes, ctx', t', h', root, L) && cur.value == t'.node && |ctx'| < |ctx|
      ensures cur.Some? ==> h' + |ctx'| == h + |ctx|
      ensures cur.None? ==> Valid() && Leaves(T) == L
      ensures cur.None? ==> Cached(nodes, T) && nodes[root].shape.size == |L| && H == h + |ctx|
    {
      RepairRecached(nodes, ctx, t, h, root, L);
      UpdateKey(y, Roots(t.kids));
      RecacheChanges(old(nodes), y, Roots(t.kids));
      ChangesKeepValues(old(nodes), nodes, {y}, {});
      cur := nodes[y].parent;
      if cur == None {
        ClimbedToRoot(nodes, [t], h, root, L, lo, hi);
        ctx', t', h' := ctx, t, h;
        T, H := t, h;
      } else {
        AscentToRepair(nodes, ctx, t, h, root, L);
        ctx', t', h' := ctx[1..], Up(ctx[0], [t]), h + 1;
      }
    }

    /** The root under repair has a single child, which becomes the root
        with no parent; the tree is one level shorter. */
    method ShrinkRoot(y: Ref, ghost t: Tree, ghost h: nat, ghost L: seq<Entry>)
      requires Allocated() && Repair(nodes, [], t, h, root, L) && y == t.node && t.Inner? && |t.kids| == 1
      requires |L| >= 2 && L[0].key == lo && L[|L| - 1].key == hi
      modifies this`nodes, this`root, this`T, this`H
      ensures Valid() && Leaves(T) == L && ValuesKept(old(nodes), nodes)
      ensures T == t.kids[0] && root == old(nodes)[y].shape.left.value && root != old(root) && H == h - 1
      ensures Cached(nodes, T) && nodes[root].shape.size == |L|
    {
      RootChild(nodes, t, h, L);
      ghost var c := t.kids[0];
      root := nodes[y].shape.left.value;
      nodes := nodes[root := nodes[root].(parent := None)];
      CutLoose(old(nodes), c, h - 1, L, lo, hi);
      T, H := c, h - 1;
    }

    /** `delete`: the leaf `z`, which is not a sentinel, leaves the leaf
        list and its parent, and the nodes from that parent up are repaired.
        The items are the old ones without `z`'s, which is the only one with
        its key. */
    method Delete(z: Ref) returns (ghost m: nat)
      requires Valid() && z in LeafNodes(Leaves(T))[1..|Leaves(T)| - 1]
      modifies this`nodes, this`root, this`T, this`H
      ensures Valid() && Cached(nodes, T) && nodes[root].shape.size == |old(Items())| - 1
      ensures (H == old(H) && root == old(root)) || (H == old(H) - 1 && root != old(root))
      ensures 0 < m < |old(Items())| - 1 && old(Leaves(T))[m].node == z
      ensures Leaves(T) == old(Leaves(T))[..m] + old(Leaves(T))[m + 1..]
      ensures Items() == old(Items())[..m] + old(Items())[m + 1..]
      ensures Items() == RemoveKey(old(Items()), old(Items())[m].key)
    {
      ghost var G0, es := nodes, Leaves(T);
      assert LeafNodes(es)[1..|es| - 1] == LeafNodes(es[1..|es| - 1]);
      m :| 0 < m < |es| - 1 && es[m].node == z;
      Remove(z, m);
      ItemsDeleted(G0, nodes, es, m);
    }

    /** The body of `delete` for the `m`-th leaf `z`: the leaf is taken out
        and the repair pass runs up to the root, which gives way to its
        child if it is left with one. */
    method Remove(z: Ref, ghost m: nat)
      requires Valid() && 0 < m < |Leaves(T)| - 1 && Leaves(T)[m].node == z
      modifies this`nodes, this`root, this`T, this`H
      ensures Valid() && Leaves(T) == old(Leaves(T))[..m] + old(Leaves(T))[m + 1..] && ValuesKept(old(nodes), nodes)
      ensures Cached(nodes, T) && nodes[root].shape.size == |Leaves(T)|
      ensures (H == old(H) && root == old(root)) || (H == old(H) - 1 && root != old(root))
    {
      var y, ctx, t, L := DeleteLeaf(z, m);
      RepairPass(y, ctx, t, L);
    }

    /** The loop of `delete`, from the node `y` under repair up to the
        root, one `RepairStep` at a time. The tree is then valid again, with
        the leaf sequence `L`. */
    method RepairPass(y: Ref, ghost ctx: seq<Frame>, ghost t: Tree, ghost L: seq<Entry>)
      requires Allocated() && Repair(nodes, ctx, t, 1, root, L) && y == t.node
      requires |L| >= 2 && L[0].key == lo && L[|L| - 1].key == hi
      modifies this`nodes, this`root, this`T, this`H
      ensures Valid() && Leaves(T) == L && ValuesKept(old(nodes), nodes)
      ensures Cached(nodes, T) && nodes[root].shape.size == |L|
      ensures (H == |ctx| + 1 && root == old(root)) || (H == |ctx| && root != old(root))
    {
      var cur: Ptr := Some(y);
      ghost var n := |ctx|;
      ghost var ctx, t, h: nat := ctx, t, 1;
      while cur != None
        invariant Allocated() && ValuesKept(old(nodes), nodes)
        invariant cur.Some? ==> Repair(nodes, ctx, t, h, root, L) && cur.value == t.node
        invariant cur.Some? ==> h + |ctx| == n + 1 && root == old(root)
        invariant cur.None? ==> Valid() && Leaves(T) == L && Cached(nodes, T) && nodes[root].shape.size == |L|
        invariant cur.None? ==> (H == n + 1 && root == old(root)) || (H == n && root != old(root))
        decreases if cur.None? then 0 else |ctx| + 1
      {
        ghost var G := nodes;
        cur, ctx, t, h := RepairStep(cur.value, ctx, t, h, L);
        ValuesKeptTrans(old(nodes), G, nodes);
      }
    }

    /** One round of the loop of `delete` at the node `x` under repair: with
        two or three children it gets its caches refreshed and the pass moves
        to its parent; with one child, it borrows from or merges with a
        sibling and the pass continues at the parent, unless it is the root,
        which gives way to its child. The pass ends (`null`) with the tree
        valid again. */
    method RepairStep(x: Ref, ghost ctx: seq<Frame>, ghost t: Tree, ghost h: nat, ghost L: seq<Entry>)
        returns (cur: Ptr, ghost ctx': seq<Frame>, ghost t': Tree, ghost h': nat)
      requires Allocated() && Repair(nodes, ctx, t, h, root, L) && x == t.node
      requires |L| >= 2 && L[0].key == lo && L[|L| - 1].key == hi
      modifies this`nodes, this`root, this`T, this`H
      ensures Allocated() && ValuesKept(old(nodes), nodes)
      ensures cur.Some? ==> Repair(nodes, ctx', t', h', root, L) && cur.value == t'.node && |ctx'| < |ctx|
      ensures cur.Some? ==> h' + |ctx'| == h + |ctx| && root == old(root)
      ensures cur.None? ==> Valid() && Leaves(T) == L && Cached(nodes, T) && nodes[root].shape.size == |L|
      ensures cur.None? ==> (H == h + |ctx| && root == old(root)) || (H + 1 == h + |ctx| && root != old(root))
    {
      RepairKids(nodes, ctx, t, h, root, L);
      if nodes[x].shape.middle != None {
        cur, ctx', t', h' := RepairUpdate(x, ctx, t, h, L);
      } else {
        cur, ctx', t', h' := RepairSingle(x, ctx, t, h, L);
      }
    }

    /** The `y.middle == null` branch of the loop of `delete`: the node `x`
        under repair has one child. Below the root, it borrows from or
        merges with a sibling and the pass continues at the parent; the
        root gives way to its child and the pass ends. */
    method RepairSingle(x: Ref, ghost ctx: seq<Frame>, ghost t: Tree, ghost h: nat, ghost L: seq<Entry>)
        returns (cur: Ptr, ghost ctx': seq<Frame>, ghost t': Tree, ghost h': nat)
      requires Allocated() && Repair(nodes, ctx, t, h, root, L) && x == t.node && t.Inner? && |t.kids| == 1
      requires x == root <==> ctx == []
      requires |L| >= 2 && L[0].key == lo && L[|L| - 1].key == hi
      modifies this`nodes, this`root, this`T, this`H
      ensures Allocated() && ValuesKept(old(nodes), nodes)
      ensures cur.Some? ==> Repair(nodes, ctx', t', h', root, L) && cur.value == t'.node && |ctx'| < |ctx|
      ensures cur.Some? ==> h' + |ctx'| == h + |ctx| && root == old(root)
      ensures cur.None? ==> Valid() && Leaves(T) == L
      ensures cur.None? ==> Cached(nodes, T) && nodes[root].shape.size == |L| && H + 1 == h + |ctx| && root != old(root)
    {
      if x != root {
        var p;
        p, t' := BorrowOrMerge(x, ctx, t, h, L);
        cur, ctx', h' := Some(p), ctx[1..], h + 1;
      } else {
        ShrinkRoot(x, t, h, L);
        cur, ctx', t', h' := None, ctx, t, h;
      }
    }

    /** `rank`: the position, counting from 1, of leaf `z` in key order
        (the `lo` sentinel is first), that is one more than the number of
        leaves with a smaller key. Climbing from `z` to the root, each step
        adds the cached sizes of the siblings to the left of the child it
        came from. */
    method Rank(z: Ref) returns (rank: int)
      requires Valid() && z in LeafNodes(Leaves(T))
      ensures 1 <= rank <= |Leaves(T)| && Leaves(T)[rank - 1].node == z
      ensures rank == 1 + CountBelow(Leaves(T), Leaves(T)[rank - 1].key)
    {
      ghost var es := Leaves(T);
      ghost var m :| 0 <= m < |es| && es[m].node == z;
      ghost var ctx := Located(nodes, root, T, H, lo, hi, m, free);
      ghost var h := 0;
      rank := 1;
      var x := z;
      var y := nodes[x].parent;
      while y != None
        invariant x in nodes && y == nodes[x].parent
        invariant CtxOk(nodes, ctx, x, h, root) && CtxDistinct(ctx) && x !in CtxNodes(ctx)
        invariant rank == 1 + m - |LeftLeaves(ctx)|
        decreases |ctx|
      {
        CtxRootParent(nodes, ctx, x, h, root);
        RankStep(nodes, ctx, x, h, root);
        var s := nodes[y.value].shape;
        if s.middle == Some(x) {
          rank := rank + nodes[s.left.value].shape.size;
        } else if s.right == Some(x) {
          rank := rank + nodes[s.left.value].shape.size + nodes[s.middle.value].shape.size;
        }
        x := y.value;
        y := nodes[x].parent;
        ctx := ctx[1..];
        h := h + 1;
      }
      CtxRootParent(nodes, ctx, x, h, root);
      PositionIsCount(es, m);
    }
  }
}
