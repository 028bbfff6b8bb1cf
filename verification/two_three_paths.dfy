/** Lemmas about paths from a node up to the root while the tree is being
    repaired: how a path survives changes to the store, and the invariant
    of the upward pass of insertion. */
module TwoThreePaths {
  import opened Wrappers
  import opened TwoThreeNode
  import opened TwoThreeLemmas

  /** Narrowing what a change keeps. */
  lemma KeptSub<V>(G: Store<V>, G': Store<V>, S: set<Ref>, P: set<Ref>, S': set<Ref>, P': set<Ref>)
    requires Kept(G, G', S, P) && S' <= S && P' <= P
    ensures Kept(G, G', S', P')
  {
  }

  /** The nodes of a path are in the store. */
  lemma {:induction false} CtxNodesInStore<V>(G: Store<V>, ctx: seq<Frame>, below: Ref, h: nat, root: Ref)
    requires CtxOk(G, ctx, below, h, root)
    ensures CtxNodes(ctx) <= G.Keys && below in G
    decreases |ctx|
  {
    if ctx != [] {
      var f := ctx[0];
      WfAllInStore(G, f.before + f.after, h);
      CtxNodesInStore(G, ctx[1..], f.node, h + 1, root);
      assert (Roots(f.before) + [below] + Roots(f.after))[|f.before|] == below;
    }
  }

  /** One frame of a path stays in place in a store that keeps the shapes
      of its nodes and the parents of its nodes and of the node below. */
  lemma FrameKept<V>(G: Store<V>, G': Store<V>, f: Frame, below: Ref, h: nat)
    requires Links(G, f.node, Roots(f.before) + [below] + Roots(f.after)) && WfAll(G, f.before + f.after, h)
    requires Kept(G, G', {f.node} + NodesOf(f.before + f.after), {below} + NodesOf(f.before + f.after))
    ensures Links(G', f.node, Roots(f.before) + [below] + Roots(f.after)) && WfAll(G', f.before + f.after, h)
  {
    var sib := f.before + f.after;
    var cs := Roots(f.before) + [below] + Roots(f.after);
    NodesOfContains(sib);
    RootsAppend(f.before, f.after);
    assert forall i | 0 <= i < |cs| :: cs[i] == below || cs[i] in Elems(Roots(sib));
    BelowOfWithin(sib);
    KeptSub(G, G', {f.node} + NodesOf(sib), {below} + NodesOf(sib), NodesOf(sib), BelowOf(sib));
    WfAllKept(G, G', sib, h);
  }

  /** A path stays a path in a store that keeps the shapes of its nodes and
      their parents, and the parent of the node below it. */
  lemma {:induction false} CtxOkKept<V>(G: Store<V>, G': Store<V>, ctx: seq<Frame>, below: Ref, h: nat, root: Ref)
    requires CtxOk(G, ctx, below, h, root) && Kept(G, G', CtxNodes(ctx), CtxNodes(ctx) + {below})
    ensures CtxOk(G', ctx, below, h, root)
    decreases |ctx|
  {
    if ctx != [] {
      var f := ctx[0];
      var sib := f.before + f.after;
      KeptSub(G, G', CtxNodes(ctx), CtxNodes(ctx) + {below}, {f.node} + NodesOf(sib), {below} + NodesOf(sib));
      FrameKept(G, G', f, below, h);
      KeptSub(G, G', CtxNodes(ctx), CtxNodes(ctx) + {below}, CtxNodes(ctx[1..]), CtxNodes(ctx[1..]) + {f.node});
      CtxOkKept(G, G', ctx[1..], f.node, h + 1, root);
    }
  }

  // ---------------------------------------------------- downward pass

  /** The downward pass of insertion for `key`: `t`, of height `h`, is the
      subtree at the end of the path `ctx` from the root of `T`; every leaf
      to its left has a key at most `key`, its own largest key is above
      `key`, and the node `newNode` is none of the nodes met. */
  ghost predicate Descent<V>(G: Store<V>, ctx: seq<Frame>, t: Tree, h: nat, root: Ref, T: Tree, key: int, newNode: Ref)
  {
    Sound(G, t, h) && (ctx == [] ==> t == T) && (ctx != [] ==> Cached(G, t)) &&
    CtxOk(G, ctx, t.node, h, root) && CtxDistinct(ctx) && Distinct(t) && CtxNodes(ctx) !! Nodes(t) &&
    LeftLeaves(ctx) + Leaves(t) + RightLeaves(ctx) == Leaves(T) && Ascending(Leaves(T)) &&
    |Leaves(t)| > 0 && key < MaxKey(t) && (forall e | e in LeftLeaves(ctx) :: e.key <= key) &&
    newNode !in CtxNodes(ctx) && newNode !in Nodes(t)
  }

  /** What the downward pass for `key` needs of the tree: `T` is sound and
      rooted at `root`, its leaves ascend to a key above `key`, and the
      node `newNode` is not part of it. */
  ghost predicate Searchable<V>(G: Store<V>, T: Tree, h: nat, root: Ref, key: int, newNode: Ref)
  {
    Sound(G, T, h) && T.node == root && root in G && G[root].parent == None && Distinct(T) &&
    Ascending(Leaves(T)) && |Leaves(T)| > 0 && key < MaxKey(T) && newNode !in Nodes(T)
  }

  /** The downward pass starts at the root with an empty path. */
  lemma DescentStart<V>(G: Store<V>, T: Tree, h: nat, root: Ref, key: int, newNode: Ref)
    requires Searchable(G, T, h, root, key, newNode)
    ensures Descent(G, [], T, h, root, T, key, newNode)
  {
  }

  /** Going down into the first child whose largest key is above `key`. */
  lemma DescendStep<V>(G: Store<V>, ctx: seq<Frame>, t: Tree, i: nat, h: nat, k: nat, root: Ref, T: Tree, key: int, newNode: Ref)
    requires Descent(G, ctx, t, h, root, T, key, newNode) && t.Inner? && i < |t.kids| && k + 1 == h
    requires forall j | 0 <= j < i :: |Leaves(t.kids[j])| > 0 && MaxKey(t.kids[j]) <= key
    requires |Leaves(t.kids[i])| > 0 && key < MaxKey(t.kids[i])
    ensures Descent(G, [Frame(t.node, t.kids[..i], t.kids[i + 1..])] + ctx, t.kids[i], k, root, T, key, newNode)
  {
    var f := Frame(t.node, t.kids[..i], t.kids[i + 1..]);
    var ctx' := [f] + ctx;
    assert ctx'[1..] == ctx;
    Descend(G, ctx, t, i, h, k, root);
    DownDistinct(ctx, t, i);
    DownLeaves(ctx, t, i);
    SplitAt(t.kids, i);
    assert Up(f, [t.kids[i]]) == t;
    UpNodes(f, [t.kids[i]]);
    NodesOfOne(t.kids[i]);
    AscendingInfix(LeftLeaves(ctx), Leaves(t), RightLeaves(ctx));
    EarlierKeys(t, i, key);
  }

  /** The leaves of the children before child `i` have keys at most `key`
      when the largest key of each of those children is. */
  lemma EarlierKeys(t: Tree, i: nat, key: int)
    requires t.Inner? && i < |t.kids| && Ascending(Leaves(t))
    requires forall j | 0 <= j < i :: |Leaves(t.kids[j])| > 0 && MaxKey(t.kids[j]) <= key
    ensures forall e | e in LeavesOf(t.kids[..i]) :: e.key <= key
  {
    var before := t.kids[..i];
    forall e | e in LeavesOf(before) ensures e.key <= key {
      LeavesOfMember(before, e);
      var j :| 0 <= j < |before| && e in Leaves(before[j]);
      assert before[j] == t.kids[j];
      KidLeaves(t, j);
      KeyAtMost(t.kids[j]);
    }
  }

  /** The pointers and cached keys the downward pass reads at an internal
      node. */
  lemma DescentShape<V>(G: Store<V>, ctx: seq<Frame>, t: Tree, h: nat, root: Ref, T: Tree, key: int, newNode: Ref)
    requires Descent(G, ctx, t, h, root, T, key, newNode) && t.Inner?
    ensures 2 <= |t.kids| <= 3 && t.node in G
    ensures G[t.node].shape.left == Some(t.kids[0].node) && G[t.node].shape.middle == Some(t.kids[1].node)
    ensures G[t.node].shape.right == (if |t.kids| == 3 then Some(t.kids[2].node) else None)
    ensures |Leaves(t.kids[0])| > 0 && t.kids[0].node in G && G[t.kids[0].node].shape.key == Some(MaxKey(t.kids[0]))
    ensures |Leaves(t.kids[1])| > 0 && t.kids[1].node in G && G[t.kids[1].node].shape.key == Some(MaxKey(t.kids[1]))
  {
    InnerShape(G, t, h);
  }

  /** The downward pass goes into child `i`, the first whose largest key
      is above `key`; with two children that is one of them. */
  lemma DescendAt<V>(G: Store<V>, ctx: seq<Frame>, t: Tree, i: nat, h: nat, k: nat, root: Ref, T: Tree, key: int, newNode: Ref)
    requires Descent(G, ctx, t, h, root, T, key, newNode) && t.Inner? && 2 <= |t.kids| && i <= 2 && k + 1 == h
    requires |Leaves(t.kids[0])| > 0 && |Leaves(t.kids[1])| > 0
    requires i >= 1 ==> MaxKey(t.kids[0]) <= key
    requires i == 2 ==> MaxKey(t.kids[1]) <= key
    requires i < 2 ==> key < MaxKey(t.kids[i])
    ensures i < |t.kids|
    ensures Descent(G, [Frame(t.node, t.kids[..i], t.kids[i + 1..])] + ctx, t.kids[i], k, root, T, key, newNode)
  {
    if i == 2 {
      ThirdChild(G, t, h, key);
    }
    forall j | 0 <= j < i ensures |Leaves(t.kids[j])| > 0 && MaxKey(t.kids[j]) <= key {
      assert j == 0 || j == 1;
    }
    DescendStep(G, ctx, t, i, h, k, root, T, key, newNode);
  }

  /** The child the downward pass for `key` takes at `t`: the first of the
      left and middle children whose largest key is above `key`, else the
      last child. */
  ghost function Choice(t: Tree, key: int): (i: nat)
    requires t.Inner? && |t.kids| > 0
    ensures i < |t.kids|
  {
    if |Leaves(t.kids[0])| > 0 && key < MaxKey(t.kids[0]) then 0
    else if |t.kids| > 1 && |Leaves(t.kids[1])| > 0 && key < MaxKey(t.kids[1]) then 1
    else |t.kids| - 1
  }

  /** One step of the downward pass goes into child `Choice(t, key)`. */
  lemma DescendNext<V>(G: Store<V>, ctx: seq<Frame>, t: Tree, h: nat, k: nat, root: Ref, T: Tree, key: int, newNode: Ref)
    returns (ctx': seq<Frame>, t': Tree)
    requires Descent(G, ctx, t, h, root, T, key, newNode) && k + 1 == h
    ensures t.Inner? && |t.kids| > 0
    ensures var i := Choice(t, key); ctx' == [Frame(t.node, t.kids[..i], t.kids[i + 1..])] + ctx && t' == t.kids[i]
    ensures Descent(G, ctx', t', k, root, T, key, newNode)
  {
    SoundHeight(G, t, h);
    InnerShape(G, t, h);
    var i := Choice(t, key);
    if MaxKey(t.kids[0]) <= key && MaxKey(t.kids[1]) <= key {
      ThirdChild(G, t, h, key);
    }
    DescendAt(G, ctx, t, i, h, k, root, T, key, newNode);
    ctx', t' := [Frame(t.node, t.kids[..i], t.kids[i + 1..])] + ctx, t.kids[i];
  }

  /** The child `Choice(t, key)` is the one the pointers and cached keys
      of the store select: the left one when `key` is below its cached key,
      else the middle one when `key` is below its cached key, else the
      right one. */
  lemma DescendPointer<V>(G: Store<V>, ctx: seq<Frame>, t: Tree, h: nat, root: Ref, T: Tree, key: int, newNode: Ref)
    requires Descent(G, ctx, t, h, root, T, key, newNode) && t.Inner?
    ensures |t.kids| > 0 && t.node in G
    ensures var s, i := G[t.node].shape, Choice(t, key);
      s.left.Some? && s.left.value in G && G[s.left.value].shape.key.Some? &&
      s.middle.Some? && s.middle.value in G && G[s.middle.value].shape.key.Some? &&
      (if key < G[s.left.value].shape.key.value then s.left
       else if key < G[s.middle.value].shape.key.value then s.middle
       else s.right) == Some(t.kids[i].node)
  {
    DescentShape(G, ctx, t, h, root, T, key, newNode);
    if MaxKey(t.kids[0]) <= key && MaxKey(t.kids[1]) <= key {
      ThirdChild(G, t, h, key);
    }
  }

  /** The path and the subtree reached after `d` steps of the downward pass
      for `key` from the root of `T`. */
  ghost function Path(T: Tree, key: int, d: nat): (seq<Frame>, Tree)
  {
    if d == 0 then ([], T)
    else
      var (ctx, t) := Path(T, key, d - 1);
      if t.Inner? && |t.kids| > 0 then
        var i := Choice(t, key);
        ([Frame(t.node, t.kids[..i], t.kids[i + 1..])] + ctx, t.kids[i])
      else (ctx, t)
  }

  /** The downward pass from a well-formed root of height `h` stays a
      downward pass for `d <= h` steps. */
  lemma {:induction false} PathDescent<V>(G: Store<V>, T: Tree, h: nat, root: Ref, key: int, newNode: Ref, d: nat)
    returns (ctx: seq<Frame>, t: Tree)
    requires Searchable(G, T, h, root, key, newNode) && d <= h
    ensures Path(T, key, d) == (ctx, t) && Descent(G, ctx, t, h - d, root, T, key, newNode)
    decreases d, 1
  {
    if d == 0 {
      ctx, t := [], T;
      DescentStart(G, T, h, root, key, newNode);
      DescentHeight(G, ctx, t, h, h - d, root, T, key, newNode);
    } else {
      ctx, t := PathNext(G, T, h, root, key, newNode, d);
    }
  }

  /** The path after `d` steps of the downward pass, `d` at most the
      height, has `d` frames. */
  lemma {:induction false} PathLength<V>(G: Store<V>, T: Tree, h: nat, root: Ref, key: int, newNode: Ref, d: nat)
    requires Searchable(G, T, h, root, key, newNode) && d <= h
    ensures |Path(T, key, d).0| == d
  {
    if d > 0 {
      PathLength(G, T, h, root, key, newNode, d - 1);
      PathLonger(G, T, h, root, key, newNode, d);
    }
  }

  /** Above the leaves, each step of the downward pass adds one frame to
      the path. */
  lemma PathLonger<V>(G: Store<V>, T: Tree, h: nat, root: Ref, key: int, newNode: Ref, d: nat)
    requires Searchable(G, T, h, root, key, newNode) && 0 < d <= h
    ensures |Path(T, key, d).0| == |Path(T, key, d - 1).0| + 1
  {
    var c, s := PathDescent(G, T, h, root, key, newNode, d - 1);
    DescentInner(G, c, s, h - (d - 1), root, T, key, newNode);
    PathUnfold(T, key, d, c, s);
  }

  /** Step `d` of the downward pass in a tree of height `h`. */
  lemma {:induction false} PathNext<V>(G: Store<V>, T: Tree, h: nat, root: Ref, key: int, newNode: Ref, d: nat)
    returns (ctx: seq<Frame>, t: Tree)
    requires Searchable(G, T, h, root, key, newNode) && 0 < d <= h
    ensures Path(T, key, d) == (ctx, t) && Descent(G, ctx, t, h - d, root, T, key, newNode)
    decreases d, 0
  {
    var c, s := PathDescent(G, T, h, root, key, newNode, d - 1);
    ctx, t := PathAdvance(G, c, s, h, root, T, key, newNode, d);
  }

  /** Step `d` of the downward pass, from the path and subtree of step
      `d - 1`. */
  lemma PathAdvance<V>(G: Store<V>, c: seq<Frame>, s: Tree, h: nat, root: Ref, T: Tree, key: int, newNode: Ref, d: nat)
    returns (ctx: seq<Frame>, t: Tree)
    requires 0 < d <= h && Path(T, key, d - 1) == (c, s) && Descent(G, c, s, h - (d - 1), root, T, key, newNode)
    ensures Path(T, key, d) == (ctx, t) && Descent(G, ctx, t, h - d, root, T, key, newNode)
  {
    ctx, t := DescendNext(G, c, s, h - (d - 1), h - d, root, T, key, newNode);
    PathUnfold(T, key, d, c, s);
  }

  /** One more step of the downward pass descends from an internal node
      to the child `Choice` selects. */
  lemma PathUnfold(T: Tree, key: int, d: nat, c: seq<Frame>, s: Tree)
    requires 0 < d && Path(T, key, d - 1) == (c, s) && s.Inner? && |s.kids| > 0
    ensures var i := Choice(s, key); Path(T, key, d) == ([Frame(s.node, s.kids[..i], s.kids[i + 1..])] + c, s.kids[i])
  {
  }

  /** Above the leaves, the downward pass is at an internal node. */
  lemma DescentInner<V>(G: Store<V>, ctx: seq<Frame>, t: Tree, h: nat, root: Ref, T: Tree, key: int, newNode: Ref)
    requires Descent(G, ctx, t, h, root, T, key, newNode) && h > 0
    ensures t.Inner?
  {
    SoundIsLeaf(G, t, h);
  }

  /** `Descent` at equal heights. */
  lemma DescentHeight<V>(G: Store<V>, ctx: seq<Frame>, t: Tree, a: nat, b: nat, root: Ref, T: Tree, key: int, newNode: Ref)
    requires a == b && Descent(G, ctx, t, a, root, T, key, newNode)
    ensures Descent(G, ctx, t, b, root, T, key, newNode)
  {
  }

  /** What the store says at step `d` of the downward pass: the node
      reached is a leaf exactly at the end, and before that the child
      pointer the cached keys select leads to the next node of the path. */
  lemma PathStep<V>(G: Store<V>, T: Tree, h: nat, root: Ref, key: int, newNode: Ref, d: nat)
    requires Searchable(G, T, h, root, key, newNode) && d <= h
    ensures var y := Path(T, key, d).1.node;
      y in G && (G[y].shape.isLeaf <==> d == h)
    ensures var y, s := Path(T, key, d).1.node, G[Path(T, key, d).1.node].shape;
      d < h ==>
        s.left.Some? && s.left.value in G && G[s.left.value].shape.key.Some? &&
        s.middle.Some? && s.middle.value in G && G[s.middle.value].shape.key.Some? &&
        (if key < G[s.left.value].shape.key.value then s.left
         else if key < G[s.middle.value].shape.key.value then s.middle
         else s.right) == Some(Path(T, key, d + 1).1.node)
  {
    var ctx, t := PathDescent(G, T, h, root, key, newNode, d);
    SoundIsLeaf(G, t, h - d);
    SoundHeight(G, t, h - d);
    if d < h {
      DescendPointer(G, ctx, t, h - d, root, T, key, newNode);
      var ctx', t' := DescendNext(G, ctx, t, h - d, h - d - 1, root, T, key, newNode);
    }
  }

  /** A key at least the largest key of the second child and below the
      largest key of the node is below the largest key of a third child. */
  lemma ThirdChild<V>(G: Store<V>, t: Tree, h: nat, key: int)
    requires t.Inner? && Sound(G, t, h) && |Leaves(t)| > 0 && key < MaxKey(t)
    requires 2 <= |t.kids| && |Leaves(t.kids[1])| > 0 && MaxKey(t.kids[1]) <= key
    ensures |t.kids| == 3 && |Leaves(t.kids[2])| > 0 && key < MaxKey(t.kids[2])
  {
    SoundKids(G, t, h);
    if |t.kids| == 2 {
      MaxKeyLast(t);
      assert false;
    }
    assert Wf(G, t.kids[2], h - 1);
    MaxKeyLast(t);
  }

  /** The downward pass ends at the first leaf whose key is above `key`. */
  lemma Found<V>(G: Store<V>, ctx: seq<Frame>, t: Tree, root: Ref, T: Tree, key: int, newNode: Ref)
    requires Descent(G, ctx, t, 0, root, T, key, newNode)
    ensures t.Leaf?
    ensures var es, i := Leaves(T), |LeftLeaves(ctx)|;
      i < |es| && es[i] == Entry(t.node, t.key) && key < t.key && forall j | 0 <= j < i :: es[j].key <= key
  {
    SoundHeight(G, t, 0);
    var es, i := Leaves(T), |LeftLeaves(ctx)|;
    assert Leaves(t) == [Entry(t.node, t.key)];
    assert es[..i] == LeftLeaves(ctx) && es[i] == Entry(t.node, t.key);
    forall j | 0 <= j < i ensures es[j].key <= key {
      assert es[j] in LeftLeaves(ctx);
    }
  }

  // ------------------------------------------------------ upward pass

  /** Of one or two subtrees replacing a node, the one that is still a child
      of the next frame: the other one (the `k`-th) is new. */
  ghost function Held(ts: seq<Tree>, k: nat): Ref
    requires 1 <= |ts| <= 2 && k < |ts|
  {
    if |ts| == 2 then ts[1 - k].node else ts[0].node
  }

  /** The upward pass of insertion at height `h`: the subtrees `ts`, whose
      leaves are in the middle of the leaf sequence `L`, have to replace the
      child `Held(ts, k)` of the next frame of the path `ctx`. */
  ghost predicate Ascent<V>(G: Store<V>, ctx: seq<Frame>, ts: seq<Tree>, k: nat, h: nat, root: Ref, L: seq<Entry>)
  {
    Climbing(G, ctx, ts, k, h, root) &&
    LeftLeaves(ctx) + LeavesOf(ts) + RightLeaves(ctx) == L && Ascending(L) && List(G, L)
  }

  /** The shape part of `Ascent`: well-formed subtrees below a path. */
  ghost predicate Climbing<V>(G: Store<V>, ctx: seq<Frame>, ts: seq<Tree>, k: nat, h: nat, root: Ref)
  {
    1 <= |ts| <= 2 && k < |ts| && (|ts| == 1 ==> k == 0) &&
    WfAll(G, ts, h) && DistinctOf(ts) &&
    CtxOk(G, ctx, Held(ts, k), h, root) && CtxDistinct(ctx) && CtxNodes(ctx) !! NodesOf(ts)
  }

  /** The children of the next node up once `ts` replaces its child. */
  ghost function Around(f: Frame, ts: seq<Tree>): seq<Tree>
  {
    f.before + ts + f.after
  }

  /** Dropping the `k`-th of two middle elements. */
  lemma Without<T>(b: seq<T>, ts: seq<T>, a: seq<T>, k: nat)
    requires |ts| == 2 && k < 2
    ensures var s, j := b + ts + a, |b| + k; s[..j] + s[j + 1..] == b + [ts[1 - k]] + a
  {
    var s, j := b + ts + a, |b| + k;
    if k == 0 {
      assert s[..j] == b && s[j + 1..] == [ts[1]] + a;
    } else {
      assert s[..j] == b + [ts[0]] && s[j + 1..] == a;
    }
  }

  /** The children around well-formed subtrees are well-formed when the
      siblings are. */
  lemma AroundWf<V>(G: Store<V>, f: Frame, ts: seq<Tree>, h: nat)
    requires WfAll(G, f.before + f.after, h) && WfAll(G, ts, h)
    ensures WfAll(G, Around(f, ts), h)
  {
    var kids := Around(f, ts);
    forall i | 0 <= i < |kids| ensures Wf(G, kids[i], h) {
      if i < |f.before| {
        assert kids[i] == (f.before + f.after)[i];
      } else if i >= |f.before| + |ts| {
        assert kids[i] == (f.before + f.after)[i - |ts|];
      } else {
        assert kids[i] == ts[i - |f.before|];
      }
    }
  }

  /** What `insertAndSplit` at the next node up needs: its children but the
      new one are in place, and all of them are well-formed, distinct and
      in key order. */
  lemma AscendReady<V>(G: Store<V>, ctx: seq<Frame>, ts: seq<Tree>, k: nat, h: nat, root: Ref, L: seq<Entry>)
    requires Ascent(G, ctx, ts, k, h, root, L) && ctx != [] && |ts| == 2
    ensures var f := ctx[0];
      var kids, j := Around(f, ts), |f.before| + k;
      3 <= |kids| <= 4 && Rejoins(G, f, ts, k) &&
      WfAll(G, kids, h) && DistinctOf(kids) && f.node !in NodesOf(kids) && Ascending(LeavesOf(kids))
    ensures Held(ts, k) in G && G[Held(ts, k)].parent == Some(ctx[0].node)
  {
    CtxRootParent(G, ctx, Held(ts, k), h, root);
    AscendLinks(G, ctx[0], ts, k, h);
    AroundWf(G, ctx[0], ts, h);
    UpDistinct(ctx, ts);
    AscendSorted(G, ctx, ts, k, h, root, L);
  }

  /** The leaves below the next node up are in key order. */
  lemma AscendSorted<V>(G: Store<V>, ctx: seq<Frame>, ts: seq<Tree>, k: nat, h: nat, root: Ref, L: seq<Entry>)
    requires ctx != [] && LeftLeaves(ctx) + LeavesOf(ts) + RightLeaves(ctx) == L && Ascending(L)
    ensures Ascending(LeavesOf(Around(ctx[0], ts)))
  {
    UpLeaves(ctx, ts);
    AscendingInfix(LeftLeaves(ctx[1..]), LeavesOf(Around(ctx[0], ts)), RightLeaves(ctx[1..]));
  }

  /** The node of frame `f` has as children those around `ts` except the
      `k`-th of `ts`, which is the one it will take next. */
  ghost predicate Rejoins<V>(G: Store<V>, f: Frame, ts: seq<Tree>, k: nat)
  {
    var kids, j := Around(f, ts), |f.before| + k;
    k < |ts| && j < |kids| && kids[j] == ts[k] && KidsExcept(G, f.node, kids, j)
  }

  /** The next node up is linked to its children without the `k`-th of the
      two subtrees, which is the one it held before. */
  lemma AscendLinks<V>(G: Store<V>, f: Frame, ts: seq<Tree>, k: nat, h: nat)
    requires |ts| == 2 && k < 2
    requires Links(G, f.node, Roots(f.before) + [Held(ts, k)] + Roots(f.after))
    ensures Rejoins(G, f, ts, k)
  {
    var kids := Around(f, ts);
    var j := |f.before| + k;
    Without(f.before, ts, f.after, k);
    RootsAppend(f.before + [ts[1 - k]], f.after);
    RootsAppend(f.before, [ts[1 - k]]);
    assert Roots([ts[1 - k]]) == [Held(ts, k)];
    assert Roots(kids[..j] + kids[j + 1..]) == Roots(f.before) + [Held(ts, k)] + Roots(f.after);
  }


  /** One step of the upward pass: once the next node up has taken `ts` as
      children (changing only its own shape and its children's parents),
      the subtrees `ts2` that now replace it continue the pass one level
      higher, provided they are made of its nodes and fresh ones and keep
      its leaves. */
  lemma AscendDone<V>(G: Store<V>, G': Store<V>, ctx: seq<Frame>, ts: seq<Tree>, k: nat, h: nat, root: Ref, L: seq<Entry>,
                      ts2: seq<Tree>, k2: nat)
    requires Ascent(G, ctx, ts, k, h, root, L) && ctx != []
    requires Changes(G, G', {ctx[0].node}, Elems(Roots(Around(ctx[0], ts))))
    requires 1 <= |ts2| <= 2 && k2 < |ts2| && (|ts2| == 1 ==> k2 == 0) && Held(ts2, k2) == ctx[0].node
    requires WfAll(G', ts2, h + 1) && DistinctOf(ts2)
    requires forall n | n in NodesOf(ts2) :: n in Nodes(Up(ctx[0], ts)) || n !in G
    requires LeavesOf(ts2) == Leaves(Up(ctx[0], ts))
    ensures Ascent(G', ctx[1..], ts2, k2, h + 1, root, L)
  {
    var f, rest := ctx[0], ctx[1..];
    var kids := Around(f, ts);
    UpDistinct(ctx, ts);
    UpLeaves(ctx, ts);
    assert CtxOk(G, rest, f.node, h + 1, root);
    CtxNodesInStore(G, rest, f.node, h + 1, root);
    NodesOfContains(kids);
    assert Nodes(Up(f, ts)) == {f.node} + NodesOf(kids);
    ChangesKept(G, G', {f.node}, Elems(Roots(kids)), CtxNodes(rest), CtxNodes(rest) + {f.node});
    CtxOkKept(G, G', rest, f.node, h + 1, root);
    ListKept(G, G', L, {f.node}, Elems(Roots(kids)));
  }

  /** What replaces the next node up after `insertAndSplit`: the node
      itself, or it and the fresh node `y` that took its last two children. */
  ghost function Lift(f: Frame, ts: seq<Tree>, y: Ptr): seq<Tree>
    requires y.Some? ==> |Around(f, ts)| >= 2
  {
    var kids := Around(f, ts);
    if y == None then [Inner(f.node, kids)] else [Inner(f.node, kids[..2]), Inner(y.value, kids[2..])]
  }

  /** Splitting the children of a node without repeated nodes between it
      and a node from outside gives two such trees, made of the same nodes
      plus the new one and with the same leaves. */
  lemma SplitTrees(x: Ref, w: Ref, kids: seq<Tree>)
    requires 2 <= |kids| && Distinct(Inner(x, kids)) && w != x && w !in NodesOf(kids)
    ensures var ts := [Inner(x, kids[..2]), Inner(w, kids[2..])];
      DistinctOf(ts) && NodesOf(ts) == Nodes(Inner(x, kids)) + {w} && LeavesOf(ts) == LeavesOf(kids)
  {
    var a, b := kids[..2], kids[2..];
    var s, t := Inner(x, a), Inner(w, b);
    assert kids == a + b;
    SplitNodes(x, w, a, b);
    LeavesOfTwo(s, t);
    LeavesOfAppend(a, b);
  }

  /** The nodes of the two halves of a split node. */
  lemma SplitNodes(x: Ref, w: Ref, a: seq<Tree>, b: seq<Tree>)
    requires Distinct(Inner(x, a + b)) && w != x && w !in NodesOf(a + b)
    ensures var s, t := Inner(x, a), Inner(w, b);
      DistinctOf([s, t]) && NodesOf([s, t]) == Nodes(Inner(x, a + b)) + {w}
  {
    var s, t := Inner(x, a), Inner(w, b);
    DistinctOfLeft(a, b);
    DistinctOfRight(a, b);
    DistinctOfApart(a, b);
    NodesOfAppend(a, b);
    DistinctOfOne(s);
    DistinctOfOne(t);
    NodesOfOne(s);
    NodesOfOne(t);
    DistinctOfJoin([s], [t]);
    assert [s] + [t] == [s, t];
    NodesOfAppend([s], [t]);
  }


  /** The upward pass after `updateKey`, or after `insertAndSplit` when the
      next node up had room for the new child. */
  lemma AscendJoined<V>(G: Store<V>, G': Store<V>, ctx: seq<Frame>, ts: seq<Tree>, k: nat, h: nat, root: Ref, L: seq<Entry>)
    requires Ascent(G, ctx, ts, k, h, root, L) && ctx != []
    requires var x, kids := ctx[0].node, Around(ctx[0], ts);
      Changes(G, G', {x}, Elems(Roots(kids))) && G'.Keys == G.Keys && Wf(G', Inner(x, kids), h + 1)
    ensures Ascent(G', ctx[1..], Lift(ctx[0], ts, None), 0, h + 1, root, L)
  {
    UpDistinct(ctx, ts);
    JoinLift(G', ctx[0], ts, h);
    AscendDone(G, G', ctx, ts, k, h, root, L, Lift(ctx[0], ts, None), 0);
  }

  /** The node that took the subtrees as children, alone, is made of its
      own nodes and keeps its leaves. */
  lemma JoinLift<V>(G': Store<V>, f: Frame, ts: seq<Tree>, h: nat)
    requires Distinct(Up(f, ts)) && Wf(G', Up(f, ts), h + 1)
    ensures var ts2 := Lift(f, ts, None);
      |ts2| == 1 && Held(ts2, 0) == f.node && WfAll(G', ts2, h + 1) && DistinctOf(ts2) &&
      NodesOf(ts2) == Nodes(Up(f, ts)) && LeavesOf(ts2) == Leaves(Up(f, ts))
  {
    var up := Up(f, ts);
    assert Lift(f, ts, None) == [up];
    DistinctOfOne(up);
    NodesOfOne(up);
    LeavesOfOne(up);
  }

  /** The upward pass after `insertAndSplit` at the next node up, when that
      node was split and the fresh node `w` took its last two children. */
  lemma AscendSplit<V>(G: Store<V>, G': Store<V>, ctx: seq<Frame>, ts: seq<Tree>, k: nat, h: nat, root: Ref, L: seq<Entry>, w: Ref)
    requires Ascent(G, ctx, ts, k, h, root, L) && ctx != [] && |ts| == 2
    requires var x, kids := ctx[0].node, Around(ctx[0], ts);
      Changes(G, G', {x}, Elems(Roots(kids))) &&
      |kids| == 4 && w !in G && G'.Keys == G.Keys + {w} &&
      Wf(G', Inner(x, kids[..2]), h + 1) && Wf(G', Inner(w, kids[2..]), h + 1)
    ensures Ascent(G', ctx[1..], Lift(ctx[0], ts, Some(w)), 1, h + 1, root, L)
  {
    var f := ctx[0];
    UpDistinct(ctx, ts);
    AscendReady(G, ctx, ts, k, h, root, L);
    WfAllInStore(G, Around(f, ts), h);
    CtxNodesInStore(G, ctx, Held(ts, k), h, root);
    SplitLift(G, G', f, ts, h, w);
    AscendDone(G, G', ctx, ts, k, h, root, L, Lift(f, ts, Some(w)), 1);
  }

  /** The two trees that replace a split node are made of its nodes and
      the fresh one, without repeats, and keep its leaves. */
  lemma SplitLift<V>(G: Store<V>, G': Store<V>, f: Frame, ts: seq<Tree>, h: nat, w: Ref)
    requires var x, kids := f.node, Around(f, ts);
      |kids| == 4 && Distinct(Up(f, ts)) && w !in G && x in G && NodesOf(kids) <= G.Keys &&
      Wf(G', Inner(x, kids[..2]), h + 1) && Wf(G', Inner(w, kids[2..]), h + 1)
    ensures var ts2 := Lift(f, ts, Some(w));
      |ts2| == 2 && Held(ts2, 1) == f.node && WfAll(G', ts2, h + 1) && DistinctOf(ts2) &&
      (forall n | n in NodesOf(ts2) :: n in Nodes(Up(f, ts)) || n !in G) && LeavesOf(ts2) == Leaves(Up(f, ts))
  {
    SplitTrees(f.node, w, Around(f, ts));
  }

  /** When nothing was split below, the next node up still has the node
      below among its children, all well-formed: `updateKey` applies. */
  lemma UpdateReady<V>(G: Store<V>, ctx: seq<Frame>, ts: seq<Tree>, h: nat, root: Ref, L: seq<Entry>)
    requires Ascent(G, ctx, ts, 0, h, root, L) && ctx != [] && |ts| == 1
    ensures var x, kids := ctx[0].node, Around(ctx[0], ts);
      2 <= |kids| <= 3 && Links(G, x, Roots(kids)) && x !in Roots(kids) &&
      WfAll(G, kids, h) && DistinctOf(kids) && x !in NodesOf(kids)
    ensures Held(ts, 0) in G && G[Held(ts, 0)].parent == Some(ctx[0].node)
  {
    var f := ctx[0];
    var kids := Around(f, ts);
    CtxRootParent(G, ctx, Held(ts, 0), h, root);
    RootsAppend(f.before + ts, f.after);
    RootsAppend(f.before, ts);
    assert Roots(ts) == [Held(ts, 0)];
    assert Links(G, f.node, Roots(f.before) + [Held(ts, 0)] + Roots(f.after));
    AroundWf(G, f, ts, h);
    UpDistinct(ctx, ts);
    RootsUnique(kids, f.node);
  }

  /** `updateKey` on a node linked to 2 or 3 well-formed subtrees makes it
      a well-formed subtree one level higher. */
  lemma Recached<V>(G: Store<V>, x: Ref, kids: seq<Tree>, h: nat)
    requires 2 <= |kids| <= 3 && WfAll(G, kids, h) && DistinctOf(kids)
    requires Links(G, x, Roots(kids)) && x !in NodesOf(kids)
    ensures x !in Roots(kids)
    ensures var R := Recache(G, x, Roots(kids));
      Changes(G, R, {x}, Elems(Roots(kids))) && Wf(R, Inner(x, kids), h + 1)
  {
    RootsUnique(kids, x);
    var R := Recache(G, x, Roots(kids));
    RecacheChanges(G, x, Roots(kids));
    KidsKept(G, R, kids, h, {x}, {});
    Linked(R, x, kids, h);
    ChangesNarrow(G, G, R, {x}, {}, {x}, Elems(Roots(kids)));
  }

  // ------------------------------------------------------------- splice

  /** The leaf sequence with the new leaf's entry just before the leaf
      `t` found by the downward pass is still in key order. */
  lemma SpliceOrder(ctx: seq<Frame>, t: Tree, T: Tree, key: int, z: Ref)
    requires t.Leaf? && LeftLeaves(ctx) + Leaves(t) + RightLeaves(ctx) == Leaves(T) && Ascending(Leaves(T))
    requires key < t.key && (forall e | e in LeftLeaves(ctx) :: e.key <= key) && key !in Keys(Leaves(T))
    ensures var es, i := Leaves(T), |LeftLeaves(ctx)|;
      i < |es| && es[i] == Entry(t.node, t.key) &&
      es[..i] + [Entry(z, key)] + es[i..] == LeftLeaves(ctx) + LeavesOf([Leaf(z, key), t]) + RightLeaves(ctx) &&
      Ascending(es[..i] + [Entry(z, key)] + es[i..])
  {
    var es, i := Leaves(T), |LeftLeaves(ctx)|;
    var y := Entry(t.node, t.key);
    assert Leaves(t) == [y];
    PartsAt(LeftLeaves(ctx), y, RightLeaves(ctx));
    LeavesOfTwo(Leaf(z, key), t);
    InsertBefore(LeftLeaves(ctx), y, RightLeaves(ctx), Entry(z, key));
  }

  /** An entry whose key is above those on the left, not among them, and
      below `y` can go just before `y`. */
  lemma InsertBefore(left: seq<Entry>, y: Entry, right: seq<Entry>, e: Entry)
    requires Ascending(left + [y] + right) && e.key !in Keys(left + [y] + right)
    requires e.key < y.key && forall d | d in left :: d.key <= e.key
    ensures Ascending(left + [e] + ([y] + right))
  {
    var es := left + [y] + right;
    var i := |left|;
    forall j | 0 <= j < i ensures es[j].key < e.key {
      assert es[j] == left[j] && Keys(es)[j] == es[j].key;
    }
    forall j | i <= j < |es| ensures e.key < es[j].key {
      if j > i {
        assert es[i].key < es[j].key;
      }
    }
    InsertAscending(es, i, e);
    assert es[..i] + [e] + es[i..] == left + [e] + ([y] + right);
  }

  /** At the end of the downward pass the subtree reached is a leaf below
      some frame, and the leaf list can take the new leaf `z`. */
  lemma SpliceReady<V>(G: Store<V>, ctx: seq<Frame>, t: Tree, root: Ref, T: Tree, key: int, z: Ref)
    requires Descent(G, ctx, t, 0, root, T, key, z) && T.Inner? && Distinct(T) && z !in Nodes(T)
    ensures t.Leaf? && ctx != []
    ensures Unique(LeafNodes(Leaves(T))) && z !in LeafNodes(Leaves(T))
  {
    Found(G, ctx, t, root, T, key, z);
    LeavesUnique(T);
    LeafNodesIn(T);
    assert z !in Elems(LeafNodes(Leaves(T)));
  }

  /** Threading the new leaf `z` into the leaf list before the leaf `t`
      found starts the upward pass: `z` and `t` are to replace `t` under its
      parent, and the leaf sequence is `L`, the old one with `z` just before
      `t`. */
  lemma SpliceAscent<V>(G: Store<V>, G': Store<V>, ctx: seq<Frame>, t: Tree, root: Ref, T: Tree, key: int, z: Ref, L: seq<Entry>)
    requires Descent(G, ctx, t, 0, root, T, key, z) && t.Leaf? && ctx != []
    requires forall n | n in G :: n in G' && G'[n].shape == G[n].shape && G'[n].parent == G[n].parent
    requires z in G' && G'[z].shape.isLeaf && G'[z].shape.key == Some(key) && G'[z].shape.size == 1
    requires L == LeftLeaves(ctx) + LeavesOf([Leaf(z, key), t]) + RightLeaves(ctx) && Ascending(L) && List(G', L)
    ensures Ascent(G', ctx, [Leaf(z, key), t], 0, 0, root, L)
  {
    CtxOkKept(G, G', ctx, t.node, 0, root);
    var a := Leaf(z, key);
    assert Wf(G', a, 0) && Wf(G', t, 0);
    NodesOfTwo(a, t);
  }

  /** The splice of `insert` as one step: at the leaf `t` where the
      downward pass for `key` ends, threading the new leaf `z` in before `t`
      gives the leaf sequence `L`, which still runs from `lo` to `hi`, starts
      the upward pass and holds the old items with the new one inserted in
      key order. */
  lemma SpliceStart<V>(G: Store<V>, ctx: seq<Frame>, t: Tree, root: Ref, T: Tree, key: int, z: Ref, lo: int, hi: int)
      returns (L: seq<Entry>, i: nat)
    requires Descent(G, ctx, t, 0, root, T, key, z) && T.Inner? && Distinct(T) && z !in Nodes(T)
    requires z in G && G[z].shape.isLeaf && G[z].shape.key == Some(key) && G[z].shape.size == 1
    requires key !in Keys(Leaves(T)) && List(G, Leaves(T)) && lo < key
    requires |Leaves(T)| >= 2 && Leaves(T)[0].key == lo && Leaves(T)[|Leaves(T)| - 1].key == hi
    ensures t.node in G && (G[t.node].prev.Some? ==> G[t.node].prev.value in G) && t.node != root
    ensures var G' := Spliced(G, t.node, z);
      G'.Keys == G.Keys && Ascent(G', ctx, [Leaf(z, key), t], 0, 0, root, L) &&
      ItemsOf(G', L) == InsertSorted(ItemsOf(G, Leaves(T)), Item(key, G[z].value))
    ensures |L| >= 2 && L[0].key == lo && L[|L| - 1].key == hi
    ensures i <= |Leaves(T)| && L == Leaves(T)[..i] + [Entry(z, key)] + Leaves(T)[i..]
  {
    Found(G, ctx, t, root, T, key, z);
    SpliceReady(G, ctx, t, root, T, key, z);
    SpliceOrder(ctx, t, T, key, z);
    var es, k := Leaves(T), |LeftLeaves(ctx)|;
    SpliceList(G, es, k, z, key);
    var G' := Spliced(G, t.node, z);
    L := es[..k] + [Entry(z, key)] + es[k..];
    SpliceAscent(G, G', ctx, t, root, T, key, z, L);
    CtxRootParent(G, ctx, t.node, 0, root);
    assert k > 0;
    InsertedItems(G, G', es, k, z, key, G[z].value);
    i := k;
  }

  /** When the upward pass reaches the root with nothing split off, the
      subtree it rebuilt is the whole tree. */
  lemma ClimbedToRoot<V>(G: Store<V>, ts: seq<Tree>, h: nat, root: Ref, L: seq<Entry>, lo: int, hi: int)
    requires Ascent(G, [], ts, 0, h, root, L) && |ts| == 1 && h > 0
    requires |L| >= 2 && L[0].key == lo && L[|L| - 1].key == hi
    ensures Shaped(G, root, ts[0], h, lo, hi) && Leaves(ts[0]) == L
  {
    var t := ts[0];
    assert Wf(G, t, h);
    SoundHeight(G, t, h);
    CtxRootParent(G, [], t.node, h, root);
    LeavesAtRoot(ts, L);
    LeavesOfOne(t);
    DistinctOfOne(t);
  }

  lemma LeavesAtRoot(ts: seq<Tree>, L: seq<Entry>)
    requires LeftLeaves([]) + LeavesOf(ts) + RightLeaves([]) == L
    ensures LeavesOf(ts) == L
  {
    assert LeftLeaves([]) == [] && RightLeaves([]) == [];
  }

  /** Allocating the fresh node `r` leaves the two halves of the split
      root and the leaf list as they were. */
  lemma NewRootReady<V>(G: Store<V>, ts: seq<Tree>, h: nat, root: Ref, L: seq<Entry>, r: Ref)
    requires Ascent(G, [], ts, 1, h, root, L) && |ts| == 2 && r !in G
    ensures var G' := G[r := InternalNode()];
      WfAll(G', ts, h) && DistinctOf(ts) && r !in NodesOf(ts) && List(G', L) && Changes(G, G', {}, {}) &&
      LeavesOf(ts) == L
  {
    var G' := G[r := InternalNode()];
    WfAllInStore(G, ts, h);
    NodesOfContains(ts);
    WfAllKept(G, G', ts, h);
    ListKept(G, G', L, {}, {});
  }

  /** The two halves of a split root are distinct, and a fresh node is
      neither of them. */
  lemma NewRootKids<V>(G: Store<V>, ts: seq<Tree>, h: nat, root: Ref, L: seq<Entry>, r: Ref)
    requires Ascent(G, [], ts, 1, h, root, L) && |ts| == 2 && r !in G
    ensures Roots(ts) == [ts[0].node, ts[1].node] && Unique(Roots(ts)) && r !in Roots(ts)
  {
    NewRootReady(G, ts, h, root, L, r);
    RootsUnique(ts, r);
  }

  /** A well-formed tree without repeated nodes, whose root has no parent
      and whose leaves ascend from `lo` to `hi` along the leaf list, is in
      shape. */
  lemma ShapedFrom<V>(G: Store<V>, T: Tree, H: nat, lo: int, hi: int)
    requires T.Inner? && Wf(G, T, H) && T.node in G && G[T.node].parent == None && Distinct(T)
    requires var ls := Leaves(T);
      Ascending(ls) && |ls| >= 2 && ls[0].key == lo && ls[|ls| - 1].key == hi && List(G, ls)
    ensures Shaped(G, T.node, T, H, lo, hi)
  {
  }

  /** When the root was split, a fresh node `r` above the two halves is a
      well-formed tree one level higher whose root has no parent, and the
      leaf list is intact. */
  lemma NewRoot<V>(G: Store<V>, ts: seq<Tree>, h: nat, root: Ref, L: seq<Entry>, r: Ref)
    requires Ascent(G, [], ts, 1, h, root, L) && |ts| == 2 && r !in G
    ensures var G' := G[r := InternalNode()];
      forall i | 0 <= i < 2 :: ts[i].node in G'
    ensures var R := Rewire(G[r := InternalNode()], r, Roots(ts));
      R.Keys == G.Keys + {r} && ValuesKept(G, R) && Wf(R, Inner(r, ts), h + 1) &&
      r in R && R[r].parent == None && DistinctOf(ts) && r !in NodesOf(ts) && LeavesOf(ts) == L &&
      Ascending(L) && List(R, L)
  {
    var G' := G[r := InternalNode()];
    NewRootReady(G, ts, h, root, L, r);
    Rewired(G', r, ts, h);
    RootsUnique(ts, r);
    var R := Rewire(G', r, Roots(ts));
    ListKept(G', R, L, {r}, Elems(Roots(ts)));
    ChangesTrans(G, G', R, {}, {}, {r}, Elems(Roots(ts)));
  }

}
