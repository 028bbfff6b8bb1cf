/** Lemmas behind `rank`: the path from a leaf up to the root, and what
    each step up adds to the count of leaves to the left of that leaf. */
module TwoThreeRank {
  import opened Wrappers
  import opened TwoThreeNode
  import opened TwoThreeLemmas
  import opened TwoThreePaths

  /** The number of entries of `es` whose key is below `k`. */
  ghost function CountBelow(es: seq<Entry>, k: int): (n: nat)
    ensures n <= |es|
  {
    if es == [] then 0
    else CountBelow(es[..|es| - 1], k) + (if es[|es| - 1].key < k then 1 else 0)
  }

  /** When every key is below `k`, all entries count. */
  lemma {:induction false} CountAllBelow(es: seq<Entry>, k: int)
    requires forall i | 0 <= i < |es| :: es[i].key < k
    ensures CountBelow(es, k) == |es|
  {
    if es != [] {
      CountAllBelow(es[..|es| - 1], k);
    }
  }

  /** In a sequence with ascending keys, the position of an entry is the
      number of entries with a smaller key. */
  lemma {:induction false} PositionIsCount(es: seq<Entry>, m: nat)
    requires Ascending(es) && m < |es|
    ensures CountBelow(es, es[m].key) == m
  {
    var n := |es| - 1;
    var init := es[..n];
    if m == n {
      CountAllBelow(init, es[m].key);
    } else {
      assert init[m] == es[m];
      PositionIsCount(init, m);
    }
  }

  /** In a sequence with ascending keys, an entry whose key is at most
      another's comes no later. */
  lemma AscendingIndex(es: seq<Entry>, a: nat, b: nat)
    requires Ascending(es) && a < |es| && b < |es| && es[a].key <= es[b].key
    ensures a <= b
  {
  }

  /** Every leaf of a tree in shape has a path up to the root, whose left
      side holds exactly the leaves before it. */
  lemma Located<V>(G: Store<V>, root: Ref, T: Tree, H: nat, lo: int, hi: int, m: nat, avoid: Ref)
      returns (ctx: seq<Frame>)
    requires Shaped(G, root, T, H, lo, hi) && m < |Leaves(T)| && avoid !in G
    ensures var z := Leaves(T)[m].node;
      CtxOk(G, ctx, z, 0, root) && CtxDistinct(ctx) && z !in CtxNodes(ctx) && |LeftLeaves(ctx)| == m
    ensures ctx != [] && LeftLeaves(ctx) + [Leaves(T)[m]] + RightLeaves(ctx) == Leaves(T)
    ensures |ctx| == H
  {
    var es := Leaves(T);
    var key := es[m].key - 1;
    SoundInStore(G, T, H);
    assert Searchable(G, T, H, root, key, avoid);
    var t;
    ctx, t := PathDescent(G, T, H, root, key, avoid, H);
    PathLength(G, T, H, root, key, avoid, H);
    Found(G, ctx, t, root, T, key, avoid);
    var i := |LeftLeaves(ctx)|;
    AscendingIndex(es, m, i);
    assert key < es[m].key;
    assert t.node in Nodes(t);
    assert Leaves(t) == [Entry(t.node, t.key)];
  }

  /** `z`'s parent is the node of the first frame of a path from `z`, and
      `z` is its middle or right child exactly when one or two siblings
      come before it. */
  lemma ChildPosition<V>(G: Store<V>, ctx: seq<Frame>, z: Ref, h: nat, root: Ref)
    requires CtxOk(G, ctx, z, h, root) && ctx != [] && CtxDistinct(ctx) && z !in CtxNodes(ctx)
    ensures var f, y := ctx[0], ctx[0].node;
      y in G && z in G && G[z].parent == Some(y) &&
      (G[y].shape.middle == Some(z) <==> |f.before| == 1) &&
      (G[y].shape.right == Some(z) <==> |f.before| == 2)
  {
    var f := ctx[0];
    var ks := f.before + f.after;
    CtxRootParent(G, ctx, z, h, root);
    RootsUnique(ks, z);
    PositionOf(f.before, f.after, z, 1);
    if |ks| == 2 {
      PositionOf(f.before, f.after, z, 2);
    }
  }

  /** Among the roots of the siblings with `z` put after the first `|bs|`
      of them, `z` sits only at that position when no sibling has it as
      root. */
  lemma PositionOf(bs: seq<Tree>, cs: seq<Tree>, z: Ref, i: nat)
    requires z !in Roots(bs + cs) && i < |bs| + 1 + |cs|
    ensures (Roots(bs) + [z] + Roots(cs))[i] == z <==> i == |bs|
  {
    var rs := Roots(bs) + [z] + Roots(cs);
    RootsAppend(bs, cs);
    if i < |bs| {
      assert rs[i] == Roots(bs + cs)[i];
    } else if i > |bs| {
      assert rs[i] == Roots(bs + cs)[i - 1];
    }
  }

  /** The leaves left of a path gain, at its first frame, the leaves of the
      siblings before the child, which their cached sizes count. */
  lemma LeftSizes<V>(G: Store<V>, ctx: seq<Frame>, z: Ref, h: nat, root: Ref)
    requires CtxOk(G, ctx, z, h, root) && ctx != []
    ensures var f, s := ctx[0], G[ctx[0].node].shape;
      (|f.before| == 0 ==> |LeftLeaves(ctx)| == |LeftLeaves(ctx[1..])|) &&
      (|f.before| >= 1 ==> s.left.Some? && s.left.value in G) &&
      (|f.before| == 1 ==> |LeftLeaves(ctx)| == |LeftLeaves(ctx[1..])| + G[s.left.value].shape.size) &&
      (|f.before| == 2 ==> s.middle.Some? && s.middle.value in G) &&
      (|f.before| == 2 ==>
         |LeftLeaves(ctx)| == |LeftLeaves(ctx[1..])| + G[s.left.value].shape.size + G[s.middle.value].shape.size)
  {
    var f := ctx[0];
    var ks := f.before + f.after;
    assert LeftLeaves(ctx) == LeftLeaves(ctx[1..]) + LeavesOf(f.before);
    if |f.before| >= 1 {
      assert ks[0] == f.before[0] && Wf(G, ks[0], h);
    }
    if |f.before| == 1 {
      assert f.before == [f.before[0]];
      LeavesOfOne(f.before[0]);
    } else if |f.before| == 2 {
      assert f.before == [f.before[0], f.before[1]];
      assert ks[1] == f.before[1] && Wf(G, ks[1], h);
      LeavesOfTwo(f.before[0], f.before[1]);
    }
  }

  /** One step up a path from `z`: where `z` sits below its parent, what
      the siblings before it add to the count of leaves on the left, and
      the rest of the path from the parent. */
  lemma RankStep<V>(G: Store<V>, ctx: seq<Frame>, z: Ref, h: nat, root: Ref)
    requires CtxOk(G, ctx, z, h, root) && ctx != [] && CtxDistinct(ctx) && z !in CtxNodes(ctx)
    ensures var f, y := ctx[0], ctx[0].node;
      y in G && z in G && G[z].parent == Some(y) &&
      (G[y].shape.middle == Some(z) <==> |f.before| == 1) &&
      (G[y].shape.right == Some(z) <==> |f.before| == 2)
    ensures var f, s := ctx[0], G[ctx[0].node].shape;
      (|f.before| == 0 ==> |LeftLeaves(ctx)| == |LeftLeaves(ctx[1..])|) &&
      (|f.before| >= 1 ==> s.left.Some? && s.left.value in G) &&
      (|f.before| == 1 ==> |LeftLeaves(ctx)| == |LeftLeaves(ctx[1..])| + G[s.left.value].shape.size) &&
      (|f.before| == 2 ==> s.middle.Some? && s.middle.value in G) &&
      (|f.before| == 2 ==>
         |LeftLeaves(ctx)| == |LeftLeaves(ctx[1..])| + G[s.left.value].shape.size + G[s.middle.value].shape.size)
    ensures CtxOk(G, ctx[1..], ctx[0].node, h + 1, root) && CtxDistinct(ctx[1..]) && ctx[0].node !in CtxNodes(ctx[1..])
  {
    ChildPosition(G, ctx, z, h, root);
    LeftSizes(G, ctx, z, h, root);
  }
}
