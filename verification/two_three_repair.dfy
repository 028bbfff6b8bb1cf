/** Lemmas behind `delete`: the invariant of its upward repair pass, in
    which a node may have lost a child and have stale caches, and why each
    of `updateKey`, `borrowOrMerge` and the final change of root keeps it. */
module TwoThreeRepair {
  import opened Wrappers
  import opened TwoThreeNode
  import opened TwoThreeLemmas
  import opened TwoThreePaths
  import opened TwoThreeRank

  /** The repair pass of deletion at height `h`: the node of `t` has 1 to
      3 well-formed children (its own caches may be stale) and sits at the
      end of the path `ctx` from the root; the leaves around it make up
      the leaf sequence `L`, which is in key order and threaded. */
  ghost predicate Repair<V>(G: Store<V>, ctx: seq<Frame>, t: Tree, h: nat, root: Ref, L: seq<Entry>)
  {
    Partial(G, t, h) && Distinct(t) &&
    CtxOk(G, ctx, t.node, h, root) && CtxDistinct(ctx) && CtxNodes(ctx) !! Nodes(t) &&
    LeftLeaves(ctx) + Leaves(t) + RightLeaves(ctx) == L && Ascending(L) && List(G, L)
  }

  /** `updateKey` on a node under repair with 2 or 3 children makes it a
      well-formed subtree, which the pass can hand to the next node up. */
  lemma RepairRecached<V>(G: Store<V>, ctx: seq<Frame>, t: Tree, h: nat, root: Ref, L: seq<Entry>)
    requires Repair(G, ctx, t, h, root, L) && t.Inner? && |t.kids| >= 2
    ensures Kids(G, t.node, Roots(t.kids)) && t.node !in Roots(t.kids)
    ensures Ascent(Recache(G, t.node, Roots(t.kids)), ctx, [t], 0, h, root, L)
    ensures var R := Recache(G, t.node, Roots(t.kids));
      t.node in R && (R[t.node].parent == None <==> ctx == []) &&
      (ctx != [] ==> R[t.node].parent == Some(ctx[0].node))
  {
    var y, kids := t.node, t.kids;
    var R := Recache(G, y, Roots(kids));
    PartialRecached(G, t, h);
    DistinctOfOne(t);
    NodesOfOne(t);
    LeavesOfOne(t);
    CtxKept(G, R, ctx, y, h, root, L, {y}, Elems(Roots(kids)));
    CtxRootParent(R, ctx, y, h, root);
  }

  /** Refreshing the caches of a node with 2 or 3 well-formed children
      makes it well formed, changing only the node and its children. */
  lemma PartialRecached<V>(G: Store<V>, t: Tree, h: nat)
    requires Partial(G, t, h) && Distinct(t) && t.Inner? && |t.kids| >= 2
    ensures Kids(G, t.node, Roots(t.kids)) && t.node !in Roots(t.kids)
    ensures var R := Recache(G, t.node, Roots(t.kids));
      Wf(R, t, h) && Changes(G, R, {t.node}, Elems(Roots(t.kids))) && Elems(Roots(t.kids)) <= NodesOf(t.kids)
  {
    var y, kids := t.node, t.kids;
    var g: nat := h - 1;
    Recached(G, y, kids, g);
    NodesOfContains(kids);
  }

  /** A store change away from a path and its leaf list keeps both. */
  lemma CtxKept<V>(G: Store<V>, R: Store<V>, ctx: seq<Frame>, below: Ref, h: nat, root: Ref, L: seq<Entry>,
                   X: set<Ref>, P: set<Ref>)
    requires CtxOk(G, ctx, below, h, root) && List(G, L) && Changes(G, R, X, P)
    requires X !! CtxNodes(ctx) && P !! CtxNodes(ctx) + {below}
    ensures CtxOk(R, ctx, below, h, root) && List(R, L)
  {
    ChangesKept(G, R, X, P, CtxNodes(ctx), CtxNodes(ctx) + {below});
    CtxOkKept(G, R, ctx, below, h, root);
    ListKept(G, R, L, X, P);
  }

  /** A well-formed subtree handed up by the repair pass leaves the next
      node up under repair, with the subtree among its children. */
  lemma AscentToRepair<V>(G: Store<V>, ctx: seq<Frame>, t: Tree, h: nat, root: Ref, L: seq<Entry>)
    requires Ascent(G, ctx, [t], 0, h, root, L) && ctx != []
    ensures Repair(G, ctx[1..], Up(ctx[0], [t]), h + 1, root, L)
  {
    UpdateReady(G, ctx, [t], h, root, L);
    UpDistinct(ctx, [t]);
    UpLeaves(ctx, [t]);
  }

  /** A tree with two leaves or more is not a single leaf. */
  lemma ManyLeaves(t: Tree)
    requires |Leaves(t)| >= 2
    ensures t.Inner?
  {
  }

  /** The single child of the root under repair is a well-formed tree
      holding all the leaves. */
  lemma RootChild<V>(G: Store<V>, t: Tree, h: nat, L: seq<Entry>)
    requires Partial(G, t, h) && Distinct(t) && LeftLeaves([]) + Leaves(t) + RightLeaves([]) == L
    requires t.Inner? && |t.kids| == 1 && |L| >= 2
    ensures var c := t.kids[0];
      h > 0 && Wf(G, c, h - 1) && Distinct(c) && c.Inner? && Leaves(c) == L
  {
    var c := t.kids[0];
    assert Partial(G, t, h);
    assert t.kids == [c];
    LeavesOfOne(t);
    LeavesAtRoot([t], L);
    LeavesOfOne(c);
    ManyLeaves(c);
    DistinctOfOne(c);
  }

  /** A well-formed tree with ascending, threaded leaves between the
      sentinels is the whole tree once its root is cut loose from its
      parent. */
  lemma CutLoose<V>(G: Store<V>, c: Tree, g: nat, L: seq<Entry>, lo: int, hi: int)
    requires Wf(G, c, g) && Distinct(c) && c.Inner? && Leaves(c) == L && Ascending(L) && List(G, L)
    requires |L| >= 2 && L[0].key == lo && L[|L| - 1].key == hi
    ensures c.node in G && Shaped(G[c.node := G[c.node].(parent := None)], c.node, c, g, lo, hi)
  {
    var G' := G[c.node := G[c.node].(parent := None)];
    assert Changes(G, G', {}, {c.node});
    ChangesKept(G, G', {}, {c.node}, Nodes(c), Below(c));
    WfKept(G, G', c, g);
    ListKept(G, G', L, {}, {c.node});
    ShapedFrom(G', c, g, lo, hi);
  }

  /** What a step of `borrowOrMerge` must leave at the parent `p`, whose
      children `pk` become `pk2`: a node under repair one level up, made
      of the same nodes or fewer, with the same leaves. */
  ghost predicate Regrouped<V>(G: Store<V>, p: Ref, pk: seq<Tree>, pk2: seq<Tree>, h: nat)
  {
    Partial(G, Inner(p, pk2), h + 1) && Reshaped(p, pk, pk2)
  }

  /** A store change that only touches `p` and nodes of its children `pk`
      and leaves `p` with the children `pk2` in their place. */
  ghost predicate Regrouping<V>(G: Store<V>, G': Store<V>, p: Ref, pk: seq<Tree>, pk2: seq<Tree>, h: nat,
                                X: set<Ref>, P: set<Ref>)
  {
    Changes(G, G', X, P) && X <= {p} + NodesOf(pk) && P <= NodesOf(pk) && Regrouped(G', p, pk, pk2, h)
  }

  /** `pk2`, the new children of `p`, are made of nodes of its old
      children `pk`, hold the same leaves, and share no node. */
  ghost predicate Reshaped(p: Ref, pk: seq<Tree>, pk2: seq<Tree>)
  {
    DistinctOf(pk2) && p !in NodesOf(pk2) && NodesOf(pk2) <= NodesOf(pk) && LeavesOf(pk2) == LeavesOf(pk)
  }

  /** A node under repair is internal, has a middle child exactly when it
      has two children or more, and is the root exactly when its path up
      is empty. */
  lemma RepairKids<V>(G: Store<V>, ctx: seq<Frame>, t: Tree, h: nat, root: Ref, L: seq<Entry>)
    requires Repair(G, ctx, t, h, root, L)
    ensures t.Inner? && h > 0 && t.node in G && (G[t.node].shape.middle.Some? <==> |t.kids| >= 2)
    ensures t.node == root <==> ctx == []
  {
    CtxRootParent(G, ctx, t.node, h, root);
  }

  /** After `borrowOrMerge` regroups the children of the parent of the node
      under repair, changing only nodes below the parent and the parent's
      shape, the pass continues at the parent. */
  lemma RepairUp<V>(G: Store<V>, G': Store<V>, ctx: seq<Frame>, t: Tree, h: nat, root: Ref, L: seq<Entry>,
                    pk2: seq<Tree>, X: set<Ref>, P: set<Ref>)
    requires Repair(G, ctx, t, h, root, L) && ctx != []
    requires Regrouping(G, G', ctx[0].node, Around(ctx[0], [t]), pk2, h, X, P)
    ensures Repair(G', ctx[1..], Inner(ctx[0].node, pk2), h + 1, root, L)
  {
    var f, rest := ctx[0], ctx[1..];
    var p, pk := f.node, Around(f, [t]);
    DistinctOfOne(t);
    NodesOfOne(t);
    UpDistinct(ctx, [t]);
    assert Nodes(Up(f, [t])) == {p} + NodesOf(pk);
    assert Nodes(Inner(p, pk2)) == {p} + NodesOf(pk2);
    assert CtxOk(G, rest, p, h + 1, root);
    ChangesKept(G, G', X, P, CtxNodes(rest), CtxNodes(rest) + {p});
    CtxOkKept(G, G', rest, p, h + 1, root);
    LeavesOfOne(t);
    UpLeaves(ctx, [t]);
    ListKept(G, G', L, X, P);
  }

  // ------------------------------------------------------- regrouping

  /** Two adjacent internal subtrees are their two roots over the
      grandchildren of both, in order. */
  lemma PairParts(u: Tree, v: Tree)
    requires u.Inner? && v.Inner?
    ensures var gs := u.kids + v.kids;
      NodesOf([u, v]) == {u.node, v.node} + NodesOf(gs) && LeavesOf([u, v]) == LeavesOf(gs)
    ensures DistinctOf([u, v]) ==> var gs := u.kids + v.kids;
      DistinctOf(gs) && u.node != v.node && u.node !in NodesOf(gs) && v.node !in NodesOf(gs)
  {
    var gs := u.kids + v.kids;
    NodesOfTwo(u, v);
    LeavesOfTwo(u, v);
    NodesOfAppend(u.kids, v.kids);
    LeavesOfAppend(u.kids, v.kids);
    if DistinctOf([u, v]) {
      assert [u, v][0] == u && [u, v][1] == v;
      assert Distinct(u) && Distinct(v) && Nodes(u) !! Nodes(v);
      assert Nodes(u) == {u.node} + NodesOf(u.kids) && Nodes(v) == {v.node} + NodesOf(v.kids);
      DistinctOfAppend(u.kids, v.kids);
    }
  }

  /** The grandchildren `gs` shared out between two roots, the first `k`
      under `m1` and the rest under `m2`. */
  lemma Halves(m1: Ref, m2: Ref, gs: seq<Tree>, k: nat)
    requires k <= |gs|
    ensures var ms := [Inner(m1, gs[..k]), Inner(m2, gs[k..])];
      NodesOf(ms) == {m1, m2} + NodesOf(gs) && LeavesOf(ms) == LeavesOf(gs)
    ensures DistinctOf(gs) && m1 != m2 && m1 !in NodesOf(gs) && m2 !in NodesOf(gs) ==>
      DistinctOf([Inner(m1, gs[..k]), Inner(m2, gs[k..])])
  {
    var a, b := gs[..k], gs[k..];
    assert gs == a + b;
    NodesOfTwo(Inner(m1, a), Inner(m2, b));
    LeavesOfTwo(Inner(m1, a), Inner(m2, b));
    NodesOfAppend(a, b);
    LeavesOfAppend(a, b);
    if DistinctOf(gs) && m1 != m2 && m1 !in NodesOf(gs) && m2 !in NodesOf(gs) {
      HalvesApart(m1, m2, a, b);
    }
  }

  lemma HalvesApart(m1: Ref, m2: Ref, a: seq<Tree>, b: seq<Tree>)
    requires DistinctOf(a + b) && m1 != m2 && m1 !in NodesOf(a + b) && m2 !in NodesOf(a + b)
    ensures DistinctOf([Inner(m1, a), Inner(m2, b)])
  {
    DistinctOfAppend(a, b);
    NodesOfAppend(a, b);
    assert Below(Inner(m1, a)) == NodesOf(a) && Below(Inner(m2, b)) == NodesOf(b);
    DistinctOfTwo(Inner(m1, a), Inner(m2, b));
  }

  /** All the grandchildren `gs` under the single root `m`. */
  lemma Whole(m: Ref, gs: seq<Tree>)
    ensures NodesOf([Inner(m, gs)]) == {m} + NodesOf(gs) && LeavesOf([Inner(m, gs)]) == LeavesOf(gs)
    ensures DistinctOf(gs) && m !in NodesOf(gs) ==> DistinctOf([Inner(m, gs)])
  {
    NodesOfOne(Inner(m, gs));
    LeavesOfOne(Inner(m, gs));
    DistinctOfOne(Inner(m, gs));
  }

  /** Replacing the middle part of a sequence of subtrees by subtrees
      made of some of its nodes, with the same leaves. */
  lemma Replaced(pre: seq<Tree>, mid: seq<Tree>, mid2: seq<Tree>, post: seq<Tree>)
    requires DistinctOf(pre + mid + post) && DistinctOf(mid2) && NodesOf(mid2) <= NodesOf(mid)
    ensures DistinctOf(pre + mid2 + post) && NodesOf(pre + mid2 + post) <= NodesOf(pre + mid + post)
    ensures LeavesOf(mid2) == LeavesOf(mid) ==> LeavesOf(pre + mid2 + post) == LeavesOf(pre + mid + post)
  {
    DistinctOfAppend(pre + mid, post);
    DistinctOfAppend(pre, mid);
    NodesOfAppend(pre + mid, post);
    NodesOfAppend(pre, mid);
    NodesOfAppend(pre + mid2, post);
    NodesOfAppend(pre, mid2);
    DistinctOfAppend(pre, mid2);
    DistinctOfAppend(pre + mid2, post);
    LeavesOfAround(pre, mid, post);
    LeavesOfAround(pre, mid2, post);
  }

  // ------------------------------------------------------- rewiring

  /** `x` can take `cs` as its children with `setChildren`. */
  ghost predicate Rewirable<V>(G: Store<V>, x: Ref, cs: seq<Ref>)
  {
    x in G && !G[x].shape.isLeaf && x !in cs && 1 <= |cs| <= 3 && Unique(cs) &&
    forall i | 0 <= i < |cs| :: cs[i] in G
  }

  /** `setChildren` on two different nodes over disjoint well-formed
      subtrees builds two well-formed subtrees one level higher. */
  lemma TwoRewired<V>(G: Store<V>, a: Ref, ta: seq<Tree>, b: Ref, tb: seq<Tree>, g: nat)
    requires 2 <= |ta| <= 3 && 2 <= |tb| <= 3
    requires WfAll(G, ta, g) && WfAll(G, tb, g) && DistinctOf(ta) && DistinctOf(tb) && NodesOf(ta) !! NodesOf(tb)
    requires a in G && b in G && a != b && !G[a].shape.isLeaf && !G[b].shape.isLeaf
    requires a !in NodesOf(ta) && a !in NodesOf(tb) && b !in NodesOf(ta) && b !in NodesOf(tb)
    ensures Rewirable(G, a, Roots(ta)) && Rewirable(Rewire(G, a, Roots(ta)), b, Roots(tb))
    ensures var R := Rewire(Rewire(G, a, Roots(ta)), b, Roots(tb));
      R.Keys == G.Keys && Changes(G, R, {a, b}, Elems(Roots(ta)) + Elems(Roots(tb))) &&
      Wf(R, Inner(a, ta), g + 1) && Wf(R, Inner(b, tb), g + 1)
  {
    Rewired(G, a, ta, g);
    RootsUnique(ta, a);
    var G1 := Rewire(G, a, Roots(ta));
    NodesOfContains(ta);
    NodesOfContains(tb);
    Untouched(G, G1, tb, g, {a}, Elems(Roots(ta)));
    SecondRewired(G1, a, ta, b, tb, g);
    var R := Rewire(G1, b, Roots(tb));
    ChangesTrans(G, G1, R, {a}, Elems(Roots(ta)), {b}, Elems(Roots(tb)));
  }

  /** The second of two rewirings keeps the subtree the first one built. */
  lemma SecondRewired<V>(G1: Store<V>, a: Ref, ta: seq<Tree>, b: Ref, tb: seq<Tree>, g: nat)
    requires 2 <= |tb| <= 3 && WfAll(G1, tb, g) && DistinctOf(tb)
    requires b in G1 && !G1[b].shape.isLeaf && b !in NodesOf(tb) && b != a && b !in NodesOf(ta)
    requires Wf(G1, Inner(a, ta), g + 1) && NodesOf(ta) !! Elems(Roots(tb)) && a !in Elems(Roots(tb))
    ensures Rewirable(G1, b, Roots(tb))
    ensures var R := Rewire(G1, b, Roots(tb));
      R.Keys == G1.Keys && Changes(G1, R, {b}, Elems(Roots(tb))) &&
      Wf(R, Inner(a, ta), g + 1) && Wf(R, Inner(b, tb), g + 1)
  {
    Rewired(G1, b, tb, g);
    RootsUnique(tb, b);
    var R := Rewire(G1, b, Roots(tb));
    assert Nodes(Inner(a, ta)) == {a} + NodesOf(ta) && Below(Inner(a, ta)) == NodesOf(ta);
    ChangesKept(G1, R, {b}, Elems(Roots(tb)), {a} + NodesOf(ta), NodesOf(ta));
    WfKept(G1, R, Inner(a, ta), g + 1);
  }

  /** Two adjacent subtrees among the children of `p`, taken apart: their
      grandchildren are distinct from each other, from the two roots and
      from the other children. */
  lemma PairApart(pre: seq<Tree>, u: Tree, v: Tree, post: seq<Tree>, p: Ref)
    requires u.Inner? && v.Inner? && DistinctOf(pre + [u, v] + post) && p !in NodesOf(pre + [u, v] + post)
    ensures var gs := u.kids + v.kids;
      DistinctOf(gs) && u.node != v.node && u.node !in NodesOf(gs) && v.node !in NodesOf(gs) &&
      NodesOf([u, v]) == {u.node, v.node} + NodesOf(gs) && LeavesOf([u, v]) == LeavesOf(gs) &&
      Elems(Roots(gs)) <= NodesOf(gs) && p !in NodesOf([u, v]) && NodesOf([u, v]) <= NodesOf(pre + [u, v] + post) &&
      NodesOf([u, v]) !! NodesOf(pre + post) && Elems(Roots(pre + post)) <= NodesOf(pre + post)
  {
    DistinctOfAppend(pre + [u, v], post);
    DistinctOfAppend(pre, [u, v]);
    NodesOfAppend(pre + [u, v], post);
    NodesOfAppend(pre, [u, v]);
    NodesOfAppend(pre, post);
    PairParts(u, v);
    NodesOfContains(u.kids + v.kids);
    NodesOfContains(pre + post);
  }

  /** The roots of the children of `p` are none of the grandchildren
      below the pair. */
  lemma RootsApart(pre: seq<Tree>, u: Tree, v: Tree, post: seq<Tree>)
    requires u.Inner? && v.Inner?
    requires var gs := u.kids + v.kids;
      u.node !in NodesOf(gs) && v.node !in NodesOf(gs) && Elems(Roots(gs)) <= NodesOf(gs) &&
      NodesOf([u, v]) == {u.node, v.node} + NodesOf(gs) &&
      NodesOf([u, v]) !! NodesOf(pre + post) && Elems(Roots(pre + post)) <= NodesOf(pre + post)
    ensures Elems(Roots(pre + [u, v] + post)) !! Elems(Roots(u.kids + v.kids))
  {
    var pk, rest := pre + [u, v] + post, pre + post;
    forall i | 0 <= i < |pk| ensures pk[i].node !in Elems(Roots(u.kids + v.kids)) {
      if i < |pre| {
        assert pk[i] == rest[i] && Roots(rest)[i] == pk[i].node;
      } else if i >= |pre| + 2 {
        assert pk[i] == rest[i - 2] && Roots(rest)[i - 2] == pk[i].node;
      }
    }
  }

  /** The parent keeps its links when neither its shape nor its children's
      parents change. */
  lemma LinksKept<V>(G: Store<V>, G': Store<V>, p: Ref, cs: seq<Ref>, X: set<Ref>, P: set<Ref>)
    requires Links(G, p, cs) && Changes(G, G', X, P) && p !in X && Elems(cs) !! P
    ensures Links(G', p, cs)
  {
    assert forall i | 0 <= i < |cs| :: cs[i] in Elems(cs);
  }

  /** The grandchildren below two adjacent children of height `h`, and any
      prefix or suffix of them, are well-formed. */
  lemma GrandKids<V>(G: Store<V>, u: Tree, v: Tree, h: nat, k: nat)
    requires Partial(G, u, h) && Partial(G, v, h) && k <= |u.kids| + |v.kids|
    ensures var gs := u.kids + v.kids;
      h > 0 && WfAll(G, gs, h - 1) && WfAll(G, gs[..k], h - 1) && WfAll(G, gs[k..], h - 1)
  {
    var gs := u.kids + v.kids;
    forall i | 0 <= i < |gs| ensures Wf(G, gs[i], h - 1) {
      if i < |u.kids| {
        assert gs[i] == u.kids[i];
      } else {
        assert gs[i] == v.kids[i - |u.kids|];
      }
    }
  }

  // ------------------------------------------------------ borrow or merge

  /** `u` and `v` are adjacent children of `g.node`, the other children
      being `g.before` and `g.after`: the shape `borrowOrMerge` works on. */
  ghost predicate Pair<V>(G: Store<V>, g: Frame, u: Tree, v: Tree, h: nat)
  {
    Links(G, g.node, Roots(Around(g, [u, v]))) && |Around(g, [u, v])| <= 3 &&
    WfAll(G, g.before + g.after, h) && Partial(G, u, h) && Partial(G, v, h) &&
    DistinctOf(Around(g, [u, v])) && g.node !in NodesOf(Around(g, [u, v]))
  }

  /** The four grandchildren below `u` and `v` split two and two, apart
      from each other and from `u` and `v`. */
  lemma BorrowSplit(pre: seq<Tree>, u: Tree, v: Tree, post: seq<Tree>, p: Ref)
    requires u.Inner? && v.Inner? && |u.kids| + |v.kids| == 4
    requires DistinctOf(pre + [u, v] + post) && p !in NodesOf(pre + [u, v] + post)
    ensures var gs := u.kids + v.kids; var ta, tb := gs[..2], gs[2..];
      DistinctOf(ta) && DistinctOf(tb) && NodesOf(ta) !! NodesOf(tb) && u.node != v.node &&
      u.node !in NodesOf(ta) && u.node !in NodesOf(tb) && v.node !in NodesOf(ta) && v.node !in NodesOf(tb) &&
      Elems(Roots(ta)) + Elems(Roots(tb)) == Elems(Roots(gs))
  {
    var gs := u.kids + v.kids;
    PairApart(pre, u, v, post, p);
    assert gs == gs[..2] + gs[2..];
    DistinctOfAppend(gs[..2], gs[2..]);
    NodesOfAppend(gs[..2], gs[2..]);
    RootsAppend(gs[..2], gs[2..]);
  }

  /** What the two `setChildren` calls of borrowing need, first on `a`
      then on `b`, each taking two of the grandchildren. */
  lemma BorrowParts<V>(G: Store<V>, g: Frame, u: Tree, v: Tree, h: nat, a: Ref, ta: seq<Tree>, b: Ref, tb: seq<Tree>)
    requires Pair(G, g, u, v, h) && |u.kids| + |v.kids| == 4
    requires var gs := u.kids + v.kids;
      (a == u.node && ta == gs[..2] && b == v.node && tb == gs[2..]) ||
      (a == v.node && ta == gs[2..] && b == u.node && tb == gs[..2])
    ensures h > 0 && |ta| == 2 && |tb| == 2 && WfAll(G, ta, h - 1) && WfAll(G, tb, h - 1)
    ensures DistinctOf(ta) && DistinctOf(tb) && NodesOf(ta) !! NodesOf(tb)
    ensures a in G && b in G && a != b && !G[a].shape.isLeaf && !G[b].shape.isLeaf
    ensures a !in NodesOf(ta) && a !in NodesOf(tb) && b !in NodesOf(ta) && b !in NodesOf(tb)
    ensures {a, b} == {u.node, v.node} && Elems(Roots(ta)) + Elems(Roots(tb)) == Elems(Roots(u.kids + v.kids))
  {
    assert Around(g, [u, v]) == g.before + [u, v] + g.after;
    BorrowSplit(g.before, u, v, g.after, g.node);
    GrandKids(G, u, v, h, 2);
  }

  /** The pure part of borrowing: the regrouped pair replaces `u` and `v`
      among the parent's children, with the same roots and leaves. */
  lemma BorrowShape(pre: seq<Tree>, u: Tree, v: Tree, post: seq<Tree>, p: Ref)
    requires u.Inner? && v.Inner? && |u.kids| + |v.kids| == 4
    requires DistinctOf(pre + [u, v] + post) && p !in NodesOf(pre + [u, v] + post)
    ensures var gs := u.kids + v.kids;
      {u.node, v.node} !! NodesOf(pre + post) && Elems(Roots(gs)) !! NodesOf(pre + post) &&
      p != u.node && p != v.node && Elems(Roots(pre + [u, v] + post)) !! Elems(Roots(gs)) &&
      {u.node, v.node} + Elems(Roots(gs)) <= NodesOf(pre + [u, v] + post)
    ensures var gs := u.kids + v.kids; var ms := [Inner(u.node, gs[..2]), Inner(v.node, gs[2..])];
      Reshaped(p, pre + [u, v] + post, pre + ms + post) && Roots(pre + ms + post) == Roots(pre + [u, v] + post)
  {
    var gs := u.kids + v.kids;
    var ms := [Inner(u.node, gs[..2]), Inner(v.node, gs[2..])];
    PairApart(pre, u, v, post, p);
    assert {u.node, v.node} + Elems(Roots(gs)) <= NodesOf([u, v]);
    Halves(u.node, v.node, gs, 2);
    Replaced(pre, [u, v], ms, post);
    RootsApart(pre, u, v, post);
    SameRoots(pre, [u, v], ms, post);
  }

  /** Replacing subtrees by subtrees with the same roots keeps the roots. */
  lemma SameRoots(pre: seq<Tree>, mid: seq<Tree>, mid2: seq<Tree>, post: seq<Tree>)
    requires |mid| == |mid2| && forall i | 0 <= i < |mid| :: mid[i].node == mid2[i].node
    ensures Roots(pre + mid + post) == Roots(pre + mid2 + post)
  {
    var a, b := pre + mid + post, pre + mid2 + post;
    forall i | 0 <= i < |a| ensures a[i].node == b[i].node {
      if |pre| <= i < |pre| + |mid| {
        assert a[i] == mid[i - |pre|] && b[i] == mid2[i - |pre|];
      }
    }
  }

  /** After borrowing, the parent's children are well-formed. */
  lemma BorrowKids<V>(G: Store<V>, R: Store<V>, g: Frame, u: Tree, v: Tree, h: nat, X: set<Ref>, P: set<Ref>)
    requires WfAll(G, g.before + g.after, h) && u.Inner? && v.Inner? && |u.kids| + |v.kids| == 4
    requires var gs := u.kids + v.kids;
      Changes(G, R, X, P) && Wf(R, Inner(u.node, gs[..2]), h) && Wf(R, Inner(v.node, gs[2..]), h) &&
      X !! NodesOf(g.before + g.after) && P !! NodesOf(g.before + g.after)
    ensures var gs := u.kids + v.kids;
      WfAll(R, Around(g, [Inner(u.node, gs[..2]), Inner(v.node, gs[2..])]), h)
  {
    var gs := u.kids + v.kids;
    var ms := [Inner(u.node, gs[..2]), Inner(v.node, gs[2..])];
    assert WfAll(R, ms, h) by {
      assert ms[0] == Inner(u.node, gs[..2]) && ms[1] == Inner(v.node, gs[2..]);
    }
    Untouched(G, R, g.before + g.after, h, X, P);
    AroundWf(R, g, ms, h);
  }

  /** Borrowing: once the four grandchildren below two adjacent children
      are shared out two and two, changing only the shapes of the pair's
      roots and the parents of the grandchildren, the parent keeps its
      children, which hold the same leaves as before. */
  lemma Borrowed<V>(G: Store<V>, R: Store<V>, g: Frame, u: Tree, v: Tree, h: nat, X: set<Ref>, P: set<Ref>)
    requires Pair(G, g, u, v, h) && |u.kids| + |v.kids| == 4
    requires var gs := u.kids + v.kids;
      Changes(G, R, X, P) && X <= {u.node, v.node} && P <= Elems(Roots(gs)) &&
      Wf(R, Inner(u.node, gs[..2]), h) && Wf(R, Inner(v.node, gs[2..]), h)
    ensures var gs := u.kids + v.kids;
      Regrouping(G, R, g.node, Around(g, [u, v]), Around(g, [Inner(u.node, gs[..2]), Inner(v.node, gs[2..])]), h, X, P)
  {
    var gs := u.kids + v.kids;
    assert Around(g, [u, v]) == g.before + [u, v] + g.after;
    BorrowShape(g.before, u, v, g.after, g.node);
    BorrowKids(G, R, g, u, v, h, X, P);
    LinksKept(G, R, g.node, Roots(Around(g, [u, v])), X, P);
  }

  /** Borrowing seen from the parent: once `a` and `b`, the pair `u`, `v`
      in either order, hold two grandchildren each, the parent's children
      are regrouped with the same leaves. */
  lemma BorrowRegroup<V>(G: Store<V>, R: Store<V>, g: Frame, u: Tree, v: Tree, h: nat,
                         a: Ref, ta: seq<Tree>, b: Ref, tb: seq<Tree>)
    requires Pair(G, g, u, v, h) && |u.kids| + |v.kids| == 4
    requires var gs := u.kids + v.kids;
      (a == u.node && ta == gs[..2] && b == v.node && tb == gs[2..]) ||
      (a == v.node && ta == gs[2..] && b == u.node && tb == gs[..2])
    requires Changes(G, R, {a, b}, Elems(Roots(ta)) + Elems(Roots(tb)))
    requires Wf(R, Inner(a, ta), h) && Wf(R, Inner(b, tb), h)
    ensures var gs := u.kids + v.kids;
      Regrouping(G, R, g.node, Around(g, [u, v]), Around(g, [Inner(u.node, gs[..2]), Inner(v.node, gs[2..])]), h,
                 {a, b}, Elems(Roots(ta)) + Elems(Roots(tb)))
  {
    BorrowParts(G, g, u, v, h, a, ta, b, tb);
    if a == u.node {
      Borrowed(G, R, g, u, v, h, {a, b}, Elems(Roots(ta)) + Elems(Roots(tb)));
    } else {
      Borrowed(G, R, g, u, v, h, {a, b}, Elems(Roots(ta)) + Elems(Roots(tb)));
    }
  }

  /** The fields `borrowOrMerge` reads off the parent of the pair: `u`
      and `v` are its left and middle children, or its middle and right. */
  lemma ParentFields<V>(G: Store<V>, g: Frame, u: Tree, v: Tree, h: nat)
    requires Pair(G, g, u, v, h)
    ensures var s := G[g.node].shape;
      g.node in G && |g.before| <= 1 &&
      (|g.before| == 0 ==> s.left == Some(u.node) && s.middle == Some(v.node)) &&
      (|g.before| == 1 ==> s.middle == Some(u.node) && s.right == Some(v.node) && g.after == [])
  {
    assert Around(g, [u, v])[|g.before|] == u && Around(g, [u, v])[|g.before| + 1] == v;
  }

  /** The grandchildren below the pair, one of which has a single child,
      as `borrowOrMerge` reads them off the children's fields: first those
      of `u`, then those of `v`. */
  lemma PairFields<V>(G: Store<V>, g: Frame, u: Tree, v: Tree, h: nat)
    requires Pair(G, g, u, v, h) && (|u.kids| == 1 || |v.kids| == 1) && |u.kids| + |v.kids| >= 3
    ensures u.node in G && v.node in G && G[u.node].shape.left.Some? && G[v.node].shape.left.Some?
    ensures var su, sv, gs := G[u.node].shape, G[v.node].shape, u.kids + v.kids;
      |u.kids| == 1 ==>
        sv.middle.Some? && (|gs| == 4 <==> sv.right.Some?) &&
        Roots(gs) == [su.left.value, sv.left.value, sv.middle.value] + (if sv.right.Some? then [sv.right.value] else [])
    ensures var su, sv, gs := G[u.node].shape, G[v.node].shape, u.kids + v.kids;
      |v.kids| == 1 ==>
        su.middle.Some? && (|gs| == 4 <==> su.right.Some?) &&
        Roots(gs) == [su.left.value, su.middle.value] + (if su.right.Some? then [su.right.value] else []) + [sv.left.value]
    ensures var gs := u.kids + v.kids;
      |gs| == 4 ==> Roots(gs[..2]) == Roots(gs)[..2] && Roots(gs[2..]) == Roots(gs)[2..]
  {
    var gs := u.kids + v.kids;
    assert Partial(G, u, h) && Partial(G, v, h);
    assert Wf(G, v.kids[0], h - 1) && Wf(G, u.kids[0], h - 1);
    RootsAppend(u.kids, v.kids);
  }

  /** The fields the merge step passes to the parent: its first child and
      its second, if any, once the pair is replaced by the merged node `m`. */
  lemma MergeFields<V>(G: Store<V>, g: Frame, u: Tree, v: Tree, h: nat, m: Ref)
    requires Pair(G, g, u, v, h)
    ensures var cs, s := Roots(Around(g, [Inner(m, u.kids + v.kids)])), G[g.node].shape;
      g.node in G && |cs| > 0 &&
      (|g.before| == 0 ==> cs[0] == m && At(cs, 1) == s.right) &&
      (|g.before| == 1 ==> s.left.Some? && cs[0] == s.left.value && At(cs, 1) == Some(m))
  {
    var pk := Around(g, [u, v]);
    assert |g.before| == 1 ==> pk[0] == g.before[0];
    assert |g.before| == 0 && |pk| == 3 ==> pk[2] == g.after[0];
  }

  /** The pure part of merging: the three grandchildren `gs` below `u` and
      `v` all under `m`, one of the two. */
  lemma MergeShape(pre: seq<Tree>, u: Tree, v: Tree, post: seq<Tree>, p: Ref, m: Ref)
    requires u.Inner? && v.Inner? && (m == u.node || m == v.node)
    requires DistinctOf(pre + [u, v] + post) && p !in NodesOf(pre + [u, v] + post)
    ensures var gs := u.kids + v.kids;
      DistinctOf(gs) && m !in NodesOf(gs) && m != p &&
      {m} !! NodesOf(pre + post) && Elems(Roots(gs)) !! NodesOf(pre + post) &&
      Reshaped(p, pre + [u, v] + post, pre + [Inner(m, gs)] + post) &&
      {m} + Elems(Roots(gs)) + Elems(Roots(pre + [Inner(m, gs)] + post)) <= NodesOf(pre + [u, v] + post)
  {
    var gs := u.kids + v.kids;
    PairApart(pre, u, v, post, p);
    Whole(m, gs);
    Replaced(pre, [u, v], [Inner(m, gs)], post);
    NodesOfContains(pre + [Inner(m, gs)] + post);
  }

  /** The first `setChildren` call of merging: `m`, one of the pair's
      roots, takes all three grandchildren. */
  lemma MergeReady<V>(G: Store<V>, g: Frame, u: Tree, v: Tree, h: nat, m: Ref)
    requires Pair(G, g, u, v, h) && |u.kids| + |v.kids| == 3 && (m == u.node || m == v.node)
    ensures Rewirable(G, m, Roots(u.kids + v.kids))
    ensures var gs := u.kids + v.kids; var G1 := Rewire(G, m, Roots(gs));
      G1.Keys == G.Keys && Changes(G, G1, {m}, Elems(Roots(gs))) && Wf(G1, Inner(m, gs), h)
  {
    var gs := u.kids + v.kids;
    assert Around(g, [u, v]) == g.before + [u, v] + g.after;
    PairApart(g.before, u, v, g.after, g.node);
    GrandKids(G, u, v, h, 0);
    Rewired(G, m, gs, h - 1);
    RootsUnique(gs, m);
  }

  /** After the first step of merging, the parent's new children are
      well-formed. */
  lemma MergeKids<V>(G: Store<V>, G1: Store<V>, g: Frame, m: Ref, gs: seq<Tree>, h: nat)
    requires WfAll(G, g.before + g.after, h) && Changes(G, G1, {m}, Elems(Roots(gs))) && Wf(G1, Inner(m, gs), h)
    requires {m} !! NodesOf(g.before + g.after) && Elems(Roots(gs)) !! NodesOf(g.before + g.after)
    ensures WfAll(G1, Around(g, [Inner(m, gs)]), h)
  {
    var mt := Inner(m, gs);
    Untouched(G, G1, g.before + g.after, h, {m}, Elems(Roots(gs)));
    assert [mt][0] == mt;
    AroundWf(G1, g, [mt], h);
  }

  /** What the second `setChildren` call of merging needs: the parent's
      new children, the merged node in place of the pair, are well-formed
      and share no node. */
  lemma MergeLinks<V>(G: Store<V>, G1: Store<V>, g: Frame, u: Tree, v: Tree, h: nat, m: Ref)
    requires Pair(G, g, u, v, h) && (m == u.node || m == v.node)
    requires var gs := u.kids + v.kids; Changes(G, G1, {m}, Elems(Roots(gs))) && Wf(G1, Inner(m, gs), h)
    ensures var p, pk2 := g.node, Around(g, [Inner(m, u.kids + v.kids)]);
      WfAll(G1, pk2, h) && DistinctOf(pk2) && p !in NodesOf(pk2) && 1 <= |pk2| <= 2 &&
      p in G1 && !G1[p].shape.isLeaf
  {
    var gs := u.kids + v.kids;
    var p := g.node;
    assert Around(g, [u, v]) == g.before + [u, v] + g.after;
    MergeShape(g.before, u, v, g.after, p, m);
    MergeKids(G, G1, g, m, gs, h);
    assert G1[p].shape == G[p].shape;
  }

  /** Merging: once all three grandchildren are under `m` and the parent
      has the merged node in place of the pair, the parent holds the same
      leaves as before, and only `m`, the parent and the parents of their
      new children changed. */
  lemma Merged<V>(G: Store<V>, G1: Store<V>, R: Store<V>, g: Frame, u: Tree, v: Tree, h: nat, m: Ref)
    requires Pair(G, g, u, v, h) && (m == u.node || m == v.node)
    requires var gs := u.kids + v.kids; var pk2 := Around(g, [Inner(m, gs)]);
      Changes(G, G1, {m}, Elems(Roots(gs))) && Changes(G1, R, {g.node}, Elems(Roots(pk2))) &&
      Partial(R, Inner(g.node, pk2), h + 1)
    ensures var gs := u.kids + v.kids; var pk2 := Around(g, [Inner(m, gs)]);
      Regrouping(G, R, g.node, Around(g, [u, v]), pk2, h, {m} + {g.node}, Elems(Roots(gs)) + Elems(Roots(pk2)))
  {
    var gs := u.kids + v.kids;
    var p := g.node;
    assert Around(g, [u, v]) == g.before + [u, v] + g.after;
    MergeShape(g.before, u, v, g.after, p, m);
    ChangesTrans(G, G1, R, {m}, Elems(Roots(gs)), {p}, Elems(Roots(Around(g, [Inner(m, gs)]))));
  }

  /** `setChildren` on `p` with 1 to 3 well-formed subtrees gives a node
      under repair one level higher. */
  lemma Reparented<V>(G: Store<V>, p: Ref, ts: seq<Tree>, h: nat)
    requires WfAll(G, ts, h) && DistinctOf(ts) && p !in NodesOf(ts) && 1 <= |ts| <= 3
    requires p in G && !G[p].shape.isLeaf
    ensures Rewirable(G, p, Roots(ts))
    ensures var R := Rewire(G, p, Roots(ts));
      R.Keys == G.Keys && Changes(G, R, {p}, Elems(Roots(ts))) && Partial(R, Inner(p, ts), h + 1)
  {
    RootsUnique(ts, p);
    WfAllInStore(G, ts, h);
    RewireChanges(G, p, Roots(ts));
    KidsKept(G, Rewire(G, p, Roots(ts)), ts, h, {p}, Elems(Roots(ts)));
  }

  // ---------------------------------------------------- the pair to regroup

  /** The parent of a node under repair, its children and where the node
      sits among them. */
  lemma Siblings<V>(G: Store<V>, ctx: seq<Frame>, t: Tree, h: nat, root: Ref, L: seq<Entry>)
    requires Repair(G, ctx, t, h, root, L) && ctx != []
    ensures var f := ctx[0]; var pk, j := Around(f, [t]), |f.before|;
      2 <= |pk| <= 3 && j < |pk| && pk[j] == t && t.node in G && G[t.node].parent == Some(f.node) &&
      Links(G, f.node, Roots(pk)) &&
      (G[f.node].shape.left == Some(t.node) <==> j == 0) &&
      (G[f.node].shape.middle == Some(t.node) <==> j == 1) &&
      (forall i | 0 <= i < |pk| && i != j :: Wf(G, pk[i], h))
  {
    SiblingLinks(G, ctx, t, h, root, L);
    AroundOthers(G, ctx[0], t, h);
  }

  /** How the parent of a node under repair links to it and its
      siblings. */
  lemma SiblingLinks<V>(G: Store<V>, ctx: seq<Frame>, t: Tree, h: nat, root: Ref, L: seq<Entry>)
    requires Repair(G, ctx, t, h, root, L) && ctx != []
    ensures var f := ctx[0]; var pk, j := Around(f, [t]), |f.before|;
      2 <= |pk| <= 3 && j < |pk| && pk[j] == t && t.node in G && G[t.node].parent == Some(f.node) &&
      Links(G, f.node, Roots(pk)) &&
      (G[f.node].shape.left == Some(t.node) <==> j == 0) &&
      (G[f.node].shape.middle == Some(t.node) <==> j == 1)
  {
    var f := ctx[0];
    var pk := Around(f, [t]);
    assert 1 <= |f.before| + |f.after| <= 2 && Links(G, f.node, Roots(f.before) + [t.node] + Roots(f.after));
    DistinctOfOne(t);
    NodesOfOne(t);
    UpDistinct(ctx, [t]);
    RootsUnique(pk, f.node);
    FrameLinks(G, f, t);
  }

  /** The links of a frame's node to its children, the hole among them. */
  lemma FrameLinks<V>(G: Store<V>, f: Frame, t: Tree)
    requires 1 <= |f.before| + |f.after| <= 2 && Links(G, f.node, Roots(f.before) + [t.node] + Roots(f.after))
    requires Unique(Roots(Around(f, [t])))
    ensures var pk, j := Around(f, [t]), |f.before|;
      2 <= |pk| <= 3 && j < |pk| && pk[j] == t && t.node in G && G[t.node].parent == Some(f.node) &&
      Links(G, f.node, Roots(pk)) &&
      (G[f.node].shape.left == Some(t.node) <==> j == 0) &&
      (G[f.node].shape.middle == Some(t.node) <==> j == 1)
  {
    var pk, j := Around(f, [t]), |f.before|;
    RootsAppend(f.before + [t], f.after);
    RootsAppend(f.before, [t]);
    assert Roots(pk) == Roots(f.before) + [t.node] + Roots(f.after);
    assert Roots(pk)[j] == t.node;
    LinkedAt(G, f.node, Roots(pk), j);
  }

  /** Among distinct children, the one at position `j` is the left child
      exactly when `j` is 0 and the middle child exactly when `j` is 1. */
  lemma LinkedAt<V>(G: Store<V>, p: Ref, cs: seq<Ref>, j: nat)
    requires Kids(G, p, cs) && Unique(cs) && j < |cs|
    ensures G[p].shape.left == Some(cs[j]) <==> j == 0
    ensures G[p].shape.middle == Some(cs[j]) <==> j == 1
  {
  }

  /** The siblings around the hole of a frame are its well-formed
      subtrees. */
  lemma AroundOthers<V>(G: Store<V>, f: Frame, t: Tree, h: nat)
    requires WfAll(G, f.before + f.after, h)
    ensures var pk, j := Around(f, [t]), |f.before|; forall i | 0 <= i < |pk| && i != j :: Wf(G, pk[i], h)
  {
    var pk, j, ks := Around(f, [t]), |f.before|, f.before + f.after;
    forall i | 0 <= i < |pk| && i != j ensures Wf(G, pk[i], h) {
      if i < j {
        assert pk[i] == ks[i];
      } else {
        assert pk[i] == ks[i - 1];
      }
    }
  }

  /** The children `q` and `q + 1` of the parent of a node `t` under repair
      with a single child, one of them `t`, form the pair `borrowOrMerge`
      regroups. */
  lemma PairAt<V>(G: Store<V>, ctx: seq<Frame>, t: Tree, h: nat, root: Ref, L: seq<Entry>, q: nat)
    requires Repair(G, ctx, t, h, root, L) && ctx != [] && t.Inner? && |t.kids| == 1
    requires var j := |ctx[0].before|; q + 1 < |Around(ctx[0], [t])| && (q == j || q + 1 == j)
    ensures var pk := Around(ctx[0], [t]); var g := Frame(ctx[0].node, pk[..q], pk[q + 2..]);
      Around(g, [pk[q], pk[q + 1]]) == pk && Pair(G, g, pk[q], pk[q + 1], h) &&
      3 <= |pk[q].kids| + |pk[q + 1].kids| <= 4
  {
    var f := ctx[0];
    var pk, j := Around(f, [t]), |f.before|;
    var g := Frame(f.node, pk[..q], pk[q + 2..]);
    Siblings(G, ctx, t, h, root, L);
    DistinctOfOne(t);
    NodesOfOne(t);
    UpDistinct(ctx, [t]);
    PairRest(G, pk, q, h);
    var x := if q == j then pk[q + 1] else pk[q];
    assert Wf(G, x, h) && Sound(G, x, h);
  }

  /** Taking the pair at `q` and `q + 1` out of the children `pk` leaves
      the other, well-formed, children. */
  lemma PairRest<V>(G: Store<V>, pk: seq<Tree>, q: nat, h: nat)
    requires q + 1 < |pk| && forall i | 0 <= i < |pk| && i != q && i != q + 1 :: Wf(G, pk[i], h)
    ensures pk == pk[..q] + [pk[q], pk[q + 1]] + pk[q + 2..] && WfAll(G, pk[..q] + pk[q + 2..], h)
  {
    var rest := pk[..q] + pk[q + 2..];
    assert pk == pk[..q] + [pk[q], pk[q + 1]] + pk[q + 2..];
    forall i | 0 <= i < |rest| ensures Wf(G, rest[i], h) {
      if i < q {
        assert rest[i] == pk[i];
      } else {
        assert rest[i] == pk[i + 2];
      }
    }
  }

  /** Where `borrowOrMerge` starts: the node `t` under repair has a single
      child, and with the sibling `borrowOrMerge` picks it forms a pair of
      adjacent children `u`, `v` of its parent (`t` is `u` when it is the
      left child, `v` otherwise), the parent's other children making up the
      frame `g`. */
  lemma Regroupable<V>(G: Store<V>, ctx: seq<Frame>, t: Tree, h: nat, root: Ref, L: seq<Entry>)
      returns (g: Frame, u: Tree, v: Tree)
    requires Repair(G, ctx, t, h, root, L) && ctx != [] && t.Inner? && |t.kids| == 1
    ensures t.node in G && G[t.node].parent == Some(ctx[0].node) && g.node == ctx[0].node
    ensures Around(g, [u, v]) == Around(ctx[0], [t]) && Pair(G, g, u, v, h) && 3 <= |u.kids| + |v.kids| <= 4
    ensures (t == u && |g.before| == 0) || t == v
  {
    Siblings(G, ctx, t, h, root, L);
    var pk, j := Around(ctx[0], [t]), |ctx[0].before|;
    var q := if j == 0 then 0 else j - 1;
    PairAt(G, ctx, t, h, root, L, q);
    g, u, v := Frame(ctx[0].node, pk[..q], pk[q + 2..]), pk[q], pk[q + 1];
  }


  // ------------------------------------------------- the leaf taken out

  /** The start of `delete` once the leaf `z` is out of the leaf list `L`
      but still a child of its parent, the node of the first frame of the
      path `ctx` from the root. */
  ghost predicate Hole<V>(G: Store<V>, ctx: seq<Frame>, z: Ref, root: Ref, L: seq<Entry>)
  {
    ctx != [] && CtxOk(G, ctx, z, 0, root) && CtxDistinct(ctx) && z !in CtxNodes(ctx) &&
    LeftLeaves(ctx) + RightLeaves(ctx) == L && Ascending(L) && List(G, L)
  }

  /** The first steps of `delete` for the `m`-th leaf `z`, neither sentinel:
      `z` has a parent and both list neighbours, and once it is taken out of
      the leaf list the leaf sequence is the old one without it. */
  lemma DeleteStart<V>(G: Store<V>, root: Ref, T: Tree, H: nat, lo: int, hi: int, m: nat, avoid: Ref)
      returns (ctx: seq<Frame>)
    requires Shaped(G, root, T, H, lo, hi) && 0 < m < |Leaves(T)| - 1 && avoid !in G
    ensures var es, z := Leaves(T), Leaves(T)[m].node;
      z in G && G[z].prev == Some(es[m - 1].node) && G[z].next == Some(es[m + 1].node) &&
      es[m - 1].node in G && es[m + 1].node in G && ctx != [] && G[z].parent == Some(ctx[0].node)
    ensures var es, z := Leaves(T), Leaves(T)[m].node; var G', L := Unlinked(G, z), es[..m] + es[m + 1..];
      G'.Keys == G.Keys && ValuesKept(G, G') && Hole(G', ctx, z, root, L) &&
      |L| >= 2 && L[0].key == lo && L[|L| - 1].key == hi
    ensures |ctx| == H
  {
    ctx := Located(G, root, T, H, lo, hi, m, avoid);
    HoleEnds(G, root, T, H, lo, hi, m, ctx);
    LeavesUnique(T);
    HoleStart(G, root, Leaves(T), lo, hi, m, ctx, Leaves(T)[m].node, Leaves(T)[..m] + Leaves(T)[m + 1..]);
  }

  /** The `m`-th leaf `z`, neither sentinel, has both list neighbours and
      its parent is the first node of the path `ctx` up from it. */
  lemma HoleEnds<V>(G: Store<V>, root: Ref, T: Tree, H: nat, lo: int, hi: int, m: nat, ctx: seq<Frame>)
    requires Shaped(G, root, T, H, lo, hi) && 0 < m < |Leaves(T)| - 1
    requires var z := Leaves(T)[m].node; CtxOk(G, ctx, z, 0, root) && ctx != []
    ensures var es, z := Leaves(T), Leaves(T)[m].node;
      z in G && G[z].prev == Some(es[m - 1].node) && G[z].next == Some(es[m + 1].node) &&
      es[m - 1].node in G && es[m + 1].node in G && G[z].parent == Some(ctx[0].node)
  {
    LeavesUnique(T);
    UnlinkList(G, Leaves(T), m);
    CtxRootParent(G, ctx, Leaves(T)[m].node, 0, root);
  }

  /** Once the `m`-th leaf `z` of the leaves `es`, neither end, is out of
      the leaf list, the path `ctx` up from it is the start of `delete`. */
  lemma HoleStart<V>(G: Store<V>, root: Ref, es: seq<Entry>, lo: int, hi: int, m: nat, ctx: seq<Frame>,
                     z: Ref, L: seq<Entry>)
    requires Ascending(es) && List(G, es) && Unique(LeafNodes(es)) && es[0].key == lo && es[|es| - 1].key == hi
    requires 0 < m < |es| - 1 && z == es[m].node && L == es[..m] + es[m + 1..]
    requires CtxOk(G, ctx, z, 0, root) && CtxDistinct(ctx) && z !in CtxNodes(ctx) && |LeftLeaves(ctx)| == m
    requires ctx != [] && LeftLeaves(ctx) + [es[m]] + RightLeaves(ctx) == es
    requires z in G && G[z].prev.Some? && G[z].next.Some? && G[z].prev.value in G && G[z].next.value in G
    ensures Unlinked(G, z).Keys == G.Keys && ValuesKept(G, Unlinked(G, z)) && Hole(Unlinked(G, z), ctx, z, root, L)
    ensures |L| >= 2 && L[0].key == lo && L[|L| - 1].key == hi
  {
    assert L[0] == es[0] && L[|L| - 1] == es[|es| - 1];
    UnlinkList(G, es, m);
    RemovedAt(ctx, es, m);
    HoleAfterUnlink(G, Unlinked(G, z), ctx, z, root, L);
  }

  /** Taking entry `m`, neither the first nor the last, out of ascending
      leaves with a path to it leaves the leaves on either side of the
      path, still ascending and with the same ends. */
  lemma RemovedAt(ctx: seq<Frame>, es: seq<Entry>, m: nat)
    requires 0 < m < |es| - 1 && Ascending(es)
    requires LeftLeaves(ctx) + [es[m]] + RightLeaves(ctx) == es && |LeftLeaves(ctx)| == m
    ensures var L := es[..m] + es[m + 1..];
      LeftLeaves(ctx) + RightLeaves(ctx) == L && Ascending(L) && |L| >= 2 && L[0] == es[0] && L[|L| - 1] == es[|es| - 1]
  {
    var L := es[..m] + es[m + 1..];
    assert es[..m] == LeftLeaves(ctx) && es[m + 1..] == RightLeaves(ctx);
    forall i, j | 0 <= i < j < |L| ensures L[i].key < L[j].key {
      var i', j' := if i < m then i else i + 1, if j < m then j else j + 1;
      assert L[i] == es[i'] && L[j] == es[j'];
    }
  }

  /** Relinking the leaf list keeps the path to the leaf taken out. */
  lemma HoleAfterUnlink<V>(G: Store<V>, G': Store<V>, ctx: seq<Frame>, z: Ref, root: Ref, L: seq<Entry>)
    requires ctx != [] && CtxOk(G, ctx, z, 0, root) && CtxDistinct(ctx) && z !in CtxNodes(ctx)
    requires forall n | n in G :: n in G' && G'[n].shape == G[n].shape && G'[n].parent == G[n].parent
    requires LeftLeaves(ctx) + RightLeaves(ctx) == L && Ascending(L) && List(G', L)
    ensures Hole(G', ctx, z, root, L)
  {
    CtxOkKept(G, G', ctx, z, 0, root);
  }

  /** The fields `delete` reads off the parent `y` of the leaf `z` to give
      it its other children: the one or two siblings of `z`, in order. */
  lemma RemoveFields<V>(G: Store<V>, ctx: seq<Frame>, z: Ref, root: Ref, L: seq<Entry>)
    requires Hole(G, ctx, z, root, L)
    ensures var f := ctx[0]; var s, cs := G[f.node].shape, Roots(f.before + f.after);
      Rewirable(G, f.node, cs) && At(cs, 2) == None &&
      (s.left == Some(z) <==> |f.before| == 0) && (s.middle == Some(z) <==> |f.before| == 1)
    ensures var f := ctx[0]; var s, cs := G[f.node].shape, Roots(f.before + f.after);
      (|f.before| == 0 ==> s.middle.Some? && cs[0] == s.middle.value && At(cs, 1) == s.right) &&
      (|f.before| == 1 ==> s.left.Some? && cs[0] == s.left.value && At(cs, 1) == s.right) &&
      (|f.before| == 2 ==> s.left.Some? && cs[0] == s.left.value && At(cs, 1) == s.middle)
  {
    var f := ctx[0];
    var ks := f.before + f.after;
    ChildPosition(G, ctx, z, 0, root);
    RootsUnique(ks, f.node);
    RootsAppend(f.before, f.after);
    WfAllInStore(G, ks, 0);
  }

  /** Once the parent of the leaf taken out has its other children as its
      children, it is a node under repair one level up. */
  lemma LeafRemoved<V>(G: Store<V>, G': Store<V>, ctx: seq<Frame>, z: Ref, root: Ref, L: seq<Entry>)
    requires Hole(G, ctx, z, root, L)
    requires var f := ctx[0]; var cs := Roots(f.before + f.after);
      Changes(G, G', {f.node}, Elems(cs)) && Links(G', f.node, cs)
    ensures ValuesKept(G, G')
    ensures var f := ctx[0]; Repair(G', ctx[1..], Inner(f.node, f.before + f.after), 1, root, L)
  {
    var f, rest := ctx[0], ctx[1..];
    var y, ks := f.node, f.before + f.after;
    var cs := Roots(ks);
    RemovedShape(G, G', y, ks);
    RemovedPath(G, G', ctx, z, root);
    RemovedLeaves(ctx, L);
    ListKept(G, G', L, {y}, Elems(cs));
  }

  /** The path above the parent of the leaf taken out is unaffected by
      relinking that parent to its other children. */
  lemma RemovedPath<V>(G: Store<V>, G': Store<V>, ctx: seq<Frame>, z: Ref, root: Ref)
    requires ctx != [] && CtxOk(G, ctx, z, 0, root) && CtxDistinct(ctx) && z !in CtxNodes(ctx)
    requires var f := ctx[0]; Changes(G, G', {f.node}, Elems(Roots(f.before + f.after)))
    ensures var f := ctx[0];
      CtxOk(G', ctx[1..], f.node, 1, root) && CtxDistinct(ctx[1..]) &&
      CtxNodes(ctx[1..]) !! Nodes(Inner(f.node, f.before + f.after))
  {
    var f, rest := ctx[0], ctx[1..];
    var y, ks := f.node, f.before + f.after;
    assert CtxOk(G, rest, y, 1, root);
    RemovedApart(ctx);
    RootsUnique(ks, y);
    assert Elems(Roots(ks)) <= NodesOf(ks) && y !in CtxNodes(rest);
    ChangesKept(G, G', {y}, Elems(Roots(ks)), CtxNodes(rest), CtxNodes(rest) + {y});
    CtxOkKept(G, G', rest, y, 1, root);
  }

  /** The nodes of a path stay apart from its first node and that node's
      other children. */
  lemma RemovedApart(ctx: seq<Frame>)
    requires ctx != [] && CtxDistinct(ctx)
    ensures var f := ctx[0];
      CtxDistinct(ctx[1..]) && CtxNodes(ctx[1..]) !! Nodes(Inner(f.node, f.before + f.after))
  {
    var f := ctx[0];
    assert Below(Inner(f.node, f.before + f.after)) == NodesOf(f.before + f.after);
  }

  /** The parent of the leaf taken out, relinked to its other children,
      is a node under repair at height 1. */
  lemma RemovedShape<V>(G: Store<V>, G': Store<V>, y: Ref, ks: seq<Tree>)
    requires WfAll(G, ks, 0) && DistinctOf(ks) && y !in NodesOf(ks) && 1 <= |ks| <= 2
    requires Changes(G, G', {y}, Elems(Roots(ks))) && Links(G', y, Roots(ks))
    ensures Partial(G', Inner(y, ks), 1) && Distinct(Inner(y, ks)) && Nodes(Inner(y, ks)) == {y} + NodesOf(ks)
  {
    KidsKept(G, G', ks, 0, {y}, Elems(Roots(ks)));
  }

  /** The leaves around the parent of the leaf taken out, once the leaf is
      gone from among its children. */
  lemma RemovedLeaves(ctx: seq<Frame>, L: seq<Entry>)
    requires ctx != [] && LeftLeaves(ctx) + RightLeaves(ctx) == L
    ensures var f := ctx[0];
      LeftLeaves(ctx[1..]) + Leaves(Inner(f.node, f.before + f.after)) + RightLeaves(ctx[1..]) == L
  {
    var f, rest := ctx[0], ctx[1..];
    var A, B := LeavesOf(f.before), LeavesOf(f.after);
    assert LeftLeaves(ctx) == LeftLeaves(rest) + A;
    assert RightLeaves(ctx) == B + RightLeaves(rest);
    LeavesOfAppend(f.before, f.after);
    assert Leaves(Inner(f.node, f.before + f.after)) == A + B;
    Regroup(LeftLeaves(rest), A, B, RightLeaves(rest));
  }

  lemma Regroup<T>(a: seq<T>, b: seq<T>, c: seq<T>, d: seq<T>)
    ensures (a + b) + (c + d) == a + (b + c) + d
  {
  }
}
