/** Facts about the ghost vocabulary of `TwoThreeNode`: how leaves, nodes and
    distinctness compose over sequences of subtrees and along zippers, and
    what the heap predicates give when a path moves one level down or up. */
module TwoThreeLemmas {
  import opened Wrappers
  import opened TwoThreeNode

  // ------------------------------------------------------ concatenation

  lemma {:induction false} LeavesOfAppend(a: seq<Tree>, b: seq<Tree>)
    ensures LeavesOf(a + b) == LeavesOf(a) + LeavesOf(b)
    decreases |b|
  {
    if b == [] {
      assert a + b == a;
    } else {
      var b' := b[..|b| - 1];
      assert (a + b)[..|a + b| - 1] == a + b';
      assert (a + b)[|a + b| - 1] == b[|b| - 1];
      LeavesOfAppend(a, b');
    }
  }

  lemma LeavesOfOne(t: Tree)
    ensures LeavesOf([t]) == Leaves(t)
  {
    assert [t][..0] == [];
  }

  lemma LeavesOfTwo(s: Tree, t: Tree)
    ensures LeavesOf([s, t]) == Leaves(s) + Leaves(t)
  {
    assert [s, t] == [s] + [t];
    LeavesOfAppend([s], [t]);
    LeavesOfOne(s);
    LeavesOfOne(t);
  }

  lemma LeavesOfThree(s: Tree, t: Tree, u: Tree)
    ensures LeavesOf([s, t, u]) == Leaves(s) + Leaves(t) + Leaves(u)
  {
    assert [s, t, u] == [s, t] + [u];
    LeavesOfAppend([s, t], [u]);
    LeavesOfTwo(s, t);
    LeavesOfOne(u);
  }

  /** The leaves around a hole. */
  lemma LeavesOfAround(a: seq<Tree>, ts: seq<Tree>, b: seq<Tree>)
    ensures LeavesOf(a + ts + b) == LeavesOf(a) + LeavesOf(ts) + LeavesOf(b)
  {
    LeavesOfAppend(a + ts, b);
    LeavesOfAppend(a, ts);
  }

  lemma {:induction false} NodesOfAppend(a: seq<Tree>, b: seq<Tree>)
    ensures NodesOf(a + b) == NodesOf(a) + NodesOf(b)
    decreases |b|
  {
    if b == [] {
      assert a + b == a;
    } else {
      var b' := b[..|b| - 1];
      assert (a + b)[..|a + b| - 1] == a + b';
      assert (a + b)[|a + b| - 1] == b[|b| - 1];
      NodesOfAppend(a, b');
    }
  }

  lemma NodesOfOne(t: Tree)
    ensures NodesOf([t]) == Nodes(t)
  {
    assert [t][..0] == [];
  }

  lemma NodesOfTwo(s: Tree, t: Tree)
    ensures NodesOf([s, t]) == Nodes(s) + Nodes(t)
  {
    assert [s, t][..1] == [s];
    NodesOfOne(s);
  }

  lemma RootsAppend(a: seq<Tree>, b: seq<Tree>)
    ensures Roots(a + b) == Roots(a) + Roots(b)
  {
  }

  /** A node of a sequence of subtrees is exactly a node of one of them. */
  lemma {:induction false} NodesOfMember(ts: seq<Tree>, o: Ref)
    ensures o in NodesOf(ts) <==> exists i :: 0 <= i < |ts| && o in Nodes(ts[i])
    decreases |ts|
  {
    NodesOfContains(ts);
    if o in NodesOf(ts) && o !in Nodes(ts[|ts| - 1]) {
      var init := ts[..|ts| - 1];
      NodesOfMember(init, o);
      var i :| 0 <= i < |init| && o in Nodes(init[i]);
      assert init[i] == ts[i];
    }
  }

  lemma DistinctOfAppend(a: seq<Tree>, b: seq<Tree>)
    ensures DistinctOf(a + b) <==> DistinctOf(a) && DistinctOf(b) && NodesOf(a) !! NodesOf(b)
  {
    if DistinctOf(a + b) {
      DistinctOfLeft(a, b);
      DistinctOfRight(a, b);
      DistinctOfApart(a, b);
    }
    if DistinctOf(a) && DistinctOf(b) && NodesOf(a) !! NodesOf(b) {
      DistinctOfJoin(a, b);
    }
  }

  lemma DistinctOfLeft(a: seq<Tree>, b: seq<Tree>)
    requires DistinctOf(a + b)
    ensures DistinctOf(a)
  {
    var ab := a + b;
    forall i, j | 0 <= i < j < |a| ensures Nodes(a[i]) !! Nodes(a[j]) {
      assert a[i] == ab[i] && a[j] == ab[j];
    }
    forall i | 0 <= i < |a| ensures Distinct(a[i]) {
      assert a[i] == ab[i];
    }
  }

  lemma DistinctOfRight(a: seq<Tree>, b: seq<Tree>)
    requires DistinctOf(a + b)
    ensures DistinctOf(b)
  {
    var ab := a + b;
    forall i, j | 0 <= i < j < |b| ensures Nodes(b[i]) !! Nodes(b[j]) {
      assert b[i] == ab[|a| + i] && b[j] == ab[|a| + j];
    }
    forall i | 0 <= i < |b| ensures Distinct(b[i]) {
      assert b[i] == ab[|a| + i];
    }
  }

  lemma DistinctOfApart(a: seq<Tree>, b: seq<Tree>)
    requires DistinctOf(a + b)
    ensures NodesOf(a) !! NodesOf(b)
  {
    var ab := a + b;
    forall o | o in NodesOf(a) ensures o !in NodesOf(b) {
      NodesOfMember(a, o);
      NodesOfMember(b, o);
      var i :| 0 <= i < |a| && o in Nodes(a[i]);
      forall j | 0 <= j < |b| ensures o !in Nodes(b[j]) {
        assert a[i] == ab[i] && b[j] == ab[|a| + j];
      }
    }
  }

  lemma DistinctOfJoin(a: seq<Tree>, b: seq<Tree>)
    requires DistinctOf(a) && DistinctOf(b) && NodesOf(a) !! NodesOf(b)
    ensures DistinctOf(a + b)
  {
    NodesOfContains(a);
    NodesOfContains(b);
    var ab := a + b;
    forall i, j | 0 <= i < j < |ab| ensures Nodes(ab[i]) !! Nodes(ab[j]) {
      if j < |a| {
        assert ab[i] == a[i] && ab[j] == a[j];
      } else if |a| <= i {
        assert ab[i] == b[i - |a|] && ab[j] == b[j - |a|];
      } else {
        assert ab[i] == a[i] && ab[j] == b[j - |a|];
      }
    }
    forall i | 0 <= i < |ab| ensures Distinct(ab[i]) {
      if i < |a| {
        assert ab[i] == a[i];
      } else {
        assert ab[i] == b[i - |a|];
      }
    }
  }

  lemma DistinctOfOne(t: Tree)
    ensures DistinctOf([t]) <==> Distinct(t)
  {
    assert [t][0] == t;
  }

  lemma DistinctOfTwo(s: Tree, t: Tree)
    ensures DistinctOf([s, t]) <==> Distinct(s) && Distinct(t) && Nodes(s) !! Nodes(t)
  {
    assert [s, t][0] == s && [s, t][1] == t;
  }

  // ------------------------------------------------------------- leaves

  /** Distinct nodes give distinct leaves. */
  lemma {:induction false} LeavesUnique(t: Tree)
    requires Distinct(t)
    ensures Unique(LeafNodes(Leaves(t)))
    decreases t, 1
  {
    match t
    case Leaf(_, _) =>
    case Inner(_, kids) => LeavesOfUnique(kids);
  }

  lemma {:induction false} LeavesOfUnique(ts: seq<Tree>)
    requires DistinctOf(ts)
    ensures Unique(LeafNodes(LeavesOf(ts)))
    decreases ts, 0
  {
    if ts != [] {
      var init, last := ts[..|ts| - 1], ts[|ts| - 1];
      assert ts == init + [last];
      DistinctOfAppend(init, [last]);
      NodesOfOne(last);
      LeavesOfUnique(init);
      LeavesUnique(last);
      LeavesOfIn(init);
      LeavesIn(last);
      var l1, l2 := LeavesOf(init), Leaves(last);
      var ns := LeafNodes(l1 + l2);
      forall i, j | 0 <= i < j < |ns| ensures ns[i] != ns[j] {
        if j < |l1| {
          assert ns[i] == LeafNodes(l1)[i] && ns[j] == LeafNodes(l1)[j];
        } else if |l1| <= i {
          assert ns[i] == LeafNodes(l2)[i - |l1|] && ns[j] == LeafNodes(l2)[j - |l1|];
        } else {
          assert ns[i] == l1[i].node && l1[i] in l1;
          assert ns[j] == l2[j - |l1|].node && l2[j - |l1|] in l2;
        }
      }
    }
  }

  /** A leaf of a sequence of subtrees is a leaf of one of them. */
  lemma {:induction false} LeavesOfMember(ts: seq<Tree>, e: Entry)
    requires e in LeavesOf(ts)
    ensures exists i :: 0 <= i < |ts| && e in Leaves(ts[i])
    decreases |ts|
  {
    var init := ts[..|ts| - 1];
    if e !in Leaves(ts[|ts| - 1]) {
      LeavesOfMember(init, e);
      var i :| 0 <= i < |init| && e in Leaves(init[i]);
      assert init[i] == ts[i];
    }
  }

  /** A sequence is its prefix, its `i`-th element and its suffix. */
  lemma SplitAt<T>(s: seq<T>, i: nat)
    requires i < |s|
    ensures s == s[..i] + [s[i]] + s[i + 1..]
  {
  }

  /** The parts of a sequence made of a prefix, one element and a suffix. */
  lemma PartsAt<T>(a: seq<T>, y: T, c: seq<T>)
    ensures (a + [y] + c)[..|a|] == a && (a + [y] + c)[|a|..] == [y] + c
  {
  }

  /** A sequence of one to three elements, written out. */
  lemma Spelled<T>(s: seq<T>)
    requires 1 <= |s| <= 3
    ensures |s| == 1 ==> s == [s[0]]
    ensures |s| == 2 ==> s == [s[0], s[1]]
    ensures |s| == 3 ==> s == [s[0], s[1], s[2]]
  {
  }

  /** Splitting a sequence of subtrees at `i` splits its leaves at the
      leaves of the `i`-th subtree. */
  lemma LeavesOfAt(ts: seq<Tree>, i: nat)
    requires i < |ts|
    ensures LeavesOf(ts) == LeavesOf(ts[..i]) + Leaves(ts[i]) + LeavesOf(ts[i + 1..])
  {
    SplitAt(ts, i);
    LeavesOfAround(ts[..i], [ts[i]], ts[i + 1..]);
    LeavesOfOne(ts[i]);
  }

  lemma AscendingInfix(a: seq<Entry>, b: seq<Entry>, c: seq<Entry>)
    requires Ascending(a + b + c)
    ensures Ascending(b)
    ensures forall i, j | 0 <= i < |a| && 0 <= j < |b| :: a[i].key < b[j].key
    ensures forall i, j | 0 <= i < |b| && 0 <= j < |c| :: b[i].key < c[j].key
  {
    var s := a + b + c;
    forall i, j | 0 <= i < j < |b| ensures b[i].key < b[j].key {
      assert b[i] == s[|a| + i] && b[j] == s[|a| + j];
    }
    forall i, j | 0 <= i < |a| && 0 <= j < |b| ensures a[i].key < b[j].key {
      assert a[i] == s[i] && b[j] == s[|a| + j];
    }
    forall i, j | 0 <= i < |b| && 0 <= j < |c| ensures b[i].key < c[j].key {
      assert b[i] == s[|a| + i] && c[j] == s[|a| + |b| + j];
    }
  }

  /** An entry of the first part of an ascending sequence has a smaller
      key than an entry of the second part. */
  lemma AscendingSplit(a: seq<Entry>, b: seq<Entry>, x: Entry, y: Entry)
    requires Ascending(a + b) && x in a && y in b
    ensures x.key < y.key
  {
    var i :| 0 <= i < |a| && a[i] == x;
    var j :| 0 <= j < |b| && b[j] == y;
    assert (a + b)[i] == x && (a + b)[|a| + j] == y;
  }

  /** In a sequence of subtrees with ascending leaves, every key of an
      earlier subtree is below every key of a later one. */
  lemma KidsOrdered(ts: seq<Tree>, i: nat, j: nat)
    requires i < j < |ts| && Ascending(LeavesOf(ts))
    ensures forall x, y | x in Leaves(ts[i]) && y in Leaves(ts[j]) :: x.key < y.key
  {
    var a, b := ts[..j], ts[j..];
    assert ts == a + b;
    LeavesOfAppend(a, b);
    assert a[i] == ts[i];
    LeavesOfAt(a, i);
    assert b[0] == ts[j];
    LeavesOfAt(b, 0);
    forall x, y | x in Leaves(ts[i]) && y in Leaves(ts[j]) ensures x.key < y.key {
      AscendingSplit(LeavesOf(a), LeavesOf(b), x, y);
    }
  }

  // ------------------------------------------------------------ zippers

  lemma UpNodes(f: Frame, ts: seq<Tree>)
    ensures Nodes(Up(f, ts)) == {f.node} + NodesOf(f.before + f.after) + NodesOf(ts)
  {
    NodesOfAppend(f.before + ts, f.after);
    NodesOfAppend(f.before, ts);
    NodesOfAppend(f.before, f.after);
  }

  /** Moving the hole of a zipper one level up keeps its leaves. */
  lemma UpLeaves(ctx: seq<Frame>, ts: seq<Tree>)
    requires ctx != []
    ensures LeftLeaves(ctx) + LeavesOf(ts) + RightLeaves(ctx)
         == LeftLeaves(ctx[1..]) + Leaves(Up(ctx[0], ts)) + RightLeaves(ctx[1..])
  {
    var f := ctx[0];
    var l, r := LeftLeaves(ctx[1..]), RightLeaves(ctx[1..]);
    var b, m, a := LeavesOf(f.before), LeavesOf(ts), LeavesOf(f.after);
    assert LeftLeaves(ctx) == l + b;
    assert RightLeaves(ctx) == a + r;
    LeavesOfAround(f.before, ts, f.after);
    assert Leaves(Up(f, ts)) == b + m + a;
    AssocFive(l, b, m, a, r);
  }

  lemma AssocFive<T>(l: seq<T>, b: seq<T>, m: seq<T>, a: seq<T>, r: seq<T>)
    ensures (l + b) + m + (a + r) == l + (b + m + a) + r
  {
  }

  /** Moving the hole of a zipper one level up keeps it free of repeated
      nodes. */
  lemma UpDistinct(ctx: seq<Frame>, ts: seq<Tree>)
    requires ctx != [] && CtxDistinct(ctx) && DistinctOf(ts) && CtxNodes(ctx) !! NodesOf(ts)
    ensures CtxDistinct(ctx[1..]) && Distinct(Up(ctx[0], ts))
    ensures CtxNodes(ctx[1..]) !! Nodes(Up(ctx[0], ts))
  {
    var f := ctx[0];
    UpNodes(f, ts);
    DistinctOfAppend(f.before, f.after);
    DistinctOfAppend(f.before, ts);
    NodesOfAppend(f.before, ts);
    DistinctOfAppend(f.before + ts, f.after);
    NodesOfAppend(f.before, f.after);
    NodesOfAppend(f.before + ts, f.after);
  }

  /** Moving the hole of a zipper one level down, into child `i` of `t`,
      keeps it free of repeated nodes. */
  lemma DownDistinct(ctx: seq<Frame>, t: Tree, i: nat)
    requires t.Inner? && i < |t.kids|
    requires CtxDistinct(ctx) && Distinct(t) && CtxNodes(ctx) !! Nodes(t)
    ensures var f := Frame(t.node, t.kids[..i], t.kids[i + 1..]);
      CtxDistinct([f] + ctx) && Distinct(t.kids[i]) && CtxNodes([f] + ctx) !! Nodes(t.kids[i])
  {
    var f := Frame(t.node, t.kids[..i], t.kids[i + 1..]);
    var ctx' := [f] + ctx;
    assert ctx'[1..] == ctx;
    assert t.kids == f.before + [t.kids[i]] + f.after;
    UpNodes(f, [t.kids[i]]);
    NodesOfOne(t.kids[i]);
    assert Up(f, [t.kids[i]]) == t;
    DistinctOfAppend(f.before + [t.kids[i]], f.after);
    DistinctOfAppend(f.before, [t.kids[i]]);
    DistinctOfAppend(f.before, f.after);
    NodesOfAppend(f.before + [t.kids[i]], f.after);
    NodesOfAppend(f.before, [t.kids[i]]);
    NodesOfAppend(f.before, f.after);
  }

  lemma DownLeaves(ctx: seq<Frame>, t: Tree, i: nat)
    requires t.Inner? && i < |t.kids|
    ensures var ctx' := [Frame(t.node, t.kids[..i], t.kids[i + 1..])] + ctx;
      LeftLeaves(ctx') + Leaves(t.kids[i]) + RightLeaves(ctx')
      == LeftLeaves(ctx) + Leaves(t) + RightLeaves(ctx)
  {
    var ctx' := [Frame(t.node, t.kids[..i], t.kids[i + 1..])] + ctx;
    assert ctx'[1..] == ctx;
    LeavesOfAt(t.kids, i);
  }

  // -------------------------------------------------------------- store

  /** The roots of the children around child `i`. */
  lemma RootsAt(kids: seq<Tree>, i: nat)
    requires i < |kids|
    ensures Roots(kids[..i]) + [kids[i].node] + Roots(kids[i + 1..]) == Roots(kids)
  {
  }

  /** The siblings of child `i` are well-formed when all children are. */
  lemma WfAllSiblings<V>(G: Store<V>, kids: seq<Tree>, i: nat, h: nat)
    requires i < |kids| && WfAll(G, kids, h)
    ensures WfAll(G, kids[..i] + kids[i + 1..], h)
  {
    var sib := kids[..i] + kids[i + 1..];
    forall k | 0 <= k < |sib| ensures Wf(G, sib[k], h) {
      if k < i {
        assert sib[k] == kids[k];
      } else {
        assert sib[k] == kids[k + 1];
      }
    }
  }

  /** The children of a sound internal node are well-formed. */
  lemma SoundKids<V>(G: Store<V>, t: Tree, h: nat)
    requires t.Inner? && Sound(G, t, h)
    ensures h > 0 && 2 <= |t.kids| <= 3 && WfAll(G, t.kids, h - 1) && Links(G, t.node, Roots(t.kids))
  {
    assert Partial(G, t, h);
  }

  /** Moving down from a sound internal node into child `i` gives a path
      that is one frame longer and a well-formed child. */
  lemma Descend<V>(G: Store<V>, ctx: seq<Frame>, t: Tree, i: nat, h: nat, k: nat, root: Ref)
    requires t.Inner? && i < |t.kids| && Sound(G, t, h) && CtxOk(G, ctx, t.node, h, root) && k + 1 == h
    ensures Wf(G, t.kids[i], k) && G[t.kids[i].node].parent == Some(t.node)
    ensures CtxOk(G, [Frame(t.node, t.kids[..i], t.kids[i + 1..])] + ctx, t.kids[i].node, k, root)
  {
    var f := Frame(t.node, t.kids[..i], t.kids[i + 1..]);
    var ctx' := [f] + ctx;
    assert ctx'[1..] == ctx;
    SoundKids(G, t, h);
    RootsAt(t.kids, i);
    WfAllSiblings(G, t.kids, i, k);
  }

  /** The root of a path has no parent; a node on the path below it has
      the next frame's node as parent. */
  lemma {:induction false} CtxRootParent<V>(G: Store<V>, ctx: seq<Frame>, below: Ref, h: nat, root: Ref)
    requires CtxOk(G, ctx, below, h, root)
    ensures root in G && G[root].parent == None && below in G
    ensures ctx != [] ==> G[below].parent == Some(ctx[0].node) && below != root
    ensures ctx == [] ==> below == root
    decreases |ctx|
  {
    if ctx != [] {
      var f := ctx[0];
      assert (Roots(f.before) + [below] + Roots(f.after))[|f.before|] == below;
      CtxRootParent(G, ctx[1..], f.node, h + 1, root);
    }
  }

  /** An internal node whose key is its last child's key and whose size is
      the sum of its children's sizes has current cached fields, provided
      the children have. */
  lemma CachedFromKids<V>(G: Store<V>, n: Ref, kids: seq<Tree>)
    requires 1 <= |kids| <= 3 && n in G
    requires forall i | 0 <= i < |kids| :: kids[i].node in G && Cached(G, kids[i])
    requires G[n].shape.key == G[kids[|kids| - 1].node].shape.key && G[n].shape.size == SizeSum(G, Roots(kids))
    ensures Cached(G, Inner(n, kids))
  {
    assert Cached(G, kids[0]);
    Spelled(kids);
    if |kids| == 1 {
      LeavesOfOne(kids[0]);
    } else if |kids| == 2 {
      assert Cached(G, kids[1]);
      LeavesOfTwo(kids[0], kids[1]);
    } else {
      assert Cached(G, kids[1]) && Cached(G, kids[2]);
      LeavesOfThree(kids[0], kids[1], kids[2]);
    }
  }

  // ----------------------------------------------------------- ordering

  /** The leaves of a subtree are among its nodes. */
  lemma {:induction false} LeavesIn(t: Tree)
    ensures forall e | e in Leaves(t) :: e.node in Nodes(t)
    decreases t, 1
  {
    match t
    case Leaf(_, _) =>
    case Inner(_, kids) => LeavesOfIn(kids);
  }

  lemma {:induction false} LeavesOfIn(ts: seq<Tree>)
    ensures forall e | e in LeavesOf(ts) :: e.node in NodesOf(ts)
    decreases ts, 0
  {
    if ts != [] {
      LeavesOfIn(ts[..|ts| - 1]);
      LeavesIn(ts[|ts| - 1]);
    }
  }

  lemma LeafNodesIn(t: Tree)
    ensures Elems(LeafNodes(Leaves(t))) <= Nodes(t)
  {
    LeavesIn(t);
    forall c | c in Elems(LeafNodes(Leaves(t))) ensures c in Nodes(t) {
      var i :| 0 <= i < |LeafNodes(Leaves(t))| && LeafNodes(Leaves(t))[i] == c;
      assert Leaves(t)[i] in Leaves(t);
    }
  }

  /** In a sound subtree, exactly the leaves are flagged as leaves. */
  lemma SoundIsLeaf<V>(G: Store<V>, t: Tree, h: nat)
    requires Sound(G, t, h)
    ensures t.node in G && (t.Leaf? <==> G[t.node].shape.isLeaf)
  {
    if t.Inner? {
      assert Partial(G, t, h);
      assert Links(G, t.node, Roots(t.kids));
    }
  }

  /** In a sound subtree, the leaves are exactly the subtrees of height 0. */
  lemma SoundHeight<V>(G: Store<V>, t: Tree, h: nat)
    requires Sound(G, t, h)
    ensures t.Leaf? <==> h == 0
  {
    if t.Inner? {
      assert Partial(G, t, h);
    }
  }

  /** The leaves of each child are a segment of the leaves of the parent. */
  lemma KidLeaves(t: Tree, i: nat)
    requires t.Inner? && i < |t.kids|
    ensures forall e | e in Leaves(t.kids[i]) :: e in Leaves(t)
    ensures Ascending(Leaves(t)) ==> Ascending(Leaves(t.kids[i]))
  {
    LeavesOfAt(t.kids, i);
    if Ascending(Leaves(t)) {
      AscendingInfix(LeavesOf(t.kids[..i]), Leaves(t.kids[i]), LeavesOf(t.kids[i + 1..]));
    }
  }

  lemma KeyAtMost(s: Tree)
    requires Ascending(Leaves(s)) && |Leaves(s)| > 0
    ensures forall e | e in Leaves(s) :: e.key <= MaxKey(s)
  {
  }

  /** The largest key of an internal node is its last child's. */
  lemma MaxKeyLast(t: Tree)
    requires t.Inner? && |t.kids| > 0 && |Leaves(t.kids[|t.kids| - 1])| > 0
    ensures |Leaves(t)| > 0 && MaxKey(t) == MaxKey(t.kids[|t.kids| - 1])
  {
  }

  /** If every child before `i` has only keys below `key`, and child `i`
      reaches up to `key`, then `key` is in `t` exactly when it is in child
      `i`. */
  lemma SearchChoice(t: Tree, i: nat, key: int)
    requires t.Inner? && i < |t.kids| && Ascending(Leaves(t))
    requires forall j | 0 <= j <= i :: |Leaves(t.kids[j])| > 0
    requires forall j | 0 <= j < i :: MaxKey(t.kids[j]) < key
    requires key <= MaxKey(t.kids[i])
    ensures key in Keys(Leaves(t)) <==> key in Keys(Leaves(t.kids[i]))
  {
    if key in Keys(Leaves(t.kids[i])) {
      SearchChoiceIn(t, i, key);
    }
    if key in Keys(Leaves(t)) {
      SearchChoiceOut(t, i, key);
    }
  }

  lemma SearchChoiceIn(t: Tree, i: nat, key: int)
    requires t.Inner? && i < |t.kids| && key in Keys(Leaves(t.kids[i]))
    ensures key in Keys(Leaves(t))
  {
    KidLeaves(t, i);
    var k :| 0 <= k < |Leaves(t.kids[i])| && Keys(Leaves(t.kids[i]))[k] == key;
    var e := Leaves(t.kids[i])[k];
    assert e in Leaves(t);
    var m :| 0 <= m < |Leaves(t)| && Leaves(t)[m] == e;
    assert Keys(Leaves(t))[m] == key;
  }

  lemma SearchChoiceOut(t: Tree, i: nat, key: int)
    requires t.Inner? && i < |t.kids| && Ascending(Leaves(t))
    requires forall j | 0 <= j <= i :: |Leaves(t.kids[j])| > 0
    requires forall j | 0 <= j < i :: MaxKey(t.kids[j]) < key
    requires key <= MaxKey(t.kids[i])
    requires key in Keys(Leaves(t))
    ensures key in Keys(Leaves(t.kids[i]))
  {
    var m :| 0 <= m < |Leaves(t)| && Keys(Leaves(t))[m] == key;
    var e := Leaves(t)[m];
    LeavesOfMember(t.kids, e);
    var j :| 0 <= j < |t.kids| && e in Leaves(t.kids[j]);
    if j < i {
      KidLeaves(t, j);
      KeyAtMost(t.kids[j]);
      assert false;
    } else if j > i {
      KidsOrdered(t.kids, i, j);
      assert false;
    }
    var k :| 0 <= k < |Leaves(t.kids[i])| && Leaves(t.kids[i])[k] == e;
    assert Keys(Leaves(t.kids[i]))[k] == key;
  }

  /** The pointers and cached keys of the children of a sound internal
      node. */
  lemma InnerShape<V>(G: Store<V>, t: Tree, h: nat)
    requires t.Inner? && Sound(G, t, h)
    ensures h > 0 && 2 <= |t.kids| <= 3 && t.node in G && !G[t.node].shape.isLeaf
    ensures G[t.node].shape.left == Some(t.kids[0].node) && G[t.node].shape.middle == Some(t.kids[1].node)
    ensures G[t.node].shape.right == (if |t.kids| == 3 then Some(t.kids[2].node) else None)
    ensures forall j | 0 <= j < |t.kids| ::
      Wf(G, t.kids[j], h - 1) && |Leaves(t.kids[j])| > 0 && G[t.kids[j].node].shape.key == Some(MaxKey(t.kids[j]))
    ensures forall j | 0 <= j < |t.kids| :: Nodes(t.kids[j]) <= Below(t)
    ensures |Leaves(t)| > 0 && MaxKey(t) == MaxKey(t.kids[|t.kids| - 1])
  {
    SoundKids(G, t, h);
    NodesOfContains(t.kids);
    assert Wf(G, t.kids[|t.kids| - 1], h - 1);
    MaxKeyLast(t);
  }

  /** What the search needs to go down into child `i`. */
  lemma SearchStep(t: Tree, i: nat, key: int)
    requires t.Inner? && Ascending(Leaves(t)) && i < |t.kids|
    requires forall j | 0 <= j < i :: |Leaves(t.kids[j])| > 0 && MaxKey(t.kids[j]) < key
    requires |Leaves(t.kids[i])| > 0 && key <= MaxKey(t.kids[i])
    ensures Ascending(Leaves(t.kids[i]))
    ensures key in Keys(Leaves(t)) <==> key in Keys(Leaves(t.kids[i]))
    ensures forall e | e in Leaves(t.kids[i]) :: e in Leaves(t)
  {
    SearchChoice(t, i, key);
    KidLeaves(t, i);
  }

  // -------------------------------------------------------- small trees

  /** An internal node over two leaves, wired up as the initial tree. */
  lemma TwoLeaves<V>(G: Store<V>, r: Ref, a: Ref, b: Ref, lo: int, hi: int) returns (t: Tree)
    requires r != a && r != b && a != b && lo < hi && r in G && a in G && b in G
    requires !G[r].shape.isLeaf && G[r].shape.left == Some(a) && G[r].shape.middle == Some(b) && G[r].shape.right == None
    requires G[a].shape.isLeaf && G[a].shape.key == Some(lo) && G[a].shape.size == 1 && G[a].parent == Some(r)
    requires G[b].shape.isLeaf && G[b].shape.key == Some(hi) && G[b].shape.size == 1 && G[b].parent == Some(r)
    requires G[a].prev == None && G[a].next == Some(b) && G[b].prev == Some(a) && G[b].next == None
    ensures t == Inner(r, [Leaf(a, lo), Leaf(b, hi)]) && Nodes(t) == {r, a, b}
    ensures Sound(G, t, 1) && Distinct(t)
    ensures Leaves(t) == [Entry(a, lo), Entry(b, hi)] && Keys(Leaves(t)) == [lo, hi]
    ensures List(G, Leaves(t)) && Ascending(Leaves(t))
  {
    var x, y := Leaf(a, lo), Leaf(b, hi);
    t := Inner(r, [x, y]);
    LeavesOfTwo(x, y);
    assert [x, y] == [x] + [y];
    NodesOfAppend([x], [y]);
    NodesOfOne(x);
    NodesOfOne(y);
    assert Roots([x, y]) == [a, b];
    assert Wf(G, x, 0) && Wf(G, y, 0);
    assert Links(G, r, Roots([x, y])) by {
      assert At([a, b], 1) == Some(b) && At([a, b], 2) == None;
    }
    assert Partial(G, t, 1);
    assert DistinctOf([x, y]);
    assert Keys([Entry(a, lo), Entry(b, hi)]) == [lo, hi];
  }

  // -------------------------------------------------------- relinking

  /** The cached keys of subtrees with ascending leaves ascend strictly. */
  lemma RootKeysAscending<V>(G: Store<V>, ts: seq<Tree>, h: nat)
    requires WfAll(G, ts, h) && Ascending(LeavesOf(ts))
    ensures forall a | 0 <= a < |ts| :: ts[a].node in G && G[ts[a].node].shape.key.Some?
    ensures forall a, b | 0 <= a < b < |ts| :: G[ts[a].node].shape.key.value < G[ts[b].node].shape.key.value
  {
    forall a | 0 <= a < |ts| ensures ts[a].node in G && G[ts[a].node].shape.key == Some(MaxKey(ts[a])) {
      assert Wf(G, ts[a], h);
    }
    forall a, b | 0 <= a < b < |ts| ensures G[ts[a].node].shape.key.value < G[ts[b].node].shape.key.value {
      assert Wf(G, ts[a], h) && Wf(G, ts[b], h);
      KidsOrdered(ts, a, b);
      var la, lb := Leaves(ts[a]), Leaves(ts[b]);
      assert la[|la| - 1] in la && lb[|lb| - 1] in lb;
    }
  }

  /** No root of a sequence of distinct subtrees lies strictly below any of
      them. */
  lemma RootsNotBelow(ts: seq<Tree>)
    requires DistinctOf(ts)
    ensures forall i, k | 0 <= i < |ts| && 0 <= k < |ts| :: ts[k].node !in Below(ts[i])
  {
    forall i, k | 0 <= i < |ts| && 0 <= k < |ts| ensures ts[k].node !in Below(ts[i]) {
      assert Distinct(ts[i]);
      if k != i {
        if k < i {
          assert Nodes(ts[k]) !! Nodes(ts[i]);
        } else {
          assert Nodes(ts[i]) !! Nodes(ts[k]);
        }
      }
    }
  }

  /** A node strictly below a sequence of subtrees is strictly below one
      of them. */
  lemma {:induction false} BelowOfMember(ts: seq<Tree>, o: Ref)
    requires o in BelowOf(ts)
    ensures exists i :: 0 <= i < |ts| && o in Below(ts[i])
    decreases |ts|
  {
    var init := ts[..|ts| - 1];
    if o !in Below(ts[|ts| - 1]) {
      BelowOfMember(init, o);
      var i :| 0 <= i < |init| && o in Below(init[i]);
      assert init[i] == ts[i];
    }
  }

  /** What is strictly below each subtree is strictly below the sequence. */
  lemma {:induction false} BelowOfContains(ts: seq<Tree>)
    ensures forall i | 0 <= i < |ts| :: Below(ts[i]) <= BelowOf(ts)
    decreases |ts|
  {
    if ts != [] {
      BelowOfContains(ts[..|ts| - 1]);
      forall i | 0 <= i < |ts| - 1 ensures Below(ts[i]) <= BelowOf(ts) {
        assert ts[..|ts| - 1][i] == ts[i];
      }
    }
  }

  /** The roots of distinct subtrees are not below any of them, so their
      parent pointers are outside what `WfAll` depends on. */
  lemma RootsNotBelowOf(ts: seq<Tree>)
    requires DistinctOf(ts)
    ensures Elems(Roots(ts)) !! BelowOf(ts)
  {
    RootsNotBelow(ts);
    forall o | o in BelowOf(ts) ensures o !in Elems(Roots(ts)) {
      BelowOfMember(ts, o);
    }
  }

  /** An internal node whose pointers, cached key and size agree with its
      2 or 3 well-formed children is a well-formed subtree. */
  lemma Linked<V>(G: Store<V>, x: Ref, kids: seq<Tree>, h: nat)
    requires 2 <= |kids| <= 3 && WfAll(G, kids, h)
    requires Links(G, x, Roots(kids))
    requires G[x].shape.key == G[kids[|kids| - 1].node].shape.key
    requires G[x].shape.size == SizeSum(G, Roots(kids))
    ensures Wf(G, Inner(x, kids), h + 1)
  {
    assert forall i | 0 <= i < |kids| :: Wf(G, kids[i], h);
    CachedFromKids(G, x, kids);
  }

  // ------------------------------------------------------- preservation

  /** A well-formed subtree stays well-formed in a store that keeps the
      shape and caches of its nodes and the parents of the nodes below its
      root. */
  lemma {:induction false} WfKept<V>(G: Store<V>, G': Store<V>, t: Tree, h: nat)
    requires Wf(G, t, h) && Kept(G, G', Nodes(t), Below(t))
    ensures Wf(G', t, h)
    decreases t, 2
  {
    if t.Inner? {
      SoundKept(G, G', t, h);
    }
  }

  /** The same for a sound subtree, whose root's caches may be stale. */
  lemma {:induction false} SoundKept<V>(G: Store<V>, G': Store<V>, t: Tree, h: nat)
    requires Sound(G, t, h) && Kept(G, G', Nodes(t), Below(t))
    ensures Sound(G', t, h)
    decreases t, 1
  {
    if t.Inner? {
      PartialKept(G, G', t, h);
    }
  }

  /** The same for a node under repair. */
  lemma {:induction false} PartialKept<V>(G: Store<V>, G': Store<V>, t: Tree, h: nat)
    requires Partial(G, t, h) && Kept(G, G', Nodes(t), Below(t))
    ensures Partial(G', t, h)
    decreases t, 0
  {
    var kids := t.kids;
    NodesOfContains(kids);
    BelowOfContains(kids);
    forall i | 0 <= i < |kids| ensures Wf(G', kids[i], h - 1) {
      assert Nodes(kids[i]) <= Below(t);
      WfKept(G, G', kids[i], h - 1);
    }
    assert Links(G', t.node, Roots(kids));
  }

  /** A sequence of well-formed subtrees stays well-formed in a store that
      keeps the shape and caches of their nodes and the parents of the
      nodes below their roots. */
  lemma WfAllKept<V>(G: Store<V>, G': Store<V>, ts: seq<Tree>, h: nat)
    requires WfAll(G, ts, h) && Kept(G, G', NodesOf(ts), BelowOf(ts))
    ensures WfAll(G', ts, h)
  {
    NodesOfContains(ts);
    BelowOfContains(ts);
    forall i | 0 <= i < |ts| ensures Wf(G', ts[i], h) {
      assert Wf(G, ts[i], h);
      WfKept(G, G', ts[i], h);
    }
  }

  /** What a store change that leaves `S`'s shape and `Q`'s parents alone
      keeps. */
  lemma ChangesKept<V>(G: Store<V>, G': Store<V>, X: set<Ref>, P: set<Ref>, S: set<Ref>, Q: set<Ref>)
    requires Changes(G, G', X, P) && S !! X && Q !! P
    ensures Kept(G, G', S, Q)
  {
  }

  /** Two store changes in a row are one change. */
  lemma ChangesTrans<V>(G0: Store<V>, G1: Store<V>, G2: Store<V>, X1: set<Ref>, P1: set<Ref>, X2: set<Ref>, P2: set<Ref>)
    requires Changes(G0, G1, X1, P1) && Changes(G1, G2, X2, P2)
    ensures Changes(G0, G2, X1 + X2, P1 + P2)
  {
  }

  /** The nodes of a sound subtree are in the store. */
  lemma {:induction false} SoundInStore<V>(G: Store<V>, t: Tree, h: nat)
    requires Sound(G, t, h)
    ensures Nodes(t) <= G.Keys
    decreases t
  {
    if t.Inner? {
      assert Partial(G, t, h);
      forall i | 0 <= i < |t.kids| ensures Nodes(t.kids[i]) <= G.Keys {
        SoundInStore(G, t.kids[i], h - 1);
      }
      NodesOfWithin(t.kids, G.Keys);
    }
  }

  /** A sequence of subtrees whose nodes all lie in `S`. */
  lemma {:induction false} NodesOfWithin(ts: seq<Tree>, S: set<Ref>)
    requires forall i | 0 <= i < |ts| :: Nodes(ts[i]) <= S
    ensures NodesOf(ts) <= S
    decreases |ts|
  {
    if ts != [] {
      NodesOfWithin(ts[..|ts| - 1], S);
    }
  }

  lemma WfAllInStore<V>(G: Store<V>, ts: seq<Tree>, h: nat)
    requires WfAll(G, ts, h)
    ensures NodesOf(ts) <= G.Keys
  {
    forall i | 0 <= i < |ts| ensures Nodes(ts[i]) <= G.Keys {
      SoundInStore(G, ts[i], h);
    }
    NodesOfWithin(ts, G.Keys);
  }

  /** The leaf list survives a store change that keeps the list links. */
  lemma ListKept<V>(G: Store<V>, G': Store<V>, es: seq<Entry>, X: set<Ref>, P: set<Ref>)
    requires List(G, es) && Changes(G, G', X, P)
    ensures List(G', es)
  {
  }

  /** Adding a fresh node to the store keeps a subtree and a leaf list
      as they were. */
  lemma Extended<V>(G: Store<V>, x: Ref, n: Node<V>, t: Tree, h: nat, es: seq<Entry>)
    requires x !in G && Sound(G, t, h) && List(G, es)
    ensures var G' := G[x := n];
      Sound(G', t, h) && (Cached(G, t) ==> Cached(G', t)) && List(G', es) && ValuesKept(G, G')
  {
    SoundInStore(G, t, h);
    SoundKept(G, G[x := n], t, h);
    ListKept(G, G[x := n], es, {}, {});
  }

  /** The store after `setChildren`: `x` adopts `cs` and recomputes its
      caches. */
  ghost function Rewire<V>(G: Store<V>, x: Ref, cs: seq<Ref>): Store<V>
    requires x in G && 1 <= |cs| <= 3 && forall i | 0 <= i < |cs| :: cs[i] in G
  {
    Recache(Adopt(G, x, cs), x, cs)
  }

  /** Rewiring links `x` to `cs` with current caches and changes nothing
      but the shape of `x` and the parents of `cs`. */
  lemma RewireChanges<V>(G: Store<V>, x: Ref, cs: seq<Ref>)
    requires x in G && 1 <= |cs| <= 3 && forall i | 0 <= i < |cs| :: cs[i] in G
    requires x !in cs && Unique(cs) && !G[x].shape.isLeaf
    ensures var R := Rewire(G, x, cs);
      R.Keys == G.Keys && Changes(G, R, {x}, Elems(cs)) && Links(R, x, cs) &&
      R[x].shape.key == R[cs[|cs| - 1]].shape.key && R[x].shape.size == SizeSum(R, cs)
  {
    var A := Adopt(G, x, cs);
    AdoptChanges(G, x, cs);
    RecacheChanges(A, x, cs);
    ChangesTrans(G, A, Rewire(G, x, cs), {x}, Elems(cs), {x}, {});
    assert {x} + {x} == {x} && Elems(cs) + {} == Elems(cs);
  }

  // ------------------------------------------------------------ rewiring

  /** The store after `x` takes `cs` as its children: the child slots of
      `x` are set (unused ones to null) and the children point back to
      `x`. */
  ghost function Adopt<V>(G: Store<V>, x: Ref, cs: seq<Ref>): Store<V>
    requires x in G && 1 <= |cs| <= 3 && forall i | 0 <= i < |cs| :: cs[i] in G
  {
    var G1 := G[x := G[x].(shape := G[x].shape.(left := Some(cs[0])))];
    var G2 := G1[x := G1[x].(shape := G1[x].shape.(middle := At(cs, 1)))];
    var G3 := G2[x := G2[x].(shape := G2[x].shape.(right := At(cs, 2)))];
    var G4 := G3[cs[0] := G3[cs[0]].(parent := Some(x))];
    var G5 := if |cs| >= 2 then G4[cs[1] := G4[cs[1]].(parent := Some(x))] else G4;
    if |cs| == 3 then G5[cs[2] := G5[cs[2]].(parent := Some(x))] else G5
  }

  /** The store after the caches of `x` are recomputed from its children
      `cs`: the key of the last child and the sum of their sizes. */
  ghost function Recache<V>(G: Store<V>, x: Ref, cs: seq<Ref>): Store<V>
    requires x in G && 1 <= |cs| <= 3 && forall i | 0 <= i < |cs| :: cs[i] in G
  {
    G[x := G[x].(shape := G[x].shape.(key := G[cs[|cs| - 1]].shape.key, size := SizeSum(G, cs)))]
  }

  /** Adopting children rewires exactly the child slots of `x` and the
      parents of the children, and links them. */
  lemma AdoptChanges<V>(G: Store<V>, x: Ref, cs: seq<Ref>)
    requires x in G && 1 <= |cs| <= 3 && forall i | 0 <= i < |cs| :: cs[i] in G
    requires x !in cs && Unique(cs) && !G[x].shape.isLeaf
    ensures Changes(G, Adopt(G, x, cs), {x}, Elems(cs))
    ensures Links(Adopt(G, x, cs), x, cs)
    ensures forall i | 0 <= i < |cs| :: Adopt(G, x, cs)[cs[i]].shape == G[cs[i]].shape
  {
    var A := Adopt(G, x, cs);
    var s := G[x].shape.(left := Some(cs[0]), middle := At(cs, 1), right := At(cs, 2));
    assert A[x] == G[x].(shape := s);
    forall i | 0 <= i < |cs| ensures A[cs[i]] == G[cs[i]].(parent := Some(x)) {
    }
    forall n | n in G && n != x && n !in cs ensures A[n] == G[n] {
    }
  }

  /** Recomputing the caches of `x` changes nothing else. */
  lemma RecacheChanges<V>(G: Store<V>, x: Ref, cs: seq<Ref>)
    requires x in G && 1 <= |cs| <= 3 && forall i | 0 <= i < |cs| :: cs[i] in G
    requires x !in cs
    ensures Changes(G, Recache(G, x, cs), {x}, {})
    ensures Links(G, x, cs) ==> Links(Recache(G, x, cs), x, cs)
    ensures var R := Recache(G, x, cs);
      R[x].shape.key == R[cs[|cs| - 1]].shape.key && R[x].shape.size == SizeSum(R, cs)
  {
  }

  // ------------------------------------------------------------ rewiring

  /** The subtrees keep their shape when only nodes outside them change
      shape and only their roots change parent. */
  lemma KidsKept<V>(G0: Store<V>, G1: Store<V>, kids: seq<Tree>, h: nat, X: set<Ref>, P: set<Ref>)
    requires WfAll(G0, kids, h) && DistinctOf(kids)
    requires Changes(G0, G1, X, P) && X !! NodesOf(kids) && P <= Elems(Roots(kids))
    ensures WfAll(G1, kids, h)
  {
    RootsNotBelowOf(kids);
    ChangesKept(G0, G1, X, P, NodesOf(kids), BelowOf(kids));
    WfAllKept(G0, G1, kids, h);
  }

  /** The roots of the subtrees other than the `j`-th. */
  lemma RootsWithout(kids: seq<Tree>, j: nat)
    requires j < |kids|
    ensures var rs := Roots(kids[..j] + kids[j + 1..]);
      |rs| == |kids| - 1 && forall i | 0 <= i < |rs| :: rs[i] == (if i < j then kids[i].node else kids[i + 1].node)
  {
  }

  /** Disjoint subtrees have distinct roots, and a node outside them is none
      of their roots. */
  lemma RootsUnique(kids: seq<Tree>, x: Ref)
    requires DistinctOf(kids) && x !in NodesOf(kids)
    ensures Unique(Roots(kids)) && x !in Roots(kids)
    ensures forall i | 0 <= i < |kids| :: kids[i].node in NodesOf(kids)
  {
    NodesOfContains(kids);
    forall i, k | 0 <= i < k < |kids| ensures kids[i].node != kids[k].node {
      assert kids[i].node in Nodes(kids[i]) && kids[k].node in Nodes(kids[k]);
    }
    forall i | 0 <= i < |kids| ensures kids[i].node in NodesOf(kids) {
      assert kids[i].node in Nodes(kids[i]);
    }
  }

  /** `setChildren` on 2 or 3 well-formed subtrees builds a well-formed
      subtree one level higher. */
  lemma Rewired<V>(G: Store<V>, x: Ref, kids: seq<Tree>, h: nat)
    requires 2 <= |kids| <= 3 && WfAll(G, kids, h) && DistinctOf(kids)
    requires x in G && !G[x].shape.isLeaf && x !in NodesOf(kids)
    ensures forall i | 0 <= i < |kids| :: kids[i].node in G
    ensures var R := Rewire(G, x, Roots(kids));
      R.Keys == G.Keys && Changes(G, R, {x}, Elems(Roots(kids))) && Wf(R, Inner(x, kids), h + 1)
  {
    RootsUnique(kids, x);
    WfAllInStore(G, kids, h);
    var R := Rewire(G, x, Roots(kids));
    RewireChanges(G, x, Roots(kids));
    KidsKept(G, R, kids, h, {x}, Elems(Roots(kids)));
    Linked(R, x, kids, h);
  }

  /** The nodes strictly below the subtrees are among their nodes. */
  lemma {:induction false} BelowOfWithin(ts: seq<Tree>)
    ensures BelowOf(ts) <= NodesOf(ts)
  {
    if ts != [] {
      BelowOfWithin(ts[..|ts| - 1]);
    }
  }

  /** Subtrees none of whose nodes changes keep their shape. */
  lemma Untouched<V>(G: Store<V>, G': Store<V>, ts: seq<Tree>, h: nat, X: set<Ref>, P: set<Ref>)
    requires WfAll(G, ts, h) && Changes(G, G', X, P) && X !! NodesOf(ts) && P !! NodesOf(ts)
    ensures WfAll(G', ts, h)
  {
    BelowOfWithin(ts);
    ChangesKept(G, G', X, P, NodesOf(ts), BelowOf(ts));
    WfAllKept(G, G', ts, h);
  }

  /** A change to a store that extends `G0` is a change to `G0`, narrowed
      to the nodes of `G0`. */
  lemma ChangesNarrow<V>(G0: Store<V>, G: Store<V>, G': Store<V>, X: set<Ref>, P: set<Ref>, X': set<Ref>, P': set<Ref>)
    requires Changes(G, G', X, P) && forall n | n in G0 :: n in G && G[n] == G0[n]
    requires forall n | n in G0 && n in X :: n in X'
    requires forall n | n in G0 && n in P :: n in P'
    ensures Changes(G0, G', X', P')
  {
  }

  /** Where `insertAndSplit` puts the new subtree: `x` has the subtrees of
      `kids` but the `j`-th as children, and comparing the key of the new
      one with theirs finds `j`. */
  lemma InsertPlacement<V>(G: Store<V>, x: Ref, kids: seq<Tree>, j: nat, h: nat)
    requires 3 <= |kids| <= 4 && j < |kids|
    requires KidsExcept(G, x, kids, j)
    requires WfAll(G, kids, h) && Ascending(LeavesOf(kids))
    ensures var cs := Roots(kids);
      (forall i | 0 <= i < |cs| :: cs[i] in G && G[cs[i]].shape.key.Some?) &&
      var l := if j == 0 then cs[1] else cs[0];
      var m := if j <= 1 then cs[2] else cs[1];
      G[x].shape.left == Some(l) && G[x].shape.middle == Some(m) &&
      (G[cs[j]].shape.key.value < G[l].shape.key.value <==> j == 0) &&
      (G[cs[j]].shape.key.value < G[m].shape.key.value <==> j <= 1) &&
      (|kids| == 3 ==> G[x].shape.right == None) &&
      (|kids| == 4 ==>
        var r := if j <= 2 then cs[3] else cs[2];
        G[x].shape.right == Some(r) && (G[cs[j]].shape.key.value < G[r].shape.key.value <==> j <= 2))
  {
    RootsWithout(kids, j);
    RootKeysAscending(G, kids, h);
  }

  /** What the two calls of `setChildren` in the split of `insertAndSplit`
      need: two distinct children each, other than their new parent and
      present in the store. */
  lemma SplitReady<V>(G0: Store<V>, w: Ref, x: Ref, kids: seq<Tree>, h: nat)
    requires |kids| == 4 && WfAll(G0, kids, h) && DistinctOf(kids)
    requires x in G0 && !G0[x].shape.isLeaf && x !in NodesOf(kids) && w !in G0
    ensures var G := G0[w := InternalNode()];
      var a, b := Roots(kids[..2]), Roots(kids[2..]);
      |a| == 2 && Unique(a) && x !in a && x in G && !G[x].shape.isLeaf && (forall i | 0 <= i < 2 :: a[i] in G) &&
      var G1 := Rewire(G, x, a);
      w in G1 && !G1[w].shape.isLeaf && |b| == 2 && Unique(b) && w !in b && (forall i | 0 <= i < 2 :: b[i] in G1)
  {
    var G: Store<V> := G0[w := InternalNode()];
    WfAllInStore(G0, kids, h);
    RootsUnique(kids, x);
    var a, b := Roots(kids[..2]), Roots(kids[2..]);
    assert forall i | 0 <= i < 2 :: a[i] == kids[i].node && b[i] == kids[i + 2].node;
    RewireChanges(G, x, a);
  }

  /** The first half of the split of `insertAndSplit`: the old node `x`
      adopts the first two of four well-formed subtrees, next to a fresh
      node `w`, and the last two are left as they were. */
  lemma SplitFirst<V>(G0: Store<V>, w: Ref, x: Ref, kids: seq<Tree>, h: nat)
    requires |kids| == 4 && WfAll(G0, kids, h) && DistinctOf(kids)
    requires x in G0 && !G0[x].shape.isLeaf && x !in NodesOf(kids) && w !in G0
    ensures var G := G0[w := InternalNode()];
      (forall i | 0 <= i < 2 :: kids[i].node in G) &&
      var G1 := Rewire(G, x, Roots(kids[..2]));
      G1.Keys == G0.Keys + {w} && w in G1 && !G1[w].shape.isLeaf &&
      Changes(G0, G1, {x}, Elems(Roots(kids[..2]))) &&
      Wf(G1, Inner(x, kids[..2]), h + 1) && WfAll(G1, kids[2..], h) && DistinctOf(kids[2..]) &&
      w !in NodesOf(kids[2..]) && w !in Nodes(Inner(x, kids[..2])) &&
      Nodes(Inner(x, kids[..2])) !! NodesOf(kids[2..])
  {
    var G: Store<V> := G0[w := InternalNode()];
    var a, b := kids[..2], kids[2..];
    assert kids == a + b;
    DistinctOfLeft(a, b);
    DistinctOfRight(a, b);
    DistinctOfApart(a, b);
    NodesOfAppend(a, b);
    WfAllInStore(G0, kids, h);
    Untouched(G0, G, kids, h, {}, {});
    Rewired(G, x, a, h);
    var G1 := Rewire(G, x, Roots(a));
    NodesOfContains(a);
    Untouched(G, G1, b, h, {x}, Elems(Roots(a)));
    ChangesNarrow(G0, G, G1, {x}, Elems(Roots(a)), {x}, Elems(Roots(a)));
    assert Nodes(Inner(x, a)) == {x} + NodesOf(a);
  }

  /** The split of `insertAndSplit`: `x` adopts the first two of four
      well-formed subtrees and the fresh node `w` the last two. */
  lemma SplitRewired<V>(G0: Store<V>, w: Ref, x: Ref, kids: seq<Tree>, h: nat)
    requires |kids| == 4 && WfAll(G0, kids, h) && DistinctOf(kids)
    requires x in G0 && !G0[x].shape.isLeaf && x !in NodesOf(kids) && w !in G0
    ensures var G := G0[w := InternalNode()];
      (forall i | 0 <= i < 2 :: kids[i].node in G) &&
      var G1 := Rewire(G, x, Roots(kids[..2]));
      w in G1 && (forall i | 0 <= i < 2 :: kids[2..][i].node in G1) &&
      var G2 := Rewire(G1, w, Roots(kids[2..]));
      G2.Keys == G0.Keys + {w} && Changes(G0, G2, {x}, Elems(Roots(kids))) &&
      Wf(G2, Inner(x, kids[..2]), h + 1) && Wf(G2, Inner(w, kids[2..]), h + 1)
  {
    SplitFirst(G0, w, x, kids, h);
    var a, b := kids[..2], kids[2..];
    var G1 := Rewire(G0[w := InternalNode()], x, Roots(a));
    Rewired(G1, w, b, h);
    var G2 := Rewire(G1, w, Roots(b));
    NodesOfOne(Inner(x, a));
    NodesOfContains(b);
    Untouched(G1, G2, [Inner(x, a)], h + 1, {w}, Elems(Roots(b)));
    assert Wf(G2, Inner(x, a), h + 1);
    ChangesTrans(G0, G1, G2, {x}, Elems(Roots(a)), {w}, Elems(Roots(b)));
    assert kids == a + b;
    RootsAppend(a, b);
    assert Elems(Roots(a)) + Elems(Roots(b)) == Elems(Roots(kids));
    ChangesNarrow(G0, G0, G2, {x} + {w}, Elems(Roots(a)) + Elems(Roots(b)), {x}, Elems(Roots(kids)));
  }

  // ------------------------------------------------------------ leaf list

  /** The store after the new leaf `z` is threaded into the leaf list just
      before the leaf `y`. */
  ghost function Spliced<V>(G: Store<V>, y: Ref, z: Ref): Store<V>
    requires y in G && z in G && (G[y].prev.Some? ==> G[y].prev.value in G)
  {
    var G1 := if G[y].prev.Some? then G[G[y].prev.value := G[G[y].prev.value].(next := Some(z))] else G;
    var G2 := G1[z := G1[z].(prev := G1[y].prev)];
    var G3 := G2[z := G2[z].(next := Some(y))];
    G3[y := G3[y].(prev := Some(z))]
  }

  /** Threading a new leaf into the list before its `i`-th leaf inserts it
      into the sequence of leaves there, and changes nothing but links. */
  lemma SpliceList<V>(G: Store<V>, es: seq<Entry>, i: nat, z: Ref, key: int)
    requires List(G, es) && i < |es| && z in G && z !in LeafNodes(es) && Unique(LeafNodes(es))
    ensures es[i].node in G && (G[es[i].node].prev.Some? ==> G[es[i].node].prev.value in G)
    ensures var G' := Spliced(G, es[i].node, z);
      G'.Keys == G.Keys && List(G', es[..i] + [Entry(z, key)] + es[i..]) &&
      forall n | n in G :: G'[n].shape == G[n].shape && G'[n].parent == G[n].parent && G'[n].value == G[n].value
  {
    var y := es[i].node;
    assert forall j | 0 <= j < |es| :: es[j].node == LeafNodes(es)[j];
    assert i > 0 ==> G[y].prev == Some(es[i - 1].node);
    assert i == 0 ==> G[y].prev == None;
    var G' := Spliced(G, y, z);
    var es' := es[..i] + [Entry(z, key)] + es[i..];
    if i > 0 {
      assert G'[es[i - 1].node] == G[es[i - 1].node].(next := Some(z));
    }
    assert G'[z] == G[z].(prev := G[y].prev, next := Some(y));
    assert G'[y] == G[y].(prev := Some(z));
    forall j | 0 <= j < |es| && j != i && j != i - 1 ensures G'[es[j].node] == G[es[j].node] {
    }
    forall j | 0 <= j < |es'| - 1
      ensures G'[es'[j].node].next == Some(es'[j + 1].node) && G'[es'[j + 1].node].prev == Some(es'[j].node)
    {
      if j < i - 1 {
        assert es'[j] == es[j] && es'[j + 1] == es[j + 1];
      } else if j > i {
        assert es'[j] == es[j - 1] && es'[j + 1] == es[j];
      }
    }
  }

  /** The store after leaf `z` is taken out of the leaf list: its left
      neighbour's `next` becomes its `next`, and its right neighbour's
      `prev` its `prev`. */
  ghost function Unlinked<V>(G: Store<V>, z: Ref): Store<V>
    requires z in G && G[z].prev.Some? && G[z].next.Some? && G[z].prev.value in G && G[z].next.value in G
  {
    var p, n := G[z].prev, G[z].next;
    var G1 := G[p.value := G[p.value].(next := n)];
    G1[n.value := G1[n.value].(prev := p)]
  }

  /** Taking the `i`-th leaf, neither the first nor the last, out of the
      list removes it from the sequence of leaves, and changes nothing but
      links. */
  lemma UnlinkList<V>(G: Store<V>, es: seq<Entry>, i: nat)
    requires List(G, es) && 0 < i < |es| - 1 && Unique(LeafNodes(es))
    ensures var z := es[i].node;
      z in G && G[z].prev == Some(es[i - 1].node) && G[z].next == Some(es[i + 1].node) &&
      es[i - 1].node in G && es[i + 1].node in G
    ensures var G' := Unlinked(G, es[i].node);
      G'.Keys == G.Keys && List(G', es[..i] + es[i + 1..]) &&
      forall n | n in G :: G'[n].shape == G[n].shape && G'[n].parent == G[n].parent && G'[n].value == G[n].value
  {
    UnlinkedAt(G, es, i);
    ListSkips(G, Unlinked(G, es[i].node), es, i);
  }

  /** What unlinking the `i`-th leaf changes in the store: the `next` of
      its left neighbour and the `prev` of its right neighbour. */
  lemma UnlinkedAt<V>(G: Store<V>, es: seq<Entry>, i: nat)
    requires List(G, es) && 0 < i < |es| - 1 && Unique(LeafNodes(es))
    ensures var z := es[i].node;
      z in G && G[z].prev == Some(es[i - 1].node) && G[z].next == Some(es[i + 1].node) &&
      es[i - 1].node in G && es[i + 1].node in G
    ensures var G', p, n := Unlinked(G, es[i].node), es[i - 1].node, es[i + 1].node;
      G'.Keys == G.Keys && G'[p] == G[p].(next := Some(n)) && G'[n] == G[n].(prev := Some(p)) &&
      (forall j | 0 <= j < |es| && j != i - 1 && j != i + 1 :: G'[es[j].node] == G[es[j].node]) &&
      forall n | n in G :: G'[n].shape == G[n].shape && G'[n].parent == G[n].parent && G'[n].value == G[n].value
  {
    assert forall j | 0 <= j < |es| :: es[j].node == LeafNodes(es)[j];
  }

  /** The leaf list with the `i`-th leaf's neighbours pointing at each
      other threads the leaves without the `i`-th one. */
  lemma ListSkips<V>(G: Store<V>, G': Store<V>, es: seq<Entry>, i: nat)
    requires List(G, es) && 0 < i < |es| - 1
    requires var p, n := es[i - 1].node, es[i + 1].node;
      G'.Keys == G.Keys && G'[p] == G[p].(next := Some(n)) && G'[n] == G[n].(prev := Some(p)) &&
      forall j | 0 <= j < |es| && j != i - 1 && j != i + 1 :: G'[es[j].node] == G[es[j].node]
    ensures List(G', es[..i] + es[i + 1..])
  {
    var es' := es[..i] + es[i + 1..];
    forall j | 0 <= j < |es'| - 1
      ensures G'[es'[j].node].next == Some(es'[j + 1].node) && G'[es'[j + 1].node].prev == Some(es'[j].node)
    {
      if j < i - 1 {
        assert es'[j] == es[j] && es'[j + 1] == es[j + 1];
      } else if j == i - 1 {
        assert es'[j] == es[i - 1] && es'[j + 1] == es[i + 1];
      } else {
        assert es'[j] == es[j + 1] && es'[j + 1] == es[j + 2];
      }
    }
    assert es'[0] == es[0] && es'[|es'| - 1] == es[|es| - 1];
  }


  /** Inserting an entry whose key lies strictly between its neighbours'
      keeps the keys ascending. */
  lemma InsertAscending(es: seq<Entry>, i: nat, e: Entry)
    requires Ascending(es) && i <= |es|
    requires forall j | 0 <= j < i :: es[j].key < e.key
    requires forall j | i <= j < |es| :: e.key < es[j].key
    ensures Ascending(es[..i] + [e] + es[i..])
  {
  }

  // -------------------------------------------------------------- items

  /** Items read through a store change that keeps every value. */
  lemma ItemsKept<V>(G: Store<V>, G': Store<V>, es: seq<Entry>)
    requires forall i | 0 <= i < |es| :: es[i].node in G
    requires ValuesKept(G, G')
    ensures ItemsOf(G', es) == ItemsOf(G, es)
  {
  }

  /** The items of a leaf sequence with one entry inserted at `i`. */
  lemma ItemsInserted<V>(G: Store<V>, G': Store<V>, es: seq<Entry>, i: nat, e: Entry)
    requires i <= |es| && (forall j | 0 <= j < |es| :: es[j].node in G) && e.node in G'
    requires ValuesKept(G, G')
    ensures ItemsOf(G', es[..i] + [e] + es[i..]) == ItemsOf(G, es)[..i] + [Item(e.key, G'[e.node].value)] + ItemsOf(G, es)[i..]
  {
    var es' := es[..i] + [e] + es[i..];
    var r, r' := ItemsOf(G, es), ItemsOf(G', es');
    var s := r[..i] + [Item(e.key, G'[e.node].value)] + r[i..];
    forall j | 0 <= j < |es'| ensures r'[j] == s[j] {
      if j < i {
        assert es'[j] == es[j];
      } else if j > i {
        assert es'[j] == es[j - 1];
      }
    }
  }

  /** Inserting before position `i` of a key-ordered sequence, when the keys
      before `i` are smaller and the rest larger, is `InsertSorted`. */
  lemma {:induction false} InsertSortedAt<V>(s: seq<Item<V>>, i: nat, it: Item<V>)
    requires i <= |s|
    requires forall j | 0 <= j < i :: s[j].key < it.key
    requires forall j | i <= j < |s| :: it.key < s[j].key
    ensures InsertSorted(s, it) == s[..i] + [it] + s[i..]
    decreases i
  {
    if i == 0 {
      assert s[..0] + [it] + s[0..] == [it] + s;
    } else {
      assert s[1..][..i - 1] == s[1..i];
      InsertSortedAt(s[1..], i - 1, it);
      assert s[..i] == [s[0]] + s[1..i];
    }
  }

  /** Inserting the new leaf `z` before the first leaf whose key is above
      `key` inserts its item into the items in key order. */
  lemma InsertedItems<V>(G0: Store<V>, G: Store<V>, es: seq<Entry>, i: nat, z: Ref, key: int, value: Option<V>)
    requires i < |es| && (forall j | 0 <= j < |es| :: es[j].node in G0) && ValuesKept(G0, G)
    requires z in G && G[z].value == value
    requires Ascending(es) && key !in Keys(es) && key < es[i].key && forall j | 0 <= j < i :: es[j].key <= key
    ensures ItemsOf(G, es[..i] + [Entry(z, key)] + es[i..]) == InsertSorted(ItemsOf(G0, es), Item(key, value))
  {
    ItemsInserted(G0, G, es, i, Entry(z, key));
    var s := ItemsOf(G0, es);
    forall j | 0 <= j < i ensures s[j].key < key {
      assert Keys(es)[j] == es[j].key;
    }
    forall j | i <= j < |s| ensures key < s[j].key {
      if j > i {
        assert es[i].key < es[j].key;
      }
    }
    InsertSortedAt(s, i, Item(key, value));
  }

  /** Removing by key what `InsertSorted` inserted gives back the original
      sequence, when no item there has that key. */
  lemma {:induction false} RemoveInserted<V>(s: seq<Item<V>>, it: Item<V>)
    requires forall j | 0 <= j < |s| :: s[j].key != it.key
    ensures RemoveKey(InsertSorted(s, it), it.key) == s
  {
    if s != [] && it.key >= s[0].key {
      assert InsertSorted(s, it) == [s[0]] + InsertSorted(s[1..], it);
      RemoveInserted(s[1..], it);
    }
  }

  /** In a sequence whose keys strictly increase, removing the key of
      position `m` removes exactly that item. */
  lemma {:induction false} RemoveKeyAt<V>(s: seq<Item<V>>, m: nat)
    requires m < |s| && forall i, j | 0 <= i < j < |s| :: s[i].key < s[j].key
    ensures RemoveKey(s, s[m].key) == s[..m] + s[m + 1..]
    decreases m
  {
    if m > 0 {
      assert s[0].key < s[m].key;
      assert s[1..][m - 1] == s[m];
      RemoveKeyAt(s[1..], m - 1);
      assert s[..m] == [s[0]] + s[1..][..m - 1];
      assert s[m + 1..] == s[1..][m..];
    }
  }

  /** The items of a leaf sequence with entry `m` taken out. */
  lemma ItemsRemoved<V>(G: Store<V>, es: seq<Entry>, m: nat)
    requires m < |es|
    ensures ItemsOf(G, es[..m] + es[m + 1..]) == ItemsOf(G, es)[..m] + ItemsOf(G, es)[m + 1..]
  {
    var es' := es[..m] + es[m + 1..];
    var r, r' := ItemsOf(G, es), ItemsOf(G, es');
    forall j | 0 <= j < |es'| ensures r'[j] == (r[..m] + r[m + 1..])[j] {
      if j < m {
        assert es'[j] == es[j];
      } else {
        assert es'[j] == es[j + 1];
      }
    }
  }

  /** The items of ascending leaves with entry `m` taken out, read in a
      store with the same values: the old items without item `m`, which is
      the only one with its key. */
  lemma ItemsDeleted<V>(G: Store<V>, G': Store<V>, es: seq<Entry>, m: nat)
    requires m < |es| && Ascending(es) && (forall i | 0 <= i < |es| :: es[i].node in G) && ValuesKept(G, G')
    ensures var s := ItemsOf(G, es);
      ItemsOf(G', es[..m] + es[m + 1..]) == s[..m] + s[m + 1..] &&
      ItemsOf(G', es[..m] + es[m + 1..]) == RemoveKey(s, s[m].key)
  {
    var L := es[..m] + es[m + 1..];
    forall i | 0 <= i < |L| ensures L[i].node in G {
      assert L[i] == if i < m then es[i] else es[i + 1];
    }
    ItemsKept(G, G', L);
    ItemsRemoved(G, es, m);
    RemoveKeyAt(ItemsOf(G, es), m);
  }
}
