/** Tree and list walks.  A tree node is a value holding its item and its
    children in `children()` order; the callback `op` of the walks is
    modelled by the trace of the items it is applied to, and the pruning
    callback of the predicate walk by a pure test `keep` on nodes.  A linked
    list is a map from a node to its `next()` (or `previous()`) node, a node
    missing from the map standing for a null link. */
module Traversal {

  datatype Tree<T> = Node(item: T, children: seq<Tree<T>>)

  /** Number of nodes of a tree. */
  function Size<T>(t: Tree<T>): nat
    decreases t
  {
    1 + ForestSize(t.children)
  }

  /** Number of nodes of a sequence of trees. */
  function ForestSize<T>(f: seq<Tree<T>>): nat
    decreases f
  {
    if |f| == 0 then 0 else ForestSize(f[..|f| - 1]) + Size(f[|f| - 1])
  }

  lemma {:induction false} ForestSizeAppend<T>(a: seq<Tree<T>>, b: seq<Tree<T>>)
    ensures ForestSize(a + b) == ForestSize(a) + ForestSize(b)
    decreases |b|
  {
    if |b| > 0 {
      assert (a + b)[..|a + b| - 1] == a + b[..|b| - 1];
      ForestSizeAppend(a, b[..|b| - 1]);
    } else {
      assert a + b == a;
    }
  }

  // ----- traverse_tree_recursive -----

  /** `traverse_tree_recursive(root, op)`: `op` on the root, then on the
      subtree of each child in turn. */
  function PreOrder<T>(t: Tree<T>): seq<T>
    decreases t
  {
    [t.item] + PreOrderForest(t.children)
  }

  /** The pre-order walks of a sequence of trees, one after the other. */
  function PreOrderForest<T>(f: seq<Tree<T>>): seq<T>
    decreases f
  {
    if |f| == 0 then [] else PreOrderForest(f[..|f| - 1]) + PreOrder(f[|f| - 1])
  }

  /** The pre-order walk starts at the root and visits as many nodes as the
      tree has. */
  lemma {:induction false} PreOrderSize<T>(t: Tree<T>)
    ensures |PreOrder(t)| == Size(t) && PreOrder(t)[0] == t.item
    decreases t
  {
    PreOrderForestSize(t.children);
  }

  lemma {:induction false} PreOrderForestSize<T>(f: seq<Tree<T>>)
    ensures |PreOrderForest(f)| == ForestSize(f)
    decreases f
  {
    if |f| > 0 {
      PreOrderForestSize(f[..|f| - 1]);
      PreOrderSize(f[|f| - 1]);
    }
  }

  lemma {:induction false} PreOrderForestAppend<T>(a: seq<Tree<T>>, b: seq<Tree<T>>)
    ensures PreOrderForest(a + b) == PreOrderForest(a) + PreOrderForest(b)
    decreases |b|
  {
    if |b| > 0 {
      assert (a + b)[..|a + b| - 1] == a + b[..|b| - 1];
      PreOrderForestAppend(a, b[..|b| - 1]);
    } else {
      assert a + b == a;
    }
  }

  /** The subtree of child `i` is walked as one block, after the subtrees of
      the children before it and before those of the children after it. */
  lemma PreOrderChild<T>(t: Tree<T>, i: nat)
    requires i < |t.children|
    ensures PreOrder(t) == [t.item] + (PreOrderForest(t.children[..i])
                           + (PreOrder(t.children[i]) + PreOrderForest(t.children[i + 1..])))
  {
    var c := t.children;
    var before, after := c[..i], c[i + 1..];
    assert c == before + ([c[i]] + after);
    PreOrderForestAppend(before, [c[i]] + after);
    PreOrderForestAppend([c[i]], after);
    PreOrderForestSingle(c[i]);
  }

  lemma PreOrderForestSingle<T>(t: Tree<T>)
    ensures PreOrderForest([t]) == PreOrder(t)
  {
    assert [t][..0] == [];
  }

  // ----- traverse_tree -----

  /** The items of a layer, in layer order. */
  function Items<T>(f: seq<Tree<T>>): seq<T>
  {
    seq(|f|, i requires 0 <= i < |f| => f[i].item)
  }

  /** The layer below `f`: the children of its first node, then those of the
      second, and so on. */
  function NextLayer<T>(f: seq<Tree<T>>): seq<Tree<T>>
  {
    if |f| == 0 then [] else NextLayer(f[..|f| - 1]) + f[|f| - 1].children
  }

  /** Going one layer down leaves out exactly the nodes of the layer. */
  lemma {:induction false} NextLayerSize<T>(f: seq<Tree<T>>)
    ensures ForestSize(NextLayer(f)) + |f| == ForestSize(f)
    decreases |f|
  {
    if |f| > 0 {
      NextLayerSize(f[..|f| - 1]);
      ForestSizeAppend(NextLayer(f[..|f| - 1]), f[|f| - 1].children);
    }
  }

  /** Layer-by-layer walk from the layer `f` down. */
  function Layers<T>(f: seq<Tree<T>>): seq<T>
    decreases ForestSize(f)
  {
    if |f| == 0 then []
    else
      NextLayerSize(f);
      Items(f) + Layers(NextLayer(f))
  }

  /** The trace of `traverse_tree(root, op)`. */
  function LevelOrder<T>(t: Tree<T>): seq<T>
  {
    Layers([t])
  }

  lemma LevelOrderUnfold<T>(t: Tree<T>)
    ensures LevelOrder(t) == [t.item] + Layers(t.children)
  {
    NextLayerSingle(t);
    assert Items([t]) == [t.item];
    assert Layers([t]) == Items([t]) + Layers(NextLayer([t]));
  }

  lemma NextLayerSingle<T>(t: Tree<T>)
    ensures NextLayer([t]) == t.children
  {
    assert [t][..0] == [];
    assert [] + t.children == t.children;
  }

  /** Each node's subtree is walked as its item followed by the subtrees of
      the layer below, so one layer holds the same items as the pre-order
      walks of its trees once the items of the layer are taken out. */
  lemma {:induction false} PreOrderByLayer<T>(f: seq<Tree<T>>)
    ensures multiset(PreOrderForest(f)) == multiset(Items(f)) + multiset(PreOrderForest(NextLayer(f)))
    decreases |f|
  {
    if |f| > 0 {
      var init, last := f[..|f| - 1], f[|f| - 1];
      PreOrderByLayer(init);
      PreOrderForestAppend(NextLayer(init), last.children);
      ItemsSnoc(f);
      var m0, m1 := multiset(Items(init)), multiset(PreOrderForest(NextLayer(init)));
      var m2, m3 := multiset([last.item]), multiset(PreOrderForest(last.children));
      assert multiset(PreOrderForest(f)) == m0 + m1 + m2 + m3;
      assert multiset(Items(f)) == m0 + m2;
      assert multiset(PreOrderForest(NextLayer(f))) == m1 + m3;
    }
  }

  lemma ItemsSnoc<T>(f: seq<Tree<T>>)
    requires |f| > 0
    ensures Items(f) == Items(f[..|f| - 1]) + [f[|f| - 1].item]
  {
  }

  /** The level-order walk of a layer visits the same nodes as the
      pre-order walks of its trees, each as often. */
  lemma {:induction false} LayersPermutePreOrder<T>(f: seq<Tree<T>>)
    ensures multiset(Layers(f)) == multiset(PreOrderForest(f))
    decreases ForestSize(f)
  {
    if |f| > 0 {
      NextLayerSize(f);
      LayersPermutePreOrder(NextLayer(f));
      PreOrderByLayer(f);
    }
  }

  /** `traverse_tree` and `traverse_tree_recursive` apply `op` to the same
      nodes, each node of the tree exactly once. */
  lemma LevelOrderPermutesPreOrder<T>(t: Tree<T>)
    ensures multiset(LevelOrder(t)) == multiset(PreOrder(t))
    ensures |LevelOrder(t)| == Size(t)
  {
    LevelOrderUnfold(t);
    LayersPermutePreOrder(t.children);
    PreOrderSize(t);
    assert |multiset(LevelOrder(t))| == |multiset(PreOrder(t))|;
  }

  /** `traverse_tree(root, op)`: `op` on the root, then layer after layer,
      each layer built from the children of the nodes of the one above. */
  method TraverseTree<T>(root: Tree<T>) returns (trace: seq<T>)
    ensures trace == LevelOrder(root)
  {
    trace := [root.item];
    var children := root.children;
    LevelOrderUnfold(root);
    while |children| > 0
      invariant trace + Layers(children) == LevelOrder(root)
      decreases ForestSize(children)
    {
      ghost var before := trace;
      var nextLayer;
      trace, nextLayer := VisitLayer(trace, children);
      LayersStep(before, children);
      children := nextLayer;
    }
  }

  /** Visiting a non-empty layer moves its items from the walk still to
      come into the trace, and the layer below is smaller. */
  lemma LayersStep<T>(trace: seq<T>, f: seq<Tree<T>>)
    requires |f| > 0
    ensures (trace + Items(f)) + Layers(NextLayer(f)) == trace + Layers(f)
    ensures ForestSize(NextLayer(f)) < ForestSize(f)
  {
    assert Layers(f) == Items(f) + Layers(NextLayer(f));
    NextLayerSize(f);
  }

  /** One round of the `traverse_tree` loop: `op` on each node of the layer
      in order, collecting their children into the next layer. */
  method VisitLayer<T>(trace0: seq<T>, children: seq<Tree<T>>) returns (trace: seq<T>, nextLayer: seq<Tree<T>>)
    ensures trace == trace0 + Items(children)
    ensures nextLayer == NextLayer(children)
  {
    trace := trace0;
    nextLayer := [];
    for i := 0 to |children|
      invariant trace == trace0 + Items(children[..i])
      invariant nextLayer == NextLayer(children[..i])
    {
      var child := children[i];
      trace := trace + [child.item];
      ghost var grown := nextLayer;
      for j := 0 to |child.children|
        invariant nextLayer == grown + child.children[..j]
      {
        nextLayer := nextLayer + [child.children[j]];
      }
      assert children[..i + 1][..i] == children[..i];
    }
    assert children[..|children|] == children;
  }

  // ----- traverse_tree_with_predicate -----

  /** The layer below `f` when only the nodes that pass `keep` contribute
      their children. */
  function KeptNext<T>(f: seq<Tree<T>>, keep: Tree<T> -> bool): seq<Tree<T>>
  {
    if |f| == 0 then []
    else KeptNext(f[..|f| - 1], keep) + (if keep(f[|f| - 1]) then f[|f| - 1].children else [])
  }

  /** Going one pruned layer down leaves out at least the nodes of the
      layer. */
  lemma {:induction false} KeptNextSize<T>(f: seq<Tree<T>>, keep: Tree<T> -> bool)
    ensures ForestSize(KeptNext(f, keep)) + |f| <= ForestSize(f)
    decreases |f|
  {
    if |f| > 0 {
      var last := f[|f| - 1];
      KeptNextSize(f[..|f| - 1], keep);
      ForestSizeAppend(KeptNext(f[..|f| - 1], keep), if keep(last) then last.children else []);
    }
  }

  /** Layer-by-layer walk in which every node of a layer is visited and only
      the nodes passing `keep` open the way to their children. */
  function PrunedLayers<T>(f: seq<Tree<T>>, keep: Tree<T> -> bool): seq<T>
    decreases ForestSize(f)
  {
    if |f| == 0 then []
    else
      KeptNextSize(f, keep);
      Items(f) + PrunedLayers(KeptNext(f, keep), keep)
  }

  /** The trace of `traverse_tree_with_predicate(root, op)`. */
  function PrunedOrder<T>(t: Tree<T>, keep: Tree<T> -> bool): seq<T>
  {
    PrunedLayers([t], keep)
  }

  lemma PrunedOrderUnfold<T>(t: Tree<T>, keep: Tree<T> -> bool)
    ensures PrunedOrder(t, keep) == [t.item] + PrunedLayers(if keep(t) then t.children else [], keep)
  {
    KeptNextSingle(t, keep);
    assert Items([t]) == [t.item];
    assert PrunedLayers([t], keep) == Items([t]) + PrunedLayers(KeptNext([t], keep), keep);
  }

  lemma KeptNextSingle<T>(t: Tree<T>, keep: Tree<T> -> bool)
    ensures KeptNext([t], keep) == if keep(t) then t.children else []
  {
    assert [t][..0] == [];
    var below := if keep(t) then t.children else [];
    assert [] + below == below;
  }

  /** `traverse_tree_with_predicate(root, op)`: as `traverse_tree`, except
      that a node on which `op` answers false does not add its children to
      the next layer, and a false answer on the root ends the walk. */
  method TraverseTreeWithPredicate<T>(root: Tree<T>, keep: Tree<T> -> bool) returns (trace: seq<T>)
    ensures trace == PrunedOrder(root, keep)
  {
    PrunedOrderUnfold(root, keep);
    trace := [root.item];
    if !keep(root) {
      return;
    }
    var children := root.children;
    while |children| > 0
      invariant trace + PrunedLayers(children, keep) == PrunedOrder(root, keep)
      decreases ForestSize(children)
    {
      ghost var before := trace;
      var nextLayer;
      trace, nextLayer := VisitPrunedLayer(trace, children, keep);
      PrunedLayersStep(before, children, keep);
      children := nextLayer;
    }
  }

  /** Visiting a non-empty layer of the predicate walk moves its items from
      the walk still to come into the trace, and the layer below is
      smaller. */
  lemma PrunedLayersStep<T>(trace: seq<T>, f: seq<Tree<T>>, keep: Tree<T> -> bool)
    requires |f| > 0
    ensures (trace + Items(f)) + PrunedLayers(KeptNext(f, keep), keep) == trace + PrunedLayers(f, keep)
    ensures ForestSize(KeptNext(f, keep)) < ForestSize(f)
  {
    assert PrunedLayers(f, keep) == Items(f) + PrunedLayers(KeptNext(f, keep), keep);
    KeptNextSize(f, keep);
  }

  /** One round of the `traverse_tree_with_predicate` loop: `op` on each
      node of the layer in order, collecting the children of the nodes on
      which it answers true. */
  method VisitPrunedLayer<T>(trace0: seq<T>, children: seq<Tree<T>>, keep: Tree<T> -> bool)
    returns (trace: seq<T>, nextLayer: seq<Tree<T>>)
    ensures trace == trace0 + Items(children)
    ensures nextLayer == KeptNext(children, keep)
  {
    trace := trace0;
    nextLayer := [];
    for i := 0 to |children|
      invariant trace == trace0 + Items(children[..i])
      invariant nextLayer == KeptNext(children[..i], keep)
    {
      var child := children[i];
      trace := trace + [child.item];
      ghost var grown := nextLayer;
      if keep(child) {
        for j := 0 to |child.children|
          invariant nextLayer == grown + child.children[..j]
        {
          nextLayer := nextLayer + [child.children[j]];
        }
      }
      assert children[..i + 1][..i] == children[..i];
    }
    assert children[..|children|] == children;
  }

  /** When `op` rejects the root, only the root is visited. */
  lemma PrunedRootRejected<T>(t: Tree<T>, keep: Tree<T> -> bool)
    requires !keep(t)
    ensures PrunedOrder(t, keep) == [t.item]
  {
    PrunedOrderUnfold(t, keep);
  }

  lemma {:induction false} KeptNextAll<T>(f: seq<Tree<T>>, keep: Tree<T> -> bool)
    requires forall n :: keep(n)
    ensures KeptNext(f, keep) == NextLayer(f)
    decreases |f|
  {
    if |f| > 0 {
      KeptNextAll(f[..|f| - 1], keep);
    }
  }

  lemma {:induction false} PrunedLayersAll<T>(f: seq<Tree<T>>, keep: Tree<T> -> bool)
    requires forall n :: keep(n)
    ensures PrunedLayers(f, keep) == Layers(f)
    decreases ForestSize(f)
  {
    if |f| > 0 {
      KeptNextAll(f, keep);
      NextLayerSize(f);
      PrunedLayersAll(NextLayer(f), keep);
    }
  }

  /** With an `op` that always answers true the predicate walk has the
      trace of `traverse_tree`. */
  lemma PrunedOrderAllKept<T>(t: Tree<T>, keep: Tree<T> -> bool)
    requires forall n :: keep(n)
    ensures PrunedOrder(t, keep) == LevelOrder(t)
  {
    PrunedLayersAll([t], keep);
  }

  /** The tree cut below every node that fails `keep`. */
  function Prune<T>(t: Tree<T>, keep: Tree<T> -> bool): Tree<T>
    decreases t
  {
    Node(t.item, if keep(t) then PruneForest(t.children, keep) else [])
  }

  function PruneForest<T>(f: seq<Tree<T>>, keep: Tree<T> -> bool): seq<Tree<T>>
    decreases f
  {
    seq(|f|, i requires 0 <= i < |f| => Prune(f[i], keep))
  }

  lemma {:induction false} NextLayerOfPruned<T>(f: seq<Tree<T>>, keep: Tree<T> -> bool)
    ensures NextLayer(PruneForest(f, keep)) == PruneForest(KeptNext(f, keep), keep)
    decreases |f|
  {
    if |f| > 0 {
      var init, last := f[..|f| - 1], f[|f| - 1];
      var below := if keep(last) then last.children else [];
      var p := PruneForest(f, keep);
      NextLayerOfPruned(init, keep);
      assert p[..|p| - 1] == PruneForest(init, keep);
      assert p[|p| - 1] == Prune(last, keep);
      assert PruneForest([], keep) == [];
      assert p[|p| - 1].children == PruneForest(below, keep);
      var front := KeptNext(init, keep);
      assert PruneForest(front + below, keep) == PruneForest(front, keep) + PruneForest(below, keep);
    }
  }

  lemma {:induction false} PrunedLayersArePrunedTree<T>(f: seq<Tree<T>>, keep: Tree<T> -> bool)
    ensures PrunedLayers(f, keep) == Layers(PruneForest(f, keep))
    decreases ForestSize(f)
  {
    if |f| > 0 {
      var p := PruneForest(f, keep);
      assert forall i :: 0 <= i < |f| ==> p[i] == Prune(f[i], keep);
      assert Items(p) == Items(f);
      NextLayerOfPruned(f, keep);
      KeptNextSize(f, keep);
      PrunedLayersArePrunedTree(KeptNext(f, keep), keep);
    }
  }

  /** The predicate walk is the plain level-order walk of the tree cut below
      each node `op` rejects: a node is visited exactly when every proper
      ancestor of it passed `op`, and the visited nodes are those of the cut
      tree, each once. */
  lemma PrunedOrderIsLevelOrderOfPrune<T>(t: Tree<T>, keep: Tree<T> -> bool)
    ensures PrunedOrder(t, keep) == LevelOrder(Prune(t, keep))
    ensures multiset(PrunedOrder(t, keep)) == multiset(PreOrder(Prune(t, keep)))
  {
    PrunedLayersArePrunedTree([t], keep);
    assert PruneForest([t], keep) == [Prune(t, keep)];
    LevelOrderPermutesPreOrder(Prune(t, keep));
  }

  // ----- forward_traverse_list / backward_traverse_list -----

  /** `chain` is the list reached from its first node by following `link`
      until a node without a link. */
  predicate IsChain<N>(link: map<N, N>, chain: seq<N>)
  {
    && |chain| > 0
    && (forall i :: 0 <= i < |chain| - 1 ==> chain[i] in link && link[chain[i]] == chain[i + 1])
    && chain[|chain| - 1] !in link
  }

  /** The list from a node holds every node once: a repeated node would
      make the list run on forever. */
  lemma {:induction false} ChainNodesDiffer<N>(link: map<N, N>, chain: seq<N>, i: nat, j: nat)
    requires IsChain(link, chain)
    requires i < j < |chain|
    ensures chain[i] != chain[j]
    decreases |chain| - j
  {
    if j < |chain| - 1 {
      ChainNodesDiffer(link, chain, i + 1, j + 1);
    } else {
      assert chain[i] in link;
    }
  }

  lemma ChainDistinct<N>(link: map<N, N>, chain: seq<N>)
    requires IsChain(link, chain)
    ensures forall i, j :: 0 <= i < j < |chain| ==> chain[i] != chain[j]
  {
    forall i, j | 0 <= i < j < |chain|
      ensures chain[i] != chain[j]
    {
      ChainNodesDiffer(link, chain, i, j);
    }
  }

  lemma {:induction false} ChainsAgree<N>(link: map<N, N>, a: seq<N>, b: seq<N>, k: nat)
    requires IsChain(link, a) && IsChain(link, b) && a[0] == b[0]
    requires k < |a| && k < |b|
    ensures a[k] == b[k]
  {
    if k > 0 {
      ChainsAgree(link, a, b, k - 1);
    }
  }

  /** A start node has one list: the walk is determined by its start. */
  lemma ChainUnique<N>(link: map<N, N>, a: seq<N>, b: seq<N>)
    requires IsChain(link, a) && IsChain(link, b) && a[0] == b[0]
    ensures a == b
  {
    var m := if |a| < |b| then |a| else |b|;
    ChainsAgree(link, a, b, m - 1);
    assert (a[m - 1] in link) == (m - 1 < |a| - 1);
    assert (b[m - 1] in link) == (m - 1 < |b| - 1);
    forall k | 0 <= k < |a|
      ensures a[k] == b[k]
    {
      ChainsAgree(link, a, b, k);
    }
  }

  /** The do-while walk shared by both list traversals: `op` on the start
      node, then on each linked node until the link is null. */
  method Walk<N>(link: map<N, N>, start: N) returns (trace: seq<N>)
    requires exists chain :: IsChain(link, chain) && chain[0] == start
    ensures IsChain(link, trace) && trace[0] == start
  {
    ghost var chain :| IsChain(link, chain) && chain[0] == start;
    var ptr := start;
    trace := [ptr];
    while ptr in link
      invariant 0 < |trace| <= |chain| && trace == chain[..|trace|]
      invariant ptr == chain[|trace| - 1]
      decreases |chain| - |trace|
    {
      ptr := link[ptr];
      trace := trace + [ptr];
    }
    assert |trace| == |chain|;
    assert trace == chain;
  }

  /** `forward_traverse_list(head, op)`: the list from `head` along `next()`,
      each node once. */
  method ForwardTraverseList<N>(next: map<N, N>, head: N) returns (trace: seq<N>)
    requires exists chain :: IsChain(next, chain) && chain[0] == head
    ensures IsChain(next, trace) && trace[0] == head
    ensures forall i, j :: 0 <= i < j < |trace| ==> trace[i] != trace[j]
  {
    trace := Walk(next, head);
    ChainDistinct(next, trace);
  }

  /** `backward_traverse_list(tail, op)`: the list from `tail` along
      `previous()`, each node once. */
  method BackwardTraverseList<N>(previous: map<N, N>, tail: N) returns (trace: seq<N>)
    requires exists chain :: IsChain(previous, chain) && chain[0] == tail
    ensures IsChain(previous, trace) && trace[0] == tail
    ensures forall i, j :: 0 <= i < j < |trace| ==> trace[i] != trace[j]
  {
    trace := Walk(previous, tail);
    ChainDistinct(previous, trace);
  }

  function Reversed<N>(s: seq<N>): (r: seq<N>)
    ensures |r| == |s| && forall i :: 0 <= i < |s| ==> r[i] == s[|s| - 1 - i]
  {
    if |s| == 0 then [] else [s[|s| - 1]] + Reversed(s[..|s| - 1])
  }

  /** In a doubly linked list, where `previous` undoes every `next` link and
      the head has no previous node, the backward walk from the tail is the
      forward walk from the head reversed. */
  lemma BackwardIsReversedForward<N>(next: map<N, N>, previous: map<N, N>, chain: seq<N>)
    requires IsChain(next, chain)
    requires forall a :: a in next ==> next[a] in previous && previous[next[a]] == a
    requires chain[0] !in previous
    ensures IsChain(previous, Reversed(chain))
  {
    var n := |chain|;
    var r := Reversed(chain);
    forall i | 0 <= i < n - 1
      ensures r[i] in previous && previous[r[i]] == r[i + 1]
    {
      assert chain[n - 2 - i] in next && next[chain[n - 2 - i]] == chain[n - 1 - i];
    }
  }
}
