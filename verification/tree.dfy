/** The Huffman tree and the tree builder (`build_huffman_tree`).

    The source keeps its forest in a `heapq` min-heap ordered by the node
    class's comparison, which is not part of this model. The forest is
    modelled as a sequence, and each pop removes SOME minimum-weight
    element, chosen arbitrarily: whatever tie-break the heap applies, the
    properties proved here hold. */
module HuffmanTree {
  import opened Wrappers
  import opened Frequency

  /** A leaf carries a symbol and its count; an internal node carries the
      combined weight of its two children. */
  datatype Tree = Leaf(ch: char, w: nat) | Node(w: nat, left: Tree, right: Tree)

  /** The symbols at the leaves of a tree. */
  function Symbols(t: Tree): set<char> {
    match t
    case Leaf(c, _) => {c}
    case Node(_, l, r) => Symbols(l) + Symbols(r)
  }

  /** The leaves of a tree, as a table from symbol to leaf weight. When a
      symbol occurs at several leaves the rightmost one wins. */
  function LeafMap(t: Tree): (m: FreqTable)
    ensures m.Keys == Symbols(t)
  {
    match t
    case Leaf(c, w) => map[c := w]
    case Node(_, l, r) => LeafMap(l) + LeafMap(r)
  }

  /** No symbol labels two leaves. */
  predicate UniqueSymbols(t: Tree) {
    match t
    case Leaf(_, _) => true
    case Node(_, l, r) => Symbols(l) !! Symbols(r) && UniqueSymbols(l) && UniqueSymbols(r)
  }

  /** Every internal node weighs the sum of its children. */
  predicate SumWeights(t: Tree) {
    match t
    case Leaf(_, _) => true
    case Node(w, l, r) => w == l.w + r.w && SumWeights(l) && SumWeights(r)
  }

  predicate WellFormed(t: Tree) {
    UniqueSymbols(t) && SumWeights(t)
  }

  /** The weight of a well-formed tree is the sum of its leaves' weights. */
  lemma {:induction false} WeightIsTotal(t: Tree)
    requires WellFormed(t)
    ensures t.w == Total(LeafMap(t))
  {
    match t
    case Leaf(c, w) =>
      TotalSingleton(c, w);
    case Node(_, l, r) =>
      WeightIsTotal(l);
      WeightIsTotal(r);
      TotalUnion(LeafMap(l), LeafMap(r));
  }

  /** A well-formed tree is a lone leaf exactly when it holds one symbol. */
  lemma {:induction false} LeafIffOneSymbol(t: Tree)
    requires UniqueSymbols(t)
    ensures t.Leaf? <==> |Symbols(t)| == 1
  {
    if t.Node? {
      SymbolsNonEmpty(t.left);
      SymbolsNonEmpty(t.right);
      assert |Symbols(t)| == |Symbols(t.left)| + |Symbols(t.right)|;
    }
  }

  lemma SymbolsNonEmpty(t: Tree)
    ensures |Symbols(t)| >= 1
  {
    match t
    case Leaf(c, _) =>
    case Node(_, l, r) =>
      SymbolsNonEmpty(l);
      assert Symbols(l) <= Symbols(t);
  }

  // ---------------------------------------------------------------------
  // The forest kept in the heap

  /** The leaves of all trees of a forest. */
  function ForestMap(h: seq<Tree>): FreqTable {
    if |h| == 0 then map[] else ForestMap(h[..|h| - 1]) + LeafMap(h[|h| - 1])
  }

  /** No symbol is shared by two trees of the forest. */
  predicate DisjointForest(h: seq<Tree>) {
    |h| == 0 || (DisjointForest(h[..|h| - 1]) && Symbols(h[|h| - 1]) !! ForestMap(h[..|h| - 1]).Keys)
  }

  function RemoveAt(h: seq<Tree>, i: nat): (h': seq<Tree>)
    requires i < |h|
    ensures |h'| == |h| - 1
    ensures forall t :: t in h' ==> t in h
    ensures multiset(h') + multiset{h[i]} == multiset(h)
  {
    assert h == h[..i] + [h[i]] + h[i + 1..];
    h[..i] + h[i + 1..]
  }

  /** `h[i]` weighs no more than any tree of the forest. */
  predicate IsMinAt(h: seq<Tree>, i: nat)
    requires i < |h|
  {
    forall k :: 0 <= k < |h| ==> h[i].w <= h[k].w
  }

  /** The first lightest tree: a witness that every non-empty forest has one. */
  function MinIndex(h: seq<Tree>): (i: nat)
    requires |h| > 0
    ensures i < |h| && IsMinAt(h, i)
  {
    if |h| == 1 then 0
    else
      var j := MinIndex(h[1..]);
      if h[0].w <= h[1..][j].w then 0 else j + 1
  }

  /** Taking one tree out of a disjoint forest takes exactly its leaves out. */
  lemma {:induction false} ForestRemove(h: seq<Tree>, i: nat)
    requires i < |h| && DisjointForest(h)
    ensures DisjointForest(RemoveAt(h, i))
    ensures Symbols(h[i]) !! ForestMap(RemoveAt(h, i)).Keys
    ensures ForestMap(h) == ForestMap(RemoveAt(h, i)) + LeafMap(h[i])
  {
    var init := h[..|h| - 1];
    var last := h[|h| - 1];
    if i == |h| - 1 {
      assert RemoveAt(h, i) == init;
    } else {
      var r := RemoveAt(init, i);
      assert RemoveAt(h, i) == r + [last];
      assert (r + [last])[..|r|] == r;
      assert init[i] == h[i];
      ForestRemove(init, i);
      MapUnionSwap(ForestMap(r), LeafMap(h[i]), LeafMap(last));
    }
  }

  lemma MapUnionSwap(a: FreqTable, b: FreqTable, c: FreqTable)
    requires b.Keys !! c.Keys
    ensures a + b + c == a + c + b
  {
    var x := a + b + c;
    var y := a + c + b;
    assert x.Keys == y.Keys;
    forall k | k in x
      ensures x[k] == y[k]
    {
    }
  }

  lemma UnionOfMerge(a: FreqTable, l: FreqTable, r: FreqTable)
    requires l.Keys !! r.Keys
    ensures a + (l + r) == a + r + l
  {
    var x := a + (l + r);
    var y := a + r + l;
    assert x.Keys == y.Keys;
    forall k | k in x
      ensures x[k] == y[k]
    {
    }
  }

  /** Appending a tree whose symbols are new keeps the forest disjoint. */
  lemma ForestAppend(h: seq<Tree>, t: Tree)
    requires DisjointForest(h) && Symbols(t) !! ForestMap(h).Keys
    ensures DisjointForest(h + [t])
    ensures ForestMap(h + [t]) == ForestMap(h) + LeafMap(t)
  {
    assert (h + [t])[..|h|] == h;
  }

  /** `heappop`: remove some lightest tree from a non-empty forest. */
  method PopMin(h: seq<Tree>) returns (t: Tree, rest: seq<Tree>)
    requires |h| > 0 && DisjointForest(h)
    ensures t in h && forall u :: u in h ==> t.w <= u.w
    ensures |rest| == |h| - 1 && forall u :: u in rest ==> u in h
    ensures multiset(h) == multiset(rest) + multiset{t}
    ensures DisjointForest(rest) && Symbols(t) !! ForestMap(rest).Keys
    ensures ForestMap(h) == ForestMap(rest) + LeafMap(t)
  {
    assert IsMinAt(h, MinIndex(h));
    var i :| 0 <= i < |h| && IsMinAt(h, i);
    ForestRemove(h, i);
    t, rest := h[i], RemoveAt(h, i);
    forall u | u in h
      ensures t.w <= u.w
    {
      var k :| 0 <= k < |h| && h[k] == u;
      assert IsMinAt(h, i);
      assert h[i].w <= h[k].w;
    }
  }

  /** One round of the builder's loop: pop a lightest tree `left`, then a
      lightest `right` of what remains, and push their merge, weighing
      their sum, with `left` as its left child. Every other tree stays. */
  method MergeTwoLightest(h: seq<Tree>) returns (h': seq<Tree>, left: Tree, right: Tree)
    requires |h| >= 2 && DisjointForest(h)
    requires forall t :: t in h ==> WellFormed(t)
    ensures |h'| == |h| - 1
    ensures forall u :: u in h ==> left.w <= u.w
    ensures h'[|h'| - 1] == Node(left.w + right.w, left, right)
    ensures multiset(h) == multiset(h'[..|h'| - 1]) + multiset{left, right}
    ensures forall u :: u in h'[..|h'| - 1] ==> right.w <= u.w
    ensures DisjointForest(h') && ForestMap(h') == ForestMap(h)
    ensures forall t :: t in h' ==> WellFormed(t)
  {
    var h1, h2;
    left, h1 := PopMin(h);
    right, h2 := PopMin(h1);
    var merged := Node(left.w + right.w, left, right);
    assert WellFormed(merged) by {
      assert Symbols(left) !! Symbols(right);
    }
    MergeKeepsLeaves(h2, left, right);
    h' := h2 + [merged];
    assert h'[..|h'| - 1] == h2;
    assert multiset(h) == multiset(h2) + multiset{left, right} by {
      TwoPops(h, h1, h2, left, right);
    }
  }

  /** Two pops in a row take out both popped trees and nothing else. */
  lemma TwoPops(h: seq<Tree>, h1: seq<Tree>, h2: seq<Tree>, left: Tree, right: Tree)
    requires multiset(h) == multiset(h1) + multiset{left}
    requires multiset(h1) == multiset(h2) + multiset{right}
    ensures multiset(h) == multiset(h2) + multiset{left, right}
  {
  }

  /** Pushing the merge of two popped trees back restores the forest's
      leaves and keeps it disjoint. */
  lemma MergeKeepsLeaves(h: seq<Tree>, left: Tree, right: Tree)
    requires DisjointForest(h) && Symbols(right) !! ForestMap(h).Keys
    requires Symbols(left) !! (ForestMap(h) + LeafMap(right)).Keys
    ensures DisjointForest(h + [Node(left.w + right.w, left, right)])
    ensures ForestMap(h + [Node(left.w + right.w, left, right)]) == ForestMap(h) + LeafMap(right) + LeafMap(left)
  {
    var merged := Node(left.w + right.w, left, right);
    ForestAppend(h, merged);
    UnionOfMerge(ForestMap(h), LeafMap(left), LeafMap(right));
  }

  /** The entries of `freq` whose keys are not in `rest`. */
  function Without(freq: FreqTable, rest: set<char>): (m: FreqTable)
    ensures m.Keys == freq.Keys - rest
  {
    map c | c in freq && c !in rest :: freq[c]
  }

  lemma WithoutStep(freq: FreqTable, rest: set<char>, c: char)
    requires c in rest && c in freq
    ensures Without(freq, rest) + map[c := freq[c]] == Without(freq, rest - {c})
  {
    var x := Without(freq, rest) + map[c := freq[c]];
    var y := Without(freq, rest - {c});
    assert x.Keys == y.Keys;
    forall k | k in x
      ensures x[k] == y[k]
    {
    }
  }

  lemma WithoutNothing(freq: FreqTable)
    ensures Without(freq, {}) == freq
  {
    assert Without(freq, {}).Keys == freq.Keys;
  }

  lemma AddLeaf(h: seq<Tree>, freq: FreqTable, rest: set<char>, c: char)
    requires c in rest && rest <= freq.Keys
    requires DisjointForest(h) && ForestMap(h) == Without(freq, rest)
    requires forall t :: t in h ==> t.Leaf? && WellFormed(t)
    ensures DisjointForest(h + [Leaf(c, freq[c])])
    ensures ForestMap(h + [Leaf(c, freq[c])]) == Without(freq, rest - {c})
    ensures forall t :: t in h + [Leaf(c, freq[c])] ==> t.Leaf? && WellFormed(t)
  {
    ForestAppend(h, Leaf(c, freq[c]));
    WithoutStep(freq, rest, c);
  }

  /** The heap as first built: one leaf per table entry, in some order. */
  method InitialForest(freq: FreqTable) returns (h: seq<Tree>)
    ensures forall t :: t in h ==> t.Leaf? && WellFormed(t)
    ensures DisjointForest(h)
    ensures ForestMap(h) == freq
  {
    h := [];
    var rest := freq.Keys;
    assert Without(freq, rest) == map[];
    while rest != {}
      invariant rest <= freq.Keys
      invariant forall t :: t in h ==> t.Leaf? && WellFormed(t)
      invariant DisjointForest(h)
      invariant ForestMap(h) == Without(freq, rest)
      decreases |rest|
    {
      var c :| c in rest;
      var leaf := Leaf(c, freq[c]);
      AddLeaf(h, freq, rest, c);
      h := h + [leaf];
      rest := rest - {c};
    }
    WithoutNothing(freq);
  }

  /** The tree left alone in the forest carries the whole table. */
  lemma LastTree(h: seq<Tree>, freq: FreqTable)
    requires |h| == 1 && WellFormed(h[0]) && ForestMap(h) == freq
    ensures LeafMap(h[0]) == freq
    ensures h[0].w == Total(freq)
    ensures h[0].Leaf? <==> |freq| == 1
  {
    var t := h[0];
    assert h[..0] == [];
    assert LeafMap(t) == freq;
    WeightIsTotal(t);
    LeafIffOneSymbol(t);
    assert freq.Keys == Symbols(t);
    assert |freq| == |freq.Keys|;
  }

  /** `build_huffman_tree`: no tree for an empty table; otherwise merge the
      two lightest trees, the first popped on the left, until one remains.
      The result holds exactly the table's symbols, each on one leaf
      weighted by its count, every internal node weighs the sum of its
      children, and the root weighs the sum of all counts. It is a lone
      leaf exactly when the table has one entry. */
  method BuildHuffmanTree(freq: FreqTable) returns (root: Option<Tree>)
    ensures root.None? <==> |freq| == 0
    ensures root.Some? ==> WellFormed(root.value) && LeafMap(root.value) == freq
    ensures root.Some? ==> root.value.w == Total(freq)
    ensures root.Some? ==> (root.value.Leaf? <==> |freq| == 1)
  {
    if |freq| == 0 {
      return None;
    }
    var heap := InitialForest(freq);
    assert |heap| > 0;
    while |heap| > 1
      invariant |heap| >= 1
      invariant forall t :: t in heap ==> WellFormed(t)
      invariant DisjointForest(heap)
      invariant ForestMap(heap) == freq
      decreases |heap|
    {
      var left, right;
      heap, left, right := MergeTwoLightest(heap);
    }
    LastTree(heap, freq);
    root := Some(heap[0]);
  }
}
