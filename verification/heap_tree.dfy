/**
 * build_tree_from_heap (task_4.py): turns an array laid out as a binary heap
 * into linked tree nodes, using the 0-indexed rule that the children of
 * index `i` sit at `2i+1` and `2i+2`. Only the default colouring is modelled.
 */
module HeapTree {
  import opened BinaryTree

  const DefaultColor: string := "skyblue"

  /** The node the builder makes for index `i`, with everything linked below it. */
  function NodeFor(heap: seq<int>, i: nat): (t: Tree)
    ensures AllColored(t, DefaultColor)
    ensures t.Node? <==> i < |heap|
    decreases |heap| - i
  {
    if i < |heap| then
      Node(heap[i], DefaultColor, NodeFor(heap, 2 * i + 1), NodeFor(heap, 2 * i + 2))
    else Nil
  }

  /** The root of the built tree; `Nil` for an empty array. */
  function BuildTreeFromHeap(heap: seq<int>): (t: Tree)
    ensures t.Nil? <==> |heap| == 0
    ensures t.Node? ==> t.val == heap[0]
    ensures AllColored(t, DefaultColor)
  {
    if |heap| == 0 then Nil else NodeFor(heap, 0)
  }

  /**
   * Reaching array index `j` in a tree: from the root, index `j` is the left
   * child of index `(j-1)/2` when `j` is odd and its right child when `j` is
   * even.
   */
  function NodeAt(t: Tree, j: nat): Tree
    decreases j
  {
    if j == 0 then t
    else
      var parent := NodeAt(t, (j - 1) / 2);
      if j % 2 == 1 then Child(parent, L) else Child(parent, R)
  }

  lemma {:induction false} NodeAtIsNodeFor(heap: seq<int>, j: nat)
    ensures NodeAt(BuildTreeFromHeap(heap), j) == NodeFor(heap, j)
    decreases j
  {
    if j > 0 {
      var p := (j - 1) / 2;
      NodeAtIsNodeFor(heap, p);
      if p >= |heap| {
        assert NodeFor(heap, j) == Nil;
      } else if j % 2 == 1 {
        assert j == 2 * p + 1;
      } else {
        assert j == 2 * p + 2;
      }
    }
  }

  /**
   * The tree built from `heap` holds `heap[j]` at index `j`, with the default
   * colour; index `j` has a left child, namely index `2j+1`, exactly when
   * `2j+1 < |heap|`, and a right child, namely index `2j+2`, exactly when
   * `2j+2 < |heap|`; indices past the end are not in the tree.
   */
  lemma HeapIndexing(heap: seq<int>, j: nat)
    ensures var t := BuildTreeFromHeap(heap);
      && (NodeAt(t, j).Node? <==> j < |heap|)
      && (j < |heap| ==> NodeAt(t, j).val == heap[j] && NodeAt(t, j).color == DefaultColor)
      && (j < |heap| ==> (NodeAt(t, j).left.Node? <==> 2 * j + 1 < |heap|))
      && (j < |heap| ==> NodeAt(t, j).left == NodeAt(t, 2 * j + 1))
      && (j < |heap| ==> (NodeAt(t, j).right.Node? <==> 2 * j + 2 < |heap|))
      && (j < |heap| ==> NodeAt(t, j).right == NodeAt(t, 2 * j + 2))
  {
    NodeAtIsNodeFor(heap, j);
    NodeAtIsNodeFor(heap, 2 * j + 1);
    NodeAtIsNodeFor(heap, 2 * j + 2);
  }

  // ---------------------------------------------------------------------------
  // The built tree has exactly one node per array element
  // ---------------------------------------------------------------------------

  /** Index `j` lies in the subtree rooted at index `i`. */
  predicate Below(i: nat, j: nat)
    decreases j
  {
    j == i || (j > i && Below(i, (j - 1) / 2))
  }

  /** How many of the indices `0..n-1` lie in the subtree rooted at `i`. */
  function CountBelow(n: nat, i: nat): nat
    decreases n - i
  {
    if i < n then 1 + CountBelow(n, 2 * i + 1) + CountBelow(n, 2 * i + 2) else 0
  }

  lemma {:induction false} SizeIsCount(heap: seq<int>, i: nat)
    ensures Size(NodeFor(heap, i)) == CountBelow(|heap|, i)
    decreases |heap| - i
  {
    if i < |heap| {
      SizeIsCount(heap, 2 * i + 1);
      SizeIsCount(heap, 2 * i + 2);
    }
  }

  lemma {:induction false} EveryIndexBelowRoot(n: nat)
    ensures Below(0, n)
    decreases n
  {
    if n > 0 {
      EveryIndexBelowRoot((n - 1) / 2);
    }
  }

  /** An index below `i` (other than `i`) lies below exactly one of its children. */
  lemma {:induction false} BelowChildren(i: nat, n: nat)
    requires i < n
    ensures Below(i, n) <==> (Below(2 * i + 1, n) || Below(2 * i + 2, n))
    ensures !(Below(2 * i + 1, n) && Below(2 * i + 2, n))
    decreases n
  {
    var p := (n - 1) / 2;
    if p == i {
      assert n == 2 * i + 1 || n == 2 * i + 2;
      if n == 2 * i + 1 {
        assert !Below(2 * i + 2, n);
      } else {
        assert p < 2 * i + 1;
        assert !Below(2 * i + 1, p);
      }
    } else if p > i {
      BelowChildren(i, p);
      assert n > 2 * i + 2;
    } else {
      assert !Below(i, p);
      assert n < 2 * i + 1;
    }
  }

  lemma {:induction false} CountGrows(n: nat, i: nat)
    ensures CountBelow(n + 1, i) == CountBelow(n, i) + (if Below(i, n) then 1 else 0)
    decreases n + 1 - i
  {
    if i < n {
      CountGrows(n, 2 * i + 1);
      CountGrows(n, 2 * i + 2);
      BelowChildren(i, n);
    } else if i == n {
      assert CountBelow(n + 1, 2 * i + 1) == 0;
      assert CountBelow(n + 1, 2 * i + 2) == 0;
    }
  }

  lemma {:induction false} CountAll(n: nat)
    ensures CountBelow(n, 0) == n
  {
    if n > 0 {
      CountAll(n - 1);
      CountGrows(n - 1, 0);
      EveryIndexBelowRoot(n - 1);
    }
  }

  /** The built tree has exactly `|heap|` nodes. */
  lemma TreeSizeMatchesHeap(heap: seq<int>)
    ensures Size(BuildTreeFromHeap(heap)) == |heap|
  {
    SizeIsCount(heap, 0);
    CountAll(|heap|);
  }
}
