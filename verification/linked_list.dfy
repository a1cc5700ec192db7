/**
 * Singly linked list of integers (task_1.py): insertion, deletion, search,
 * reversal, a value-copying merge of two sorted lists and a top-down merge
 * sort with a slow/fast split.
 *
 * A list is modelled by the chain of nodes that starts at its head: `Nil`
 * stands for the absent head (or absent `next`) reference. What the source
 * exposes as a reference to a node is modelled by that node's position in the
 * chain. Every operation is stated against `Elems`, the sequence of values met
 * when walking the chain.
 */
module LinkedList {
  import opened Wrappers
  import opened Seqs

  datatype Chain = Nil | Node(data: int, next: Chain)

  /** The values of the chain in traversal order. */
  function Elems(c: Chain): seq<int>
  {
    match c
    case Nil => []
    case Node(d, n) => [d] + Elems(n)
  }

  ghost predicate Sorted(s: seq<int>)
  {
    forall i, j :: 0 <= i < j < |s| ==> s[i] <= s[j]
  }

  // ---------------------------------------------------------------------------
  // Insertion, deletion and search
  // ---------------------------------------------------------------------------

  /** insert_at_beginning: the new node becomes the head, the old chain follows it. */
  function InsertAtBeginning(c: Chain, d: int): (r: Chain)
    ensures Elems(r) == [d] + Elems(c)
    ensures r.Node? && r.data == d && r.next == c
  {
    Node(d, c)
  }

  /** insert_at_end: walks to the last node and links the new node after it (or makes it the head). */
  function InsertAtEnd(c: Chain, d: int): (r: Chain)
    ensures Elems(r) == Elems(c) + [d]
  {
    match c
    case Nil => Node(d, Nil)
    case Node(x, n) => Node(x, InsertAtEnd(n, d))
  }

  /**
   * insert_after: with no predecessor nothing changes (the source only prints
   * a message); otherwise a node holding `d` is spliced in right after the
   * node at position `prev`.
   */
  function InsertAfter(c: Chain, prev: Option<nat>, d: int): (r: Chain)
    requires prev.Some? ==> prev.value < |Elems(c)|
    ensures prev.None? ==> r == c
    ensures prev.Some? ==>
      Elems(r) == Elems(c)[..prev.value + 1] + [d] + Elems(c)[prev.value + 1..]
  {
    match prev
    case None => c
    case Some(k) => SpliceAfter(c, k, d)
  }

  function SpliceAfter(c: Chain, k: nat, d: int): (r: Chain)
    requires k < |Elems(c)|
    ensures Elems(r) == Elems(c)[..k + 1] + [d] + Elems(c)[k + 1..]
  {
    if k == 0 then Node(c.data, Node(d, c.next))
    else Node(c.data, SpliceAfter(c.next, k - 1, d))
  }

  /**
   * search_element: the position of the first node holding `key`, or `None`
   * when no node does.
   */
  function SearchElement(c: Chain, key: int): (r: Option<nat>)
    ensures r.None? <==> key !in Elems(c)
    ensures r.Some? ==>
      r.value < |Elems(c)| && Elems(c)[r.value] == key && key !in Elems(c)[..r.value]
  {
    match c
    case Nil => None
    case Node(x, n) =>
      if x == key then Some(0)
      else match SearchElement(n, key)
        case None => None
        case Some(k) => Some(k + 1)
  }

  /**
   * delete_node: unlinks the first node holding `key` (the one search finds);
   * an absent key, in particular on an empty list, leaves the chain as it was.
   */
  function DeleteNode(c: Chain, key: int): (r: Chain)
    ensures key !in Elems(c) ==> r == c
    ensures key in Elems(c) ==>
      var i := SearchElement(c, key).value;
      Elems(r) == Elems(c)[..i] + Elems(c)[i + 1..]
  {
    match c
    case Nil => Nil
    case Node(x, n) => if x == key then n else Node(x, DeleteNode(n, key))
  }

  // ---------------------------------------------------------------------------
  // Reversal
  // ---------------------------------------------------------------------------

  /**
   * reverse_linked_list: the three-pointer loop that turns every `next`
   * link around; `prev` is the already reversed prefix, `current` the rest.
   */
  method ReverseList(c: Chain) returns (r: Chain)
    ensures Elems(r) == Reverse(Elems(c))
  {
    var prev := Nil;
    var current := c;
    while current.Node?
      invariant Reverse(Elems(current)) + Elems(prev) == Reverse(Elems(c))
      decreases current
    {
      var nextNode := current.next;
      prev := Node(current.data, prev);
      current := nextNode;
    }
    r := prev;
  }

  // ---------------------------------------------------------------------------
  // Merging two sorted lists
  // ---------------------------------------------------------------------------

  /**
   * merge_sorted_linked_lists: builds a fresh chain, taking from `a` while
   * its front value is `<=` the front of `b`, then copying whichever input
   * remains. The inputs are values, so they are left intact.
   */
  function MergeSorted(a: Chain, b: Chain): (r: Chain)
    ensures multiset(Elems(r)) == multiset(Elems(a)) + multiset(Elems(b))
    ensures |Elems(r)| == |Elems(a)| + |Elems(b)|
    decreases a, b
  {
    match (a, b)
    case (Nil, _) => b
    case (_, Nil) => a
    case (Node(x, a'), Node(y, b')) =>
      if x <= y then Node(x, MergeSorted(a', b)) else Node(y, MergeSorted(a, b'))
  }

  /** Every value of `s` is at least `x`. */
  ghost predicate AllAtLeast(s: seq<int>, x: int)
  {
    forall i :: 0 <= i < |s| ==> x <= s[i]
  }

  lemma AtLeastAcrossMultiset(s: seq<int>, t: seq<int>, u: seq<int>, x: int)
    requires multiset(s) == multiset(t) + multiset(u)
    requires AllAtLeast(t, x) && AllAtLeast(u, x)
    ensures AllAtLeast(s, x)
  {
    forall i | 0 <= i < |s|
      ensures x <= s[i]
    {
      assert s[i] in multiset(s);
      if s[i] in multiset(t) {
        var j :| 0 <= j < |t| && t[j] == s[i];
      } else {
        var j :| 0 <= j < |u| && u[j] == s[i];
      }
    }
  }

  lemma ConsSorted(x: int, c: Chain)
    requires Sorted(Elems(c)) && AllAtLeast(Elems(c), x)
    ensures Sorted(Elems(Node(x, c)))
  {
  }

  lemma TailSorted(c: Chain)
    requires c.Node? && Sorted(Elems(c))
    ensures Sorted(Elems(c.next)) && AllAtLeast(Elems(c.next), c.data)
  {
    assert Elems(c)[0] == c.data;
    assert forall i :: 0 <= i < |Elems(c.next)| ==> Elems(c.next)[i] == Elems(c)[i + 1];
  }

  lemma SortedFrom(c: Chain, x: int)
    requires c.Node? && Sorted(Elems(c)) && x <= c.data
    ensures AllAtLeast(Elems(c), x)
  {
    assert Elems(c)[0] == c.data;
  }

  lemma AtLeastSubMultiset(s: seq<int>, t: seq<int>, x: int)
    requires multiset(s) <= multiset(t) && AllAtLeast(t, x)
    ensures AllAtLeast(s, x)
  {
    forall i | 0 <= i < |s|
      ensures x <= s[i]
    {
      assert s[i] in multiset(t);
      var j :| 0 <= j < |t| && t[j] == s[i];
    }
  }

  /** Merging two sorted lists yields a sorted list. */
  lemma {:induction false} MergeSortedIsSorted(a: Chain, b: Chain)
    requires Sorted(Elems(a)) && Sorted(Elems(b))
    ensures Sorted(Elems(MergeSorted(a, b)))
    decreases a, b
  {
    if a.Node? && b.Node? {
      TailSorted(a);
      TailSorted(b);
      if a.data <= b.data {
        var m := MergeSorted(a.next, b);
        assert MergeSorted(a, b) == Node(a.data, m);
        MergeSortedIsSorted(a.next, b);
        SortedFrom(b, a.data);
        AtLeastAcrossMultiset(Elems(m), Elems(a.next), Elems(b), a.data);
        ConsSorted(a.data, m);
      } else {
        var m := MergeSorted(a, b.next);
        assert MergeSorted(a, b) == Node(b.data, m);
        MergeSortedIsSorted(a, b.next);
        SortedFrom(a, b.data);
        AtLeastAcrossMultiset(Elems(m), Elems(a), Elems(b.next), b.data);
        ConsSorted(b.data, m);
      }
    }
  }

  /** Conversely, a sorted merge result means both inputs were sorted. */
  lemma {:induction false} MergeSortedOnlyIfSorted(a: Chain, b: Chain)
    requires Sorted(Elems(MergeSorted(a, b)))
    ensures Sorted(Elems(a)) && Sorted(Elems(b))
    decreases a, b
  {
    if a.Node? && b.Node? {
      var r := MergeSorted(a, b);
      TailSorted(r);
      if a.data <= b.data {
        assert r.next == MergeSorted(a.next, b);
        MergeSortedOnlyIfSorted(a.next, b);
        AtLeastSubMultiset(Elems(a.next), Elems(r.next), a.data);
        ConsSorted(a.data, a.next);
      } else {
        assert r.next == MergeSorted(a, b.next);
        MergeSortedOnlyIfSorted(a, b.next);
        AtLeastSubMultiset(Elems(b.next), Elems(r.next), b.data);
        ConsSorted(b.data, b.next);
      }
    }
  }

  // ---------------------------------------------------------------------------
  // Merge sort
  // ---------------------------------------------------------------------------

  /** The first `k` nodes of the chain, cut off after the `k`-th. */
  function Take(c: Chain, k: nat): (r: Chain)
    requires k <= |Elems(c)|
    ensures Elems(r) == Elems(c)[..k]
  {
    if k == 0 then Nil else Node(c.data, Take(c.next, k - 1))
  }

  /** The chain starting at position `k`. */
  function Drop(c: Chain, k: nat): (r: Chain)
    requires k <= |Elems(c)|
    ensures Elems(r) == Elems(c)[k..]
  {
    if k == 0 then c else Drop(c.next, k - 1)
  }

  /**
   * split: `fast` starts one node ahead of `slow` and moves two nodes per
   * step; when it runs out, the chain is cut after `slow`. The front half
   * gets the extra node of an odd-length chain.
   */
  method Split(head: Chain) returns (front: Chain, middle: Chain)
    requires head.Node?
    ensures Elems(front) + Elems(middle) == Elems(head)
    ensures |Elems(front)| == (|Elems(head)| + 1) / 2
    ensures |Elems(middle)| == |Elems(head)| / 2
  {
    var slow: nat := 0;
    var fast := head.next;
    while fast.Node? && fast.next.Node?
      invariant 2 * slow + 1 <= |Elems(head)|
      invariant Elems(fast) == Elems(head)[2 * slow + 1..]
      decreases fast
    {
      slow := slow + 1;
      fast := fast.next.next;
    }
    front := Take(head, slow + 1);
    middle := Drop(head, slow + 1);
  }

  /**
   * merge (inside sort_linked_list): relinks the nodes of two sorted chains,
   * taking from `left` only when its front value is strictly smaller, so on
   * equal values the node from `right` goes first.
   */
  function MergeNodes(left: Chain, right: Chain): (r: Chain)
    ensures multiset(Elems(r)) == multiset(Elems(left)) + multiset(Elems(right))
    decreases left, right
  {
    match (left, right)
    case (Nil, _) => right
    case (_, Nil) => left
    case (Node(x, l'), Node(y, r')) =>
      if x < y then Node(x, MergeNodes(l', right)) else Node(y, MergeNodes(left, r'))
  }

  lemma {:induction false} MergeNodesIsSorted(left: Chain, right: Chain)
    requires Sorted(Elems(left)) && Sorted(Elems(right))
    ensures Sorted(Elems(MergeNodes(left, right)))
    decreases left, right
  {
    if left.Node? && right.Node? {
      TailSorted(left);
      TailSorted(right);
      if left.data < right.data {
        var m := MergeNodes(left.next, right);
        assert MergeNodes(left, right) == Node(left.data, m);
        MergeNodesIsSorted(left.next, right);
        SortedFrom(right, left.data);
        AtLeastAcrossMultiset(Elems(m), Elems(left.next), Elems(right), left.data);
        ConsSorted(left.data, m);
      } else {
        var m := MergeNodes(left, right.next);
        assert MergeNodes(left, right) == Node(right.data, m);
        MergeNodesIsSorted(left, right.next);
        SortedFrom(left, right.data);
        AtLeastAcrossMultiset(Elems(m), Elems(left), Elems(right.next), right.data);
        ConsSorted(right.data, m);
      }
    }
  }

  /** merge_sort: split, sort both halves, merge them. */
  method MergeSort(head: Chain) returns (r: Chain)
    ensures Sorted(Elems(r))
    ensures multiset(Elems(r)) == multiset(Elems(head))
    ensures |Elems(head)| <= 1 ==> r == head
    decreases |Elems(head)|
  {
    if head.Nil? || head.next.Nil? {
      return head;
    }
    var front, middle := Split(head);
    var left := MergeSort(front);
    var right := MergeSort(middle);
    MergeNodesIsSorted(left, right);
    r := MergeNodes(left, right);
  }

  /** sort_linked_list: lists of length 0 or 1 are returned as they are. */
  method SortLinkedList(c: Chain) returns (r: Chain)
    ensures Sorted(Elems(r))
    ensures multiset(Elems(r)) == multiset(Elems(c))
    ensures |Elems(r)| == |Elems(c)|
    ensures |Elems(c)| <= 1 ==> r == c
  {
    if c.Nil? || c.next.Nil? {
      return c;
    }
    r := MergeSort(c);
    assert |multiset(Elems(r))| == |multiset(Elems(c))|;
  }

  /** Two sorted sequences with the same values are the same sequence. */
  lemma {:induction false} SortedPermutationsEqual(s: seq<int>, t: seq<int>)
    requires Sorted(s) && Sorted(t) && multiset(s) == multiset(t)
    ensures s == t
    decreases |s|
  {
    assert |s| == |multiset(s)| == |multiset(t)| == |t|;
    if s != [] {
      SameHead(s, t);
      SortedPermutationsEqual(s[1..], t[1..]);
      assert s == [s[0]] + s[1..] && t == [t[0]] + t[1..];
    }
  }

  /** Two sorted arrangements of the same values start alike and continue with the same values. */
  lemma SameHead(s: seq<int>, t: seq<int>)
    requires s != [] && t != []
    requires Sorted(s) && Sorted(t) && multiset(s) == multiset(t)
    ensures s[0] == t[0]
    ensures multiset(s[1..]) == multiset(t[1..]) && Sorted(s[1..]) && Sorted(t[1..])
  {
    assert t[0] in multiset(t) && s[0] in multiset(s);
    HeadIsLeast(s, t[0]);
    HeadIsLeast(t, s[0]);
    SplitHead(s);
    SplitHead(t);
  }

  /** The head of a sorted sequence is at most any of its elements. */
  lemma HeadIsLeast(s: seq<int>, x: int)
    requires Sorted(s) && x in multiset(s)
    ensures s[0] <= x
  {
    var j :| 0 <= j < |s| && s[j] == x;
  }

  lemma SplitHead(s: seq<int>)
    requires s != []
    ensures multiset(s[1..]) == multiset(s) - multiset{s[0]}
    ensures Sorted(s) ==> Sorted(s[1..])
  {
    assert s == [s[0]] + s[1..];
    assert multiset(s) == multiset{s[0]} + multiset(s[1..]);
  }

  /**
   * On sorted inputs the tie rule makes no difference to the values: the
   * `<` merge of the sort and the `<=` merge of two lists agree.
   */
  lemma MergeTieRuleUnobservable(a: Chain, b: Chain)
    requires Sorted(Elems(a)) && Sorted(Elems(b))
    ensures Elems(MergeNodes(a, b)) == Elems(MergeSorted(a, b))
  {
    MergeNodesIsSorted(a, b);
    MergeSortedIsSorted(a, b);
    SortedPermutationsEqual(Elems(MergeNodes(a, b)), Elems(MergeSorted(a, b)));
  }
}
