/**
 * The two node orders of task_5.py: the queue-based level order of
 * `iter_all_nodes_bfs` (also used by `visualize_bfs`) and the stack-based
 * order that `visualize_dfs` builds before drawing. Nodes are reported by
 * position (path from the root), which plays the role of the source's
 * per-node id.
 */
module Traversal {
  import opened BinaryTree
  import opened Seqs

  // ---------------------------------------------------------------------------
  // Positions
  // ---------------------------------------------------------------------------

  function Parent(p: Path): Path
    requires |p| > 0
  {
    p[..|p| - 1]
  }

  lemma AtNil(p: Path)
    ensures At(Nil, p) == Nil
    decreases |p|
  {
    if p != [] {
      AtNil(p[1..]);
    }
  }

  lemma {:induction false} AtAppend(t: Tree, p: Path, d: Dir)
    ensures At(t, p + [d]) == Child(At(t, p), d)
    decreases |p|
  {
    if p == [] {
      assert ([] + [d])[1..] == [];
    } else {
      assert (p + [d])[1..] == p[1..] + [d];
      AtAppend(Child(t, p[0]), p[1..], d);
    }
  }

  lemma {:induction false} AtSplit(t: Tree, a: Path, b: Path)
    ensures At(t, a + b) == At(At(t, a), b)
    decreases |a|
  {
    if a != [] {
      assert a + b != [];
      assert (a + b)[0] == a[0];
      assert (a + b)[1..] == a[1..] + b;
      AtSplit(Child(t, a[0]), a[1..], b);
    } else {
      assert a + b == b;
    }
  }

  lemma AtCons(t: Tree, d: Dir, rest: Path)
    ensures At(t, [d] + rest) == At(Child(t, d), rest)
  {
    assert ([d] + rest)[0] == d;
    assert ([d] + rest)[1..] == rest;
  }

  /** Every prefix of the position of a node is the position of a node. */
  lemma AtPrefix(t: Tree, p: Path, k: nat)
    requires k <= |p| && At(t, p).Node?
    ensures At(t, p[..k]).Node?
  {
    AtSplit(t, p[..k], p[k..]);
    assert p == p[..k] + p[k..];
    if At(t, p[..k]).Nil? {
      AtNil(p[k..]);
    }
  }

  // ---------------------------------------------------------------------------
  // Pre-order, the reference for the depth-first order
  // ---------------------------------------------------------------------------

  /** The positions of the nodes of `s` in pre-order, where `pre` is the position of `s`. */
  function Pre(s: Tree, pre: Path): seq<Path>
  {
    match s
    case Nil => []
    case Node(_, _, l, r) => [pre] + Pre(l, pre + [L]) + Pre(r, pre + [R])
  }

  /** Node, then the whole left subtree, then the whole right subtree. */
  function PreOrder(t: Tree): seq<Path>
  {
    Pre(t, [])
  }

  lemma {:induction false} PreMembers(s: Tree, pre: Path, x: Path)
    ensures x in Pre(s, pre) <==> pre <= x && At(s, x[|pre|..]).Node?
    decreases s
  {
    match s
    case Nil =>
      if pre <= x {
        AtNil(x[|pre|..]);
      }
    case Node(_, _, l, r) =>
      PreMembers(l, pre + [L], x);
      PreMembers(r, pre + [R], x);
      assert x in Pre(s, pre) <==> x == pre || x in Pre(l, pre + [L]) || x in Pre(r, pre + [R]);
      if pre <= x && |x| > |pre| {
        var d := x[|pre|];
        var rest := x[|pre| + 1..];
        assert x[|pre|..] == [d] + rest;
        AtCons(s, d, rest);
        assert pre + [d] <= x;
        assert x[|pre + [d]|..] == rest;
        if d == L {
          assert x in Pre(s, pre) <==> x in Pre(l, pre + [L]);
        } else {
          assert x in Pre(s, pre) <==> x in Pre(r, pre + [R]);
        }
      } else if pre <= x {
        assert x == pre;
        assert x[|pre|..] == [];
      } else {
        assert !(pre + [L] <= x) && !(pre + [R] <= x);
      }
  }

  lemma DistinctConcat<T>(a: seq<T>, b: seq<T>)
    requires Distinct(a) && Distinct(b)
    requires forall x :: x in a ==> x !in b
    ensures Distinct(a + b)
  {
    forall i, j | 0 <= i < j < |a + b|
      ensures (a + b)[i] != (a + b)[j]
    {
      if i < |a| && j >= |a| {
        assert (a + b)[i] in a;
        assert (a + b)[j] in b;
      }
    }
  }

  lemma {:induction false} PreFacts(s: Tree, pre: Path)
    ensures Distinct(Pre(s, pre))
    ensures |Pre(s, pre)| == Size(s)
    ensures forall x :: x in Pre(s, pre) ==> pre <= x
    decreases s
  {
    match s
    case Nil =>
    case Node(_, _, l, r) =>
      PreFacts(l, pre + [L]);
      PreFacts(r, pre + [R]);
      var a, b := Pre(l, pre + [L]), Pre(r, pre + [R]);
      assert Pre(s, pre) == [pre] + a + b;
      forall x | x in b
        ensures x != pre && pre <= x && |x| > |pre| && x[|pre|] == R
      {
        assert pre + [R] <= x;
      }
      forall x | x in a
        ensures x != pre && x !in b && pre <= x
      {
        assert pre + [L] <= x;
        assert x[|pre|] == L;
      }
      DistinctConcat([pre], a);
      DistinctConcat([pre] + a, b);
  }

  /** The reference order lists every node of `t` exactly once, and nothing else. */
  lemma PreOrderListsEveryNodeOnce(t: Tree)
    ensures Distinct(PreOrder(t))
    ensures |PreOrder(t)| == Size(t)
    ensures forall p :: p in PreOrder(t) <==> At(t, p).Node?
  {
    PreFacts(t, []);
    forall p
      ensures p in PreOrder(t) <==> At(t, p).Node?
    {
      PreMembers(t, [], p);
      assert p[0..] == p;
    }
  }

  // ---------------------------------------------------------------------------
  // The depth-first order of visualize_dfs
  // ---------------------------------------------------------------------------

  /** What the entries of `stack` still contribute, top of the stack (its end) first. */
  function Pending(t: Tree, stack: seq<Path>): seq<Path>
    decreases |stack|
  {
    if stack == [] then []
    else
      var top := stack[|stack| - 1];
      Pre(At(t, top), top) + Pending(t, stack[..|stack| - 1])
  }

  lemma PendingPush(t: Tree, stack: seq<Path>, p: Path)
    ensures Pending(t, stack + [p]) == Pre(At(t, p), p) + Pending(t, stack)
  {
    assert (stack + [p])[..|stack|] == stack;
  }

  /** What visualize_dfs pushes for the node at `p`: its right child, then its left child. */
  function DfsPushes(t: Tree, p: Path): seq<Path>
  {
    var u := At(t, p);
    (if Child(u, R).Node? then [p + [R]] else []) + (if Child(u, L).Node? then [p + [L]] else [])
  }

  /** Pushing `q` only when it is a node adds the same pending work as pushing it unconditionally. */
  lemma PendingPushIf(t: Tree, stack: seq<Path>, q: Path, b: bool)
    requires b || At(t, q).Nil?
    ensures Pending(t, stack + (if b then [q] else [])) == Pre(At(t, q), q) + Pending(t, stack)
  {
    if b {
      PendingPush(t, stack, q);
    } else {
      assert stack + [] == stack;
    }
  }

  /** The work pending after the pushes for `p`: its left subtree, then its right subtree, then the rest. */
  lemma PendingAfterPushes(t: Tree, rest: seq<Path>, p: Path)
    ensures Pending(t, rest + DfsPushes(t, p)) ==
      Pre(Child(At(t, p), L), p + [L]) + (Pre(Child(At(t, p), R), p + [R]) + Pending(t, rest))
  {
    var u := At(t, p);
    var l, r := p + [L], p + [R];
    AtAppend(t, p, L);
    AtAppend(t, p, R);
    var pushR: seq<Path> := if Child(u, R).Node? then [r] else [];
    var pushL: seq<Path> := if Child(u, L).Node? then [l] else [];
    PendingPushIf(t, rest, r, Child(u, R).Node?);
    PendingPushIf(t, rest + pushR, l, Child(u, L).Node?);
    assert rest + DfsPushes(t, p) == (rest + pushR) + pushL;
  }

  lemma DfsExpand(t: Tree, rest: seq<Path>, p: Path)
    requires At(t, p).Node?
    ensures Pre(At(t, p), p) + Pending(t, rest) == [p] + Pending(t, rest + DfsPushes(t, p))
  {
    var u := At(t, p);
    PendingAfterPushes(t, rest, p);
    PreUnfold(u, p);
    Regroup([p], Pre(u.left, p + [L]), Pre(u.right, p + [R]), Pending(t, rest));
  }

  lemma PreUnfold(u: Tree, p: Path)
    requires u.Node?
    ensures Pre(u, p) == [p] + Pre(Child(u, L), p + [L]) + Pre(Child(u, R), p + [R])
  {
  }

  lemma Regroup<T>(x: seq<T>, a: seq<T>, b: seq<T>, c: seq<T>)
    ensures x + a + b + c == x + (a + (b + c))
  {
  }

  /** Popping the top of the stack: a node is emitted and its children pushed, an absent child is dropped. */
  lemma DfsPop(t: Tree, stack: seq<Path>)
    requires stack != []
    ensures var p, rest := stack[|stack| - 1], stack[..|stack| - 1];
      Pending(t, stack) ==
        if At(t, p).Node? then [p] + Pending(t, rest + DfsPushes(t, p)) else Pending(t, rest)
  {
    var p, rest := stack[|stack| - 1], stack[..|stack| - 1];
    PendingPush(t, rest, p);
    assert rest + [p] == stack;
    if At(t, p).Node? {
      DfsExpand(t, rest, p);
    }
  }

  /**
   * The loop of visualize_dfs: pop a node, record it, push its right child
   * and then its left child, so the left subtree is finished first.
   */
  method DfsOrder(t: Tree) returns (order: seq<Path>)
    ensures order == PreOrder(t)
  {
    order := [];
    var stack: seq<Path> := [[]];
    while stack != []
      invariant order + Pending(t, stack) == PreOrder(t)
      decreases |PreOrder(t)| - |order|, |stack|
    {
      var p := stack[|stack| - 1];
      var rest := stack[..|stack| - 1];
      DfsPop(t, stack);
      if At(t, p).Node? {
        assert order + ([p] + Pending(t, rest + DfsPushes(t, p))) == (order + [p]) + Pending(t, rest + DfsPushes(t, p));
        order, stack := order + [p], rest + DfsPushes(t, p);
      } else {
        stack := rest;
      }
    }
  }

  // ---------------------------------------------------------------------------
  // The level order of iter_all_nodes_bfs
  // ---------------------------------------------------------------------------

  /** Left-before-right comparison of two positions of the same depth. */
  predicate LeftOf(p: Path, q: Path)
    decreases |p|
  {
    |p| > 0 && |q| > 0 &&
    ((p[0] == L && q[0] == R) || (p[0] == q[0] && LeftOf(p[1..], q[1..])))
  }

  /** Level order: shallower nodes first, and left to right within a level. */
  predicate LevelBefore(p: Path, q: Path)
  {
    |p| < |q| || (|p| == |q| && LeftOf(p, q))
  }

  ghost predicate LevelSorted(s: seq<Path>)
  {
    forall i, j :: 0 <= i < j < |s| ==> LevelBefore(s[i], s[j])
  }

  lemma {:induction false} LeftOfIrreflexive(p: Path)
    ensures !LeftOf(p, p)
    decreases |p|
  {
    if |p| > 0 {
      LeftOfIrreflexive(p[1..]);
    }
  }

  lemma {:induction false} LeftOfExtend(p: Path, q: Path, a: Dir, b: Dir)
    requires LeftOf(p, q)
    ensures LeftOf(p + [a], q + [b])
    decreases |p|
  {
    assert (p + [a])[0] == p[0] && (q + [b])[0] == q[0];
    if !(p[0] == L && q[0] == R) {
      assert (p + [a])[1..] == p[1..] + [a];
      assert (q + [b])[1..] == q[1..] + [b];
      LeftOfExtend(p[1..], q[1..], a, b);
    }
  }

  lemma {:induction false} LeftChildLeftOfRight(p: Path)
    ensures LeftOf(p + [L], p + [R])
    decreases |p|
  {
    if p != [] {
      assert (p + [L])[1..] == p[1..] + [L];
      assert (p + [R])[1..] == p[1..] + [R];
      LeftChildLeftOfRight(p[1..]);
    }
  }

  lemma LevelSortedDistinct(s: seq<Path>)
    requires LevelSorted(s)
    ensures Distinct(s)
  {
    forall i, j | 0 <= i < j < |s|
      ensures s[i] != s[j]
    {
      LeftOfIrreflexive(s[i]);
    }
  }

  /**
   * Appending a child of the node most recently moved to `out` keeps the
   * worklist `out + queue` in level order: every queued node is either on the
   * dequeued node's level or a child of an earlier node of that level.
   */
  lemma PushChild(out: seq<Path>, queue: seq<Path>, d: Dir)
    requires |out| > 0
    requires LevelSorted(out + queue)
    requires forall e :: e in queue && |e| > 0 ==> Parent(e) in out
    requires forall e :: e in queue && |e| > 0 && Parent(e) == out[|out| - 1] ==>
      e == out[|out| - 1] + [L] && d == R
    ensures LevelSorted(out + queue + [out[|out| - 1] + [d]])
  {
    var w := out + queue;
    var x := out[|out| - 1];
    var c := x + [d];
    assert w[|out| - 1] == x;
    forall k | 0 <= k < |out| - 1
      ensures LevelBefore(out[k], x)
    {
      assert w[k] == out[k];
    }
    forall i | 0 <= i < |w|
      ensures LevelBefore(w[i], c)
    {
      if i < |out| - 1 {
        assert LevelBefore(w[i], w[|out| - 1]);
      } else if i >= |out| {
        assert w[i] == queue[i - |out|];
        assert LevelBefore(w[|out| - 1], w[i]);
        QueuedBeforeChild(out, w[i], d);
      }
    }
    assert out + queue + [c] == w + [c];
  }

  /**
   * A queued node comes before the new child `x + [d]` of the last dequeued
   * node `x`: it is on the level of `x`, or a child of `x` or of a node left of it.
   */
  lemma QueuedBeforeChild(out: seq<Path>, e: Path, d: Dir)
    requires |out| > 0 && forall k :: 0 <= k < |out| - 1 ==> LevelBefore(out[k], out[|out| - 1])
    requires LevelBefore(out[|out| - 1], e)
    requires |e| > 0 ==> Parent(e) in out
    requires |e| > 0 && Parent(e) == out[|out| - 1] ==> e == out[|out| - 1] + [L] && d == R
    ensures LevelBefore(e, out[|out| - 1] + [d])
  {
    var x := out[|out| - 1];
    if |e| > |x| {
      var pe := Parent(e);
      var k :| 0 <= k < |out| && out[k] == pe;
      assert e == pe + [e[|e| - 1]];
      if k < |out| - 1 {
        assert LevelBefore(out[k], x);
        LeftOfExtend(pe, x, e[|e| - 1], d);
      } else {
        LeftChildLeftOfRight(x);
      }
    }
  }

  /** How much work is left in the queue: each entry weighs twice its subtree, plus one. */
  ghost function Weight(t: Tree, queue: seq<Path>): nat
    decreases |queue|
  {
    if queue == [] then 0
    else Weight(t, queue[..|queue| - 1]) + 2 * Size(At(t, queue[|queue| - 1])) + 1
  }

  lemma {:induction false} WeightFront(t: Tree, queue: seq<Path>)
    requires queue != []
    ensures Weight(t, queue) == 2 * Size(At(t, queue[0])) + 1 + Weight(t, queue[1..])
    decreases |queue|
  {
    if |queue| > 1 {
      var init := queue[..|queue| - 1];
      WeightFront(t, init);
      assert init[1..] == queue[1..][..|queue[1..]| - 1];
    }
  }

  lemma WeightPush(t: Tree, queue: seq<Path>, p: Path)
    ensures Weight(t, queue + [p]) == Weight(t, queue) + 2 * Size(At(t, p)) + 1
  {
    assert (queue + [p])[..|queue|] == queue;
  }

  /** Every node not yet listed in `out` lies below some entry of `queue`. */
  ghost predicate Covered(t: Tree, out: seq<Path>, queue: seq<Path>)
  {
    forall p :: At(t, p).Node? && p !in out ==> exists e :: e in queue && e <= p
  }

  lemma CoveredAfterVisit(t: Tree, out: seq<Path>, queue: seq<Path>, x: Path, queue': seq<Path>)
    requires Covered(t, out, [x] + queue)
    requires At(t, x).Node?
    requires forall e :: e in queue ==> e in queue'
    requires forall d :: At(t, x + [d]).Node? ==> x + [d] in queue'
    ensures Covered(t, out + [x], queue')
  {
    forall p | At(t, p).Node? && p !in out + [x]
      ensures exists e :: e in queue' && e <= p
    {
      var e :| e in [x] + queue && e <= p;
      if e != x {
        assert e in queue;
      } else {
        assert x in out + [x];
        assert x == p[..|x|] && p != x;
        var c := p[..|x| + 1];
        AtPrefix(t, p, |x| + 1);
        assert c == x + [p[|x|]];
        assert c in queue';
      }
    }
  }

  lemma HeadNotVisited(out: seq<Path>, queue: seq<Path>)
    requires queue != [] && LevelSorted(out + queue)
    ensures queue[0] !in out
  {
    forall k | 0 <= k < |out|
      ensures out[k] != queue[0]
    {
      assert (out + queue)[k] == out[k];
      assert (out + queue)[|out|] == queue[0];
      LeftOfIrreflexive(queue[0]);
    }
  }

  /** What iter_all_nodes_bfs enqueues for the node at `x`: its left child if present, then its right child if present. */
  function BfsKids(t: Tree, x: Path): seq<Path>
  {
    var u := At(t, x);
    (if Child(u, L).Node? then [x + [L]] else []) + (if Child(u, R).Node? then [x + [R]] else [])
  }

  /** The loop invariant of the level-order walk. */
  ghost predicate BfsInvariant(t: Tree, out: seq<Path>, queue: seq<Path>)
  {
    && (forall e :: e in queue ==> At(t, e).Node? || t.Nil?)
    && (forall p :: p in out ==> At(t, p).Node?)
    && Covered(t, out, queue)
    && LevelSorted(out + queue)
    && (forall e :: e in queue && |e| > 0 ==> Parent(e) in out)
    && (|out| > 0 ==> out[0] == [])
    && (out == [] ==> queue == [[]] || queue == [])
  }

  lemma BfsStart(t: Tree)
    ensures BfsInvariant(t, [], [[]])
  {
    var queue: seq<Path> := [[]];
    forall p | At(t, p).Node?
      ensures exists e :: e in queue && e <= p
    {
      assert p[..0] == queue[0];
      assert queue[0] in queue && queue[0] <= p;
    }
  }

  /** Dequeuing an absent root changes nothing else, and the tree then has no nodes. */
  lemma BfsSkip(t: Tree, out: seq<Path>, queue: seq<Path>)
    requires queue != [] && BfsInvariant(t, out, queue) && At(t, queue[0]).Nil?
    ensures BfsInvariant(t, out, queue[1..])
    ensures Weight(t, queue[1..]) < Weight(t, queue)
  {
    WeightFront(t, queue);
    assert t.Nil?;
    forall p
      ensures At(t, p).Nil?
    {
      AtNil(p);
    }
    assert out + queue[1..] == (out + queue)[1..];
    assert out == [];
  }

  lemma VisitKeepsLevelOrder(t: Tree, out: seq<Path>, queue: seq<Path>)
    requires queue != [] && LevelSorted(out + queue)
    requires forall e :: e in queue && |e| > 0 ==> Parent(e) in out
    ensures LevelSorted((out + [queue[0]]) + (queue[1..] + BfsKids(t, queue[0])))
  {
    var x := queue[0];
    var u := At(t, x);
    var out' := out + [x];
    var rest := queue[1..];
    HeadNotVisited(out, queue);
    assert out' + rest == out + queue;
    forall e | e in rest && |e| > 0
      ensures Parent(e) in out' && Parent(e) != x
    {
      assert e in queue;
    }
    var q1 := rest + (if Child(u, L).Node? then [x + [L]] else []);
    EnqueueLeft(out', rest, x, Child(u, L).Node?);
    assert Parent(x + [L]) == x;
    EnqueueRight(out', q1, x, Child(u, R).Node?);
    assert q1 + (if Child(u, R).Node? then [x + [R]] else []) == rest + BfsKids(t, x);
  }

  /** Enqueueing the left child of the node just dequeued keeps the level order. */
  lemma EnqueueLeft(out: seq<Path>, rest: seq<Path>, x: Path, b: bool)
    requires out != [] && out[|out| - 1] == x && LevelSorted(out + rest)
    requires forall e :: e in rest && |e| > 0 ==> Parent(e) in out && Parent(e) != x
    ensures LevelSorted(out + (rest + (if b then [x + [L]] else [])))
  {
    if b {
      PushChild(out, rest, L);
      assert out + (rest + [x + [L]]) == out + rest + [x + [L]];
    } else {
      assert rest + [] == rest;
    }
  }

  /** Enqueueing the right child after (at most) its left sibling keeps the level order. */
  lemma EnqueueRight(out: seq<Path>, q: seq<Path>, x: Path, b: bool)
    requires out != [] && out[|out| - 1] == x && LevelSorted(out + q)
    requires forall e :: e in q && |e| > 0 ==> Parent(e) in out
    requires forall e :: e in q && |e| > 0 && Parent(e) == x ==> e == x + [L]
    ensures LevelSorted(out + (q + (if b then [x + [R]] else [])))
  {
    if b {
      PushChild(out, q, R);
      assert out + (q + [x + [R]]) == out + q + [x + [R]];
    } else {
      assert q + [] == q;
    }
  }

  lemma VisitKeepsParents(t: Tree, out: seq<Path>, queue: seq<Path>)
    requires queue != []
    requires forall e :: e in queue && |e| > 0 ==> Parent(e) in out
    ensures forall e :: e in queue[1..] + BfsKids(t, queue[0]) && |e| > 0 ==> Parent(e) in out + [queue[0]]
  {
    var x := queue[0];
    assert (x + [L])[..|x|] == x && (x + [R])[..|x|] == x;
    forall e | e in queue[1..] + BfsKids(t, x) && |e| > 0
      ensures Parent(e) in out + [x]
    {
      if e in queue[1..] {
        assert e in queue;
      }
    }
  }

  lemma VisitKeepsNodes(t: Tree, queue: seq<Path>)
    requires queue != [] && At(t, queue[0]).Node?
    requires forall e :: e in queue ==> At(t, e).Node? || t.Nil?
    ensures forall e :: e in queue[1..] + BfsKids(t, queue[0]) ==> At(t, e).Node? || t.Nil?
  {
    AtAppend(t, queue[0], L);
    AtAppend(t, queue[0], R);
  }

  lemma WeightPushIf(t: Tree, queue: seq<Path>, p: Path, b: bool)
    ensures Weight(t, queue + (if b then [p] else [])) == Weight(t, queue) + (if b then 2 * Size(At(t, p)) + 1 else 0)
  {
    if b {
      WeightPush(t, queue, p);
    } else {
      assert queue + [] == queue;
    }
  }

  lemma KidsSplit(t: Tree, rest: seq<Path>, x: Path)
    ensures rest + BfsKids(t, x) ==
      (rest + (if Child(At(t, x), L).Node? then [x + [L]] else [])) + (if Child(At(t, x), R).Node? then [x + [R]] else [])
  {
  }

  lemma KidsWeight(t: Tree, rest: seq<Path>, x: Path)
    requires At(t, x).Node?
    ensures Weight(t, rest + BfsKids(t, x)) <= Weight(t, rest) + 2 * Size(At(t, x))
  {
    var u := At(t, x);
    AtAppend(t, x, L);
    AtAppend(t, x, R);
    var bl, br := Child(u, L).Node?, Child(u, R).Node?;
    var q1 := rest + (if bl then [x + [L]] else []);
    WeightPushIf(t, rest, x + [L], bl);
    WeightPushIf(t, q1, x + [R], br);
    KidsSplit(t, rest, x);
  }

  lemma VisitWeight(t: Tree, queue: seq<Path>)
    requires queue != [] && At(t, queue[0]).Node?
    ensures Weight(t, queue[1..] + BfsKids(t, queue[0])) < Weight(t, queue)
  {
    WeightFront(t, queue);
    KidsWeight(t, queue[1..], queue[0]);
  }

  lemma VisitCovered(t: Tree, out: seq<Path>, queue: seq<Path>)
    requires queue != [] && Covered(t, out, queue) && At(t, queue[0]).Node?
    ensures Covered(t, out + [queue[0]], queue[1..] + BfsKids(t, queue[0]))
  {
    var x := queue[0];
    var next := queue[1..] + BfsKids(t, x);
    assert queue == [x] + queue[1..];
    forall d | At(t, x + [d]).Node?
      ensures x + [d] in next
    {
      AtAppend(t, x, d);
    }
    CoveredAfterVisit(t, out, queue[1..], x, next);
  }

  lemma VisitRootFirst(out: seq<Path>, queue: seq<Path>)
    requires queue != []
    requires |out| > 0 ==> out[0] == []
    requires out == [] ==> queue == [[]] || queue == []
    ensures (out + [queue[0]])[0] == []
  {
  }

  lemma BfsVisit(t: Tree, out: seq<Path>, queue: seq<Path>)
    requires queue != [] && BfsInvariant(t, out, queue) && At(t, queue[0]).Node?
    ensures BfsInvariant(t, out + [queue[0]], queue[1..] + BfsKids(t, queue[0]))
  {
    VisitKeepsLevelOrder(t, out, queue);
    VisitKeepsParents(t, out, queue);
    VisitKeepsNodes(t, queue);
    VisitCovered(t, out, queue);
    VisitRootFirst(out, queue);
  }

  /** What the invariant says once the queue is empty. */
  lemma BfsDone(t: Tree, out: seq<Path>)
    requires BfsInvariant(t, out, [])
    ensures forall p :: p in out <==> At(t, p).Node?
    ensures LevelSorted(out) && Distinct(out)
    ensures |out| == Size(t)
    ensures multiset(out) == multiset(PreOrder(t))
    ensures t.Node? ==> |out| > 0 && out[0] == []
    ensures t.Nil? ==> out == []
  {
    assert out + [] == out;
    LevelSortedDistinct(out);
    PreOrderListsEveryNodeOnce(t);
    SameMembersSameMultiset(out, PreOrder(t));
    assert t.Node? ==> [] in out;
  }

  /**
   * iter_all_nodes_bfs: dequeue a node, record it, enqueue its left and then
   * its right child. An absent root is skipped, giving an empty order.
   */
  method IterAllNodesBfs(t: Tree) returns (out: seq<Path>)
    ensures t.Nil? ==> out == []
    ensures t.Node? ==> |out| > 0 && out[0] == []
    ensures forall p :: p in out <==> At(t, p).Node?
    ensures LevelSorted(out)
    ensures Distinct(out)
    ensures |out| == Size(t)
    ensures multiset(out) == multiset(PreOrder(t))
  {
    out := [];
    var queue: seq<Path> := [[]];
    BfsStart(t);
    while queue != []
      invariant BfsInvariant(t, out, queue)
      decreases Weight(t, queue)
    {
      var x := queue[0];
      if At(t, x).Nil? {
        BfsSkip(t, out, queue);
        queue := queue[1..];
      } else {
        BfsVisit(t, out, queue);
        VisitWeight(t, queue);
        out, queue := out + [x], queue[1..] + BfsKids(t, x);
      }
    }
    BfsDone(t, out);
  }

  // ---------------------------------------------------------------------------
  // Both orders visit the same nodes
  // ---------------------------------------------------------------------------

  lemma {:induction false} DistinctCount<T>(s: seq<T>, x: T)
    requires Distinct(s)
    ensures multiset(s)[x] == if x in s then 1 else 0
    decreases |s|
  {
    if s != [] {
      assert s == [s[0]] + s[1..];
      DistinctCount(s[1..], x);
    }
  }

  lemma SameMembersSameMultiset<T>(a: seq<T>, b: seq<T>)
    requires Distinct(a) && Distinct(b)
    requires forall x :: x in a <==> x in b
    ensures multiset(a) == multiset(b)
    ensures |a| == |b|
  {
    forall x
      ensures multiset(a)[x] == multiset(b)[x]
    {
      DistinctCount(a, x);
      DistinctCount(b, x);
    }
    assert multiset(a) == multiset(b);
    assert |multiset(a)| == |multiset(b)|;
  }
}
