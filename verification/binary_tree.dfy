/**
 * The binary tree node shared by the heap builder (task_4.py) and the
 * traversals (task_5.py). `Nil` is the absent child; a node carries its key
 * and its display colour. The source also gives every node a random unique
 * id; here a node is identified by its position, the path from the root.
 */
module BinaryTree {

  datatype Tree = Nil | Node(val: int, color: string, left: Tree, right: Tree)

  datatype Dir = L | R

  /** A position in a tree: the turns taken from the root. */
  type Path = seq<Dir>

  function Size(t: Tree): nat
  {
    match t
    case Nil => 0
    case Node(_, _, l, r) => 1 + Size(l) + Size(r)
  }

  function Child(t: Tree, d: Dir): Tree
  {
    match t
    case Nil => Nil
    case Node(_, _, l, r) => if d == L then l else r
  }

  /** The subtree at position `p`, or `Nil` when `p` leaves the tree. */
  function At(t: Tree, p: Path): Tree
    decreases |p|
  {
    if p == [] then t else At(Child(t, p[0]), p[1..])
  }

  /** Every node of `t` has colour `c`. */
  predicate AllColored(t: Tree, c: string)
  {
    match t
    case Nil => true
    case Node(_, col, l, r) => col == c && AllColored(l, c) && AllColored(r, c)
  }
}
