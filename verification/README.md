# Algorithms of goit-algo-fp, modelled in Dafny

This project models the algorithmic core of a small Python collection of exercises, and proves what each operation computes:

- **Singly linked list** (`task_1.py`): insertion, search and deletion; in-place reversal; merging two sorted lists; merge sort with the slow/fast split.
- **Choosing dishes under a budget** (`task_6.py`): the greedy pass by calories per unit of cost, and the 0/1-knapsack table with its reconstruction.
- **Shortest paths** (`task_3.py`): building an adjacency list from arcs, Dijkstra's algorithm with a binary heap and lazy deletion, and walking the parent table back into a path.
- **Heap array to tree** (`task_4.py`): linking the node at index `i` to the nodes at `2i+1` and `2i+2`.
- **Tree traversals** (`task_5.py`): the queue-based level order of `iter_all_nodes_bfs`, and the stack-based order that `visualize_dfs` builds before drawing.

Modules, one per file:

| module | file | models |
|---|---|---|
| `Wrappers` | wrappers.dfy | `Option`, standing for Python's `None` |
| `Seqs` | seqs.dfy | reversal, removal at a position, "no repeats" |
| `LinkedList` | linked_list.dfy | `task_1.py` |
| `Knapsack` | knapsack.dfy | `task_6.py` |
| `ShortestPaths` | shortest_paths.dfy | `task_3.py` |
| `BinaryTree` | binary_tree.dfy | the tree node of `task_4.py` / `task_5.py` |
| `HeapTree` | heap_tree.dfy | `build_tree_from_heap` |
| `Traversal` | traversal.dfy | BFS and DFS orders of `task_5.py` |

How the Python objects are represented:

- **Linked list.** It is the immutable datatype `Chain`, abstracted by `Elems` (the sequence of its values). A node reference, such as the result of `search_element` or the argument of `insert_after`, is the node's position in the list. An in-place update becomes a function from the old chain to the new one.
- **Menu.** The menu dictionary is a sequence of `Item`s in insertion order. A chosen set is a sequence of positions in the menu; the Python code returns the names of the dishes at those positions.
- **Graph.** Vertices are integers, so heap entries `(distance, vertex)` are compared exactly as `heapq` compares them. Weights are natural numbers, and `float("inf")` becomes `Inf` of the datatype `Dist`. The heap is a sequence from which a least entry is popped.
- **Tree nodes.** The Python nodes carry a `uuid` as their identity. Here a node is identified by its path from the root, a sequence of `L`/`R` steps. A traversal returns the sequence of paths it visits.

Two details of the code that the model keeps:

- `merge_sorted_linked_lists` copies values into fresh nodes rather than relinking them. Both input lists are left untouched, which the immutable model makes automatic.
- The merge inside `sort_linked_list` takes from the left run only on a strict `<`, unlike the `<=` of `merge_sorted_linked_lists`. With integer values and no node identity the difference cannot be observed: `MergeTieRuleUnobservable` proves both merges give the same sequence on sorted inputs.

## Model

| member | source | states |
|---|---|---|
| LinkedList.InsertAtBeginning | task_1.py:11-14 | the new list is `d` followed by the old list, and its head links to the old head |
| LinkedList.InsertAtEnd | task_1.py:16-24 | the new list is the old list followed by `d`, the empty list included |
| LinkedList.InsertAfter | task_1.py:26-32 | with no node given the list is unchanged; otherwise `d` sits right after the given node and the entries before and after it keep their order |
| LinkedList.SearchElement | task_1.py:49-55 | the result is None exactly when the key is absent; otherwise it is a position holding the key, with no earlier position holding it |
| LinkedList.DeleteNode | task_1.py:34-47 | an absent key, or an empty list, leaves the list unchanged; otherwise exactly the entry at the key's first occurrence is removed |
| LinkedList.ReverseList | task_1.py:72-81 | the relinked list holds the input values in reverse order |
| Seqs.ReverseInvolution | task_1.py:72-81 | reversing twice restores the original order |
| LinkedList.MergeSorted | task_1.py:83-111 | the merged list holds exactly the entries of both inputs, counted with multiplicity, so its length is the sum of theirs |
| LinkedList.MergeSortedIsSorted | task_1.py:91-108 | sorted inputs give a sorted merge |
| LinkedList.MergeSortedOnlyIfSorted | task_1.py:91-108 | conversely, a sorted merge means both inputs were sorted |
| LinkedList.Split | task_1.py:117-125 | the front half followed by the back half is the input; the front has ⌈n/2⌉ entries and the back ⌊n/2⌋ |
| LinkedList.MergeNodes | task_1.py:127-142 | the relinked merge holds exactly the entries of both runs |
| LinkedList.MergeNodesIsSorted | task_1.py:127-142 | two sorted runs merge into a sorted run |
| LinkedList.MergeTieRuleUnobservable | task_1.py:127-142 | on sorted inputs, the strict-`<` merge and the `<=` merge produce the same sequence |
| LinkedList.MergeSort | task_1.py:144-150 | the result is sorted and a permutation of the input; a list of length 0 or 1 comes back as it is |
| LinkedList.SortLinkedList | task_1.py:113-153 | the sorted list is a non-decreasing permutation of the input with the same length; lists of length 0 or 1 are unchanged |
| LinkedList.SortedPermutationsEqual | task_1.py:113-153 | two sorted permutations of the same values are equal, so the sort's result is determined by the input values |
| Knapsack.TotalReverse | task_6.py:70 | reversing the collected dishes keeps them valid menu positions and changes neither total |
| Knapsack.RankedTransitive | task_6.py:26 | over positive costs, the order on (calories per cost, calories, menu position) is transitive |
| Knapsack.RankedTotal | task_6.py:26 | any two distinct dishes are ordered one way or the other |
| Knapsack.InsertKeepsRankOrder | task_6.py:26 | inserting a new dish into a ranked list keeps it ranked |
| Knapsack.SortByRank | task_6.py:26 | the sorted order is a permutation of the input positions |
| Knapsack.SortByRankSorted | task_6.py:26 | positions without repeats are sorted into ranked order |
| Knapsack.Affordable | task_6.py:21-25 | a dish is kept exactly when its cost is within the budget, in menu order |
| Knapsack.GreedyOrderIsRanked | task_6.py:21-26 | the greedy pass considers every affordable dish once, by non-increasing (calories per cost, calories), ties in menu order |
| Knapsack.TakeEachThatFits | task_6.py:28-33 | the spend never passes the budget; the running totals are the sums over the chosen dishes; dishes are only appended, never repeated, and come from the order considered |
| Knapsack.TakeEachThatFitsRule | task_6.py:28-33 | the dishes appended are exactly those of the order, kept in that order, whose cost added to the spend already made before reaching them stays within the budget |
| Knapsack.Greedy | task_6.py:12-34 | a non-positive budget gives `(0, 0, [])`; otherwise the spend is within the budget, every chosen dish is affordable and chosen once, both totals are the sums over the chosen dishes, and the chosen dishes are exactly those of the ranked order of affordable dishes that still fit when reached, in that order |
| Knapsack.BestGrowsWithItems | task_6.py:56-61 | allowing one more dish never lowers the best total for a budget |
| Knapsack.BestIsUpperBound | task_6.py:50-61 | no set of distinct dishes among the first `i` that fits in `b` has more calories than the table entry `dp[i][b]` |
| Knapsack.BestAttained | task_6.py:50-61 | some set of distinct dishes among the first `i` whose cost fits in `b` has exactly `dp[i][b]` calories, so with `BestIsUpperBound` the entry is the maximum |
| Knapsack.FillRow | task_6.py:55-61 | row `i` holds the recurrence value for every budget `0..budget` |
| Knapsack.FillTable | task_6.py:52-61 | the table has `n+1` rows of `budget+1` entries, each the recurrence value |
| Knapsack.WalkBackStep | task_6.py:66-69 | an entry that differs from the one above it comes from taking dish `i-1`, whose cost then fits |
| Knapsack.WalkBack | task_6.py:64-69 | the collected dishes are strictly decreasing positions whose calories add up to `dp[n][budget]` and whose cost is within the budget |
| Knapsack.DynamicProgramming | task_6.py:37-74 | a non-positive budget gives `(0, 0, [])`; otherwise the chosen dishes are distinct, in menu order and within budget; their calories equal `dp[n][budget]` and `spent` is their cost; no feasible choice has more calories |
| Knapsack.GreedyNeverBeatsOptimum | task_6.py:12-74 | the greedy total never exceeds the optimum the table computes |
| ShortestPaths.BuildGraph | task_3.py:6-18 | the keys are exactly the endpoints of the arcs |
| ShortestPaths.BuildGraphLists | task_3.py:12-17 | each vertex's list holds, in input order, the head of every arc leaving it and, undirected, also the tail of every arc entering it |
| ShortestPaths.BuildGraphClosed | task_3.py:12-18 | every adjacency entry names a key of the graph |
| ShortestPaths.DirectedSinkIsEmpty | task_3.py:17 | in directed mode a vertex's list is empty exactly when no arc leaves it |
| ShortestPaths.MinEntry | task_3.py:36 | the popped entry is least in the lexicographic order on (distance, vertex) |
| ShortestPaths.ScanEdges | task_3.py:41-46 | relaxing the popped vertex's edges only lowers distances; a lowered vertex gets the popped vertex as parent; all other parents stay; every finite distance is still the length of a walk from the source, and every parent chain still ends |
| ShortestPaths.Step | task_3.py:35-46 | a stale entry changes neither table; a current one lowers distances only, re-parenting exactly the lowered vertices; finite distances stay attained by walks and parent chains stay finite |
| ShortestPaths.LowerReaching | task_3.py:41-45 | lowering a vertex through an edge of the popped vertex keeps every finite distance the length of some walk from the source and every parent chain finite |
| ShortestPaths.Dijkstra | task_3.py:20-48 | both tables have the graph's keys; the source has distance 0 and no parent; each distance is the shortest one: infinite exactly when no walk from the source reaches the vertex, otherwise the length of such a walk that no other undercuts; every edge from a reached vertex is relaxed; every parent link is an edge whose weight is the difference of the two distances; every reached vertex but the source has a parent; following parents from any vertex stops |
| ShortestPaths.NoShorterWalk | task_3.py:35-48 | with every edge relaxed, no walk from the source is shorter than the distance of its last vertex |
| ShortestPaths.DistancesAreShortest | task_3.py:20-48 | relaxed edges together with distances attained by walks make every entry the shortest distance, and an infinite one means no walk reaches the vertex |
| ShortestPaths.ReconstructPath | task_3.py:50-58 | the path ends at the target, starts at a vertex without parent, and each vertex's parent is the one before it |
| ShortestPaths.ParentPathIsShortest | task_3.py:20-58 | for a reached target, the reconstructed path starts at the source, follows edges of the graph, and its length equals the target's distance |
| ShortestPaths.ReconstructedPath | task_3.py:50-58 | a parent path ending at an unreached vertex is that vertex alone; one ending at a reached vertex is a walk from the source whose length is its distance |
| ShortestPaths.ShortestPath | task_3.py:72-76 | running Dijkstra and then reconstructing the path to a target gives the target's shortest distance and, when it is reached, a walk from the source of exactly that length; an unreached target gives the path holding only itself |
| HeapTree.BuildTreeFromHeap | task_4.py:46-70 | the tree is empty exactly for an empty array; otherwise its root holds `heap[0]`; every node has the default colour |
| HeapTree.HeapIndexing | task_4.py:57-68 | node `j` exists iff `j < len(heap)`, holds `heap[j]` in colour "skyblue", has a left child, node `2j+1`, iff `2j+1 < len(heap)`, and a right child, node `2j+2`, iff `2j+2 < len(heap)` |
| HeapTree.TreeSizeMatchesHeap | task_4.py:57-68 | the tree has exactly `len(heap)` nodes |
| Traversal.PreOrderListsEveryNodeOnce | task_5.py:136-147 | the pre-order lists every node of the tree once and nothing else |
| Traversal.DfsOrder | task_5.py:131-147 | popping a node and pushing its right and then its left child yields the pre-order: node, whole left subtree, whole right subtree; an empty tree gives nothing |
| Traversal.IterAllNodesBfs | task_5.py:50-64 | an empty tree gives nothing; otherwise the root comes first; every node is listed exactly once and nothing else; the order is level by level, left before right within a level; the result is a permutation of the pre-order |
| Traversal.LevelSortedDistinct | task_5.py:56-58 | a list in strict level order has no repeats, so the `seen` check never fires on a tree |

## Left out

- Drawing (networkx, matplotlib), the colour gradients of `task_5.py` and `color_fn` callbacks: display only; only the default colour "skyblue" is modelled.
- The `uuid` node ids of `task_4.py` and `task_5.py`: a node is identified by its path from the root.
- The `seen`/`visited` sets of `iter_all_nodes_bfs` and `visualize_dfs`: on a tree no node is reached twice (`LevelSortedDistinct`, `PreOrderListsEveryNodeOnce`), so the check is dropped from the loops.
- `task_2.py` (turtle graphics, complex-number geometry, interactive input) and `task_7.py` (random sampling, floating-point probabilities): not part of this model.
- `print` output (`print_list`, `print_solution`, the message of `insert_after`) and the demonstration code at module level: I/O. The query at the end of `task_3.py` is modelled as `ShortestPath`, without its printing.
- Floating point in `task_3.py`: weights are natural numbers and infinity is a separate constructor.
- Knapsack.Greedy: for a positive budget, requires every cost to be positive. A zero-cost dish always passes `cost <= budget`, so the source then fails on the division `cal / cost`. A negative cost does not make the source fail, but it would flip the cross-multiplied ratio comparison, so such menus are not modelled. A non-positive budget returns before any division and is modelled for every menu.
- Knapsack.Greedy: ratios are compared exactly. The source compares floating-point quotients, which can tie or differ where exact ratios would not.
- Knapsack.DynamicProgramming: for a positive budget, requires non-negative costs. With a negative cost the source indexes past the end of a table row. A non-positive budget returns before the table is built and is modelled for every menu.
- Knapsack.DynamicProgramming: the optimality claim is stated only for a positive budget. For a budget of 0 the source returns `(0, 0, [])` even when zero-cost dishes would fit.
- ShortestPaths.Dijkstra: requires the source to be a key, without which the source fails on `graph[source]`. It also requires every adjacency entry to name a key. The source only needs that for the lists of vertices it pops, and fails on `dist[v]` when one of those names a non-key; lists of unreachable vertices are never read. `BuildGraphClosed` shows graphs built by `build_graph_from_edges` meet the stronger condition.
- ShortestPaths.ReconstructPath: requires the parent chain from the target to end. On a cyclic chain the source never returns, and on a missing key it fails. `Dijkstra` ensures every chain of its parent table ends, which is how `ShortestPath` calls it.
- HeapTree.BuildTreeFromHeap: the array holds integers, not arbitrary values.
