/**
 * Choosing dishes under a cost budget (task_6.py): a greedy pass in order of
 * calories per unit of cost, and the exact 0/1-knapsack table with the
 * reconstruction of an optimal set.
 *
 * The menu is the source's dictionary, listed in its insertion order; a
 * chosen set is reported by the positions of its dishes in that order (the
 * source reports their names, `items[k].name` for each position `k`).
 */
module Knapsack {
  import opened Seqs

  datatype Item = Item(name: string, cost: int, calories: int)

  /** The source's result triple `(total_calories, spent_cost, chosen_items)`. */
  datatype Plan = Plan(calories: int, spent: int, chosen: seq<nat>)

  const NoPlan := Plan(0, 0, [])

  datatype Measure = Cost | Calories

  function Amount(item: Item, m: Measure): int
  {
    match m
    case Cost => item.cost
    case Calories => item.calories
  }

  predicate InMenu(items: seq<Item>, picks: seq<nat>)
  {
    forall k :: 0 <= k < |picks| ==> picks[k] < |items|
  }

  /** The total cost or total calories of the picked dishes. */
  function Total(items: seq<Item>, picks: seq<nat>, m: Measure): int
    requires InMenu(items, picks)
    decreases |picks|
  {
    if picks == [] then 0
    else Total(items, picks[..|picks| - 1], m) + Amount(items[picks[|picks| - 1]], m)
  }

  /** A set of distinct dishes of the menu whose total cost is within `budget`. */
  ghost predicate Feasible(items: seq<Item>, budget: int, picks: seq<nat>)
  {
    InMenu(items, picks) && Distinct(picks) && Total(items, picks, Cost) <= budget
  }

  predicate NonNegativeCosts(items: seq<Item>)
  {
    forall k :: 0 <= k < |items| ==> items[k].cost >= 0
  }

  predicate PositiveCosts(items: seq<Item>)
  {
    forall k :: 0 <= k < |items| ==> items[k].cost > 0
  }

  // ---------------------------------------------------------------------------
  // Sums over picks
  // ---------------------------------------------------------------------------

  lemma {:induction false} TotalConcat(items: seq<Item>, a: seq<nat>, b: seq<nat>, m: Measure)
    requires InMenu(items, a) && InMenu(items, b)
    ensures InMenu(items, a + b)
    ensures Total(items, a + b, m) == Total(items, a, m) + Total(items, b, m)
    decreases |b|
  {
    if b != [] {
      var b' := b[..|b| - 1];
      assert (a + b)[..|a + b| - 1] == a + b';
      TotalConcat(items, a, b', m);
    } else {
      assert a + b == a;
    }
  }

  lemma {:induction false} TotalNonNegative(items: seq<Item>, picks: seq<nat>)
    requires InMenu(items, picks) && NonNegativeCosts(items)
    ensures Total(items, picks, Cost) >= 0
    decreases |picks|
  {
    if picks != [] {
      TotalNonNegative(items, picks[..|picks| - 1]);
    }
  }

  lemma TotalSingle(items: seq<Item>, k: nat, m: Measure)
    requires k < |items|
    ensures Total(items, [k], m) == Amount(items[k], m)
  {
    assert [k][..0] == [];
  }

  /** Removing the pick at position `k` takes its amount off the total. */
  lemma TotalRemove(items: seq<Item>, picks: seq<nat>, k: nat, m: Measure)
    requires InMenu(items, picks) && k < |picks|
    ensures InMenu(items, RemoveAt(picks, k))
    ensures Total(items, picks, m) == Total(items, RemoveAt(picks, k), m) + Amount(items[picks[k]], m)
  {
    assert picks == picks[..k] + [picks[k]] + picks[k + 1..];
    TotalConcat(items, picks[..k], [picks[k]], m);
    TotalConcat(items, picks[..k] + [picks[k]], picks[k + 1..], m);
    TotalConcat(items, picks[..k], picks[k + 1..], m);
    TotalSingle(items, picks[k], m);
  }

  lemma {:induction false} TotalReverse(items: seq<Item>, picks: seq<nat>, m: Measure)
    requires InMenu(items, picks)
    ensures InMenu(items, Reverse(picks))
    ensures Total(items, Reverse(picks), m) == Total(items, picks, m)
    decreases |picks|
  {
    if picks != [] {
      var rest := picks[1..];
      TotalReverse(items, rest, m);
      assert Reverse(picks) == Reverse(rest) + [picks[0]];
      TotalConcat(items, Reverse(rest), [picks[0]], m);
      TotalConcat(items, [picks[0]], rest, m);
      assert picks == [picks[0]] + rest;
      TotalSingle(items, picks[0], m);
    }
  }

  // ---------------------------------------------------------------------------
  // The greedy order
  // ---------------------------------------------------------------------------

  /** `a.calories / a.cost >= b.calories / b.cost`, by cross multiplication over positive costs. */
  predicate RatioAtLeast(a: Item, b: Item)
  {
    a.calories * b.cost >= b.calories * a.cost
  }

  /**
   * The sort key is the pair (calories per cost, calories), compared
   * lexicographically; `a`'s key is strictly larger than `b`'s.
   */
  predicate KeyAbove(a: Item, b: Item)
  {
    !RatioAtLeast(b, a) || (RatioAtLeast(b, a) && RatioAtLeast(a, b) && a.calories > b.calories)
  }

  predicate SameKey(a: Item, b: Item)
  {
    RatioAtLeast(a, b) && RatioAtLeast(b, a) && a.calories == b.calories
  }

  /**
   * Dish `i` comes before dish `j` in the greedy order: a descending sort on
   * the key which, being stable, keeps equal keys in menu order.
   */
  predicate Ranked(items: seq<Item>, i: nat, j: nat)
    requires i < |items| && j < |items|
  {
    KeyAbove(items[i], items[j]) || (SameKey(items[i], items[j]) && i < j)
  }

  ghost predicate RankSorted(items: seq<Item>, s: seq<nat>)
  {
    InMenu(items, s) && forall p, q :: 0 <= p < q < |s| ==> Ranked(items, s[p], s[q])
  }

  lemma MulPositive(x: int, y: int, k: int)
    requires k > 0
    ensures x >= y <==> x * k >= y * k
    ensures x > y <==> x * k > y * k
  {
    if x >= y {
      assert x * k - y * k == (x - y) * k;
    } else {
      assert y * k - x * k == (y - x) * k;
    }
  }

  /** The ratio comparison is transitive, and strictly so if either step is strict. */
  lemma RatioChain(a: Item, b: Item, c: Item)
    requires a.cost > 0 && b.cost > 0 && c.cost > 0
    ensures RatioAtLeast(a, b) && RatioAtLeast(b, c) ==> RatioAtLeast(a, c)
    ensures RatioAtLeast(a, b) && RatioAtLeast(b, c) && (!RatioAtLeast(b, a) || !RatioAtLeast(c, b)) ==>
      !RatioAtLeast(c, a)
  {
    var x, y, z := a.calories, b.calories, c.calories;
    var ca, cb, cc := a.cost, b.cost, c.cost;
    // a >= b scaled by cc, b >= c scaled by ca, both are then about the
    // products with cb, which cancels.
    MulPositive(x * cb, y * ca, cc);
    MulPositive(y * cc, z * cb, ca);
    MulPositive(x * cc, z * ca, cb);
    MulPositive(y * ca, x * cb, cc);
    MulPositive(z * cb, y * cc, ca);
    assert x * cb * cc == x * cc * cb;
    assert y * ca * cc == y * cc * ca;
    assert z * cb * ca == z * ca * cb;
  }

  lemma RankedTransitive(items: seq<Item>, i: nat, j: nat, k: nat)
    requires PositiveCosts(items)
    requires i < |items| && j < |items| && k < |items|
    requires Ranked(items, i, j) && Ranked(items, j, k)
    ensures Ranked(items, i, k)
  {
    RatioChain(items[i], items[j], items[k]);
    RatioChain(items[k], items[j], items[i]);
  }

  lemma RankedTotal(items: seq<Item>, i: nat, j: nat)
    requires i < |items| && j < |items| && i != j
    ensures Ranked(items, i, j) || Ranked(items, j, i)
  {
  }

  lemma RankedIrreflexive(items: seq<Item>, i: nat)
    requires i < |items|
    ensures !Ranked(items, i, i)
  {
  }

  /** Places `x` before the first entry that ranks below it. */
  function Insert(items: seq<Item>, s: seq<nat>, x: nat): (r: seq<nat>)
    requires InMenu(items, s) && x < |items|
    ensures multiset(r) == multiset(s) + multiset{x}
    ensures InMenu(items, r)
  {
    if s == [] then [x]
    else if Ranked(items, x, s[0]) then [x] + s
    else
      assert s == [s[0]] + s[1..];
      [s[0]] + Insert(items, s[1..], x)
  }

  lemma {:induction false} InsertKeepsRankOrder(items: seq<Item>, s: seq<nat>, x: nat)
    requires PositiveCosts(items) && x < |items|
    requires RankSorted(items, s) && x !in s
    ensures RankSorted(items, Insert(items, s, x))
    decreases |s|
  {
    if s != [] {
      if Ranked(items, x, s[0]) {
        forall q | 0 <= q < |s|
          ensures Ranked(items, x, s[q])
        {
          if q > 0 {
            RankedTransitive(items, x, s[0], s[q]);
          }
        }
      } else {
        RankedTotal(items, x, s[0]);
        InsertKeepsRankOrder(items, s[1..], x);
        var r := Insert(items, s[1..], x);
        forall q | 0 <= q < |r|
          ensures Ranked(items, s[0], r[q])
        {
          assert r[q] in multiset(r);
          if r[q] != x {
            assert r[q] in s[1..];
          }
        }
      }
    }
  }

  /** Sorts `s` by rank, inserting its entries one at a time in their given order. */
  function SortByRank(items: seq<Item>, s: seq<nat>): (r: seq<nat>)
    requires InMenu(items, s)
    ensures multiset(r) == multiset(s)
    ensures InMenu(items, r)
    decreases |s|
  {
    if s == [] then []
    else
      var init := s[..|s| - 1];
      assert s == init + [s[|s| - 1]];
      Insert(items, SortByRank(items, init), s[|s| - 1])
  }

  lemma {:induction false} SortByRankSorted(items: seq<Item>, s: seq<nat>)
    requires PositiveCosts(items) && InMenu(items, s) && Distinct(s)
    ensures RankSorted(items, SortByRank(items, s))
    decreases |s|
  {
    if s != [] {
      var init := s[..|s| - 1];
      var x := s[|s| - 1];
      SortByRankSorted(items, init);
      assert x !in init;
      assert x !in multiset(SortByRank(items, init));
      InsertKeepsRankOrder(items, SortByRank(items, init), x);
    }
  }

  /** The dishes of the first `n` whose cost fits the budget, in menu order. */
  function Affordable(items: seq<Item>, budget: int, n: nat): (r: seq<nat>)
    requires n <= |items|
    ensures InMenu(items, r)
    ensures forall k: nat :: k in r <==> k < n && items[k].cost <= budget
    ensures forall p, q :: 0 <= p < q < |r| ==> r[p] < r[q]
  {
    if n == 0 then []
    else
      var init := Affordable(items, budget, n - 1);
      assert forall p :: 0 <= p < |init| ==> init[p] in init;
      init + (if items[n - 1].cost <= budget then [n - 1] else [])
  }

  /** The order in which the greedy pass considers the affordable dishes. */
  function GreedyOrder(items: seq<Item>, budget: int): (r: seq<nat>)
    ensures InMenu(items, r)
  {
    SortByRank(items, Affordable(items, budget, |items|))
  }

  /**
   * The greedy pass looks at every affordable dish exactly once, by
   * non-increasing (calories per cost, calories), ties in menu order.
   */
  lemma GreedyOrderIsRanked(items: seq<Item>, budget: int)
    requires PositiveCosts(items)
    ensures RankSorted(items, GreedyOrder(items, budget))
    ensures Distinct(GreedyOrder(items, budget))
    ensures forall k: nat :: k in GreedyOrder(items, budget) <==> k < |items| && items[k].cost <= budget
  {
    var a := Affordable(items, budget, |items|);
    SortByRankSorted(items, a);
    var r := GreedyOrder(items, budget);
    forall k
      ensures k in r <==> k in a
    {
      assert k in r <==> k in multiset(r);
    }
    forall p, q | 0 <= p < q < |r|
      ensures r[p] != r[q]
    {
      RankedIrreflexive(items, r[p]);
    }
  }

  // ---------------------------------------------------------------------------
  // The greedy pass
  // ---------------------------------------------------------------------------

  /** Takes each dish of `order` in turn if it still fits next to what is already spent. */
  function TakeEachThatFits(items: seq<Item>, budget: int, order: seq<nat>, acc: Plan): (r: Plan)
    requires InMenu(items, order) && InMenu(items, acc.chosen)
    ensures InMenu(items, r.chosen)
    ensures acc.spent <= budget ==> r.spent <= budget
    ensures Sums(items, acc) ==> Sums(items, r)
    ensures |acc.chosen| <= |r.chosen| && r.chosen[..|acc.chosen|] == acc.chosen
    ensures forall k :: k in r.chosen ==> k in acc.chosen || k in order
    ensures Fresh(acc.chosen, order) ==> Distinct(r.chosen)
    decreases |order|
  {
    if order == [] then acc
    else
      var i := order[0];
      var next := Consider(items, budget, acc, i);
      FreshAfterConsider(items, budget, acc, order);
      TakeEachThatFits(items, budget, order[1..], next)
  }

  /** The plan's totals are the sums over its chosen dishes. */
  ghost predicate Sums(items: seq<Item>, plan: Plan)
    requires InMenu(items, plan.chosen)
  {
    plan.spent == Total(items, plan.chosen, Cost) && plan.calories == Total(items, plan.chosen, Calories)
  }

  /** Neither list repeats a dish and no dish chosen so far is still to be considered. */
  ghost predicate Fresh(chosen: seq<nat>, order: seq<nat>)
  {
    Distinct(chosen) && Distinct(order) && forall k :: k in chosen ==> k !in order
  }

  /** One turn of the greedy loop: dish `i` is taken when it still fits. */
  function Consider(items: seq<Item>, budget: int, acc: Plan, i: nat): (r: Plan)
    requires InMenu(items, acc.chosen) && i < |items|
    ensures InMenu(items, r.chosen)
    ensures acc.spent <= budget ==> r.spent <= budget
    ensures Sums(items, acc) ==> Sums(items, r)
    ensures r.chosen == acc.chosen || r.chosen == acc.chosen + [i]
    ensures r.chosen == acc.chosen + [i] <==> acc.spent + items[i].cost <= budget
  {
    if acc.spent + items[i].cost <= budget then
      TotalAppend(items, acc.chosen, i, Cost);
      TotalAppend(items, acc.chosen, i, Calories);
      Plan(acc.calories + items[i].calories, acc.spent + items[i].cost, acc.chosen + [i])
    else acc
  }

  lemma FreshAfterConsider(items: seq<Item>, budget: int, acc: Plan, order: seq<nat>)
    requires InMenu(items, acc.chosen) && InMenu(items, order) && order != []
    ensures var next := Consider(items, budget, acc, order[0]);
      (next.chosen[..|acc.chosen|] == acc.chosen) &&
      (Fresh(acc.chosen, order) ==> Fresh(next.chosen, order[1..]))
  {
    var i := order[0];
    var next := Consider(items, budget, acc, i);
    assert (acc.chosen + [i])[..|acc.chosen|] == acc.chosen;
    if Fresh(acc.chosen, order) {
      assert order == [i] + order[1..];
      assert i !in order[1..];
      assert forall k :: k in order[1..] ==> k in order;
      if next.chosen == acc.chosen + [i] {
        assert i !in acc.chosen;
      }
    }
  }

  /** The entries of `s` that occur in `pool`, in the order of `s`. */
  function Among(s: seq<nat>, pool: seq<nat>): (r: seq<nat>)
    ensures |r| <= |s|
    ensures forall x :: x in r <==> x in s && x in pool
  {
    if s == [] then [] else (if s[0] in pool then [s[0]] else []) + Among(s[1..], pool)
  }

  lemma {:induction false} AmongInMenu(items: seq<Item>, s: seq<nat>, pool: seq<nat>)
    requires InMenu(items, s)
    ensures InMenu(items, Among(s, pool))
  {
    var r := Among(s, pool);
    forall k | 0 <= k < |r|
      ensures r[k] < |items|
    {
      assert r[k] in r;
    }
  }

  /** Two pools that agree on the entries of `s` pick the same entries. */
  lemma {:induction false} AmongSamePool(s: seq<nat>, a: seq<nat>, b: seq<nat>)
    requires forall x :: x in s ==> (x in a <==> x in b)
    ensures Among(s, a) == Among(s, b)
    decreases |s|
  {
    if s != [] {
      assert forall x :: x in s[1..] ==> x in s;
      AmongSamePool(s[1..], a, b);
    }
  }

  /** What the dishes of `taken` that come before position `p` of `order` cost together. */
  ghost function SpentBefore(items: seq<Item>, order: seq<nat>, taken: seq<nat>, p: nat): int
    requires InMenu(items, order) && p <= |order|
  {
    AmongInMenu(items, order[..p], taken);
    Total(items, Among(order[..p], taken), Cost)
  }

  /**
   * The rule of the greedy loop, stated for the whole pass: starting from a
   * spend of `spent0`, `taken` lists dishes of `order` in the order's order,
   * and the dish at position `p` is taken exactly when it still fits next to
   * the dishes taken before it.
   */
  ghost predicate TakesEachThatFits(items: seq<Item>, budget: int, order: seq<nat>, spent0: int, taken: seq<nat>)
    requires InMenu(items, order)
  {
    taken == Among(order, taken) &&
    forall p :: 0 <= p < |order| ==>
      (order[p] in taken <==> spent0 + SpentBefore(items, order, taken, p) + items[order[p]].cost <= budget)
  }

  /** The greedy loop follows its rule: what it appends to `acc` is what the rule takes. */
  lemma {:induction false} TakeEachThatFitsRule(items: seq<Item>, budget: int, order: seq<nat>, acc: Plan)
    requires InMenu(items, order) && InMenu(items, acc.chosen) && Distinct(order)
    ensures var r := TakeEachThatFits(items, budget, order, acc);
      TakesEachThatFits(items, budget, order, acc.spent, r.chosen[|acc.chosen|..])
    decreases |order|
  {
    var r := TakeEachThatFits(items, budget, order, acc);
    if order == [] {
      assert r.chosen[|acc.chosen|..] == [];
    } else {
      var i, tail := order[0], order[1..];
      var next := Consider(items, budget, acc, i);
      var b := next.chosen == acc.chosen + [i];
      ConsiderSpends(items, budget, acc, i);
      DistinctTail(items, order);
      assert r == TakeEachThatFits(items, budget, tail, next);
      TakeEachThatFitsRule(items, budget, tail, next);
      TakenSplit(r.chosen, acc.chosen, next.chosen, i, b);
      RuleCons(items, budget, order, acc.spent, next.spent, r.chosen[|acc.chosen|..], r.chosen[|next.chosen|..], b);
    }
  }

  /** Taking dish `i` adds its cost to the spend; leaving it keeps the spend. */
  lemma ConsiderSpends(items: seq<Item>, budget: int, acc: Plan, i: nat)
    requires InMenu(items, acc.chosen) && i < |items|
    ensures var next := Consider(items, budget, acc, i);
      next.spent == acc.spent + (if next.chosen == acc.chosen + [i] then items[i].cost else 0)
  {
  }

  /** The tail of a repeat-free order of menu positions is one too, and misses the head. */
  lemma DistinctTail(items: seq<Item>, order: seq<nat>)
    requires InMenu(items, order) && Distinct(order) && order != []
    ensures InMenu(items, order[1..]) && Distinct(order[1..]) && order[0] !in order[1..]
  {
  }

  /** The rule for `order` follows from the rule for its tail once the first dish has been decided. */
  lemma RuleCons(items: seq<Item>, budget: int, order: seq<nat>, spent0: int, spent1: int,
                 taken: seq<nat>, takenN: seq<nat>, b: bool)
    requires InMenu(items, order) && order != [] && order[0] !in order[1..]
    requires b <==> spent0 + items[order[0]].cost <= budget
    requires spent1 == spent0 + (if b then items[order[0]].cost else 0)
    requires taken == (if b then [order[0]] else []) + takenN
    requires TakesEachThatFits(items, budget, order[1..], spent1, takenN)
    ensures TakesEachThatFits(items, budget, order, spent0, taken)
  {
    var i := order[0];
    TakenInOrder(order, taken, takenN, b);
    forall p | 0 <= p < |order|
      ensures order[p] in taken <==> spent0 + SpentBefore(items, order, taken, p) + items[order[p]].cost <= budget
    {
      if p > 0 {
        var tail := order[1..];
        assert order[p] == tail[p - 1] && order[p] != i;
        assert tail[p - 1] in takenN <==> spent1 + SpentBefore(items, tail, takenN, p - 1) + items[tail[p - 1]].cost <= budget;
        SpentBeforeStep(items, order, taken, takenN, p, b);
      } else {
        assert order[..0] == [];
      }
    }
  }

  /** Putting the first dish, if taken, before dishes listed in the tail's order lists them in the whole order's order. */
  lemma TakenInOrder(order: seq<nat>, taken: seq<nat>, takenN: seq<nat>, b: bool)
    requires order != [] && order[0] !in order[1..]
    requires taken == (if b then [order[0]] else []) + takenN
    requires takenN == Among(order[1..], takenN)
    ensures taken == Among(order, taken)
    ensures order[0] !in takenN
    ensures forall x :: x in order[1..] ==> (x in taken <==> x in takenN)
  {
    var i, tail := order[0], order[1..];
    assert i !in takenN;
    forall x | x in tail
      ensures x in taken <==> x in takenN
    {
      assert x != i;
    }
    AmongSamePool(tail, taken, takenN);
    assert (i in taken) == b;
    assert order == [i] + tail;
    assert Among(order, taken) == (if b then [i] else []) + Among(tail, taken);
  }

  /** What the pass appends to `acc` is the dish considered first, if it fit, then what it appends to `next`. */
  lemma TakenSplit(chosen: seq<nat>, acc: seq<nat>, next: seq<nat>, i: nat, b: bool)
    requires b <==> next == acc + [i]
    requires next == acc || next == acc + [i]
    requires |next| <= |chosen| && chosen[..|next|] == next
    ensures chosen[|acc|..] == (if b then [i] else []) + chosen[|next|..]
  {
    if b {
      assert chosen[|acc|..] == [chosen[|acc|]] + chosen[|next|..];
    }
  }

  /** Past the first dish, the spend before position `p` is the first dish's cost, if taken, plus the spend of the rest. */
  lemma SpentBeforeStep(items: seq<Item>, order: seq<nat>, taken: seq<nat>, takenN: seq<nat>, p: nat, b: bool)
    requires InMenu(items, order) && 0 < p <= |order|
    requires order[0] !in order[1..] && order[0] !in takenN
    requires taken == (if b then [order[0]] else []) + takenN
    requires forall x :: x in order[1..] ==> (x in taken <==> x in takenN)
    ensures SpentBefore(items, order, taken, p) ==
      (if b then items[order[0]].cost else 0) + SpentBefore(items, order[1..], takenN, p - 1)
  {
    var i := order[0];
    var rest := order[1..][..p - 1];
    assert order[..p] == [i] + rest;
    assert (i in taken) == b;
    assert forall x :: x in rest ==> x in order[1..];
    AmongSamePool(rest, taken, takenN);
    assert Among(order[..p], taken) == (if b then [i] else []) + Among(rest, taken);
    AmongInMenu(items, rest, takenN);
    if b {
      TotalConcat(items, [i], Among(rest, takenN), Cost);
      TotalSingle(items, i, Cost);
    } else {
      assert [] + Among(rest, taken) == Among(rest, taken);
    }
  }

  /**
   * greedy_algorithm. For a positive budget the chosen dishes are those of
   * `GreedyOrder` that still fit when their turn comes, listed in that order.
   */
  function Greedy(items: seq<Item>, budget: int): (r: Plan)
    requires budget > 0 ==> PositiveCosts(items)
    ensures budget <= 0 ==> r == NoPlan
    ensures r.spent <= budget || budget <= 0
    ensures InMenu(items, r.chosen) && Distinct(r.chosen)
    ensures r.spent == Total(items, r.chosen, Cost)
    ensures r.calories == Total(items, r.chosen, Calories)
    ensures forall k :: k in r.chosen ==> items[k].cost <= budget
    ensures budget > 0 ==> TakesEachThatFits(items, budget, GreedyOrder(items, budget), 0, r.chosen)
  {
    if budget <= 0 then NoPlan
    else
      GreedyStart(items, budget);
      TakeEachThatFitsRule(items, budget, GreedyOrder(items, budget), NoPlan);
      TakeEachThatFits(items, budget, GreedyOrder(items, budget), NoPlan)
  }

  /** What the greedy pass starts from: an order of affordable dishes without repeats, and the empty plan. */
  lemma GreedyStart(items: seq<Item>, budget: int)
    requires budget > 0 && PositiveCosts(items)
    ensures InMenu(items, GreedyOrder(items, budget)) && Fresh(NoPlan.chosen, GreedyOrder(items, budget))
    ensures forall k :: k in GreedyOrder(items, budget) ==> items[k].cost <= budget
    ensures Sums(items, NoPlan)
  {
    var order := GreedyOrder(items, budget);
    GreedyOrderIsRanked(items, budget);
    forall j | 0 <= j < |order|
      ensures order[j] < |items|
    {
      assert order[j] in order;
    }
  }

  // ---------------------------------------------------------------------------
  // The dynamic programming table
  // ---------------------------------------------------------------------------

  /**
   * The recurrence of the table: `Best(items, i, b)` is the entry `dp[i][b]`,
   * the most calories from the first `i` dishes within cost `b`
   * (`BestIsUpperBound` and `BestAttained`).
   */
  function Best(items: seq<Item>, i: nat, b: nat): int
    requires i <= |items|
  {
    if i == 0 then 0
    else
      var skip := Best(items, i - 1, b);
      var c := items[i - 1].cost;
      if c <= b && Best(items, i - 1, b - c) + items[i - 1].calories > skip
      then Best(items, i - 1, b - c) + items[i - 1].calories
      else skip
  }

  /** Adding a dish to the menu never lowers a table entry. */
  lemma BestGrowsWithItems(items: seq<Item>, i: nat, b: nat)
    requires 0 < i <= |items|
    ensures Best(items, i, b) >= Best(items, i - 1, b)
  {
  }

  /** No feasible choice among the first `i` dishes beats `Best(items, i, b)`. */
  lemma {:induction false} BestIsUpperBound(items: seq<Item>, i: nat, b: nat, picks: seq<nat>)
    requires NonNegativeCosts(items) && i <= |items|
    requires Feasible(items, b, picks) && forall j :: 0 <= j < |picks| ==> picks[j] < i
    ensures Total(items, picks, Calories) <= Best(items, i, b)
    decreases i
  {
    if picks == [] {
      BestNonNegative(items, i, b);
    } else if i - 1 !in picks {
      forall j | 0 <= j < |picks|
        ensures picks[j] < i - 1
      {
        assert picks[j] in picks;
      }
      BestIsUpperBound(items, i - 1, b, picks);
    } else {
      var k :| 0 <= k < |picks| && picks[k] == i - 1;
      var rest := RemoveAt(picks, k);
      TotalRemove(items, picks, k, Cost);
      TotalRemove(items, picks, k, Calories);
      TotalNonNegative(items, rest);
      RemoveAtFacts(picks, k);
      var c := items[i - 1].cost;
      BestIsUpperBound(items, i - 1, b - c, rest);
    }
  }

  /** Some feasible choice among the first `i` dishes reaches `Best(items, i, b)`: the entry is attained, not only a bound. */
  lemma {:induction false} BestAttained(items: seq<Item>, i: nat, b: nat) returns (picks: seq<nat>)
    requires NonNegativeCosts(items) && i <= |items|
    ensures Feasible(items, b, picks) && forall j :: 0 <= j < |picks| ==> picks[j] < i
    ensures Total(items, picks, Calories) == Best(items, i, b)
    decreases i
  {
    if i == 0 {
      picks := [];
    } else {
      var c := items[i - 1].cost;
      if c <= b && Best(items, i - 1, b - c) + items[i - 1].calories > Best(items, i - 1, b) {
        var rest := BestAttained(items, i - 1, b - c);
        picks := rest + [i - 1];
        TotalAppend(items, rest, i - 1, Cost);
        TotalAppend(items, rest, i - 1, Calories);
        assert forall j :: 0 <= j < |rest| ==> picks[j] == rest[j];
        assert Distinct(picks);
      } else {
        picks := BestAttained(items, i - 1, b);
        forall j | 0 <= j < |picks|
          ensures picks[j] < i
        {
        }
      }
    }
  }

  lemma {:induction false} BestNonNegative(items: seq<Item>, i: nat, b: nat)
    requires i <= |items|
    ensures Best(items, i, b) >= 0
  {
    if i > 0 {
      BestNonNegative(items, i - 1, b);
    }
  }

  /** The optimum the table reports: nothing for a non-positive budget. */
  function Optimum(items: seq<Item>, budget: int): int
  {
    if budget <= 0 then 0 else Best(items, |items|, budget)
  }

  /** One row of the table: the entries for the first `i` dishes, from the row for the first `i - 1`. */
  method FillRow(items: seq<Item>, i: nat, prev: seq<int>, budget: nat) returns (row: seq<int>)
    requires NonNegativeCosts(items)
    requires 0 < i <= |items| && |prev| == budget + 1
    requires forall b :: 0 <= b <= budget ==> prev[b] == Best(items, i - 1, b)
    ensures |row| == budget + 1
    ensures forall b :: 0 <= b <= budget ==> row[b] == Best(items, i, b)
  {
    var cost, calories := items[i - 1].cost, items[i - 1].calories;
    row := [];
    var b := 0;
    while b <= budget
      invariant 0 <= b <= budget + 1 && |row| == b
      invariant forall b' :: 0 <= b' < b ==> row[b'] == Best(items, i, b')
    {
      var best := prev[b];
      if cost <= b {
        var candidate := prev[b - cost] + calories;
        if candidate > best {
          best := candidate;
        }
      }
      row := row + [best];
      b := b + 1;
    }
  }

  /** The whole table, `n + 1` rows of `budget + 1` entries. */
  method FillTable(items: seq<Item>, budget: nat) returns (dp: seq<seq<int>>)
    requires NonNegativeCosts(items)
    ensures |dp| == |items| + 1
    ensures forall i :: 0 <= i <= |items| ==> |dp[i]| == budget + 1
    ensures forall i, b :: 0 <= i <= |items| && 0 <= b <= budget ==> dp[i][b] == Best(items, i, b)
  {
    dp := [seq(budget + 1, _ => 0)];
    var i := 1;
    while i <= |items|
      invariant 1 <= i <= |items| + 1 && |dp| == i
      invariant forall i' :: 0 <= i' < i ==> |dp[i']| == budget + 1
      invariant forall i', b :: 0 <= i' < i && 0 <= b <= budget ==> dp[i'][b] == Best(items, i', b)
    {
      var row := FillRow(items, i, dp[i - 1], budget);
      ghost var before := dp;
      dp := dp + [row];
      assert forall i' :: 0 <= i' < i ==> dp[i'] == before[i'];
      assert dp[i] == row;
      i := i + 1;
    }
  }

  /** One step of the walk back: dish `i - 1` is taken exactly when its row changed the entry. */
  lemma WalkBackStep(items: seq<Item>, i: nat, b: nat)
    requires NonNegativeCosts(items) && 0 < i <= |items|
    ensures Best(items, i, b) != Best(items, i - 1, b) ==>
      items[i - 1].cost <= b &&
      Best(items, i, b) == Best(items, i - 1, b - items[i - 1].cost) + items[i - 1].calories
  {
  }

  lemma TotalAppend(items: seq<Item>, picks: seq<nat>, k: nat, m: Measure)
    requires InMenu(items, picks) && k < |items|
    ensures InMenu(items, picks + [k])
    ensures Total(items, picks + [k], m) == Total(items, picks, m) + Amount(items[k], m)
  {
    assert (picks + [k])[..|picks|] == picks;
  }

  /**
   * The state of the walk back at row `i` with remaining budget `b`: the
   * dishes collected so far come from rows above `i`, last dish first, and
   * together with the entry `dp[i][b]` they account for the optimum.
   */
  ghost predicate Walked(items: seq<Item>, budget: nat, i: nat, b: nat, chosen: seq<nat>)
  {
    i <= |items| && b <= budget && InMenu(items, chosen) &&
    (forall k :: k in chosen ==> i <= k < |items|) &&
    Decreasing(chosen) &&
    Best(items, |items|, budget) == Best(items, i, b) + Total(items, chosen, Calories) &&
    Total(items, chosen, Cost) + b == budget
  }

  lemma WalkTake(items: seq<Item>, budget: nat, i: nat, b: nat, chosen: seq<nat>)
    requires NonNegativeCosts(items) && Walked(items, budget, i, b, chosen)
    requires 0 < i && Best(items, i, b) != Best(items, i - 1, b)
    ensures items[i - 1].cost <= b
    ensures Walked(items, budget, i - 1, b - items[i - 1].cost, chosen + [i - 1])
  {
    WalkBackStep(items, i, b);
    TotalAppend(items, chosen, i - 1, Cost);
    TotalAppend(items, chosen, i - 1, Calories);
    AppendBelow(chosen, i - 1, |items|);
  }

  ghost predicate Decreasing(s: seq<nat>)
  {
    forall p, q :: 0 <= p < q < |s| ==> s[p] > s[q]
  }

  /** Appending a position below all collected ones keeps the list strictly decreasing. */
  lemma AppendBelow(s: seq<nat>, x: nat, n: nat)
    requires x < n && Decreasing(s) && forall k :: k in s ==> x < k < n
    ensures Decreasing(s + [x])
    ensures forall k :: k in s + [x] ==> x <= k < n
  {
    assert forall p :: 0 <= p < |s| ==> s[p] in s;
  }

  lemma WalkSkip(items: seq<Item>, budget: nat, i: nat, b: nat, chosen: seq<nat>)
    requires Walked(items, budget, i, b, chosen)
    requires 0 < i && Best(items, i, b) == Best(items, i - 1, b)
    ensures Walked(items, budget, i - 1, b, chosen)
  {
  }

  /**
   * Walks the table back from `dp[n][budget]`, collecting the dishes whose
   * row changed the entry, last dish first.
   */
  method WalkBack(items: seq<Item>, budget: nat, dp: seq<seq<int>>) returns (chosen: seq<nat>)
    requires NonNegativeCosts(items)
    requires |dp| == |items| + 1
    requires forall i :: 0 <= i <= |items| ==> |dp[i]| == budget + 1
    requires forall i, b :: 0 <= i <= |items| && 0 <= b <= budget ==> dp[i][b] == Best(items, i, b)
    ensures InMenu(items, chosen)
    ensures forall p, q :: 0 <= p < q < |chosen| ==> chosen[p] > chosen[q]
    ensures Total(items, chosen, Calories) == Best(items, |items|, budget)
    ensures Total(items, chosen, Cost) <= budget
  {
    chosen := [];
    var b: nat := budget;
    var i: nat := |items|;
    while i > 0
      invariant Walked(items, budget, i, b, chosen)
    {
      if dp[i][b] != dp[i - 1][b] {
        WalkTake(items, budget, i, b, chosen);
        chosen := chosen + [i - 1];
        b := b - items[i - 1].cost;
      } else {
        WalkSkip(items, budget, i, b, chosen);
      }
      i := i - 1;
    }
  }

  /**
   * dynamic_programming: fills the table, walks it back and reverses the
   * collected dishes into menu order.
   */
  method DynamicProgramming(items: seq<Item>, budget: int) returns (r: Plan)
    requires budget > 0 ==> NonNegativeCosts(items)
    ensures budget <= 0 ==> r == NoPlan
    ensures r.calories == Optimum(items, budget)
    ensures budget > 0 ==> Feasible(items, budget, r.chosen)
    ensures InMenu(items, r.chosen)
    ensures r.calories == Total(items, r.chosen, Calories)
    ensures r.spent == Total(items, r.chosen, Cost)
    ensures forall p, q :: 0 <= p < q < |r.chosen| ==> r.chosen[p] < r.chosen[q]
    ensures budget > 0 ==>
      forall picks :: Feasible(items, budget, picks) ==> Total(items, picks, Calories) <= r.calories
  {
    if budget <= 0 {
      return NoPlan;
    }
    var dp := FillTable(items, budget);
    var walked := WalkBack(items, budget, dp);
    TotalReverse(items, walked, Cost);
    TotalReverse(items, walked, Calories);
    var chosen := Reverse(walked);
    forall picks | Feasible(items, budget, picks)
      ensures Total(items, picks, Calories) <= Best(items, |items|, budget)
    {
      forall j | 0 <= j < |picks|
        ensures picks[j] < |items|
      {
      }
      BestIsUpperBound(items, |items|, budget, picks);
    }
    r := Plan(dp[|items|][budget], Total(items, chosen, Cost), chosen);
  }

  /** The greedy total never exceeds the optimum the table computes. */
  lemma GreedyNeverBeatsOptimum(items: seq<Item>, budget: int)
    requires budget > 0 ==> PositiveCosts(items)
    ensures Greedy(items, budget).calories <= Optimum(items, budget)
  {
    if budget > 0 {
      var g := Greedy(items, budget);
      assert NonNegativeCosts(items);
      BestIsUpperBound(items, |items|, budget, g.chosen);
    }
  }
}
