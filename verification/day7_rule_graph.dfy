/** Day 7: the bag-containment graph (`src/challenge/day7/rule_graph.rs`).

    The source keeps a `petgraph` `DiGraphMap` from bag to bag, weighted by
    how many of the target bag the source bag holds. Here the graph is a map
    from each node to its outgoing edges, at most one per target. */
module RuleGraph {
  import opened Wrappers

  type Bag = string

  datatype Edge = Edge(target: Bag, count: nat)

  type Graph = map<Bag, seq<Edge>>

  // ---------------------------------------------------------------------
  // Edge lists
  // ---------------------------------------------------------------------

  /** The count on the edge to `t`, if there is one. */
  function CountOf(edges: seq<Edge>, t: Bag): (r: Option<nat>)
    ensures r.Some? <==> exists i | 0 <= i < |edges| :: edges[i].target == t
    ensures r.Some? ==> exists i | 0 <= i < |edges| :: edges[i] == Edge(t, r.value)
    decreases |edges|
  {
    if edges == [] then None
    else if edges[0].target == t then Some(edges[0].count)
    else
      var r := CountOf(edges[1..], t);
      assert forall i | 1 <= i < |edges| :: edges[i] == edges[1..][i - 1];
      r
  }

  predicate DistinctTargets(edges: seq<Edge>) {
    forall i, j | 0 <= i < j < |edges| :: edges[i].target != edges[j].target
  }

  /** `add_edge` on one node's edge list: the weight of an existing edge is
      replaced in place, a new edge goes at the end. */
  function SetEdge(edges: seq<Edge>, t: Bag, n: nat): (r: seq<Edge>)
    ensures forall u :: CountOf(r, u) == if u == t then Some(n) else CountOf(edges, u)
    ensures DistinctTargets(edges) ==> DistinctTargets(r)
    ensures forall i | 0 <= i < |r| :: r[i].target == t || exists k | 0 <= k < |edges| :: edges[k].target == r[i].target
    decreases |edges|
  {
    if edges == [] then [Edge(t, n)]
    else if edges[0].target == t then
      var r := [Edge(t, n)] + edges[1..];
      assert forall i | 1 <= i < |r| :: r[i] == edges[i];
      assert forall u | u != t :: CountOf(r, u) == CountOf(edges[1..], u) == CountOf(edges, u);
      r
    else
      var rest := SetEdge(edges[1..], t, n);
      var r := [edges[0]] + rest;
      assert forall i | 1 <= i < |r| :: r[i] == rest[i - 1];
      assert forall i | 1 <= i < |edges| :: edges[i] == edges[1..][i - 1];
      assert forall u | u != edges[0].target :: CountOf(r, u) == CountOf(rest, u);
      r
  }

  // ---------------------------------------------------------------------
  // Building the graph
  // ---------------------------------------------------------------------

  /** Every target is itself a node, and no node has two edges to the same
      target. */
  predicate WellFormed(g: Graph) {
    forall a | a in g :: DistinctTargets(g[a]) && forall i | 0 <= i < |g[a]| :: g[a][i].target in g
  }

  /** The weight of the edge `a -> b`, if there is one. */
  function Weight(g: Graph, a: Bag, b: Bag): Option<nat> {
    if a in g then CountOf(g[a], b) else None
  }

  /** `Rules::insert`: add both bags as nodes and set the edge between them
      to `count`, replacing an earlier count. */
  function Insert(g: Graph, src: Bag, dst: Bag, count: nat): (r: Graph)
    requires WellFormed(g)
    ensures WellFormed(r)
    ensures r.Keys == g.Keys + {src, dst}
    ensures Weight(r, src, dst) == Some(count)
    ensures forall a, b | a != src || b != dst :: Weight(r, a, b) == Weight(g, a, b)
  {
    var g1 := if dst in g then g else g[dst := []];
    var out := if src in g1 then g1[src] else [];
    var r := g1[src := SetEdge(out, dst, count)];
    assert forall a, b | a != src :: Weight(r, a, b) == Weight(g, a, b);
    r
  }

  /** `Rules::terminal`: add the bag as a node; its edges, if any, stay. */
  function Terminal(g: Graph, bag: Bag): (r: Graph)
    requires WellFormed(g)
    ensures WellFormed(r)
    ensures r.Keys == g.Keys + {bag}
    ensures forall a, b :: Weight(r, a, b) == Weight(g, a, b)
  {
    if bag in g then g else g[bag := []]
  }

  // ---------------------------------------------------------------------
  // Which bags hold a bag
  // ---------------------------------------------------------------------

  predicate IsEdge(g: Graph, a: Bag, b: Bag) {
    Weight(g, a, b).Some?
  }

  /** A chain of bags, each holding the next. */
  predicate Walk(g: Graph, w: seq<Bag>) {
    |w| > 0 && forall i | 0 <= i < |w| - 1 :: IsEdge(g, w[i], w[i + 1])
  }

  /** A bag of colour `a` eventually holds a bag of colour `b` (every bag
      trivially "holds" itself). */
  ghost predicate Holds(g: Graph, a: Bag, b: Bag) {
    exists w :: Walk(g, w) && w[0] == a && w[|w| - 1] == b
  }

  /** The bags, other than `bag`, that eventually hold `bag`. */
  ghost function Ancestors(g: Graph, bag: Bag): set<Bag> {
    set a | a in g && a != bag && Holds(g, a, bag)
  }

  /** The bags with an edge into `x`: its neighbours in the reversed graph. */
  function Parents(g: Graph, x: Bag): (r: set<Bag>)
    ensures forall p :: p in r <==> p in g && IsEdge(g, p, x)
  {
    set p | p in g && IsEdge(g, p, x)
  }

  lemma HoldsStep(g: Graph, p: Bag, x: Bag, bag: Bag)
    requires IsEdge(g, p, x) && Holds(g, x, bag)
    ensures Holds(g, p, bag)
  {
    var w :| Walk(g, w) && w[0] == x && w[|w| - 1] == bag;
    var w' := [p] + w;
    assert forall i | 1 <= i < |w'| - 1 :: w'[i] == w[i - 1] && w'[i + 1] == w[i];
    assert Walk(g, w');
  }

  lemma WalkTail(g: Graph, w: seq<Bag>)
    requires Walk(g, w) && |w| > 1
    ensures Walk(g, w[1..])
  {
    forall i | 0 <= i < |w| - 2
      ensures IsEdge(g, w[1..][i], w[1..][i + 1])
    {
      assert w[1..][i] == w[i + 1] && w[1..][i + 1] == w[i + 2];
    }
  }

  /** A set that holds the end of a walk and every parent of its members
      holds the whole walk. */
  lemma {:induction false} ClosedHoldsWalk(g: Graph, d: set<Bag>, w: seq<Bag>)
    requires Walk(g, w) && w[|w| - 1] in d
    requires forall x, p | x in d && p in Parents(g, x) :: p in d
    ensures w[0] in d
    decreases |w|
  {
    if |w| > 1 {
      WalkTail(g, w);
      ClosedHoldsWalk(g, d, w[1..]);
      assert IsEdge(g, w[0], w[1]);
      assert w[0] in g;
    }
  }

  /** Every bag on the search stack is a node that eventually holds `bag`. */
  ghost predicate OnTheWay(g: Graph, bag: Bag, stack: seq<Bag>) {
    forall i | 0 <= i < |stack| :: stack[i] in g.Keys + {bag} && Holds(g, stack[i], bag)
  }

  /** The inner loop of `Dfs::next`: push every parent of `x` that has not
      been visited yet. */
  method PushParents(g: Graph, bag: Bag, x: Bag, discovered: set<Bag>, stack: seq<Bag>)
    returns (stack': seq<Bag>)
    requires Holds(g, x, bag) && OnTheWay(g, bag, stack)
    ensures OnTheWay(g, bag, stack')
    ensures |stack| <= |stack'| && stack'[..|stack|] == stack
    ensures forall p | p in Parents(g, x) :: p in discovered || p in stack'
  {
    stack' := stack;
    var todo := Parents(g, x);
    while todo != {}
      invariant todo <= Parents(g, x)
      invariant OnTheWay(g, bag, stack')
      invariant |stack| <= |stack'| && stack'[..|stack|] == stack
      invariant forall p | p in Parents(g, x) && p !in todo :: p in discovered || p in stack'
      decreases |todo|
    {
      var p :| p in todo;
      todo := todo - {p};
      if p !in discovered {
        HoldsStep(g, p, x, bag);
        stack' := stack' + [p];
      }
    }
  }

  /** Every parent of a visited bag is visited or waiting on the stack. */
  ghost predicate Frontier(g: Graph, discovered: set<Bag>, stack: seq<Bag>) {
    forall x, p | x in discovered && p in Parents(g, x) :: p in discovered || p in stack
  }

  lemma PopKeeps(stack: seq<Bag>)
    requires |stack| > 0
    ensures forall y | y in stack :: y == stack[|stack| - 1] || y in stack[..|stack| - 1]
  {
    forall y | y in stack
      ensures y == stack[|stack| - 1] || y in stack[..|stack| - 1]
    {
      var k :| 0 <= k < |stack| && stack[k] == y;
      if k < |stack| - 1 {
        assert stack[..|stack| - 1][k] == y;
      }
    }
  }

  lemma PushKeeps(popped: seq<Bag>, stack: seq<Bag>)
    requires |popped| <= |stack| && stack[..|popped|] == popped
    ensures forall y | y in popped :: y in stack
  {
    forall y | y in popped
      ensures y in stack
    {
      var k :| 0 <= k < |popped| && popped[k] == y;
      assert stack[k] == y;
    }
  }

  /** Popping `x` off the stack and visiting it keeps the frontier. */
  lemma FrontierStep(g: Graph, before: set<Bag>, full: seq<Bag>, x: Bag, after: set<Bag>, stack: seq<Bag>)
    requires Frontier(g, before, full)
    requires after == before + {x}
    requires forall y | y in full :: y == x || y in stack
    requires x !in before ==> forall p | p in Parents(g, x) :: p in after || p in stack
    ensures Frontier(g, after, stack)
  {
    forall y, p | y in after && p in Parents(g, y)
      ensures p in after || p in stack
    {
      if y in before {
        assert p in before || p in full;
      }
    }
  }

  /** What the search keeps true between two calls of `Dfs::next`. */
  ghost predicate Searching(g: Graph, bag: Bag, discovered: set<Bag>, stack: seq<Bag>) {
    && discovered <= g.Keys + {bag}
    && OnTheWay(g, bag, stack)
    && (forall x | x in discovered :: Holds(g, x, bag))
    && (bag in discovered || bag in stack)
    && Frontier(g, discovered, stack)
  }

  /** Popping a bag that was visited before changes nothing else. */
  lemma VisitOld(g: Graph, bag: Bag, discovered: set<Bag>, stack: seq<Bag>)
    requires Searching(g, bag, discovered, stack) && stack != []
    requires stack[|stack| - 1] in discovered
    ensures Searching(g, bag, discovered, stack[..|stack| - 1])
  {
    var rest := stack[..|stack| - 1];
    PopKeeps(stack);
    assert OnTheWay(g, bag, rest) by {
      assert forall i | 0 <= i < |rest| :: rest[i] == stack[i];
    }
    FrontierStep(g, discovered, stack, stack[|stack| - 1], discovered, rest);
  }

  /** Visiting a new bag `x` and pushing its unvisited parents keeps the
      search going. */
  lemma VisitNew(g: Graph, bag: Bag, discovered: set<Bag>, stack: seq<Bag>, stack': seq<Bag>)
    requires Searching(g, bag, discovered, stack) && stack != []
    requires stack[|stack| - 1] !in discovered
    requires OnTheWay(g, bag, stack')
    requires forall y | y in stack :: y == stack[|stack| - 1] || y in stack'
    requires forall p | p in Parents(g, stack[|stack| - 1]) :: p in discovered + {stack[|stack| - 1]} || p in stack'
    ensures Searching(g, bag, discovered + {stack[|stack| - 1]}, stack')
  {
    var x := stack[|stack| - 1];
    assert x in g.Keys + {bag} && Holds(g, x, bag);
    FrontierStep(g, discovered, stack, x, discovered + {x}, stack');
  }

  /** One call of `Dfs::next`: pop a bag; if it is new, visit it and push
      its unvisited parents. `counted` tells whether `parents_of` counts it. */
  method Visit(g: Graph, bag: Bag, discovered: set<Bag>, stack: seq<Bag>)
    returns (discovered': set<Bag>, stack': seq<Bag>, counted: bool)
    requires Searching(g, bag, discovered, stack) && stack != []
    ensures Searching(g, bag, discovered', stack')
    ensures |(g.Keys + {bag}) - discovered'| < |(g.Keys + {bag}) - discovered|
      || (discovered' == discovered && |stack'| < |stack|)
    ensures |discovered' - {bag}| == |discovered - {bag}| + (if counted then 1 else 0)
  {
    var x := stack[|stack| - 1];
    if x in discovered {
      VisitOld(g, bag, discovered, stack);
      return discovered, stack[..|stack| - 1], false;
    }
    discovered' := discovered + {x};
    CountVisit(g.Keys + {bag}, discovered, bag, x);
    var popped := stack[..|stack| - 1];
    assert OnTheWay(g, bag, popped) by {
      assert forall i | 0 <= i < |popped| :: popped[i] == stack[i];
    }
    stack' := PushParents(g, bag, x, discovered', popped);
    PopKeeps(stack);
    PushKeeps(popped, stack');
    VisitNew(g, bag, discovered, stack, stack');
    counted := x != bag;
  }

  /** `Rules::parents_of`: a depth-first search from `bag` in the reversed
      graph, counting every bag it visits except `bag` itself. A bag that is
      not in the graph has no parents. */
  method ParentsOf(g: Graph, bag: Bag) returns (c: nat)
    ensures c == |Ancestors(g, bag)|
  {
    var stack := [bag];
    var discovered: set<Bag> := {};
    c := 0;
    assert Holds(g, bag, bag) by {
      assert Walk(g, [bag]);
    }
    while stack != []
      invariant Searching(g, bag, discovered, stack)
      invariant c == |discovered - {bag}|
      decreases |(g.Keys + {bag}) - discovered|, |stack|
    {
      var counted;
      discovered, stack, counted := Visit(g, bag, discovered, stack);
      if counted {
        c := c + 1;
      }
    }
    SearchFindsAncestors(g, bag, discovered);
  }

  /** When the stack runs empty, the visited bags other than `bag` are
      exactly the bags that hold it. */
  lemma SearchFindsAncestors(g: Graph, bag: Bag, discovered: set<Bag>)
    requires discovered <= g.Keys + {bag} && bag in discovered
    requires forall x | x in discovered :: Holds(g, x, bag)
    requires Frontier(g, discovered, [])
    ensures discovered - {bag} == Ancestors(g, bag)
  {
    forall a | a in Ancestors(g, bag)
      ensures a in discovered - {bag}
    {
      var w :| Walk(g, w) && w[0] == a && w[|w| - 1] == bag;
      ClosedHoldsWalk(g, discovered, w);
    }
  }

  /** Visiting a new node shrinks what is left to visit and counts once
      unless it is the start. */
  lemma CountVisit(nodes: set<Bag>, before: set<Bag>, bag: Bag, x: Bag)
    requires x in nodes && x !in before && before <= nodes
    ensures |nodes - (before + {x})| < |nodes - before|
    ensures |(before + {x}) - {bag}| == |before - {bag}| + (if x == bag then 0 else 1)
  {
    assert nodes - (before + {x}) < nodes - before;
    if x == bag {
      assert (before + {x}) - {bag} == before - {bag};
    } else {
      assert (before + {x}) - {bag} == (before - {bag}) + {x};
    }
  }

  // ---------------------------------------------------------------------
  // How many bags a bag holds
  // ---------------------------------------------------------------------

  /** `rank` strictly decreases along every edge: a witness that the graph
      has no cycle, without which `recursive_bags` does not terminate. */
  predicate Ranked(g: Graph, rank: map<Bag, nat>) {
    forall a | a in g :: a in rank && forall i | 0 <= i < |g[a]| ::
      g[a][i].target in rank && rank[g[a][i].target] < rank[a]
  }

  /** A ranked graph has no cycle: a walk of one edge or more never
      returns to where it started. */
  lemma {:induction false} RankedAcyclic(g: Graph, rank: map<Bag, nat>, w: seq<Bag>)
    requires Ranked(g, rank) && Walk(g, w) && |w| > 1
    ensures w[0] in rank && w[|w| - 1] in rank && rank[w[|w| - 1]] < rank[w[0]]
    ensures w[0] != w[|w| - 1]
    decreases |w|
  {
    assert IsEdge(g, w[0], w[1]);
    var i :| 0 <= i < |g[w[0]]| && g[w[0]][i].target == w[1];
    if |w| > 2 {
      WalkTail(g, w);
      RankedAcyclic(g, rank, w[1..]);
    }
  }

  function Decrease(g: Graph, rank: map<Bag, nat>, bag: Bag): nat
    requires Ranked(g, rank)
  {
    if bag in g then rank[bag] else 0
  }

  /** The bags inside one `bag`: for every edge `(bag, t, n)`, `n` bags of
      colour `t` and everything inside them. A bag without edges holds
      nothing. */
  function TotalBags(g: Graph, rank: map<Bag, nat>, bag: Bag): nat
    requires Ranked(g, rank)
    decreases Decrease(g, rank, bag), if bag in g then |g[bag]| + 1 else 0
  {
    if bag !in g then 0 else EdgesTotal(g, rank, bag, 0)
  }

  /** The contribution of the edges `g[src][i..]`. */
  function EdgesTotal(g: Graph, rank: map<Bag, nat>, src: Bag, i: nat): nat
    requires Ranked(g, rank) && src in g && i <= |g[src]|
    decreases Decrease(g, rank, src), |g[src]| - i
  {
    if i == |g[src]| then 0
    else
      var e := g[src][i];
      e.count * (TotalBags(g, rank, e.target) + 1) + EdgesTotal(g, rank, src, i + 1)
  }

  /** The ranking is only a termination witness: any two rankings of the
      same graph give the same totals. */
  lemma {:induction false} TotalBagsRankFree(g: Graph, r1: map<Bag, nat>, r2: map<Bag, nat>, bag: Bag)
    requires Ranked(g, r1) && Ranked(g, r2)
    ensures TotalBags(g, r1, bag) == TotalBags(g, r2, bag)
    decreases Decrease(g, r1, bag), if bag in g then |g[bag]| + 1 else 0
  {
    if bag in g {
      EdgesTotalRankFree(g, r1, r2, bag, 0);
    }
  }

  lemma {:induction false} EdgesTotalRankFree(g: Graph, r1: map<Bag, nat>, r2: map<Bag, nat>, src: Bag, i: nat)
    requires Ranked(g, r1) && Ranked(g, r2) && src in g && i <= |g[src]|
    ensures EdgesTotal(g, r1, src, i) == EdgesTotal(g, r2, src, i)
    decreases Decrease(g, r1, src), |g[src]| - i
  {
    if i < |g[src]| {
      TotalBagsRankFree(g, r1, r2, g[src][i].target);
      EdgesTotalRankFree(g, r1, r2, src, i + 1);
    }
  }

  /** Every cached total is the total of its bag. */
  predicate CacheSound(g: Graph, rank: map<Bag, nat>, cache: map<Bag, nat>)
    requires Ranked(g, rank)
  {
    forall k | k in cache :: cache[k] == TotalBags(g, rank, k)
  }

  /** `recursive_bags`: the same total, memoised. A cached bag answers from
      the cache; otherwise the edges are summed from left to right and the
      total is cached after the recursive calls. */
  method RecursiveBags(g: Graph, rank: map<Bag, nat>, bag: Bag, cache: map<Bag, nat>)
    returns (total: nat, cache': map<Bag, nat>)
    requires Ranked(g, rank) && CacheSound(g, rank, cache)
    ensures total == TotalBags(g, rank, bag)
    ensures CacheSound(g, rank, cache') && cache.Keys <= cache'.Keys && bag in cache'
    decreases Decrease(g, rank, bag)
  {
    if bag in cache {
      return cache[bag], cache;
    }
    total := 0;
    cache' := cache;
    var edges := if bag in g then g[bag] else [];
    for i := 0 to |edges|
      invariant CacheSound(g, rank, cache') && cache.Keys <= cache'.Keys
      invariant bag in g ==> total + EdgesTotal(g, rank, bag, i) == EdgesTotal(g, rank, bag, 0)
      invariant bag !in g ==> total == 0
    {
      var e := edges[i];
      var inner;
      inner, cache' := RecursiveBags(g, rank, e.target, cache');
      total := total + e.count * (inner + 1);
    }
    if bag in g {
      assert EdgesTotal(g, rank, bag, |g[bag]|) == 0;
      assert TotalBags(g, rank, bag) == EdgesTotal(g, rank, bag, 0);
    }
    assert total == TotalBags(g, rank, bag);
    cache' := cache'[bag := total];
  }

  /** `Rules::total_bags`: start with an empty cache. */
  method TotalBagsOf(g: Graph, rank: map<Bag, nat>, bag: Bag) returns (total: nat)
    requires Ranked(g, rank)
    ensures total == TotalBags(g, rank, bag)
  {
    var cache;
    total, cache := RecursiveBags(g, rank, bag, map[]);
  }
}
