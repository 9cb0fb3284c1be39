/** The A* shortest-path search over the forward edge lists of the graph
    (AStar.java): a fringe of path items ordered by estimated total cost, a
    visited set, one back link per visited stop, and a straight-line
    heuristic that is either a distance or that distance over the train
    speed. */
module ShortestPath {
  import opened Entities
  import opened Paths
  import opened PathItems
  import opened Network

  /** The way cost is measured: travel time or distance. */
  datatype Metric = Time | Distance

  /** The answer of a search. findShortestPath answers both a missing endpoint
      and an unreachable goal with an absent path; the model tells them apart. */
  datatype Outcome = MissingEndpoint | Unreachable | Path(edges: seq<Edge>)

  /** The metric selected by the caller's string: "time" selects time and any
      other string selects distance. */
  function MetricOf(s: string): (m: Metric)
    ensures m == Time <==> s == "time"
    ensures m == Distance <==> s != "time"
  {
    if s == "time" then Time else Distance
  }

  /** The estimate of the remaining cost from `current` to `goal`: the
      straight-line distance, or under the time metric that distance covered
      at train speed. */
  function Heuristic(geo: Geometry, m: Metric, current: StopId, goal: StopId): nat
  {
    match m
    case Distance => geo.distanceTo(current, goal)
    case Time => geo.distanceTo(current, goal) / geo.trainSpeed
  }

  /** The time estimate never exceeds the distance estimate, since the train
      speed is at least one unit per second. */
  lemma TimeEstimateBelowDistance(geo: Geometry, current: StopId, goal: StopId)
    ensures Heuristic(geo, Time, current, goal) <= Heuristic(geo, Distance, current, goal)
  {
    DivBelow(geo.distanceTo(current, goal), geo.trainSpeed);
  }

  lemma {:induction false} MulGrows(q: nat, b: nat)
    requires b >= 1
    ensures q <= q * b
    decreases b
  {
    if b > 1 {
      MulGrows(q, b - 1);
      assert q * b == q * (b - 1) + q;
    }
  }

  /** Whole division by a positive divisor never increases a natural number. */
  lemma DivBelow(a: nat, b: nat)
    requires b >= 1
    ensures a / b <= a
  {
    var q := a / b;
    assert q * b + a % b == a;
    MulGrows(q, b);
  }

  /** The cost of traversing one edge under the metric. */
  function EdgeCost(m: Metric, e: Edge): int
  {
    match m
    case Distance => e.distance
    case Time => e.time
  }

  /** The cost of a sequence of edges: the sum of its edge costs. */
  function Cost(m: Metric, p: seq<Edge>): int
    decreases |p|
  {
    if p == [] then 0 else EdgeCost(m, p[0]) + Cost(m, p[1..])
  }

  /** Cost is additive over concatenation. */
  lemma {:induction false} CostAppend(m: Metric, a: seq<Edge>, b: seq<Edge>)
    ensures Cost(m, a + b) == Cost(m, a) + Cost(m, b)
    decreases |a|
  {
    if a == [] {
      assert a + b == b;
    } else {
      assert (a + b)[1..] == a[1..] + b;
      CostAppend(m, a[1..], b);
    }
  }

  /** The cost of a path splits around any one of its edges. */
  lemma CostAround(m: Metric, p: seq<Edge>, i: nat)
    requires i < |p|
    ensures Cost(m, p) == Cost(m, p[..i]) + EdgeCost(m, p[i]) + Cost(m, p[i + 1..])
  {
    assert p == p[..i] + p[i..];
    CostAppend(m, p[..i], p[i..]);
    assert p[i..][1..] == p[i + 1..];
  }

  /** One search: the forward lists of the graph, its size, its geometry,
      the metric and the two endpoints. */
  datatype Problem = Problem(fw: seq<seq<Edge>>, n: nat, geo: Geometry, metric: Metric,
                             start: StopId, goal: StopId)

  /** The graph's forward lists are well formed and both endpoints are stops. */
  ghost predicate ProblemOk(pb: Problem)
  {
    Outgoing(pb.fw, pb.n) && pb.start < pb.n && pb.goal < pb.n
  }

  function H(pb: Problem, v: StopId): nat
  {
    Heuristic(pb.geo, pb.metric, v, pb.goal)
  }

  function C(pb: Problem, e: Edge): int
  {
    EdgeCost(pb.metric, e)
  }

  /** The heuristic is consistent: along every edge it drops by at most the
      edge's cost. This is the condition under which A* returns a cheapest path. */
  ghost predicate Consistent(pb: Problem)
  {
    forall u, e {:trigger e in pb.fw[u]} ::
      0 <= u < |pb.fw| && e in pb.fw[u] ==> H(pb, u) <= C(pb, e) + H(pb, e.to)
  }

  /** Under a consistent heuristic the estimate at the head of a path is at
      most the path's cost plus the estimate at its end. */
  lemma {:induction false} HeuristicAlongPath(pb: Problem, p: seq<Edge>, a: StopId, b: StopId)
    requires Consistent(pb) && IsPath(pb.fw, p, a, b)
    ensures H(pb, a) <= Cost(pb.metric, p) + H(pb, b)
    decreases |p|
  {
    if p != [] {
      assert p[0] in pb.fw[p[0].from];
      InForwardSlice(pb.fw, p, 1, |p|);
      assert p[1..|p|] == p[1..];
      HeuristicAlongPath(pb, p[1..], p[0].to, b);
    }
  }

  /** The item pushed for edge `e` out of the visited stop `u`. */
  function Pushed(pb: Problem, cost: map<StopId, int>, u: StopId, e: Edge): PathItem
    requires u in cost
  {
    var c := cost[u] + C(pb, e);
    PathItem(e.to, Some(e), c, c + H(pb, e.to))
  }

  /** A fringe item is the start item, or the item pushed for a forward edge
      out of a visited stop. */
  ghost predicate ItemOk(pb: Problem, visited: set<StopId>, cost: map<StopId, int>, x: PathItem)
  {
    x.node < pb.n
    && x.estimatedTotal == x.costSoFar + H(pb, x.node)
    && match x.previous
       case None => x.node == pb.start && x.costSoFar == 0
       case Some(e) =>
         e.from in visited && e.from in cost && e.from < |pb.fw| && e in pb.fw[e.from]
         && x == Pushed(pb, cost, e.from, e)
  }

  ghost predicate FringeOk(pb: Problem, visited: set<StopId>, cost: map<StopId, int>, fringe: multiset<PathItem>)
  {
    forall x :: x in fringe ==> ItemOk(pb, visited, cost, x)
  }

  /** A visited stop is the start, reached at cost zero, or was entered by a
      forward edge from a stop visited before it, at that stop's cost plus the
      edge's. */
  ghost predicate NodeOk(pb: Problem, visited: set<StopId>, back: map<StopId, Option<Edge>>,
                         cost: map<StopId, int>, order: map<StopId, nat>, v: StopId)
    requires back.Keys == visited && cost.Keys == visited && order.Keys == visited && v in visited
  {
    v < pb.n && order[v] < |visited|
    && match back[v]
       case None => v == pb.start && cost[v] == 0
       case Some(e) =>
         e.to == v && e.from in visited && e.from < |pb.fw| && e in pb.fw[e.from]
         && order[e.from] < order[v] && cost[v] == cost[e.from] + C(pb, e)
  }

  /** The back links form a tree rooted at the start. */
  ghost predicate TreeOk(pb: Problem, visited: set<StopId>, back: map<StopId, Option<Edge>>,
                         cost: map<StopId, int>, order: map<StopId, nat>)
  {
    back.Keys == visited && cost.Keys == visited && order.Keys == visited
    && (pb.start in visited ==> back[pb.start].None?)
    && forall v :: v in visited ==> NodeOk(pb, visited, back, cost, order, v)
  }

  /** Every forward edge out of a visited stop into an unvisited one has its
      item in the fringe. */
  ghost predicate Frontier(pb: Problem, visited: set<StopId>, cost: map<StopId, int>, fringe: multiset<PathItem>)
  {
    forall u, e {:trigger e in pb.fw[u]} ::
      u in visited && u in cost && 0 <= u < |pb.fw| && e in pb.fw[u] && e.to !in visited
      ==> Pushed(pb, cost, u, e) in fringe
  }

  /** The cost recorded for a visited stop is no more than that of any path to it. */
  ghost predicate OptimalOk(pb: Problem, visited: set<StopId>, cost: map<StopId, int>)
  {
    forall v, p {:trigger IsPath(pb.fw, p, pb.start, v)} ::
      v in visited && v in cost && IsPath(pb.fw, p, pb.start, v) ==> cost[v] <= Cost(pb.metric, p)
  }

  /** A least item of the fringe whose stop is not yet visited carries the
      cost of a cheapest path to its stop. */
  lemma PopOptimal(pb: Problem, visited: set<StopId>, cost: map<StopId, int>,
                   fringe: multiset<PathItem>, x: PathItem, p: seq<Edge>)
    requires ProblemOk(pb) && cost.Keys == visited && Consistent(pb)
    requires OptimalOk(pb, visited, cost)
    requires FringeOk(pb, visited, cost, fringe) && Frontier(pb, visited, cost, fringe)
    requires Least(x, fringe) && x.node !in visited
    requires visited != {} ==> pb.start in visited
    requires IsPath(pb.fw, p, pb.start, x.node)
    ensures x.costSoFar <= Cost(pb.metric, p)
  {
    assert ItemOk(pb, visited, cost, x);
    if visited == {} {
      assert x.node == pb.start && x.costSoFar == 0;
      HeuristicAlongPath(pb, p, pb.start, pb.start);
    } else {
      var i := Crossing(p, pb.start, x.node, visited);
      var e := p[i];
      var u := e.from;
      assert e in pb.fw[u];
      var y := Pushed(pb, cost, u, e);
      assert y in fringe;
      assert CompareTo(x, y) <= 0;
      ChainSplit(p, pb.start, x.node, i);
      InForwardSlice(pb.fw, p, 0, i);
      InForwardSlice(pb.fw, p, i + 1, |p|);
      assert p[0..i] == p[..i] && p[i + 1..|p|] == p[i + 1..];
      assert IsPath(pb.fw, p[..i], pb.start, u);
      HeuristicAlongPath(pb, p[i + 1..], e.to, x.node);
      CostAround(pb.metric, p, i);
    }
  }

  /** Visiting the stop of a least item keeps every recorded cost optimal. */
  lemma VisitOptimal(pb: Problem, visited: set<StopId>, cost: map<StopId, int>,
                     fringe: multiset<PathItem>, x: PathItem)
    requires ProblemOk(pb) && cost.Keys == visited && Consistent(pb)
    requires OptimalOk(pb, visited, cost)
    requires FringeOk(pb, visited, cost, fringe) && Frontier(pb, visited, cost, fringe)
    requires Least(x, fringe) && x.node !in visited
    requires visited != {} ==> pb.start in visited
    ensures OptimalOk(pb, visited + {x.node}, cost[x.node := x.costSoFar])
  {
    var cost' := cost[x.node := x.costSoFar];
    forall v, p | v in visited + {x.node} && IsPath(pb.fw, p, pb.start, v)
      ensures cost'[v] <= Cost(pb.metric, p)
    {
      if v == x.node {
        PopOptimal(pb, visited, cost, fringe, x, p);
      }
    }
  }

  /** Visiting the stop of an item keeps the back link tree well formed. */
  lemma UpdateKeys<V>(m: map<StopId, V>, k: StopId, v: V)
    ensures m[k := v].Keys == m.Keys + {k}
  {
  }

  /** A stop visited before stays well placed in the tree when another is added. */
  lemma NodeKept(pb: Problem, visited: set<StopId>, back: map<StopId, Option<Edge>>,
                 cost: map<StopId, int>, order: map<StopId, nat>, x: PathItem, u: StopId,
                 visited': set<StopId>, back': map<StopId, Option<Edge>>,
                 cost': map<StopId, int>, order': map<StopId, nat>)
    requires back.Keys == visited && cost.Keys == visited && order.Keys == visited
    requires u in visited && NodeOk(pb, visited, back, cost, order, u) && x.node !in visited
    requires visited' == visited + {x.node} && back' == back[x.node := x.previous]
    requires cost' == cost[x.node := x.costSoFar] && order' == order[x.node := |visited|]
    requires back'.Keys == visited' && cost'.Keys == visited' && order'.Keys == visited'
    ensures NodeOk(pb, visited', back', cost', order', u)
  {
    assert |visited'| == |visited| + 1;
  }

  /** The stop of a well-formed item joins the tree below the stop it was reached from. */
  lemma NodeNew(pb: Problem, visited: set<StopId>, back: map<StopId, Option<Edge>>,
                cost: map<StopId, int>, order: map<StopId, nat>, x: PathItem,
                visited': set<StopId>, back': map<StopId, Option<Edge>>,
                cost': map<StopId, int>, order': map<StopId, nat>)
    requires TreeOk(pb, visited, back, cost, order) && ItemOk(pb, visited, cost, x)
    requires x.node !in visited
    requires visited' == visited + {x.node} && back' == back[x.node := x.previous]
    requires cost' == cost[x.node := x.costSoFar] && order' == order[x.node := |visited|]
    requires back'.Keys == visited' && cost'.Keys == visited' && order'.Keys == visited'
    ensures NodeOk(pb, visited', back', cost', order', x.node)
  {
    assert |visited'| == |visited| + 1;
    if x.previous.Some? {
      assert NodeOk(pb, visited, back, cost, order, x.previous.value.from);
    }
  }

  lemma VisitTree(pb: Problem, visited: set<StopId>, back: map<StopId, Option<Edge>>,
                  cost: map<StopId, int>, order: map<StopId, nat>, x: PathItem)
    requires TreeOk(pb, visited, back, cost, order) && ItemOk(pb, visited, cost, x)
    requires x.node !in visited && (visited != {} ==> pb.start in visited)
    ensures TreeOk(pb, visited + {x.node}, back[x.node := x.previous],
                   cost[x.node := x.costSoFar], order[x.node := |visited|])
  {
    var visited', back' := visited + {x.node}, back[x.node := x.previous];
    var cost', order' := cost[x.node := x.costSoFar], order[x.node := |visited|];
    UpdateKeys(back, x.node, x.previous);
    UpdateKeys(cost, x.node, x.costSoFar);
    UpdateKeys(order, x.node, |visited|);
    if pb.start in visited' {
      if pb.start in visited {
        assert back'[pb.start] == back[pb.start];
      } else {
        assert visited == {};
      }
    }
    forall u | u in visited' ensures NodeOk(pb, visited', back', cost', order', u) {
      if u != x.node {
        NodeKept(pb, visited, back, cost, order, x, u, visited', back', cost', order');
      } else {
        NodeNew(pb, visited, back, cost, order, x, visited', back', cost', order');
      }
    }
  }

  /** An item of the fringe stays well formed when its stop's neighbour is visited. */
  lemma VisitFringe(pb: Problem, visited: set<StopId>, cost: map<StopId, int>,
                    fringe: multiset<PathItem>, v: StopId, c: int)
    requires cost.Keys == visited && v !in visited
    requires FringeOk(pb, visited, cost, fringe)
    ensures FringeOk(pb, visited + {v}, cost[v := c], fringe)
  {
    forall x | x in fringe ensures ItemOk(pb, visited + {v}, cost[v := c], x) {
      assert ItemOk(pb, visited, cost, x);
    }
  }

  /** Taking an item out of the fringe keeps it well formed, and keeps it a
      frontier when the item's stop has been visited. */
  lemma Removed(pb: Problem, visited: set<StopId>, cost: map<StopId, int>,
                fringe: multiset<PathItem>, x: PathItem)
    requires FringeOk(pb, visited, cost, fringe) && Frontier(pb, visited, cost, fringe)
    requires x.node in visited
    ensures FringeOk(pb, visited, cost, fringe - multiset{x})
    ensures Frontier(pb, visited, cost, fringe - multiset{x})
  {
    forall u, e {:trigger e in pb.fw[u]} |
      u in visited && u in cost && 0 <= u < |pb.fw| && e in pb.fw[u] && e.to !in visited
      ensures Pushed(pb, cost, u, e) in fringe - multiset{x}
    {
      assert Pushed(pb, cost, u, e) != x;
    }
  }

  /** After visiting the stop `v` of item `x` and pushing the items of its
      forward edges, every edge out of the visited set has its item again. */
  lemma FrontierAfterVisit(pb: Problem, visited: set<StopId>, cost: map<StopId, int>,
                           fringe: multiset<PathItem>, x: PathItem, fringe': multiset<PathItem>)
    requires cost.Keys == visited && x.node !in visited
    requires Frontier(pb, visited, cost, fringe)
    requires fringe - multiset{x} <= fringe'
    requires forall e {:trigger e in pb.fw[x.node]} ::
               x.node < |pb.fw| && e in pb.fw[x.node] && e.to !in visited + {x.node}
               ==> Pushed(pb, cost[x.node := x.costSoFar], x.node, e) in fringe'
    ensures Frontier(pb, visited + {x.node}, cost[x.node := x.costSoFar], fringe')
  {
    var cost' := cost[x.node := x.costSoFar];
    forall u, e {:trigger e in pb.fw[u]} |
      u in visited + {x.node} && u in cost' && 0 <= u < |pb.fw| && e in pb.fw[u] && e.to !in visited + {x.node}
      ensures Pushed(pb, cost', u, e) in fringe'
    {
      if u != x.node {
        assert Pushed(pb, cost', u, e) == Pushed(pb, cost, u, e);
        assert Pushed(pb, cost, u, e) in fringe;
        assert Pushed(pb, cost, u, e) != x;
        assert Pushed(pb, cost, u, e) in fringe - multiset{x};
      }
    }
  }

  /** The items pushed for the edges `es` out of `u`: one per edge whose target
      is not yet visited, in list order. */
  ghost function Pushes(pb: Problem, cost: map<StopId, int>, u: StopId, es: seq<Edge>,
                        visited: set<StopId>): multiset<PathItem>
    requires u in cost
  {
    if es == [] then multiset{}
    else Pushes(pb, cost, u, es[..|es| - 1], visited)
         + (if es[|es| - 1].to !in visited then multiset{Pushed(pb, cost, u, es[|es| - 1])} else multiset{})
  }

  /** An item is pushed for `es` exactly when some edge of `es` into an unvisited
      stop produces it. */
  lemma {:induction false} PushesMember(pb: Problem, cost: map<StopId, int>, u: StopId, es: seq<Edge>,
                                        visited: set<StopId>, y: PathItem)
    requires u in cost
    ensures y in Pushes(pb, cost, u, es, visited) <==>
            exists e :: e in es && e.to !in visited && y == Pushed(pb, cost, u, e)
    decreases |es|
  {
    if es != [] {
      var init, last := es[..|es| - 1], es[|es| - 1];
      assert es == init + [last];
      PushesMember(pb, cost, u, init, visited, y);
      if exists e :: e in es && e.to !in visited && y == Pushed(pb, cost, u, e) {
        var e :| e in es && e.to !in visited && y == Pushed(pb, cost, u, e);
        if e != last {
          assert e in init;
        }
      }
    }
  }

  lemma PushesStep(pb: Problem, cost: map<StopId, int>, u: StopId, es: seq<Edge>, k: nat, visited: set<StopId>)
    requires u in cost && k < |es|
    ensures Pushes(pb, cost, u, es[..k + 1], visited)
            == Pushes(pb, cost, u, es[..k], visited)
               + (if es[k].to !in visited then multiset{Pushed(pb, cost, u, es[k])} else multiset{})
  {
    assert es[..k + 1][..k] == es[..k];
  }

  /** Every item pushed for the forward edges of a visited stop is well formed. */
  lemma PushesOk(pb: Problem, visited: set<StopId>, cost: map<StopId, int>, v: StopId,
                 fringe: multiset<PathItem>)
    requires ProblemOk(pb) && v < pb.n && v in visited && cost.Keys == visited
    requires FringeOk(pb, visited, cost, fringe)
    ensures FringeOk(pb, visited, cost, fringe + Pushes(pb, cost, v, pb.fw[v], visited))
  {
    forall y | y in Pushes(pb, cost, v, pb.fw[v], visited) ensures ItemOk(pb, visited, cost, y) {
      PushesMember(pb, cost, v, pb.fw[v], visited, y);
      var e :| e in pb.fw[v] && e.to !in visited && y == Pushed(pb, cost, v, e);
    }
  }

  /** The push loop of findShortestPath: an item for every forward edge of `v` whose
      target is not yet visited, costed from `base`, the cost of `v`, and
      nothing else. */
  method Expand(pb: Problem, v: StopId, base: int, visited: set<StopId>, ghost cost: map<StopId, int>,
                fringe: multiset<PathItem>) returns (fringe': multiset<PathItem>)
    requires ProblemOk(pb) && v < pb.n && v in visited && cost.Keys == visited && base == cost[v]
    requires FringeOk(pb, visited, cost, fringe)
    ensures fringe <= fringe' && FringeOk(pb, visited, cost, fringe')
    ensures forall e {:trigger e in pb.fw[v]} ::
              e in pb.fw[v] && e.to !in visited ==> Pushed(pb, cost, v, e) in fringe'
    ensures fringe' == fringe + Pushes(pb, cost, v, pb.fw[v], visited)
  {
    var es := pb.fw[v];
    fringe' := fringe;
    var k := 0;
    while k < |es|
      invariant 0 <= k <= |es|
      invariant fringe' == fringe + Pushes(pb, cost, v, es[..k], visited)
    {
      PushesStep(pb, cost, v, es, k, visited);
      var edge := es[k];
      if edge.to !in visited {
        var costSoFar := base + EdgeCost(pb.metric, edge);
        var estimatedTotalCost := costSoFar + Heuristic(pb.geo, pb.metric, edge.to, pb.goal);
        var item := PathItem(edge.to, Some(edge), costSoFar, estimatedTotalCost);
        assert item == Pushed(pb, cost, v, edge);
        fringe' := fringe' + multiset{item};
      }
      k := k + 1;
    }
    assert es[..|es|] == es;
    PushesOk(pb, visited, cost, v, fringe);
    forall e {:trigger e in pb.fw[v]} | e in pb.fw[v] && e.to !in visited
      ensures Pushed(pb, cost, v, e) in fringe'
    {
      PushesMember(pb, cost, v, es, visited, Pushed(pb, cost, v, e));
    }
  }

  /** The path reconstruction of findShortestPath: follow back links from the goal to
      the start, collecting the edges. The collected list is built front
      first, which is what appending and then reversing gives. */
  method Reconstruct(pb: Problem, back: map<StopId, Option<Edge>>, ghost visited: set<StopId>,
                     ghost cost: map<StopId, int>, ghost order: map<StopId, nat>) returns (p: seq<Edge>)
    requires TreeOk(pb, visited, back, cost, order)
    requires pb.goal in visited && pb.start in visited
    ensures IsPath(pb.fw, p, pb.start, pb.goal)
    ensures Cost(pb.metric, p) == cost[pb.goal]
    ensures pb.start == pb.goal ==> p == []
  {
    var cur := pb.goal;
    p := [];
    while cur != pb.start
      invariant cur in visited
      invariant IsPath(pb.fw, p, cur, pb.goal)
      invariant Cost(pb.metric, p) + cost[cur] == cost[pb.goal]
      invariant pb.start == pb.goal ==> p == []
      decreases order[cur]
    {
      var edge := back[cur].value;
      var p' := [edge] + p;
      assert p'[1..] == p;
      forall i | 0 <= i < |p'| ensures p'[i].from < |pb.fw| && p'[i] in pb.fw[p'[i].from] {
        if i > 0 {
          assert p'[i] == p[i - 1];
        }
      }
      p := p';
      cur := edge.from;
    }
  }

  /** The invariant of the search loop. */
  ghost predicate Inv(pb: Problem, visited: set<StopId>, back: map<StopId, Option<Edge>>,
                      cost: map<StopId, int>, order: map<StopId, nat>, fringe: multiset<PathItem>)
  {
    ProblemOk(pb)
    && FringeOk(pb, visited, cost, fringe)
    && TreeOk(pb, visited, back, cost, order)
    && Frontier(pb, visited, cost, fringe)
    && pb.goal !in visited
    && (visited == {} ==> fringe != multiset{})
    && (visited != {} ==> pb.start in visited)
    && (Consistent(pb) ==> OptimalOk(pb, visited, cost))
  }

  /** The item the search starts from. */
  function StartItem(pb: Problem): PathItem
  {
    PathItem(pb.start, None, 0, H(pb, pb.start))
  }

  lemma InitialInv(pb: Problem)
    requires ProblemOk(pb)
    ensures Inv(pb, {}, map[], map[], map[], multiset{StartItem(pb)})
  {
  }

  /** Visiting the stop of a least item: the tree, the fringe without that
      item and the optimality of the recorded costs carry over to the
      enlarged visited set, which now holds the start. */
  lemma Visit(pb: Problem, visited: set<StopId>, back: map<StopId, Option<Edge>>,
              cost: map<StopId, int>, order: map<StopId, nat>, fringe: multiset<PathItem>, x: PathItem)
    requires Inv(pb, visited, back, cost, order, fringe)
    requires Least(x, fringe) && x.node !in visited
    ensures x.node < pb.n
    ensures TreeOk(pb, visited + {x.node}, back[x.node := x.previous],
                   cost[x.node := x.costSoFar], order[x.node := |visited|])
    ensures FringeOk(pb, visited + {x.node}, cost[x.node := x.costSoFar], fringe - multiset{x})
    ensures Consistent(pb) ==> OptimalOk(pb, visited + {x.node}, cost[x.node := x.costSoFar])
    ensures pb.start in visited + {x.node}
    ensures AllStops(pb.n) - (visited + {x.node}) < AllStops(pb.n) - visited
  {
    assert ItemOk(pb, visited, cost, x);
    if Consistent(pb) {
      VisitOptimal(pb, visited, cost, fringe, x);
    }
    VisitTree(pb, visited, back, cost, order, x);
    assert FringeOk(pb, visited, cost, fringe - multiset{x});
    VisitFringe(pb, visited, cost, fringe - multiset{x}, x.node, x.costSoFar);
    assert x.node in AllStops(pb.n);
  }

  /** After the push loop the invariant holds again for the enlarged visited set. */
  lemma Expanded(pb: Problem, visited: set<StopId>, back: map<StopId, Option<Edge>>,
                 cost: map<StopId, int>, order: map<StopId, nat>, fringe: multiset<PathItem>,
                 x: PathItem, fringe': multiset<PathItem>)
    requires Inv(pb, visited, back, cost, order, fringe) && x.node !in visited && x.node != pb.goal
    requires TreeOk(pb, visited + {x.node}, back[x.node := x.previous],
                    cost[x.node := x.costSoFar], order[x.node := |visited|])
    requires Consistent(pb) ==> OptimalOk(pb, visited + {x.node}, cost[x.node := x.costSoFar])
    requires pb.start in visited + {x.node}
    requires fringe - multiset{x} <= fringe'
    requires FringeOk(pb, visited + {x.node}, cost[x.node := x.costSoFar], fringe')
    requires forall e {:trigger e in pb.fw[x.node]} ::
               e in pb.fw[x.node] && e.to !in visited + {x.node}
               ==> Pushed(pb, cost[x.node := x.costSoFar], x.node, e) in fringe'
    ensures Inv(pb, visited + {x.node}, back[x.node := x.previous],
                cost[x.node := x.costSoFar], order[x.node := |visited|], fringe')
  {
    FrontierAfterVisit(pb, visited, cost, fringe, x, fringe');
  }

  /** Dropping an item whose stop is already visited keeps the invariant. */
  lemma Skip(pb: Problem, visited: set<StopId>, back: map<StopId, Option<Edge>>,
             cost: map<StopId, int>, order: map<StopId, nat>, fringe: multiset<PathItem>, x: PathItem)
    requires Inv(pb, visited, back, cost, order, fringe) && x in fringe && x.node in visited
    ensures Inv(pb, visited, back, cost, order, fringe - multiset{x})
    ensures |fringe - multiset{x}| < |fringe|
  {
    Removed(pb, visited, cost, fringe, x);
  }

  /** Once the fringe is empty the visited set is closed under forward edges,
      so no path leads from the start to the goal. */
  lemma Exhausted(pb: Problem, visited: set<StopId>, back: map<StopId, Option<Edge>>,
                  cost: map<StopId, int>, order: map<StopId, nat>)
    requires Inv(pb, visited, back, cost, order, multiset{})
    ensures forall p :: !IsPath(pb.fw, p, pb.start, pb.goal)
  {
    forall p | IsPath(pb.fw, p, pb.start, pb.goal) ensures false {
      forall u, e {:trigger e in pb.fw[u]} | u in visited && u < |pb.fw| && e in pb.fw[u]
        ensures e.to in visited || e.to in {}
      {
      }
      ForwardClosed(pb.fw, p, pb.start, pb.goal, visited, {});
    }
  }

  /** The search proper, on a well-formed problem. It returns a path from the
      start to the goal exactly when one exists; the empty path when the two
      are the same stop; and, under a consistent heuristic, a cheapest path. */
  method AStar(pb: Problem) returns (r: Outcome)
    requires ProblemOk(pb)
    ensures r.Path? || r.Unreachable?
    ensures r.Path? ==> IsPath(pb.fw, r.edges, pb.start, pb.goal)
    ensures r.Unreachable? ==> forall p :: !IsPath(pb.fw, p, pb.start, pb.goal)
    ensures pb.start == pb.goal ==> r == Path([])
    ensures r.Path? && Consistent(pb) ==>
              forall p :: IsPath(pb.fw, p, pb.start, pb.goal) ==> Cost(pb.metric, r.edges) <= Cost(pb.metric, p)
  {
    var fringe := multiset{PathItem(pb.start, None, 0, Heuristic(pb.geo, pb.metric, pb.start, pb.goal))};
    var visited: set<StopId> := {};
    var back: map<StopId, Option<Edge>> := map[];
    ghost var cost: map<StopId, int> := map[];
    ghost var order: map<StopId, nat> := map[];
    InitialInv(pb);
    while fringe != multiset{}
      invariant Inv(pb, visited, back, cost, order, fringe)
      decreases AllStops(pb.n) - visited, |fringe|
    {
      ghost var w := LeastExists(fringe);
      var current :| current in fringe && Least(current, fringe);
      var rest := fringe - multiset{current};
      if current.node !in visited {
        var v := current.node;
        Visit(pb, visited, back, cost, order, fringe, current);
        ghost var visited0, back0, cost0, order0 := visited, back, cost, order;
        visited := visited + {v};
        back := back[v := current.previous];
        cost := cost[v := current.costSoFar];
        order := order[v := |visited0|];
        if v == pb.goal {
          var p := Reconstruct(pb, back, visited, cost, order);
          return Path(p);
        }
        var fringe' := Expand(pb, v, current.costSoFar, visited, cost, rest);
        Expanded(pb, visited0, back0, cost0, order0, fringe, current, fringe');
        fringe := fringe';
      } else {
        Skip(pb, visited, back, cost, order, fringe, current);
        fringe := rest;
      }
    }
    Exhausted(pb, visited, back, cost, order);
    return Unreachable;
  }

  /** The search problem the graph poses for two stops under a metric. */
  function ProblemOf(g: Graph, start: StopId, goal: StopId, m: Metric): Problem
    reads g
  {
    Problem(g.forward, g.n, g.geo, m, start, goal)
  }

  /** findShortestPath. A missing endpoint gives MissingEndpoint;
      otherwise the metric is chosen from the caller's string and the search
      runs over the graph's forward edges. */
  method FindShortestPath(g: Graph, start: Option<StopId>, goal: Option<StopId>, timeOrDist: string)
    returns (r: Outcome)
    requires g.Valid()
    requires start.Some? ==> start.value < g.n
    requires goal.Some? ==> goal.value < g.n
    ensures r == MissingEndpoint <==> start.None? || goal.None?
    ensures r.Path? ==> IsPath(g.forward, r.edges, start.value, goal.value)
    ensures r.Unreachable? ==> forall p :: !IsPath(g.forward, p, start.value, goal.value)
    ensures start.Some? && start == goal ==> r == Path([])
    ensures r.Path? && Consistent(ProblemOf(g, start.value, goal.value, MetricOf(timeOrDist))) ==>
              forall p :: IsPath(g.forward, p, start.value, goal.value) ==>
                Cost(MetricOf(timeOrDist), r.edges) <= Cost(MetricOf(timeOrDist), p)
  {
    if start.None? || goal.None? {
      return MissingEndpoint;
    }
    var metric := MetricOf(timeOrDist);
    r := AStar(Problem(g.forward, g.n, g.geo, metric, start.value, goal.value));
  }
}
