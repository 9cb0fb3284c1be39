/** Kosaraju's labelling of strongly connected components (Components.java):
    a forward depth-first pass over every stop that pushes each stop after
    its search has finished, then backward depth-first searches started from
    the stops in reverse finishing order, each labelling the stops it reaches
    with the next component id. */
module Components {
  import opened Entities
  import opened Paths
  import opened Network

  /** Every stop of the set is a stop of a graph with `n` stops. */
  ghost predicate Below(vs: set<StopId>, n: nat)
  {
    forall v :: v in vs ==> v < n
  }

  /** No stop occurs twice. */
  ghost predicate Distinct(q: seq<StopId>)
  {
    forall i, j :: 0 <= i < j < |q| ==> q[i] != q[j]
  }

  /** The list holds exactly the stops of the set. */
  ghost predicate Lists(q: seq<StopId>, vs: set<StopId>)
  {
    forall v :: v in q <==> v in vs
  }

  /** Some stop of the graph carries the label `k`. */
  ghost predicate Used(labels: seq<int>, k: int)
  {
    exists v :: 0 <= v < |labels| && labels[v] == k
  }

  lemma ListsAppend(a: seq<StopId>, b: seq<StopId>, va: set<StopId>, vb: set<StopId>)
    requires Lists(a, va) && Lists(b, vb)
    ensures Lists(a + b, va + vb)
  {
    assert forall v :: v in a + b <==> v in a || v in b;
  }

  lemma DistinctAppend(a: seq<StopId>, b: seq<StopId>)
    requires Distinct(a) && Distinct(b)
    requires forall v :: v in a ==> v !in b
    ensures Distinct(a + b)
  {
    forall i, j | 0 <= i < j < |a + b| ensures (a + b)[i] != (a + b)[j] {
      if j < |a| {
        assert (a + b)[i] == a[i] && (a + b)[j] == a[j];
      } else if i < |a| {
        assert (a + b)[i] == a[i] && (a + b)[j] == b[j - |a|];
        assert a[i] in a && b[j - |a|] in b;
      } else {
        assert (a + b)[i] == b[i - |a|] && (a + b)[j] == b[j - |a|];
      }
    }
  }

  /** A list of distinct stops below `n` that holds every one of them has
      exactly `n` entries. */
  lemma {:induction false} DistinctSize(q: seq<StopId>, vs: set<StopId>)
    requires Distinct(q) && Lists(q, vs)
    ensures |q| == |vs|
    decreases |q|
  {
    if q != [] {
      var q' := q[..|q| - 1];
      var last := q[|q| - 1];
      assert last !in q';
      assert forall v :: v in q <==> v in q' || v == last;
      DistinctSize(q', vs - {last});
    } else {
      assert forall v :: v !in vs;
      assert vs == {};
    }
  }

  // ---------------------------------------------------------------------------
  // Forward pass
  // ---------------------------------------------------------------------------

  /** Every forward edge out of a stop of `added` ends in `out`. */
  ghost predicate ShutForward(fw: seq<seq<Edge>>, added: set<StopId>, out: set<StopId>)
  {
    forall u, e {:trigger e in fw[u]} :: u in added && 0 <= u < |fw| && e in fw[u] ==> e.to in out
  }

  /** `stack'` is `stack` with the stops of `added` pushed on top, each once. */
  ghost predicate PushedOnce(stack: seq<StopId>, stack': seq<StopId>, added: set<StopId>)
  {
    |stack'| >= |stack| && stack'[..|stack|] == stack
    && Lists(stack'[|stack|..], added) && Distinct(stack'[|stack|..])
  }

  /** `p` leads from `a` to `b` along forward edges, entering no stop of `avoid`. */
  ghost predicate ForwardPath(fw: seq<seq<Edge>>, p: seq<Edge>, a: StopId, b: StopId, avoid: set<StopId>)
  {
    IsPath(fw, p, a, b) && forall i :: 0 <= i < |p| ==> p[i].to !in avoid
  }

  /** Some path leads from `a` to `b` along forward edges, entering no stop of `avoid`. */
  ghost predicate Reached(fw: seq<seq<Edge>>, a: StopId, b: StopId, avoid: set<StopId>)
  {
    exists p :: ForwardPath(fw, p, a, b, avoid)
  }

  /** An edge out of `e.from` into a stop outside `avoid`, followed by a path
      that avoids a larger set, is a path that avoids `avoid`. */
  lemma PrependForward(fw: seq<seq<Edge>>, e: Edge, q: seq<Edge>, b: StopId,
                       avoid: set<StopId>, avoid': set<StopId>)
    requires e.from < |fw| && e in fw[e.from] && e.to !in avoid && avoid <= avoid'
    requires ForwardPath(fw, q, e.to, b, avoid')
    ensures ForwardPath(fw, [e] + q, e.from, b, avoid)
  {
    var p := [e] + q;
    assert p[1..] == q;
    forall i | 0 <= i < |p| ensures p[i].from < |fw| && p[i] in fw[p[i].from] && p[i].to !in avoid {
      if i > 0 {
        assert p[i] == q[i - 1];
      }
    }
  }

  /** A stop reachable from a stop of `added` by a path that avoids `avoid` is
      in `added`, when the edges out of `added` end in `added` or `avoid`. */
  lemma ForwardReach(fw: seq<seq<Edge>>, s: StopId, added: set<StopId>, avoid: set<StopId>)
    requires s in added && ShutForward(fw, added, added + avoid)
    ensures forall p: seq<Edge>, b {:trigger ForwardPath(fw, p, s, b, avoid)} ::
              ForwardPath(fw, p, s, b, avoid) ==> b in added
  {
    forall p: seq<Edge>, b {:trigger ForwardPath(fw, p, s, b, avoid)} | ForwardPath(fw, p, s, b, avoid)
      ensures b in added
    {
      ForwardClosed(fw, p, s, b, added, avoid);
    }
  }

  /** The state of the loop over the forward edges `es` out of `s` before
      edge `k`: the targets of the edges before `k` are visited, the stops
      visited so far except `s` have been pushed once, and their forward
      edges end in visited stops. */
  ghost predicate ForwardLoop(fw: seq<seq<Edge>>, n: nat, s: StopId, visited: set<StopId>, stack: seq<StopId>,
                              es: seq<Edge>, k: int, visited': set<StopId>, stack': seq<StopId>)
  {
    && 0 <= k <= |es|
    && visited + {s} <= visited' && Below(visited', n)
    && PushedOnce(stack, stack', visited' - visited - {s})
    && (forall j :: 0 <= j < k ==> es[j].to in visited')
    && ShutForward(fw, visited' - visited - {s}, visited')
    && (forall v :: v in visited' && v !in visited ==> Reached(fw, s, v, visited))
  }

  /** Folding the result of a child search into the state of its parent. */
  lemma ForwardChild(fw: seq<seq<Edge>>, n: nat, s: StopId, visited: set<StopId>, stack: seq<StopId>,
                     es: seq<Edge>, k: nat, vm: set<StopId>, mid: seq<StopId>, v2: set<StopId>, st2: seq<StopId>)
    requires ForwardLoop(fw, n, s, visited, stack, es, k, vm, mid) && k < |es|
    requires s < |fw| && es[k] in fw[s] && es[k].from == s && es[k].to !in vm
    requires vm + {es[k].to} <= v2 && Below(v2, n)
    requires PushedOnce(mid, st2, v2 - vm) && ShutForward(fw, v2 - vm, v2)
    requires forall v :: v in v2 && v !in vm ==> Reached(fw, es[k].to, v, vm)
    ensures ForwardLoop(fw, n, s, visited, stack, es, k + 1, v2, st2)
  {
    forall v | v in v2 && v !in visited ensures Reached(fw, s, v, visited) {
      if v !in vm {
        var q :| ForwardPath(fw, q, es[k].to, v, vm);
        PrependForward(fw, es[k], q, v, visited, vm);
      }
    }
    assert st2[..|stack|] == stack by {
      assert st2[..|mid|][..|stack|] == mid[..|stack|];
    }
    assert st2[|stack|..] == mid[|stack|..] + st2[|mid|..];
    DistinctAppend(mid[|stack|..], st2[|mid|..]);
    ListsAppend(mid[|stack|..], st2[|mid|..], vm - visited - {s}, v2 - vm);
    assert (vm - visited - {s}) + (v2 - vm) == v2 - visited - {s};
    forall j | 0 <= j < k + 1 ensures es[j].to in v2 {
      if j < k {
        assert es[j].to in vm;
      }
    }
  }

  /** `s` is the top of the stack. */
  ghost predicate Last(stack: seq<StopId>, s: StopId)
  {
    |stack| > 0 && stack[|stack| - 1] == s
  }

  /** Pushing `s` once its children are done. */
  lemma ForwardFinish(fw: seq<seq<Edge>>, visited: set<StopId>, s: StopId, stack: seq<StopId>,
                      v: set<StopId>, st: seq<StopId>)
    requires s in v && s !in visited
    requires PushedOnce(stack, st, v - visited - {s})
    requires ShutForward(fw, v - visited - {s}, v)
    requires forall e {:trigger e in fw[s]} :: s < |fw| && e in fw[s] ==> e.to in v
    ensures PushedOnce(stack, st + [s], v - visited) && Last(st + [s], s)
    ensures ShutForward(fw, v - visited, v)
  {
    assert (st + [s])[..|stack|] == st[..|stack|];
    assert (st + [s])[|stack|..] == st[|stack|..] + [s];
    DistinctAppend(st[|stack|..], [s]);
    ListsAppend(st[|stack|..], [s], v - visited - {s}, {s});
    assert (v - visited - {s}) + {s} == v - visited;
  }

  /** The depth-first search along forward edges from `s`. It visits `s` and
      every stop reachable from it through stops not visited before, and
      pushes each of them onto the stack, once, when its own search has
      finished, so `s` itself comes last. */
  method DfsForward(fw: seq<seq<Edge>>, n: nat, s: StopId, visited: set<StopId>, stack: seq<StopId>)
    returns (visited': set<StopId>, stack': seq<StopId>)
    requires Outgoing(fw, n) && s < n && s !in visited && Below(visited, n)
    ensures visited + {s} <= visited' && Below(visited', n)
    ensures PushedOnce(stack, stack', visited' - visited)
    ensures Last(stack', s)
    ensures ShutForward(fw, visited' - visited, visited')
    ensures forall p: seq<Edge>, b {:trigger ForwardPath(fw, p, s, b, visited)} ::
              ForwardPath(fw, p, s, b, visited) ==> b in visited' - visited
    ensures forall v :: v in visited' && v !in visited ==> Reached(fw, s, v, visited)
    decreases AllStops(n) - visited
  {
    assert ForwardPath(fw, [], s, s, visited);
    visited' := visited + {s};
    stack' := stack;
    var es := fw[s];
    var k := 0;
    while k < |es|
      invariant ForwardLoop(fw, n, s, visited, stack, es, k, visited', stack')
    {
      var neighbour := es[k].to;
      assert es[k] in fw[s];
      if neighbour !in visited' {
        var v2, st2 := DfsForward(fw, n, neighbour, visited', stack');
        ForwardChild(fw, n, s, visited, stack, es, k, visited', stack', v2, st2);
        visited', stack' := v2, st2;
      }
      k := k + 1;
    }
    forall e {:trigger e in fw[s]} | s < |fw| && e in fw[s] ensures e.to in visited' {
      var j :| 0 <= j < |es| && es[j] == e;
    }
    ForwardFinish(fw, visited, s, stack, visited', stack');
    stack' := stack' + [s];
    ForwardReach(fw, s, visited' - visited, visited);
  }

  /** The loop over all stops in order that starts a forward search at every
      stop not yet visited. The stack then holds every stop exactly once. */
  method ForwardPass(fw: seq<seq<Edge>>, n: nat) returns (stack: seq<StopId>)
    requires Outgoing(fw, n)
    ensures forall v: StopId :: v in stack <==> v < n
    ensures forall j :: 0 <= j < |stack| ==> stack[j] < n
    ensures Distinct(stack) && |stack| == n
  {
    var visited: set<StopId> := {};
    stack := [];
    var stop := 0;
    while stop < n
      invariant 0 <= stop <= n
      invariant Below(visited, n) && Lists(stack, visited) && Distinct(stack)
      invariant forall t :: 0 <= t < stop ==> t in visited
    {
      if stop !in visited {
        ghost var before, visited0 := stack, visited;
        visited, stack := DfsForward(fw, n, stop, visited, stack);
        assert stack[..|before|] == before;
        assert stack == before + stack[|before|..];
        DistinctAppend(before, stack[|before|..]);
        ListsAppend(before, stack[|before|..], visited0, visited - visited0);
        assert visited0 + (visited - visited0) == visited;
      }
      stop := stop + 1;
    }
    forall v: StopId ensures v in stack <==> v < n {
      assert v in stack <==> v in visited;
      if v < n {
        assert v in visited;
      }
    }
    assert Lists(stack, AllStops(n));
    DistinctSize(stack, AllStops(n));
    forall j | 0 <= j < |stack| ensures stack[j] < n {
      assert stack[j] in stack;
    }
  }

  // ---------------------------------------------------------------------------
  // Backward pass
  // ---------------------------------------------------------------------------

  /** Every backward edge into a stop of `added` starts in `out`. */
  ghost predicate ShutBackward(bw: seq<seq<Edge>>, added: set<StopId>, out: set<StopId>)
  {
    forall u, e {:trigger e in bw[u]} :: u in added && 0 <= u < |bw| && e in bw[u] ==> e.from in out
  }

  /** `labels'` is `labels` with the stops of `added` given `id` and no other change. */
  ghost predicate Labelled(labels: seq<int>, labels': seq<int>, added: set<StopId>, id: int)
  {
    |labels'| == |labels|
    && forall v :: 0 <= v < |labels| ==> labels'[v] == if v in added then id else labels[v]
  }

  /** `p` leads from `a` to `b` along backward edges, leaving no stop of `avoid`. */
  ghost predicate BackwardPath(bw: seq<seq<Edge>>, p: seq<Edge>, a: StopId, b: StopId, avoid: set<StopId>)
  {
    Chain(p, a, b) && InBackward(bw, p) && forall i :: 0 <= i < |p| ==> p[i].from !in avoid
  }

  /** Some path leads from `a` to `b` along backward edges, leaving no stop of `avoid`. */
  ghost predicate Reaches(bw: seq<seq<Edge>>, a: StopId, b: StopId, avoid: set<StopId>)
  {
    exists p :: BackwardPath(bw, p, a, b, avoid)
  }

  /** A path that avoids a larger set, followed by an edge into `e.to` from a
      stop outside `avoid`, is a path that avoids `avoid`. */
  lemma AppendBackward(bw: seq<seq<Edge>>, q: seq<Edge>, e: Edge, a: StopId,
                       avoid: set<StopId>, avoid': set<StopId>)
    requires e.to < |bw| && e in bw[e.to] && e.from !in avoid && avoid <= avoid'
    requires BackwardPath(bw, q, a, e.from, avoid')
    ensures BackwardPath(bw, q + [e], a, e.to, avoid)
  {
    var p := q + [e];
    assert [e][1..] == [];
    ChainAppend(q, [e], a, e.from, e.to);
    forall i | 0 <= i < |p| ensures p[i].to < |bw| && p[i] in bw[p[i].to] && p[i].from !in avoid {
      if i < |q| {
        assert p[i] == q[i];
      }
    }
  }

  /** A stop from which a stop of `added` is reachable by a path that avoids
      `avoid` is in `added`, when the edges into `added` start in `added` or `avoid`. */
  lemma BackwardReach(bw: seq<seq<Edge>>, s: StopId, added: set<StopId>, avoid: set<StopId>)
    requires s in added && ShutBackward(bw, added, added + avoid)
    ensures forall p: seq<Edge>, a {:trigger BackwardPath(bw, p, a, s, avoid)} ::
              BackwardPath(bw, p, a, s, avoid) ==> a in added
  {
    forall p: seq<Edge>, a {:trigger BackwardPath(bw, p, a, s, avoid)} | BackwardPath(bw, p, a, s, avoid)
      ensures a in added
    {
      BackwardClosed(bw, p, a, s, added, avoid);
    }
  }

  /** The state of the loop over the backward edges `es` into `s` before
      edge `k`: the sources of the edges before `k` are visited, the stops
      visited so far are labelled, and their backward edges, except those
      into `s`, come from visited stops. */
  ghost predicate BackwardLoop(bw: seq<seq<Edge>>, n: nat, s: StopId, visited: set<StopId>, id: int,
                               labels: seq<int>, es: seq<Edge>, k: int, visited': set<StopId>, labels': seq<int>)
  {
    && 0 <= k <= |es|
    && visited + {s} <= visited' && Below(visited', n)
    && Labelled(labels, labels', visited' - visited, id)
    && (forall j :: 0 <= j < k ==> es[j].from in visited')
    && ShutBackward(bw, visited' - visited - {s}, visited')
    && (forall v :: v in visited' && v !in visited ==> Reaches(bw, v, s, visited))
  }

  /** Folding the result of a child search into the state of its parent. */
  lemma BackwardChild(bw: seq<seq<Edge>>, n: nat, s: StopId, visited: set<StopId>, id: int, labels: seq<int>,
                      es: seq<Edge>, k: nat, vm: set<StopId>, lm: seq<int>, v2: set<StopId>, l2: seq<int>)
    requires BackwardLoop(bw, n, s, visited, id, labels, es, k, vm, lm) && k < |es|
    requires s < |bw| && es[k] in bw[s] && es[k].to == s && es[k].from !in vm
    requires vm + {es[k].from} <= v2 && Below(v2, n)
    requires Labelled(lm, l2, v2 - vm, id) && ShutBackward(bw, v2 - vm, v2)
    requires forall v :: v in v2 && v !in vm ==> Reaches(bw, v, es[k].from, vm)
    ensures BackwardLoop(bw, n, s, visited, id, labels, es, k + 1, v2, l2)
  {
    forall v | v in v2 && v !in visited ensures Reaches(bw, v, s, visited) {
      if v !in vm {
        var q :| BackwardPath(bw, q, v, es[k].from, vm);
        AppendBackward(bw, q, es[k], v, visited, vm);
      }
    }
    assert (vm - visited - {s}) + (v2 - vm) == v2 - visited - {s};
    forall j | 0 <= j < k + 1 ensures es[j].from in v2 {
      if j < k {
        assert es[j].from in vm;
      }
    }
  }

  /** Once every backward edge into `s` comes from a visited stop, the
      stops of this search are closed and hold everything that reaches `s`. */
  lemma BackwardFinish(bw: seq<seq<Edge>>, visited: set<StopId>, s: StopId, v: set<StopId>)
    requires s in v && s !in visited
    requires ShutBackward(bw, v - visited - {s}, v)
    requires forall e {:trigger e in bw[s]} :: s < |bw| && e in bw[s] ==> e.from in v
    ensures ShutBackward(bw, v - visited, v)
    ensures forall p: seq<Edge>, a {:trigger BackwardPath(bw, p, a, s, visited)} ::
              BackwardPath(bw, p, a, s, visited) ==> a in v - visited
  {
    assert ShutBackward(bw, v - visited, v);
    BackwardReach(bw, s, v - visited, visited);
  }

  /** The depth-first search along backward edges from `s`: it gives `id` to
      `s` and to every stop from which `s` is reachable through stops not
      visited before, and to no other stop. */
  method DfsBackward(bw: seq<seq<Edge>>, n: nat, s: StopId, visited: set<StopId>, id: int, labels: seq<int>)
    returns (visited': set<StopId>, labels': seq<int>)
    requires Incoming(bw, n) && s < n && s !in visited && Below(visited, n) && |labels| == n
    ensures visited + {s} <= visited' && Below(visited', n)
    ensures Labelled(labels, labels', visited' - visited, id)
    ensures ShutBackward(bw, visited' - visited, visited')
    ensures forall p: seq<Edge>, a {:trigger BackwardPath(bw, p, a, s, visited)} ::
              BackwardPath(bw, p, a, s, visited) ==> a in visited' - visited
    ensures forall v :: v in visited' && v !in visited ==> Reaches(bw, v, s, visited)
    decreases AllStops(n) - visited
  {
    assert BackwardPath(bw, [], s, s, visited);
    visited' := visited + {s};
    labels' := labels[s := id];
    var es := bw[s];
    var k := 0;
    while k < |es|
      invariant BackwardLoop(bw, n, s, visited, id, labels, es, k, visited', labels')
    {
      var neighbour := es[k].from;
      assert es[k] in bw[s];
      if neighbour !in visited' {
        var v2, l2 := DfsBackward(bw, n, neighbour, visited', id, labels');
        BackwardChild(bw, n, s, visited, id, labels, es, k, visited', labels', v2, l2);
        visited', labels' := v2, l2;
      }
      k := k + 1;
    }
    forall e {:trigger e in bw[s]} | s < |bw| && e in bw[s] ensures e.from in visited' {
      var j :| 0 <= j < |es| && es[j] == e;
    }
    BackwardFinish(bw, visited, s, visited');
  }

  /** The stops already labelled with an id below `k`. */
  ghost function Earlier(labels: seq<int>, k: int): set<StopId>
  {
    set u: StopId | u < |labels| && 0 <= labels[u] < k
  }

  /** Each id k below `count` labels exactly the stops that reach `starts[k]`
      along backward edges without leaving a stop that carries a smaller id:
      a backward search from `starts[k]` over the stops not yet labelled. */
  ghost predicate Components(bw: seq<seq<Edge>>, n: nat, labels: seq<int>, starts: seq<StopId>, count: nat)
  {
    |labels| == n && |starts| == count
    && forall k, v :: 0 <= k < count && 0 <= v < n ==>
         (labels[v] == k <==> Reaches(bw, v, starts[k], Earlier(labels, k)))
  }

  /** `starts[k]` is the latest stack entry that carries no id below k: it
      sits at `pos[k]` and every later entry carries an id below k. */
  ghost predicate StartOrder(stack: seq<StopId>, labels: seq<int>, starts: seq<StopId>, pos: seq<nat>, count: nat)
  {
    |pos| == count && |starts| == count
    && (forall j :: 0 <= j < |stack| ==> stack[j] < |labels|)
    && forall k :: 0 <= k < count ==>
         pos[k] < |stack| && stack[pos[k]] == starts[k] && labels[starts[k]] == k
         && forall j :: pos[k] < j < |stack| ==> 0 <= labels[stack[j]] < k
  }

  /** The invariant of the countdown over the stack, with `i` entries left. */
  ghost predicate PassInv(bw: seq<seq<Edge>>, n: nat, stack: seq<StopId>, i: int, visited: set<StopId>,
                          labels: seq<int>, count: nat, starts: seq<StopId>, pos: seq<nat>)
  {
    0 <= i <= |stack| && Below(visited, n) && |labels| == n
    && (forall j :: 0 <= j < |stack| ==> stack[j] < n)
    && (forall j :: i <= j < |stack| ==> stack[j] in visited)
    && (forall v :: 0 <= v < n ==> (v in visited <==> 0 <= labels[v] < count))
    && (forall v :: 0 <= v < n && v !in visited ==> labels[v] == -1)
    && Components(bw, n, labels, starts, count)
    && StartOrder(stack, labels, starts, pos, count)
    && (forall k :: 0 <= k < count ==> i <= pos[k])
  }

  /** Relabelling unlabelled stops with `id` leaves every lower-id set alone. */
  lemma EarlierKept(labels: seq<int>, l2: seq<int>, added: set<StopId>, id: int, k: int)
    requires Labelled(labels, l2, added, id) && k <= id
    requires forall u :: u in added && u < |labels| ==> labels[u] == -1
    ensures Earlier(l2, k) == Earlier(labels, k)
  {
  }

  lemma PassStart(bw: seq<seq<Edge>>, n: nat, stack: seq<StopId>, labels: seq<int>)
    requires |labels| == n && AllUnassigned(labels)
    requires forall j :: 0 <= j < |stack| ==> stack[j] < n
    ensures PassInv(bw, n, stack, |stack|, {}, labels, 0, [], [])
  {
  }

  /** A backward search from the unvisited entry `stack[i]` labels the next
      component and keeps the invariant. */
  lemma PassStep(bw: seq<seq<Edge>>, n: nat, stack: seq<StopId>, i: nat, visited: set<StopId>,
                 labels: seq<int>, count: nat, starts: seq<StopId>, pos: seq<nat>,
                 v2: set<StopId>, l2: seq<int>)
    requires PassInv(bw, n, stack, i + 1, visited, labels, count, starts, pos) && i < |stack|
    requires stack[i] !in visited && visited + {stack[i]} <= v2 && Below(v2, n)
    requires Labelled(labels, l2, v2 - visited, count)
    requires forall p: seq<Edge>, a {:trigger BackwardPath(bw, p, a, stack[i], visited)} ::
               BackwardPath(bw, p, a, stack[i], visited) ==> a in v2 - visited
    requires forall v :: v in v2 && v !in visited ==> Reaches(bw, v, stack[i], visited)
    ensures PassInv(bw, n, stack, i, v2, l2, count + 1, starts + [stack[i]], pos + [i])
  {
    var s := stack[i];
    var starts', pos' := starts + [s], pos + [i];
    assert visited == Earlier(labels, count);
    forall k | 0 <= k <= count ensures Earlier(l2, k) == Earlier(labels, k) {
      EarlierKept(labels, l2, v2 - visited, count, k);
    }
    forall k, v | 0 <= k < count + 1 && 0 <= v < n
      ensures l2[v] == k <==> Reaches(bw, v, starts'[k], Earlier(l2, k))
    {
      if k == count {
        if l2[v] == k {
          assert v in v2 - visited;
        }
        if Reaches(bw, v, s, visited) {
          var p :| BackwardPath(bw, p, v, s, visited);
          assert v in v2 - visited;
        }
      } else {
        assert starts'[k] == starts[k];
      }
    }
    forall k | 0 <= k < count + 1
      ensures pos'[k] < |stack| && stack[pos'[k]] == starts'[k] && l2[starts'[k]] == k
      ensures forall j :: pos'[k] < j < |stack| ==> 0 <= l2[stack[j]] < k
    {
      if k < count {
        assert pos'[k] == pos[k] && starts'[k] == starts[k];
        forall j | pos'[k] < j < |stack| ensures 0 <= l2[stack[j]] < k {
          assert 0 <= labels[stack[j]] < k;
        }
      } else {
        forall j | pos'[k] < j < |stack| ensures 0 <= l2[stack[j]] < k {
          assert stack[j] in visited;
        }
      }
    }
  }

  /** The countdown over the stack that starts a backward search at every
      stop not yet labelled, with ids 0, 1, 2, ... in order. `starts` records
      the stop each search began from and `pos` its place on the stack; the
      count is their number. */
  method BackwardPass(bw: seq<seq<Edge>>, n: nat, stack: seq<StopId>, labels0: seq<int>)
    returns (labels: seq<int>, count: nat, ghost starts: seq<StopId>, ghost pos: seq<nat>)
    requires Incoming(bw, n) && |labels0| == n && AllUnassigned(labels0)
    requires forall j :: 0 <= j < |stack| ==> stack[j] < n
    requires forall v :: 0 <= v < n ==> v in stack
    ensures |labels| == n && count == |starts|
    ensures forall v :: 0 <= v < n ==> 0 <= labels[v] < count
    ensures Components(bw, n, labels, starts, count)
    ensures StartOrder(stack, labels, starts, pos, count)
  {
    var visited: set<StopId> := {};
    labels := labels0;
    count := 0;
    starts, pos := [], [];
    var i := |stack|;
    PassStart(bw, n, stack, labels);
    while i > 0
      invariant PassInv(bw, n, stack, i, visited, labels, count, starts, pos)
    {
      i := i - 1;
      var stop := stack[i];
      if stop !in visited {
        var v2, l2 := DfsBackward(bw, n, stop, visited, count, labels);
        PassStep(bw, n, stack, i, visited, labels, count, starts, pos, v2, l2);
        visited, labels := v2, l2;
        starts, pos := starts + [stop], pos + [i];
        count := count + 1;
      }
    }
    forall v | 0 <= v < n ensures 0 <= labels[v] < count {
      assert v in stack;
      var j :| 0 <= j < |stack| && stack[j] == v;
      assert v in visited;
    }
  }

  /** findComponents: clear the labels, add every edge's ends to
      the neighbour sets, run the two passes, store the labels and the count.
      Afterwards every stop carries an id in [0, count); `order` is the forward
      pass's stack, which lists every stop once, and id k labels exactly the
      stops that reach `starts[k]`, the latest entry of `order` that carries no
      smaller id, without passing through a stop that does. */
  method FindComponents(g: Graph) returns (ghost order: seq<StopId>, ghost starts: seq<StopId>, ghost pos: seq<nat>)
    requires g.Valid()
    modifies g`subGraphId, g`numComponents, g`neighbours
    ensures g.Valid()
    ensures g.forward == old(g.forward) && g.backward == old(g.backward) && g.edges == old(g.edges)
    ensures g.neighbours == WithAdjacent(old(g.neighbours), g.forward, g.backward)
    ensures Distinct(order) && |order| == g.n && forall v: StopId :: v in order <==> v < g.n
    ensures forall v :: 0 <= v < g.n ==> 0 <= g.subGraphId[v] < g.numComponents
    ensures forall k :: 0 <= k < g.numComponents ==> Used(g.subGraphId, k)
    ensures g.numComponents == |starts|
    ensures Components(g.backward, g.n, g.subGraphId, starts, g.numComponents)
    ensures StartOrder(order, g.subGraphId, starts, pos, g.numComponents)
  {
    g.ResetSubGraphIds();
    g.ComputeNeighbours();
    var stack := ForwardPass(g.forward, g.n);
    var labels, count;
    labels, count, starts, pos := BackwardPass(g.backward, g.n, stack, g.subGraphId);
    order := stack;
    g.subGraphId := labels;
    g.SetSubGraphCount(count);
    forall k | 0 <= k < g.numComponents ensures Used(g.subGraphId, k) {
      assert stack[pos[k]] == starts[k] && starts[k] < g.n;
      assert g.subGraphId[starts[k]] == k;
    }
  }
}
