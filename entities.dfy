/** The passive entities of the transit network: stops (as indices into the
    graph's stop arena), transport types, edges, transfers, lines and the
    geographic facts the graph consults, with the list filters the graph
    operations are specified by. */
module Entities {

  datatype Option<T> = None | Some(value: T)

  /** A stop is its position 0..n-1 in the graph's name-ordered stop collection. */
  type StopId = nat

  /** Transport types; Walking is the reserved tag of synthetic walking edges. */
  datatype Transport = Bus | Train | CableCar | Ferry | Walking

  /** A directed connection between two stops. `id` stands for the identity of
      the edge object (two edges with equal attributes are still two edges);
      `line` is the index of the owning line, None for a walking edge. */
  datatype Edge = Edge(id: nat, from: StopId, to: StopId, kind: Transport,
                       line: Option<nat>, time: int, distance: nat)

  /** Minimum transfer time between two stops, attached to a matching edge. */
  datatype Transfer = Transfer(kind: int, minTransferTime: int, from: StopId, to: StopId)

  /** A line: the stops it serves in order and the time offset at each. */
  datatype Line = Line(stops: seq<StopId>, times: seq<int>, kind: Transport)

  type Speed = x: nat | x > 0 witness 1

  /** Geographic facts: the distance between two stops and the walking and
      train speeds used to turn a distance into a time. */
  datatype Geometry = Geometry(distanceTo: (StopId, StopId) -> nat,
                               walkingSpeed: Speed, trainSpeed: Speed)

  /** A line the loader hands over: every stop is a graph stop and there is a
      time offset for every stop. */
  ghost predicate LineOk(l: Line, n: nat)
  {
    |l.times| >= |l.stops| && forall i :: 0 <= i < |l.stops| ==> l.stops[i] < n
  }

  /** Every line is such a line. */
  ghost predicate LinesOk(ls: seq<Line>, n: nat)
  {
    forall l :: l in ls ==> |l.times| >= |l.stops| && forall i :: 0 <= i < |l.stops| ==> l.stops[i] < n
  }

  function AllStops(n: nat): (r: set<StopId>)
    ensures forall s: int :: s in r <==> 0 <= s < n
    ensures |r| == n
  {
    if n == 0 then {} else AllStops(n - 1) + {n - 1}
  }

  /** Per-stop forward lists: every edge in the list of s leaves s and enters a graph stop. */
  ghost predicate Outgoing(fw: seq<seq<Edge>>, n: nat)
  {
    |fw| == n && forall s, e {:trigger e in fw[s]} :: 0 <= s < n && e in fw[s] ==> e.from == s && e.to < n
  }

  /** Per-stop backward lists: every edge in the list of s enters s and leaves a graph stop. */
  ghost predicate Incoming(bw: seq<seq<Edge>>, n: nat)
  {
    |bw| == n && forall s, e {:trigger e in bw[s]} :: 0 <= s < n && e in bw[s] ==> e.to == s && e.from < n
  }

  /** The edges of `es` that leave `s`, in order. */
  function Leaving(es: seq<Edge>, s: StopId): (r: seq<Edge>)
    ensures |r| <= |es|
  {
    if es == [] then []
    else Leaving(es[..|es| - 1], s) + (if es[|es| - 1].from == s then [es[|es| - 1]] else [])
  }

  /** The edges of `es` that enter `s`, in order. */
  function Entering(es: seq<Edge>, s: StopId): (r: seq<Edge>)
    ensures |r| <= |es|
  {
    if es == [] then []
    else Entering(es[..|es| - 1], s) + (if es[|es| - 1].to == s then [es[|es| - 1]] else [])
  }

  /** An edge is in the filtered list exactly when it is in the list and leaves `s`. */
  lemma {:induction false} LeavingMembers(es: seq<Edge>, s: StopId)
    ensures forall e :: e in Leaving(es, s) <==> e in es && e.from == s
    decreases |es|
  {
    if es != [] {
      LeavingMembers(es[..|es| - 1], s);
      assert forall e :: e in es <==> e in es[..|es| - 1] || e == es[|es| - 1];
    }
  }

  /** An edge is in the filtered list exactly when it is in the list and enters `s`. */
  lemma {:induction false} EnteringMembers(es: seq<Edge>, s: StopId)
    ensures forall e :: e in Entering(es, s) <==> e in es && e.to == s
    decreases |es|
  {
    if es != [] {
      EnteringMembers(es[..|es| - 1], s);
      assert forall e :: e in es <==> e in es[..|es| - 1] || e == es[|es| - 1];
    }
  }

  /** The edges of `es` that are not walking edges, in order. */
  function NonWalking(es: seq<Edge>): (r: seq<Edge>)
    ensures |r| <= |es|
  {
    if es == [] then []
    else NonWalking(es[..|es| - 1]) + (if es[|es| - 1].kind != Walking then [es[|es| - 1]] else [])
  }

  /** An edge survives the filter exactly when it is in the list and is not a walking edge. */
  lemma {:induction false} NonWalkingMembers(es: seq<Edge>)
    ensures forall e :: e in NonWalking(es) <==> e in es && e.kind != Walking
    decreases |es|
  {
    if es != [] {
      NonWalkingMembers(es[..|es| - 1]);
      assert forall e :: e in es <==> e in es[..|es| - 1] || e == es[|es| - 1];
    }
  }

  lemma {:induction false} LeavingAppend(a: seq<Edge>, b: seq<Edge>, s: StopId)
    ensures Leaving(a + b, s) == Leaving(a, s) + Leaving(b, s)
    decreases |b|
  {
    if b == [] {
      assert a + b == a;
    } else {
      var b' := b[..|b| - 1];
      assert (a + b)[..|a + b| - 1] == a + b';
      assert (a + b)[|a + b| - 1] == b[|b| - 1];
      LeavingAppend(a, b', s);
    }
  }

  lemma {:induction false} EnteringAppend(a: seq<Edge>, b: seq<Edge>, s: StopId)
    ensures Entering(a + b, s) == Entering(a, s) + Entering(b, s)
    decreases |b|
  {
    if b == [] {
      assert a + b == a;
    } else {
      var b' := b[..|b| - 1];
      assert (a + b)[..|a + b| - 1] == a + b';
      assert (a + b)[|a + b| - 1] == b[|b| - 1];
      EnteringAppend(a, b', s);
    }
  }

  /** Filtering out walking edges distributes over concatenation. */
  lemma {:induction false} NonWalkingAppend(a: seq<Edge>, b: seq<Edge>)
    ensures NonWalking(a + b) == NonWalking(a) + NonWalking(b)
    decreases |b|
  {
    if b == [] {
      assert a + b == a;
    } else {
      var b' := b[..|b| - 1];
      assert (a + b)[..|a + b| - 1] == a + b';
      assert (a + b)[|a + b| - 1] == b[|b| - 1];
      NonWalkingAppend(a, b');
    }
  }

  /** A list without walking edges is left exactly as it is by the filter. */
  lemma {:induction false} NonWalkingKeeps(es: seq<Edge>)
    requires forall e :: e in es ==> e.kind != Walking
    ensures NonWalking(es) == es
    decreases |es|
  {
    if es != [] {
      assert es[..|es| - 1] + [es[|es| - 1]] == es;
      NonWalkingKeeps(es[..|es| - 1]);
    }
  }

  /** A list of walking edges only is emptied by the filter. */
  lemma {:induction false} NonWalkingDrops(es: seq<Edge>)
    requires forall e :: e in es ==> e.kind == Walking
    ensures NonWalking(es) == []
    decreases |es|
  {
    if es != [] {
      NonWalkingDrops(es[..|es| - 1]);
    }
  }

  /** The targets of a list of edges. */
  function Targets(es: seq<Edge>): (r: set<StopId>)
    ensures forall v :: v in r <==> exists e :: e in es && e.to == v
  {
    if es == [] then {}
    else
      var r := Targets(es[..|es| - 1]) + {es[|es| - 1].to};
      assert forall e :: e in es ==> e in es[..|es| - 1] || e == es[|es| - 1];
      r
  }

  lemma TargetsStep(es: seq<Edge>, e: Edge)
    ensures Targets(es + [e]) == Targets(es) + {e.to}
  {
    assert (es + [e])[..|es|] == es;
  }

  lemma SourcesStep(es: seq<Edge>, e: Edge)
    ensures Sources(es + [e]) == Sources(es) + {e.from}
  {
    assert (es + [e])[..|es|] == es;
  }

  /** The sources of a list of edges. */
  function Sources(es: seq<Edge>): (r: set<StopId>)
    ensures forall v :: v in r <==> exists e :: e in es && e.from == v
  {
    if es == [] then {}
    else
      var r := Sources(es[..|es| - 1]) + {es[|es| - 1].from};
      assert forall e :: e in es ==> e in es[..|es| - 1] || e == es[|es| - 1];
      r
  }
}
