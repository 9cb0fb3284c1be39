/** The transit graph: the name-ordered stop arena with each stop's forward and
    backward edge lists, undirected neighbour sets and component label, the
    set of all edges, the transfers attached to edges, and the operations that
    build and maintain them (Graph.java). */
module Network {
  import opened Entities

  // ---------------------------------------------------------------------------
  // Edges derived from lines
  // ---------------------------------------------------------------------------

  /** A line with k stops has k - 1 consecutive stop pairs (none when it is empty). */
  function SegmentCount(l: Line): nat
  {
    if |l.stops| == 0 then 0 else |l.stops| - 1
  }

  /** The edges of the first `k` consecutive stop pairs of line `l` (the
      `li`-th line), numbered from `id` on. */
  function Segments(l: Line, li: nat, id: nat, geo: Geometry, k: nat): (r: seq<Edge>)
    requires |l.times| >= |l.stops| && k <= SegmentCount(l)
    ensures |r| == k
    decreases k
  {
    if k == 0 then []
    else
      var from, to := l.stops[k - 1], l.stops[k];
      Segments(l, li, id, geo, k - 1)
        + [Edge(id + k - 1, from, to, l.kind, Some(li), l.times[k] - l.times[k - 1], geo.distanceTo(from, to))]
  }

  /** The i-th edge of `r` joins the i-th stop of the line to the next one,
      takes the difference of their time offsets, is as long as the distance
      between them, has the line's transport type and the identity id + i. */
  ghost predicate SegmentShape(r: seq<Edge>, l: Line, li: nat, id: nat, geo: Geometry)
    requires |l.times| >= |l.stops| && |r| <= SegmentCount(l)
  {
    forall i :: 0 <= i < |r| ==>
      && r[i].from == l.stops[i] && r[i].to == l.stops[i + 1]
      && r[i].time == l.times[i + 1] - l.times[i]
      && r[i].distance == geo.distanceTo(l.stops[i], l.stops[i + 1])
      && r[i].kind == l.kind && r[i].line == Some(li) && r[i].id == id + i
  }

  lemma {:induction false} SegmentsShape(l: Line, li: nat, id: nat, geo: Geometry, k: nat)
    requires |l.times| >= |l.stops| && k <= SegmentCount(l)
    ensures SegmentShape(Segments(l, li, id, geo, k), l, li, id, geo)
    decreases k
  {
    if k > 0 {
      SegmentsShape(l, li, id, geo, k - 1);
      var prev := Segments(l, li, id, geo, k - 1);
      var last := Edge(id + k - 1, l.stops[k - 1], l.stops[k], l.kind, Some(li),
                       l.times[k] - l.times[k - 1], geo.distanceTo(l.stops[k - 1], l.stops[k]));
      var r := Segments(l, li, id, geo, k);
      assert r == prev + [last];
      forall i | 0 <= i < k
        ensures && r[i].from == l.stops[i] && r[i].to == l.stops[i + 1]
                && r[i].time == l.times[i + 1] - l.times[i]
                && r[i].distance == geo.distanceTo(l.stops[i], l.stops[i + 1])
                && r[i].kind == l.kind && r[i].line == Some(li) && r[i].id == id + i
      {
        if i < k - 1 {
          assert r[i] == prev[i];
        } else {
          assert r[i] == last;
        }
      }
    }
  }

  /** Every segment edge joins two stops of its line, belongs to that line and
      has an identity in the range handed out. */
  lemma SegmentsMembers(l: Line, li: nat, id: nat, geo: Geometry, k: nat)
    requires |l.times| >= |l.stops| && k <= SegmentCount(l)
    ensures forall e :: e in Segments(l, li, id, geo, k) ==>
      e.from in l.stops && e.to in l.stops && e.line == Some(li) && id <= e.id < id + k
  {
    var r := Segments(l, li, id, geo, k);
    SegmentsShape(l, li, id, geo, k);
    forall e | e in r
      ensures e.from in l.stops && e.to in l.stops && e.line == Some(li) && id <= e.id < id + k
    {
      var i :| 0 <= i < k && r[i] == e;
      assert l.stops[i] in l.stops && l.stops[i + 1] in l.stops;
    }
  }

  /** One more stop pair appends its edge. */
  lemma SegmentsStep(l: Line, li: nat, id: nat, geo: Geometry, k: nat)
    requires |l.times| >= |l.stops| && k < SegmentCount(l)
    ensures Segments(l, li, id, geo, k + 1) == Segments(l, li, id, geo, k)
      + [Edge(id + k, l.stops[k], l.stops[k + 1], l.kind, Some(li),
              l.times[k + 1] - l.times[k], geo.distanceTo(l.stops[k], l.stops[k + 1]))]
  {
  }

  /** The edges line `l` contributes: one per consecutive stop pair. */
  function LineEdges(l: Line, li: nat, id: nat, geo: Geometry): seq<Edge>
    requires |l.times| >= |l.stops|
  {
    Segments(l, li, id, geo, SegmentCount(l))
  }

  /** The edges of all lines, line after line, numbered consecutively from `id`. */
  function AllLineEdges(ls: seq<Line>, id: nat, geo: Geometry): (r: seq<Edge>)
    requires forall l :: l in ls ==> |l.times| >= |l.stops|
    decreases |ls|
  {
    if ls == [] then []
    else
      var init := ls[..|ls| - 1];
      assert forall l :: l in init ==> l in ls;
      var prev := AllLineEdges(init, id, geo);
      prev + LineEdges(ls[|ls| - 1], |ls| - 1, id + |prev|, geo)
  }

  /** Every edge of `r` belongs to one of the lines and joins two stops of
      that line, and the i-th edge has the identity id + i. */
  ghost predicate LinesShape(r: seq<Edge>, ls: seq<Line>, id: nat)
  {
    && (forall e :: e in r ==>
          && e.line.Some? && e.line.value < |ls|
          && e.from in ls[e.line.value].stops && e.to in ls[e.line.value].stops)
    && Consecutive(r, id)
  }

  lemma {:induction false} AllLineEdgesMembers(ls: seq<Line>, id: nat, geo: Geometry)
    requires forall l :: l in ls ==> |l.times| >= |l.stops|
    ensures LinesShape(AllLineEdges(ls, id, geo), ls, id)
    decreases |ls|
  {
    if ls != [] {
      var init := ls[..|ls| - 1];
      assert forall l :: l in init ==> l in ls;
      var prev := AllLineEdges(init, id, geo);
      var last := ls[|ls| - 1];
      AllLineEdgesMembers(init, id, geo);
      SegmentsMembers(last, |ls| - 1, id + |prev|, geo, SegmentCount(last));
      assert forall e :: e in prev ==> ls[e.line.value] == init[e.line.value];
    }
    AllLineEdgesNumbered(ls, id, geo);
  }

  /** The edges of all lines are numbered consecutively from `id`. */
  lemma {:induction false} AllLineEdgesNumbered(ls: seq<Line>, id: nat, geo: Geometry)
    requires forall l :: l in ls ==> |l.times| >= |l.stops|
    ensures Consecutive(AllLineEdges(ls, id, geo), id)
    decreases |ls|
  {
    if ls != [] {
      var init := ls[..|ls| - 1];
      assert forall l :: l in init ==> l in ls;
      var prev := AllLineEdges(init, id, geo);
      var last := ls[|ls| - 1];
      AllLineEdgesNumbered(init, id, geo);
      SegmentsShape(last, |ls| - 1, id + |prev|, geo, SegmentCount(last));
      var r := AllLineEdges(ls, id, geo);
      var seg := LineEdges(last, |ls| - 1, id + |prev|, geo);
      assert r == prev + seg;
      forall i | 0 <= i < |r| ensures r[i].id == id + i {
        if i < |prev| {
          assert r[i] == prev[i];
        } else {
          assert r[i] == seg[i - |prev|];
        }
      }
    }
  }

  // ---------------------------------------------------------------------------
  // Walking edges
  // ---------------------------------------------------------------------------

  /** Two distinct stops at most `wd` apart (as the first measures it). */
  predicate Close(geo: Geometry, wd: nat, s1: StopId, s2: StopId)
  {
    geo.distanceTo(s1, s2) <= wd && s1 != s2
  }

  /** The two walking edges created for the ordered pair (s1, s2): s1 to s2 and
      s2 to s1, both priced with the distance from s1 to s2. */
  function WalkPair(geo: Geometry, s1: StopId, s2: StopId, id: nat): seq<Edge>
  {
    var d := geo.distanceTo(s1, s2);
    var t := d / geo.walkingSpeed;
    [Edge(id, s1, s2, Walking, None, t, d), Edge(id + 1, s2, s1, Walking, None, t, d)]
  }

  /** The walking edges created for the pairs (s1, s2) with s2 < k, numbered from `id`. */
  function WalkRow(geo: Geometry, wd: nat, s1: StopId, k: nat, id: nat): seq<Edge>
    decreases k
  {
    if k == 0 then []
    else
      var prev := WalkRow(geo, wd, s1, k - 1, id);
      prev + (if Close(geo, wd, s1, k - 1) then WalkPair(geo, s1, k - 1, id + |prev|) else [])
  }

  /** The walking edges created for the pairs (s1, s2) with s1 < k and s2 < n. */
  function WalkBlock(geo: Geometry, wd: nat, n: nat, k: nat, id: nat): seq<Edge>
    requires k <= n
    decreases k
  {
    if k == 0 then []
    else
      var prev := WalkBlock(geo, wd, n, k - 1, id);
      prev + WalkRow(geo, wd, k - 1, n, id + |prev|)
  }

  /** A walking edge without a line between two distinct stops that are
      within walking distance one way or the other. */
  ghost predicate WalkEdge(geo: Geometry, wd: nat, e: Edge)
  {
    e.kind == Walking && e.line == None && e.from != e.to
    && (Close(geo, wd, e.from, e.to) || Close(geo, wd, e.to, e.from))
  }

  /** `r` is row s1 of the walking edges up to stop k: walking edges between
      s1 and a stop below k, the i-th with identity id + i. */
  ghost predicate RowShape(r: seq<Edge>, geo: Geometry, wd: nat, s1: StopId, k: nat, id: nat)
  {
    forall i :: 0 <= i < |r| ==>
      && WalkEdge(geo, wd, r[i])
      && ((r[i].from == s1 && r[i].to < k) || (r[i].to == s1 && r[i].from < k))
      && r[i].id == id + i
  }

  /** `r` holds walking edges between graph stops, the i-th with identity id + i. */
  ghost predicate BlockShape(r: seq<Edge>, geo: Geometry, wd: nat, n: nat, id: nat)
  {
    forall i :: 0 <= i < |r| ==>
      WalkEdge(geo, wd, r[i]) && r[i].from < n && r[i].to < n && r[i].id == id + i
  }

  lemma {:induction false} WalkRowMembers(geo: Geometry, wd: nat, s1: StopId, k: nat, id: nat)
    ensures RowShape(WalkRow(geo, wd, s1, k, id), geo, wd, s1, k, id)
    decreases k
  {
    if k > 0 {
      WalkRowMembers(geo, wd, s1, k - 1, id);
      var prev := WalkRow(geo, wd, s1, k - 1, id);
      var r := WalkRow(geo, wd, s1, k, id);
      if Close(geo, wd, s1, k - 1) {
        var pair := WalkPair(geo, s1, k - 1, id + |prev|);
        assert r == prev + pair;
        forall i | 0 <= i < |r|
          ensures WalkEdge(geo, wd, r[i]) && ((r[i].from == s1 && r[i].to < k) || (r[i].to == s1 && r[i].from < k))
            && r[i].id == id + i
        {
          if i < |prev| {
            assert r[i] == prev[i];
          } else {
            assert r[i] == pair[i - |prev|];
          }
        }
      } else {
        assert r == prev;
      }
    }
  }

  lemma {:induction false} WalkBlockMembers(geo: Geometry, wd: nat, n: nat, k: nat, id: nat)
    requires k <= n
    ensures BlockShape(WalkBlock(geo, wd, n, k, id), geo, wd, n, id)
    decreases k
  {
    if k > 0 {
      var prev := WalkBlock(geo, wd, n, k - 1, id);
      WalkBlockMembers(geo, wd, n, k - 1, id);
      WalkRowMembers(geo, wd, k - 1, n, id + |prev|);
      var row := WalkRow(geo, wd, k - 1, n, id + |prev|);
      var r := WalkBlock(geo, wd, n, k, id);
      assert r == prev + row;
      forall i | 0 <= i < |r|
        ensures WalkEdge(geo, wd, r[i]) && r[i].from < n && r[i].to < n && r[i].id == id + i
      {
        if i < |prev| {
          assert r[i] == prev[i];
        } else {
          assert r[i] == row[i - |prev|];
        }
      }
    }
  }

  /** All walking edges for a network of `n` stops, numbered from `id`. */
  function WalkingEdges(geo: Geometry, wd: nat, n: nat, id: nat): seq<Edge>
  {
    WalkBlock(geo, wd, n, n, id)
  }

  /** `es` holds a walking edge from `a` to `b`. */
  ghost predicate HasWalk(es: seq<Edge>, a: StopId, b: StopId)
  {
    exists e :: e in es && e.from == a && e.to == b && e.kind == Walking
  }

  /** A walking edge of either part is a walking edge of the concatenation. */
  lemma HasWalkLeft(a: seq<Edge>, b: seq<Edge>, s1: StopId, s2: StopId)
    requires HasWalk(a, s1, s2)
    ensures HasWalk(a + b, s1, s2)
  {
    var e :| e in a && e.from == s1 && e.to == s2 && e.kind == Walking;
    assert e in a + b;
  }

  lemma HasWalkRight(a: seq<Edge>, b: seq<Edge>, s1: StopId, s2: StopId)
    requires HasWalk(b, s1, s2)
    ensures HasWalk(a + b, s1, s2)
  {
    var e :| e in b && e.from == s1 && e.to == s2 && e.kind == Walking;
    assert e in a + b;
  }

  lemma {:induction false} WalkRowComplete(geo: Geometry, wd: nat, s1: StopId, k: nat, id: nat, s2: StopId)
    requires s2 < k && Close(geo, wd, s1, s2)
    ensures HasWalk(WalkRow(geo, wd, s1, k, id), s1, s2) && HasWalk(WalkRow(geo, wd, s1, k, id), s2, s1)
    decreases k
  {
    var prev := WalkRow(geo, wd, s1, k - 1, id);
    var row := WalkRow(geo, wd, s1, k, id);
    if s2 == k - 1 {
      var pair := WalkPair(geo, s1, s2, id + |prev|);
      assert row == prev + pair;
      assert HasWalk(pair, s1, s2) by { assert pair[0] in pair; }
      assert HasWalk(pair, s2, s1) by { assert pair[1] in pair; }
      HasWalkRight(prev, pair, s1, s2);
      HasWalkRight(prev, pair, s2, s1);
    } else {
      WalkRowComplete(geo, wd, s1, k - 1, id, s2);
      var tail := if Close(geo, wd, s1, k - 1) then WalkPair(geo, s1, k - 1, id + |prev|) else [];
      assert row == prev + tail;
      HasWalkLeft(prev, tail, s1, s2);
      HasWalkLeft(prev, tail, s2, s1);
    }
  }

  lemma {:induction false} WalkBlockComplete(geo: Geometry, wd: nat, n: nat, k: nat, id: nat, s1: StopId, s2: StopId)
    requires k <= n && s1 < k && s2 < n && Close(geo, wd, s1, s2)
    ensures HasWalk(WalkBlock(geo, wd, n, k, id), s1, s2) && HasWalk(WalkBlock(geo, wd, n, k, id), s2, s1)
    decreases k
  {
    if s1 == k - 1 {
      WalkBlockLast(geo, wd, n, k, id, s1, s2);
    } else {
      var prev := WalkBlock(geo, wd, n, k - 1, id);
      WalkBlockStep(geo, wd, n, k, id);
      WalkBlockComplete(geo, wd, n, k - 1, id, s1, s2);
      BothLeft(prev, WalkRow(geo, wd, k - 1, n, id + |prev|), s1, s2);
    }
  }

  /** The pairs of the last row of a block are in the block. */
  lemma WalkBlockLast(geo: Geometry, wd: nat, n: nat, k: nat, id: nat, s1: StopId, s2: StopId)
    requires 0 < k <= n && s1 == k - 1 && s2 < n && Close(geo, wd, s1, s2)
    ensures HasWalk(WalkBlock(geo, wd, n, k, id), s1, s2) && HasWalk(WalkBlock(geo, wd, n, k, id), s2, s1)
  {
    var prev := WalkBlock(geo, wd, n, k - 1, id);
    var row := WalkRow(geo, wd, s1, n, id + |prev|);
    WalkBlockStep(geo, wd, n, k, id);
    assert WalkBlock(geo, wd, n, k, id) == prev + row;
    WalkRowComplete(geo, wd, s1, n, id + |prev|, s2);
    BothRight(prev, row, s1, s2);
  }

  lemma WalkBlockStep(geo: Geometry, wd: nat, n: nat, k: nat, id: nat)
    requires 0 < k <= n
    ensures WalkBlock(geo, wd, n, k, id) == WalkBlock(geo, wd, n, k - 1, id) + WalkRow(geo, wd, k - 1, n, id + |WalkBlock(geo, wd, n, k - 1, id)|)
  {
  }

  lemma BothRight(a: seq<Edge>, b: seq<Edge>, s1: StopId, s2: StopId)
    requires HasWalk(b, s1, s2) && HasWalk(b, s2, s1)
    ensures HasWalk(a + b, s1, s2) && HasWalk(a + b, s2, s1)
  {
    HasWalkRight(a, b, s1, s2);
    HasWalkRight(a, b, s2, s1);
  }

  lemma BothLeft(a: seq<Edge>, b: seq<Edge>, s1: StopId, s2: StopId)
    requires HasWalk(a, s1, s2) && HasWalk(a, s2, s1)
    ensures HasWalk(a + b, s1, s2) && HasWalk(a + b, s2, s1)
  {
    HasWalkLeft(a, b, s1, s2);
    HasWalkLeft(a, b, s2, s1);
  }


  /** For every pair of distinct stops within walking distance there is a
      walking edge each way; every walking edge joins two distinct stops that
      are within walking distance one way or the other. */
  lemma WalkingEdgesExact(geo: Geometry, wd: nat, n: nat, id: nat)
    ensures forall s1: StopId, s2: StopId :: s1 < n && s2 < n && Close(geo, wd, s1, s2) ==>
      HasWalk(WalkingEdges(geo, wd, n, id), s1, s2) && HasWalk(WalkingEdges(geo, wd, n, id), s2, s1)
    ensures forall e :: e in WalkingEdges(geo, wd, n, id) ==>
      e.kind == Walking && e.from != e.to && e.from < n && e.to < n
      && (Close(geo, wd, e.from, e.to) || Close(geo, wd, e.to, e.from))
  {
    forall s1: StopId, s2: StopId | s1 < n && s2 < n && Close(geo, wd, s1, s2)
      ensures HasWalk(WalkingEdges(geo, wd, n, id), s1, s2) && HasWalk(WalkingEdges(geo, wd, n, id), s2, s1)
    {
      WalkBlockComplete(geo, wd, n, n, id, s1, s2);
    }
    var w := WalkingEdges(geo, wd, n, id);
    WalkBlockMembers(geo, wd, n, n, id);
    forall e | e in w
      ensures e.kind == Walking && e.from != e.to && e.from < n && e.to < n
        && (Close(geo, wd, e.from, e.to) || Close(geo, wd, e.to, e.from))
    {
      var i :| 0 <= i < |w| && w[i] == e;
    }
  }

  /** Removing walking edges undoes adding them: filtering a list that had no
      walking edge, extended by walking edges only, gives the list back. */
  lemma RemoveUndoesAdd(es: seq<Edge>, added: seq<Edge>)
    requires forall e :: e in es ==> e.kind != Walking
    requires forall e :: e in added ==> e.kind == Walking
    ensures NonWalking(es + added) == es
  {
    NonWalkingAppend(es, added);
    NonWalkingKeeps(es);
    NonWalkingDrops(added);
  }

  // ---------------------------------------------------------------------------
  // Consistency of the edge set with the per-stop lists
  // ---------------------------------------------------------------------------

  /** Every edge of `es` is in the forward list of its origin and the backward
      list of its destination, and the lists hold edges of `es` only. */
  ghost predicate Wired(n: nat, es: seq<Edge>, fw: seq<seq<Edge>>, bw: seq<seq<Edge>>)
  {
    && Outgoing(fw, n) && Incoming(bw, n)
    && (forall s, e {:trigger e in fw[s]} :: 0 <= s < n && e in fw[s] ==> e in es)
    && (forall s, e {:trigger e in bw[s]} :: 0 <= s < n && e in bw[s] ==> e in es)
    && (forall e {:trigger e in es} :: e in es ==> e.from < n && e.to < n && e in fw[e.from] && e in bw[e.to])
  }

  /** Filtering walking edges out of the set and out of every list keeps them consistent. */
  lemma WiredFilter(n: nat, es: seq<Edge>, fw: seq<seq<Edge>>, bw: seq<seq<Edge>>,
                    fw': seq<seq<Edge>>, bw': seq<seq<Edge>>)
    requires Wired(n, es, fw, bw)
    requires |fw'| == n && forall s :: 0 <= s < n ==> fw'[s] == NonWalking(fw[s])
    requires |bw'| == n && forall s :: 0 <= s < n ==> bw'[s] == NonWalking(bw[s])
    ensures Wired(n, NonWalking(es), fw', bw')
  {
    NonWalkingMembers(es);
    forall s | 0 <= s < n
      ensures forall e :: e in fw'[s] <==> e in fw[s] && e.kind != Walking
      ensures forall e :: e in bw'[s] <==> e in bw[s] && e.kind != Walking
    {
      NonWalkingMembers(fw[s]);
      NonWalkingMembers(bw[s]);
    }
  }

  /** Deletes every walking edge from the edge set and from every stop's lists. */
  method FilterWalking(n: nat, es: seq<Edge>, fw: seq<seq<Edge>>, bw: seq<seq<Edge>>, next: nat)
    returns (es': seq<Edge>, fw': seq<seq<Edge>>, bw': seq<seq<Edge>>)
    requires Wired(n, es, fw, bw) && IdsBelow(es, next)
    ensures es' == NonWalking(es) && |fw'| == n && |bw'| == n
    ensures forall s :: 0 <= s < n ==> fw'[s] == NonWalking(fw[s]) && bw'[s] == NonWalking(bw[s])
    ensures Wired(n, es', fw', bw') && IdsBelow(es', next)
    ensures DistinctIds(es) ==> DistinctIds(es')
  {
    fw' := DeleteWalking(fw);
    bw' := DeleteWalking(bw);
    es' := NonWalking(es);
    WiredFilter(n, es, fw, bw, fw', bw');
    IdsFilter(es, next);
    if DistinctIds(es) {
      DistinctFilter(es);
    }
  }

  /** Filtering keeps every identity below the counter. */
  lemma IdsFilter(es: seq<Edge>, next: nat)
    requires IdsBelow(es, next)
    ensures IdsBelow(NonWalking(es), next)
  {
    NonWalkingMembers(es);
  }

  // ---------------------------------------------------------------------------
  // Per-stop lists extended by a batch of new edges
  // ---------------------------------------------------------------------------

  /** Each stop's forward list is its old list followed by the new edges that leave it. */
  ghost predicate ForwardExtends(f0: seq<seq<Edge>>, f: seq<seq<Edge>>, added: seq<Edge>)
  {
    |f| == |f0| && forall s :: 0 <= s < |f| ==> f[s] == f0[s] + Leaving(added, s)
  }

  /** Each stop's backward list is its old list followed by the new edges that enter it. */
  ghost predicate BackwardExtends(b0: seq<seq<Edge>>, b: seq<seq<Edge>>, added: seq<Edge>)
  {
    |b| == |b0| && forall s :: 0 <= s < |b| ==> b[s] == b0[s] + Entering(added, s)
  }

  lemma ForwardStep(f0: seq<seq<Edge>>, f: seq<seq<Edge>>, added: seq<Edge>, e: Edge)
    requires ForwardExtends(f0, f, added) && e.from < |f|
    ensures ForwardExtends(f0, f[e.from := f[e.from] + [e]], added + [e])
  {
    forall s: StopId | s < |f|
      ensures f[e.from := f[e.from] + [e]][s] == f0[s] + Leaving(added + [e], s)
    {
      LeavingAppend(added, [e], s);
      assert [e][..0] == [];
    }
  }

  /** Two batches added one after the other extend the lists by both. */
  lemma ForwardTrans(f0: seq<seq<Edge>>, f1: seq<seq<Edge>>, f2: seq<seq<Edge>>, a: seq<Edge>, b: seq<Edge>)
    requires ForwardExtends(f0, f1, a) && ForwardExtends(f1, f2, b)
    ensures ForwardExtends(f0, f2, a + b)
  {
    forall s: StopId | s < |f2| ensures f2[s] == f0[s] + Leaving(a + b, s) {
      LeavingAppend(a, b, s);
    }
  }

  lemma BackwardTrans(b0: seq<seq<Edge>>, b1: seq<seq<Edge>>, b2: seq<seq<Edge>>, a: seq<Edge>, b: seq<Edge>)
    requires BackwardExtends(b0, b1, a) && BackwardExtends(b1, b2, b)
    ensures BackwardExtends(b0, b2, a + b)
  {
    forall s: StopId | s < |b2| ensures b2[s] == b0[s] + Entering(a + b, s) {
      EnteringAppend(a, b, s);
    }
  }

  lemma BackwardStep(b0: seq<seq<Edge>>, b: seq<seq<Edge>>, added: seq<Edge>, e: Edge)
    requires BackwardExtends(b0, b, added) && e.to < |b|
    ensures BackwardExtends(b0, b[e.to := b[e.to] + [e]], added + [e])
  {
    forall s: StopId | s < |b|
      ensures b[e.to := b[e.to] + [e]][s] == b0[s] + Entering(added + [e], s)
    {
      EnteringAppend(added, [e], s);
      assert [e][..0] == [];
    }
  }

  // ---------------------------------------------------------------------------
  // Connecting new edges
  // ---------------------------------------------------------------------------

  /** The edge set and the per-stop lists are the old ones extended by the
      batch `added`, in order. */
  ghost predicate Grown(e0: seq<Edge>, f0: seq<seq<Edge>>, b0: seq<seq<Edge>>,
                        es: seq<Edge>, fw: seq<seq<Edge>>, bw: seq<seq<Edge>>, added: seq<Edge>)
  {
    es == e0 + added && ForwardExtends(f0, fw, added) && BackwardExtends(b0, bw, added)
  }

  /** Every edge of `es` joins two graph stops. */
  ghost predicate Between(es: seq<Edge>, n: nat)
  {
    forall e :: e in es ==> e.from < n && e.to < n
  }

  /** Extending consistent lists by a batch of edges between graph stops keeps them consistent. */
  lemma WiredGrown(n: nat, e0: seq<Edge>, f0: seq<seq<Edge>>, b0: seq<seq<Edge>>,
                   es: seq<Edge>, fw: seq<seq<Edge>>, bw: seq<seq<Edge>>, added: seq<Edge>)
    requires Wired(n, e0, f0, b0) && Grown(e0, f0, b0, es, fw, bw, added) && Between(added, n)
    ensures Wired(n, es, fw, bw)
  {
    forall s, e | 0 <= s < n && e in fw[s] ensures e.from == s && e.to < n && e in es {
      LeavingMembers(added, s);
      assert e in f0[s] || e in Leaving(added, s);
    }
    forall s, e | 0 <= s < n && e in bw[s] ensures e.to == s && e.from < n && e in es {
      EnteringMembers(added, s);
      assert e in b0[s] || e in Entering(added, s);
    }
    forall e | e in es ensures e.from < n && e.to < n && e in fw[e.from] && e in bw[e.to] {
      if e in e0 {
        assert e in f0[e.from] && e in b0[e.to];
      } else {
        assert e in added;
        LeavingMembers(added, e.from);
        EnteringMembers(added, e.to);
        assert e in Leaving(added, e.from) && e in Entering(added, e.to);
      }
    }
  }

  /** Connecting a batch to an empty graph leaves exactly the batch, each
      stop's lists holding the batch's edges that leave and enter it. */
  lemma GrownFromEmpty(n: nat, none: seq<seq<Edge>>, es: seq<Edge>, fw: seq<seq<Edge>>, bw: seq<seq<Edge>>, added: seq<Edge>)
    requires |none| == n && forall s :: 0 <= s < n ==> none[s] == []
    requires Grown([], none, none, es, fw, bw, added)
    ensures es == added && |fw| == n && |bw| == n
    ensures forall s :: 0 <= s < n ==> fw[s] == Leaving(es, s) && bw[s] == Entering(es, s)
  {
    assert [] + added == added;
    forall s | 0 <= s < n ensures fw[s] == Leaving(es, s) && bw[s] == Entering(es, s) {
      assert [] + Leaving(added, s) == Leaving(added, s);
      assert [] + Entering(added, s) == Entering(added, s);
    }
  }

  /** No edges and empty lists are consistent. */
  lemma WiredEmpty(n: nat, none: seq<seq<Edge>>)
    requires |none| == n && forall s :: 0 <= s < n ==> none[s] == []
    ensures Wired(n, [], none, none)
  {
  }

  /** Every edge of `es` has an identity below `next`. */
  ghost predicate IdsBelow(es: seq<Edge>, next: nat)
  {
    forall e :: e in es ==> e.id < next
  }

  /** No two places of `es` hold edges with the same identity. */
  ghost predicate DistinctIds(es: seq<Edge>)
  {
    forall i, j :: 0 <= i < j < |es| ==> es[i].id != es[j].id
  }

  /** Filtering out the walking edges keeps the identities distinct. */
  lemma {:induction false} DistinctFilter(es: seq<Edge>)
    requires DistinctIds(es)
    ensures DistinctIds(NonWalking(es))
    decreases |es|
  {
    if es != [] {
      var init := es[..|es| - 1];
      var last := es[|es| - 1];
      assert DistinctIds(init) by {
        forall i, j | 0 <= i < j < |init| ensures init[i].id != init[j].id {
          assert init[i] == es[i] && init[j] == es[j];
        }
      }
      DistinctFilter(init);
      NonWalkingMembers(init);
      var prev := NonWalking(init);
      if last.kind != Walking {
        var r := prev + [last];
        forall i, j | 0 <= i < j < |r| ensures r[i].id != r[j].id {
          if j < |prev| {
            assert r[i] == prev[i] && r[j] == prev[j];
          } else {
            assert r[i] == prev[i] && prev[i] in init;
            var k :| 0 <= k < |init| && init[k] == prev[i];
            assert es[k] == r[i] && es[|es| - 1] == r[j];
          }
        }
      }
    }
  }

  lemma GrownNothing(es: seq<Edge>, fw: seq<seq<Edge>>, bw: seq<seq<Edge>>)
    ensures Grown(es, fw, bw, es, fw, bw, [])
  {
    assert es + [] == es;
    forall s: StopId | s < |fw| ensures fw[s] == fw[s] + Leaving([], s) {
      assert fw[s] + [] == fw[s];
    }
    forall s: StopId | s < |bw| ensures bw[s] == bw[s] + Entering([], s) {
      assert bw[s] + [] == bw[s];
    }
  }

  /** Connecting one more edge (adding it to the set, to its origin's forward
      list and to its destination's backward list) grows the batch by it. */
  lemma GrownStep(e0: seq<Edge>, f0: seq<seq<Edge>>, b0: seq<seq<Edge>>,
                  es: seq<Edge>, fw: seq<seq<Edge>>, bw: seq<seq<Edge>>, added: seq<Edge>, e: Edge)
    requires Grown(e0, f0, b0, es, fw, bw, added) && e.from < |fw| && e.to < |bw|
    ensures Grown(e0, f0, b0, es + [e], fw[e.from := fw[e.from] + [e]], bw[e.to := bw[e.to] + [e]], added + [e])
  {
    ForwardStep(f0, fw, added, e);
    BackwardStep(b0, bw, added, e);
    assert (e0 + added) + [e] == e0 + (added + [e]);
  }

  /** Two batches connected one after the other grow the lists by both. */
  lemma GrownTrans(e0: seq<Edge>, f0: seq<seq<Edge>>, b0: seq<seq<Edge>>,
                   e1: seq<Edge>, f1: seq<seq<Edge>>, b1: seq<seq<Edge>>,
                   e2: seq<Edge>, f2: seq<seq<Edge>>, b2: seq<seq<Edge>>, a: seq<Edge>, b: seq<Edge>)
    requires Grown(e0, f0, b0, e1, f1, b1, a) && Grown(e1, f1, b1, e2, f2, b2, b)
    ensures Grown(e0, f0, b0, e2, f2, b2, a + b)
  {
    ForwardTrans(f0, f1, f2, a, b);
    BackwardTrans(b0, b1, b2, a, b);
    assert (e0 + a) + b == e0 + (a + b);
  }

  /** Connecting the edge of the `i`-th stop pair of a line grows the batch
      from the first `i` segments to the first `i + 1`. */
  lemma LineStep(l: Line, li: nat, geo: Geometry, next: nat, i: nat,
                 es: seq<Edge>, fw: seq<seq<Edge>>, bw: seq<seq<Edge>>,
                 es': seq<Edge>, fw': seq<seq<Edge>>, bw': seq<seq<Edge>>, edge: Edge)
    requires |l.times| >= |l.stops| && i < SegmentCount(l)
    requires Grown(es, fw, bw, es', fw', bw', Segments(l, li, next, geo, i))
    requires edge.from < |fw'| && edge.to < |bw'|
    requires edge == Edge(next + i, l.stops[i], l.stops[i + 1], l.kind, Some(li),
                          l.times[i + 1] - l.times[i], geo.distanceTo(l.stops[i], l.stops[i + 1]))
    ensures Grown(es, fw, bw, es' + [edge], fw'[edge.from := fw'[edge.from] + [edge]],
                  bw'[edge.to := bw'[edge.to] + [edge]], Segments(l, li, next, geo, i + 1))
  {
    SegmentsStep(l, li, next, geo, i);
    GrownStep(es, fw, bw, es', fw', bw', Segments(l, li, next, geo, i), edge);
  }

  /** Connects the edges of line `l` (the `li`-th line), one per consecutive
      stop pair, numbering them from `next` on. */
  method GrowLine(n: nat, l: Line, li: nat, geo: Geometry,
                  es: seq<Edge>, fw: seq<seq<Edge>>, bw: seq<seq<Edge>>, next: nat)
    returns (es': seq<Edge>, fw': seq<seq<Edge>>, bw': seq<seq<Edge>>)
    requires LineOk(l, n) && |fw| == n && |bw| == n
    ensures Grown(es, fw, bw, es', fw', bw', LineEdges(l, li, next, geo))
    ensures |fw'| == n && |bw'| == n
  {
    es', fw', bw' := es, fw, bw;
    GrownNothing(es, fw, bw);
    var stops, times := l.stops, l.times;
    var id := next;
    var i := 0;
    while i < |stops| - 1
      invariant 0 <= i <= SegmentCount(l) && id == next + i
      invariant Grown(es, fw, bw, es', fw', bw', Segments(l, li, next, geo, i))
      invariant |fw'| == n && |bw'| == n
    {
      var from := stops[i];
      var to := stops[i + 1];
      var time := times[i + 1] - times[i];
      var distance := geo.distanceTo(from, to);
      var edge := Edge(id, from, to, l.kind, Some(li), time, distance);
      LineStep(l, li, geo, next, i, es, fw, bw, es', fw', bw', edge);
      es' := es' + [edge];
      fw' := fw'[edge.from := fw'[edge.from] + [edge]];
      bw' := bw'[edge.to := bw'[edge.to] + [edge]];
      id := id + 1;
      i := i + 1;
    }
    assert i == SegmentCount(l);
  }

  /** Connecting the walking edges of the pair (s1, s2) grows the batch from
      the pairs (s1, t), t < s2, to the pairs (s1, t), t <= s2. */
  lemma WalkStep(geo: Geometry, wd: nat, s1: StopId, s2: StopId, next: nat,
                 es: seq<Edge>, fw: seq<seq<Edge>>, bw: seq<seq<Edge>>,
                 es': seq<Edge>, fw': seq<seq<Edge>>, bw': seq<seq<Edge>>, edge1: Edge, edge2: Edge)
    requires Grown(es, fw, bw, es', fw', bw', WalkRow(geo, wd, s1, s2, next))
    requires Close(geo, wd, s1, s2) && s1 < |fw'| && s2 < |fw'| && s1 < |bw'| && s2 < |bw'|
    requires var d := geo.distanceTo(s1, s2); var id := next + |WalkRow(geo, wd, s1, s2, next)|;
      edge1 == Edge(id, s1, s2, Walking, None, d / geo.walkingSpeed, d)
      && edge2 == Edge(id + 1, s2, s1, Walking, None, d / geo.walkingSpeed, d)
    ensures var es1, fw1, bw1 := es' + [edge1], fw'[s1 := fw'[s1] + [edge1]], bw'[s2 := bw'[s2] + [edge1]];
      Grown(es, fw, bw, es1 + [edge2], fw1[s2 := fw1[s2] + [edge2]], bw1[s1 := bw1[s1] + [edge2]],
            WalkRow(geo, wd, s1, s2 + 1, next))
    ensures |WalkRow(geo, wd, s1, s2 + 1, next)| == |WalkRow(geo, wd, s1, s2, next)| + 2
  {
    var built := WalkRow(geo, wd, s1, s2, next);
    var row := WalkRow(geo, wd, s1, s2 + 1, next);
    assert row == built + WalkPair(geo, s1, s2, next + |built|);
    assert WalkPair(geo, s1, s2, next + |built|) == [edge1, edge2];
    assert built + [edge1] + [edge2] == row;
    assert edge1.from == s1 && edge1.to == s2 && edge2.from == s2 && edge2.to == s1;
    GrownStep(es, fw, bw, es', fw', bw', built, edge1);
    var es1, fw1, bw1 := es' + [edge1], fw'[s1 := fw'[s1] + [edge1]], bw'[s2 := bw'[s2] + [edge1]];
    GrownStep(es, fw, bw, es1, fw1, bw1, built + [edge1], edge2);
  }

  /** A pair that is not close adds nothing. */
  lemma WalkSkip(geo: Geometry, wd: nat, s1: StopId, s2: StopId, next: nat,
                 es: seq<Edge>, fw: seq<seq<Edge>>, bw: seq<seq<Edge>>,
                 es': seq<Edge>, fw': seq<seq<Edge>>, bw': seq<seq<Edge>>)
    requires Grown(es, fw, bw, es', fw', bw', WalkRow(geo, wd, s1, s2, next)) && !Close(geo, wd, s1, s2)
    ensures Grown(es, fw, bw, es', fw', bw', WalkRow(geo, wd, s1, s2 + 1, next))
    ensures |WalkRow(geo, wd, s1, s2 + 1, next)| == |WalkRow(geo, wd, s1, s2, next)|
  {
    assert WalkRow(geo, wd, s1, s2 + 1, next) == WalkRow(geo, wd, s1, s2, next);
  }

  /** Connects the walking edges of the ordered pairs (s1, s2), s2 a graph stop,
      numbering them from `next` on. */
  method GrowWalkRow(n: nat, geo: Geometry, wd: nat, s1: StopId,
                     es: seq<Edge>, fw: seq<seq<Edge>>, bw: seq<seq<Edge>>, next: nat)
    returns (es': seq<Edge>, fw': seq<seq<Edge>>, bw': seq<seq<Edge>>)
    requires s1 < n && |fw| == n && |bw| == n
    ensures Grown(es, fw, bw, es', fw', bw', WalkRow(geo, wd, s1, n, next))
    ensures |fw'| == n && |bw'| == n
  {
    es', fw', bw' := es, fw, bw;
    GrownNothing(es, fw, bw);
    var id := next;
    var s2 := 0;
    while s2 < n
      invariant 0 <= s2 <= n && id == next + |WalkRow(geo, wd, s1, s2, next)|
      invariant Grown(es, fw, bw, es', fw', bw', WalkRow(geo, wd, s1, s2, next))
      invariant |fw'| == n && |bw'| == n
    {
      if geo.distanceTo(s1, s2) <= wd && s1 != s2 {
        var distance := geo.distanceTo(s1, s2);
        var time := distance / geo.walkingSpeed;
        var edge1 := Edge(id, s1, s2, Walking, None, time, distance);
        var edge2 := Edge(id + 1, s2, s1, Walking, None, time, distance);
        WalkStep(geo, wd, s1, s2, next, es, fw, bw, es', fw', bw', edge1, edge2);
        es' := es' + [edge1];
        fw' := fw'[s1 := fw'[s1] + [edge1]];
        bw' := bw'[s2 := bw'[s2] + [edge1]];
        es' := es' + [edge2];
        fw' := fw'[s2 := fw'[s2] + [edge2]];
        bw' := bw'[s1 := bw'[s1] + [edge2]];
        id := id + 2;
      } else {
        WalkSkip(geo, wd, s1, s2, next, es, fw, bw, es', fw', bw');
      }
      s2 := s2 + 1;
    }
  }

  /** Connecting the edges of one more line grows the batch from the edges
      of the first `li` lines to those of the first `li + 1`. */
  lemma LinesStep(ls: seq<Line>, li: nat, id: nat, geo: Geometry,
                  e0: seq<Edge>, f0: seq<seq<Edge>>, b0: seq<seq<Edge>>,
                  e1: seq<Edge>, f1: seq<seq<Edge>>, b1: seq<seq<Edge>>,
                  e2: seq<Edge>, f2: seq<seq<Edge>>, b2: seq<seq<Edge>>)
    requires li < |ls| && forall l :: l in ls ==> |l.times| >= |l.stops|
    requires forall l :: l in ls[..li] ==> |l.times| >= |l.stops|
    requires Grown(e0, f0, b0, e1, f1, b1, AllLineEdges(ls[..li], id, geo))
    requires Grown(e1, f1, b1, e2, f2, b2, LineEdges(ls[li], li, id + |AllLineEdges(ls[..li], id, geo)|, geo))
    ensures forall l :: l in ls[..li + 1] ==> |l.times| >= |l.stops|
    ensures Grown(e0, f0, b0, e2, f2, b2, AllLineEdges(ls[..li + 1], id, geo))
    ensures |AllLineEdges(ls[..li + 1], id, geo)| == |AllLineEdges(ls[..li], id, geo)| + SegmentCount(ls[li])
  {
    assert ls[..li + 1][..li] == ls[..li];
    assert ls[..li + 1][li] == ls[li];
    assert forall l :: l in ls[..li + 1] ==> l in ls;
    var before := AllLineEdges(ls[..li], id, geo);
    var added := LineEdges(ls[li], li, id + |before|, geo);
    assert AllLineEdges(ls[..li + 1], id, geo) == before + added;
    GrownTrans(e0, f0, b0, e1, f1, b1, e2, f2, b2, before, added);
  }

  /** Connecting one more row of walking edges grows the batch from the rows
      of the first `k` stops to those of the first `k + 1`. */
  lemma BlockStep(geo: Geometry, wd: nat, n: nat, k: nat, id: nat,
                  e0: seq<Edge>, f0: seq<seq<Edge>>, b0: seq<seq<Edge>>,
                  e1: seq<Edge>, f1: seq<seq<Edge>>, b1: seq<seq<Edge>>,
                  e2: seq<Edge>, f2: seq<seq<Edge>>, b2: seq<seq<Edge>>)
    requires k < n
    requires Grown(e0, f0, b0, e1, f1, b1, WalkBlock(geo, wd, n, k, id))
    requires Grown(e1, f1, b1, e2, f2, b2, WalkRow(geo, wd, k, n, id + |WalkBlock(geo, wd, n, k, id)|))
    ensures Grown(e0, f0, b0, e2, f2, b2, WalkBlock(geo, wd, n, k + 1, id))
    ensures |WalkBlock(geo, wd, n, k + 1, id)|
      == |WalkBlock(geo, wd, n, k, id)| + |WalkRow(geo, wd, k, n, id + |WalkBlock(geo, wd, n, k, id)|)|
  {
    var before := WalkBlock(geo, wd, n, k, id);
    GrownTrans(e0, f0, b0, e1, f1, b1, e2, f2, b2, before, WalkRow(geo, wd, k, n, id + |before|));
  }

  /** Connects the edges of all lines, line after line, numbering them from `next` on. */
  method GrowLines(n: nat, ls: seq<Line>, geo: Geometry,
                   es: seq<Edge>, fw: seq<seq<Edge>>, bw: seq<seq<Edge>>, next: nat)
    returns (es': seq<Edge>, fw': seq<seq<Edge>>, bw': seq<seq<Edge>>)
    requires LinesOk(ls, n) && |fw| == n && |bw| == n
    ensures Grown(es, fw, bw, es', fw', bw', AllLineEdges(ls, next, geo))
    ensures |fw'| == n && |bw'| == n
  {
    es', fw', bw' := es, fw, bw;
    GrownNothing(es, fw, bw);
    var id := next;
    var li := 0;
    while li < |ls|
      invariant 0 <= li <= |ls|
      invariant forall l :: l in ls[..li] ==> |l.times| >= |l.stops|
      invariant id == next + |AllLineEdges(ls[..li], next, geo)|
      invariant Grown(es, fw, bw, es', fw', bw', AllLineEdges(ls[..li], next, geo))
      invariant |fw'| == n && |bw'| == n
    {
      assert ls[li] in ls;
      var es2, fw2, bw2 := GrowLine(n, ls[li], li, geo, es', fw', bw', id);
      LinesStep(ls, li, next, geo, es, fw, bw, es', fw', bw', es2, fw2, bw2);
      es', fw', bw' := es2, fw2, bw2;
      id := id + SegmentCount(ls[li]);
      li := li + 1;
    }
    assert ls[..li] == ls;
  }

  /** Connects the walking edges of every ordered pair of close stops,
      numbering them from `next` on. */
  method GrowWalking(n: nat, geo: Geometry, wd: nat,
                     es: seq<Edge>, fw: seq<seq<Edge>>, bw: seq<seq<Edge>>, next: nat)
    returns (es': seq<Edge>, fw': seq<seq<Edge>>, bw': seq<seq<Edge>>)
    requires |fw| == n && |bw| == n
    ensures Grown(es, fw, bw, es', fw', bw', WalkingEdges(geo, wd, n, next))
    ensures |fw'| == n && |bw'| == n
  {
    es', fw', bw' := es, fw, bw;
    GrownNothing(es, fw, bw);
    var id := next;
    var s1 := 0;
    while s1 < n
      invariant 0 <= s1 <= n && id == next + |WalkBlock(geo, wd, n, s1, next)|
      invariant Grown(es, fw, bw, es', fw', bw', WalkBlock(geo, wd, n, s1, next))
      invariant |fw'| == n && |bw'| == n
    {
      var es2, fw2, bw2 := GrowWalkRow(n, geo, wd, s1, es', fw', bw', id);
      BlockStep(geo, wd, n, s1, next, es, fw, bw, es', fw', bw', es2, fw2, bw2);
      es', fw', bw' := es2, fw2, bw2;
      id := id + |WalkRow(geo, wd, s1, n, id)|;
      s1 := s1 + 1;
    }
  }

  /** The edges of lines of graph stops join graph stops and have the
      identities handed out. */
  lemma LinesBetween(ls: seq<Line>, id: nat, geo: Geometry, n: nat)
    requires LinesOk(ls, n)
    ensures Between(AllLineEdges(ls, id, geo), n)
    ensures forall e :: e in AllLineEdges(ls, id, geo) ==> id <= e.id < id + |AllLineEdges(ls, id, geo)|
    ensures Consecutive(AllLineEdges(ls, id, geo), id)
  {
    AllLineEdgesMembers(ls, id, geo);
    forall e | e in AllLineEdges(ls, id, geo) ensures e.from < n && e.to < n {
      var l := ls[e.line.value];
      assert l in ls;
      var i :| 0 <= i < |l.stops| && l.stops[i] == e.from;
      var j :| 0 <= j < |l.stops| && l.stops[j] == e.to;
    }
  }

  /** Walking edges join graph stops and have the identities handed out. */
  lemma WalkingBetween(geo: Geometry, wd: nat, n: nat, id: nat)
    ensures Between(WalkingEdges(geo, wd, n, id), n)
    ensures forall e :: e in WalkingEdges(geo, wd, n, id) ==> id <= e.id < id + |WalkingEdges(geo, wd, n, id)|
    ensures Consecutive(WalkingEdges(geo, wd, n, id), id)
  {
    var w := WalkingEdges(geo, wd, n, id);
    WalkBlockMembers(geo, wd, n, n, id);
    forall e | e in w ensures e.from < n && e.to < n && id <= e.id < id + |w| {
      var i :| 0 <= i < |w| && w[i] == e;
    }
  }

  /** The i-th edge of `es` has the identity id + i. */
  ghost predicate Consecutive(es: seq<Edge>, id: nat)
  {
    forall i :: 0 <= i < |es| ==> es[i].id == id + i
  }

  /** Appending edges numbered on from the counter keeps the identities distinct. */
  lemma DistinctGrown(es: seq<Edge>, added: seq<Edge>, next: nat)
    requires DistinctIds(es) && IdsBelow(es, next) && Consecutive(added, next)
    ensures DistinctIds(es + added)
  {
    var r := es + added;
    forall i, j | 0 <= i < j < |r| ensures r[i].id != r[j].id {
      if j < |es| {
        assert r[i] == es[i] && r[j] == es[j];
      } else if i < |es| {
        assert r[i] == es[i] && es[i] in es && r[j] == added[j - |es|];
      } else {
        assert r[i] == added[i - |es|] && r[j] == added[j - |es|];
      }
    }
  }

  /** Appending edges with fresh identities keeps every identity below the counter. */
  lemma IdsGrown(es: seq<Edge>, added: seq<Edge>, next: nat)
    requires IdsBelow(es, next) && forall e :: e in added ==> e.id < next + |added|
    ensures IdsBelow(es + added, next + |added|)
  {
  }

  /** Each stop's list with its walking edges removed. */
  method DeleteWalking(ls: seq<seq<Edge>>) returns (r: seq<seq<Edge>>)
    ensures |r| == |ls| && forall s :: 0 <= s < |ls| ==> r[s] == NonWalking(ls[s])
  {
    r := ls;
    var i := 0;
    while i < |r|
      invariant 0 <= i <= |r| == |ls|
      invariant forall s :: 0 <= s < i ==> r[s] == NonWalking(ls[s])
      invariant forall s :: i <= s < |r| ==> r[s] == ls[s]
    {
      r := r[i := NonWalking(r[i])];
      i := i + 1;
    }
  }

  // ---------------------------------------------------------------------------
  // Transfers
  // ---------------------------------------------------------------------------

  predicate Matches(e: Edge, t: Transfer)
  {
    e.from == t.from && e.to == t.to
  }

  /** The position of the first edge whose endpoints are the transfer's, if any. */
  function FirstMatch(es: seq<Edge>, t: Transfer): (r: Option<nat>)
    ensures r.Some? ==> r.value < |es| && Matches(es[r.value], t)
                        && forall j :: 0 <= j < r.value ==> !Matches(es[j], t)
    ensures r.None? ==> forall j :: 0 <= j < |es| ==> !Matches(es[j], t)
    decreases |es|
  {
    if es == [] then None
    else if Matches(es[0], t) then Some(0)
    else match FirstMatch(es[1..], t)
      case None => None
      case Some(k) => Some(k + 1)
  }

  /** Scans the edges in order for the first one that matches the transfer. */
  method FindMatch(es: seq<Edge>, t: Transfer) returns (r: Option<nat>)
    ensures r == FirstMatch(es, t)
  {
    var j := 0;
    while j < |es| && !(es[j].from == t.from && es[j].to == t.to)
      invariant 0 <= j <= |es|
      invariant forall i :: 0 <= i < j ==> !Matches(es[i], t)
    {
      j := j + 1;
    }
    r := if j < |es| then Some(j) else None;
  }

  /** The edge-to-transfer attachment after attaching the transfers `ts` in order. */
  function AttachAll(m: map<nat, Transfer>, es: seq<Edge>, ts: seq<Transfer>): (r: map<nat, Transfer>)
    ensures m.Keys <= r.Keys
    decreases |ts|
  {
    if ts == [] then m
    else
      var prev := AttachAll(m, es, ts[..|ts| - 1]);
      match FirstMatch(es, ts[|ts| - 1])
      case None => prev
      case Some(k) => prev[es[k].id := ts[|ts| - 1]]
  }

  /** Every attachment made joins an edge to one of the transfers with the same endpoints. */
  lemma {:induction false} AttachAllSound(m: map<nat, Transfer>, es: seq<Edge>, ts: seq<Transfer>)
    ensures forall k :: k in AttachAll(m, es, ts) && (k !in m || AttachAll(m, es, ts)[k] != m[k]) ==>
      exists e :: e in es && e.id == k && Matches(e, AttachAll(m, es, ts)[k]) && AttachAll(m, es, ts)[k] in ts
    decreases |ts|
  {
    if ts != [] {
      AttachAllSound(m, es, ts[..|ts| - 1]);
      assert forall x :: x in ts[..|ts| - 1] ==> x in ts;
      var t := ts[|ts| - 1];
      match FirstMatch(es, t)
      case None =>
      case Some(j) =>
        assert es[j] in es;
    }
  }

  /** Attaches every transfer, in order, to the first edge that joins the same
      two stops; a transfer that matches no edge is skipped. */
  method AttachTransfers(m0: map<nat, Transfer>, es: seq<Edge>, ts: seq<Transfer>) returns (m: map<nat, Transfer>)
    ensures m == AttachAll(m0, es, ts)
  {
    m := m0;
    var k := 0;
    while k < |ts|
      invariant 0 <= k <= |ts|
      invariant m == AttachAll(m0, es, ts[..k])
    {
      var transfer := ts[k];
      var j := FindMatch(es, transfer);
      assert ts[..k + 1][..k] == ts[..k];
      assert ts[..k + 1][k] == transfer;
      if j.Some? {
        m := m[es[j.value].id := transfer];
      }
      k := k + 1;
    }
    assert ts[..|ts|] == ts;
  }

  /** A transfer that matches no edge changes nothing. */
  lemma AttachUnmatched(m: map<nat, Transfer>, es: seq<Edge>, ts: seq<Transfer>, t: Transfer)
    requires forall j :: 0 <= j < |es| ==> !Matches(es[j], t)
    ensures AttachAll(m, es, ts + [t]) == AttachAll(m, es, ts)
  {
    assert (ts + [t])[..|ts|] == ts;
  }

  // ---------------------------------------------------------------------------
  // Neighbours
  // ---------------------------------------------------------------------------

  /** Each stop's neighbour set extended by its forward-edge targets and backward-edge sources. */
  function WithAdjacent(nb: seq<set<StopId>>, fw: seq<seq<Edge>>, bw: seq<seq<Edge>>): (r: seq<set<StopId>>)
    requires |fw| == |nb| && |bw| == |nb|
    ensures |r| == |nb|
  {
    seq(|nb|, s requires 0 <= s < |nb| => nb[s] + Targets(fw[s]) + Sources(bw[s]))
  }

  /** A stop becomes a neighbour of `s` exactly when it already was one, or
      some forward edge of `s` enters it, or some backward edge of `s` leaves it. */
  lemma WithAdjacentMembers(nb: seq<set<StopId>>, fw: seq<seq<Edge>>, bw: seq<seq<Edge>>)
    requires |fw| == |nb| && |bw| == |nb|
    ensures forall s, v :: 0 <= s < |nb| ==>
      (v in WithAdjacent(nb, fw, bw)[s] <==>
        v in nb[s] || (exists e :: e in fw[s] && e.to == v) || (exists e :: e in bw[s] && e.from == v))
  {
  }

  /** Adds to each stop's neighbour set the targets of its forward edges and
      the sources of its backward edges, one stop at a time. */
  method AddNeighbours(nb0: seq<set<StopId>>, fw: seq<seq<Edge>>, bw: seq<seq<Edge>>) returns (nb: seq<set<StopId>>)
    requires |fw| == |nb0| && |bw| == |nb0|
    ensures nb == WithAdjacent(nb0, fw, bw)
  {
    nb := nb0;
    var i := 0;
    while i < |nb0|
      invariant 0 <= i <= |nb0| == |nb|
      invariant forall s :: 0 <= s < i ==> nb[s] == nb0[s] + Targets(fw[s]) + Sources(bw[s])
      invariant forall s :: i <= s < |nb0| ==> nb[s] == nb0[s]
    {
      var found := CollectTargets(fw[i]);
      var more := CollectSources(bw[i]);
      nb := nb[i := nb[i] + found + more];
      i := i + 1;
    }
  }

  /** Extending by the same edge lists a second time changes nothing. */
  lemma WithAdjacentIdempotent(nb: seq<set<StopId>>, fw: seq<seq<Edge>>, bw: seq<seq<Edge>>)
    requires |fw| == |nb| && |bw| == |nb|
    ensures WithAdjacent(WithAdjacent(nb, fw, bw), fw, bw) == WithAdjacent(nb, fw, bw)
  {
    var once := WithAdjacent(nb, fw, bw);
    var twice := WithAdjacent(once, fw, bw);
    WithAdjacentMembers(nb, fw, bw);
    WithAdjacentMembers(once, fw, bw);
    forall s | 0 <= s < |nb| ensures twice[s] == once[s] {
      assert forall v :: v in twice[s] <==> v in once[s];
    }
  }

  /** Extending by edges between graph stops keeps every neighbour a graph stop. */
  lemma WithAdjacentBounded(n: nat, nb: seq<set<StopId>>, fw: seq<seq<Edge>>, bw: seq<seq<Edge>>)
    requires |nb| == n && Outgoing(fw, n) && Incoming(bw, n)
    requires forall s, v :: 0 <= s < n && v in nb[s] ==> v < n
    ensures forall s, v :: 0 <= s < n && v in WithAdjacent(nb, fw, bw)[s] ==> v < n
  {
    var r := WithAdjacent(nb, fw, bw);
    WithAdjacentMembers(nb, fw, bw);
    forall s, v | 0 <= s < n && v in r[s] ensures v < n {
      if e :| e in fw[s] && e.to == v {
      } else if e :| e in bw[s] && e.from == v {
      }
    }
  }

  /** The neighbour relation is undirected. */
  ghost predicate Symmetric(nb: seq<set<StopId>>)
  {
    forall s, v {:trigger v in nb[s]} :: 0 <= s < |nb| && v in nb[s] ==> v < |nb| && s in nb[v]
  }

  /** The lists of both ends of every edge hold it. */
  ghost predicate Mirrored(n: nat, fw: seq<seq<Edge>>, bw: seq<seq<Edge>>)
  {
    && Outgoing(fw, n) && Incoming(bw, n)
    && (forall s, e {:trigger e in fw[s]} :: 0 <= s < n && e in fw[s] ==> e in bw[e.to])
    && (forall s, e {:trigger e in bw[s]} :: 0 <= s < n && e in bw[s] ==> e in fw[e.from])
  }

  /** Consistent lists hold every edge at both of its ends. */
  lemma WiredMirrored(n: nat, es: seq<Edge>, fw: seq<seq<Edge>>, bw: seq<seq<Edge>>)
    requires Wired(n, es, fw, bw)
    ensures Mirrored(n, fw, bw)
  {
  }

  /** One pair of the symmetry argument: a neighbour of `s` after the
      extension has `s` as a neighbour after it. */
  lemma AdjacentBack(nb: seq<set<StopId>>, fw: seq<seq<Edge>>, bw: seq<seq<Edge>>, s: StopId, v: StopId)
    requires Mirrored(|nb|, fw, bw) && Symmetric(nb)
    requires s < |nb| && v in nb[s] + Targets(fw[s]) + Sources(bw[s])
    ensures v < |nb| && s in nb[v] + Targets(fw[v]) + Sources(bw[v])
  {
    if v in nb[s] {
      assert v < |nb| && s in nb[v];
    } else if v in Targets(fw[s]) {
      var e :| e in fw[s] && e.to == v;
      assert e.to < |nb|;
      assert e in bw[v];
      assert s in Sources(bw[v]);
    } else {
      assert v in Sources(bw[s]);
      var e :| e in bw[s] && e.from == v;
      assert e.from < |nb|;
      assert e in fw[v];
      assert s in Targets(fw[v]);
    }
  }

  /** When every forward edge is also in its target's backward list and every
      backward edge in its source's forward list, extending a symmetric
      neighbour relation keeps it symmetric. */
  lemma WithAdjacentSymmetric(nb: seq<set<StopId>>, fw: seq<seq<Edge>>, bw: seq<seq<Edge>>)
    requires Mirrored(|nb|, fw, bw) && Symmetric(nb)
    ensures Symmetric(WithAdjacent(nb, fw, bw))
  {
    var r := WithAdjacent(nb, fw, bw);
    forall s, v | 0 <= s < |r| && v in r[s] ensures v < |r| && s in r[v] {
      AdjacentBack(nb, fw, bw, s, v);
    }
  }

  /** Every component label is the unassigned sentinel -1. */
  ghost predicate AllUnassigned(ids: seq<int>)
  {
    forall s :: 0 <= s < |ids| ==> ids[s] == -1
  }

  // ---------------------------------------------------------------------------
  // Name-prefix lookup
  // ---------------------------------------------------------------------------

  /** The stops among the first `k` whose name starts with `prefix`, in stop order. */
  function Matching(names: seq<string>, prefix: string, k: nat): (r: seq<StopId>)
    requires k <= |names|
    ensures forall s: StopId :: s in r <==> s < k && prefix <= names[s]
    ensures forall i, j :: 0 <= i < j < |r| ==> r[i] < r[j]
    decreases k
  {
    if k == 0 then []
    else
      var prev := Matching(names, prefix, k - 1);
      assert forall i :: 0 <= i < |prev| ==> prev[i] < k - 1 by {
        forall i | 0 <= i < |prev| ensures prev[i] < k - 1 {
          assert prev[i] in prev;
        }
      }
      prev + (if prefix <= names[k - 1] then [k - 1] else [])
  }

  /** One more stop extends the matches by that stop when its name matches. */
  lemma MatchingStep(names: seq<string>, prefix: string, k: nat)
    requires k < |names|
    ensures Matching(names, prefix, k + 1)
         == Matching(names, prefix, k) + (if prefix <= names[k] then [k] else [])
  {
  }

  /** The targets of a stop's forward edges, gathered one edge at a time. */
  method CollectTargets(fw: seq<Edge>) returns (found: set<StopId>)
    ensures found == Targets(fw)
  {
    found := {};
    var j := 0;
    while j < |fw|
      invariant 0 <= j <= |fw|
      invariant found == Targets(fw[..j])
    {
      assert fw[..j + 1] == fw[..j] + [fw[j]];
      TargetsStep(fw[..j], fw[j]);
      found := found + {fw[j].to};
      j := j + 1;
    }
    assert fw[..|fw|] == fw;
  }

  /** The sources of a stop's backward edges, gathered one edge at a time. */
  method CollectSources(bw: seq<Edge>) returns (found: set<StopId>)
    ensures found == Sources(bw)
  {
    found := {};
    var j := 0;
    while j < |bw|
      invariant 0 <= j <= |bw|
      invariant found == Sources(bw[..j])
    {
      assert bw[..j + 1] == bw[..j] + [bw[j]];
      SourcesStep(bw[..j], bw[j]);
      found := found + {bw[j].from};
      j := j + 1;
    }
    assert bw[..|bw|] == bw;
  }

  // ---------------------------------------------------------------------------
  // The graph
  // ---------------------------------------------------------------------------

  /** The graph's invariant on its parts: lines of graph stops, consistent
      edge set and lists, one neighbour set and one label per stop, every
      identity handed out below the counter and no identity used twice, neighbours that are graph stops. */
  ghost predicate Sound(n: nat, lines: seq<Line>, es: seq<Edge>, fw: seq<seq<Edge>>, bw: seq<seq<Edge>>,
                        nb: seq<set<StopId>>, labels: seq<int>, next: nat)
  {
    && LinesOk(lines, n)
    && Wired(n, es, fw, bw)
    && |nb| == n && |labels| == n
    && IdsBelow(es, next) && DistinctIds(es)
    && NeighboursBelow(nb, n)
  }

  /** Replacing the edge set and lists by consistent ones keeps the invariant. */
  lemma SoundEdges(n: nat, lines: seq<Line>, es: seq<Edge>, fw: seq<seq<Edge>>, bw: seq<seq<Edge>>,
                   nb: seq<set<StopId>>, labels: seq<int>, next: nat,
                   es': seq<Edge>, fw': seq<seq<Edge>>, bw': seq<seq<Edge>>, next': nat)
    requires Sound(n, lines, es, fw, bw, nb, labels, next)
    requires Wired(n, es', fw', bw') && IdsBelow(es', next') && DistinctIds(es')
    ensures Sound(n, lines, es', fw', bw', nb, labels, next')
  {
  }

  /** Every neighbour of a stop is a graph stop. */
  ghost predicate NeighboursBelow(nb: seq<set<StopId>>, n: nat)
  {
    forall s, v :: 0 <= s < |nb| && s < n && v in nb[s] ==> v < n
  }

  class Graph {
    /** The stops' names, in the stop collection's (alphabetical) order. */
    const names: seq<string>
    const n: nat := |names|
    const geo: Geometry
    const lines: seq<Line>
    const transfers: seq<Transfer>

    var edges: seq<Edge>
    var forward: seq<seq<Edge>>
    var backward: seq<seq<Edge>>
    var neighbours: seq<set<StopId>>
    var subGraphId: seq<int>
    var numComponents: int
    /** The transfer attached to an edge, by edge identity. */
    var attached: map<nat, Transfer>
    /** The identity the next new edge object receives. */
    var nextEdgeId: nat

    /** Every edge of the graph is in the forward list of its origin and the
        backward list of its destination, and the lists hold nothing else. */
    ghost predicate Valid()
      reads this
    {
      Sound(n, lines, edges, forward, backward, neighbours, subGraphId, nextEdgeId)
    }

    constructor (names: seq<string>, geo: Geometry, lines: seq<Line>, transfers: seq<Transfer>)
      requires LinesOk(lines, |names|)
      ensures Valid()
      ensures this.names == names && this.geo == geo && this.lines == lines && this.transfers == transfers
      ensures edges == AllLineEdges(lines, 0, geo)
      ensures forall s :: 0 <= s < n ==> forward[s] == Leaving(edges, s) && backward[s] == Entering(edges, s)
      ensures forall s :: 0 <= s < n ==> neighbours[s] == Targets(forward[s]) + Sources(backward[s])
      ensures Symmetric(neighbours)
      ensures attached == AttachAll(map[], edges, transfers)
      ensures AllUnassigned(subGraphId) && numComponents == 0
    {
      var count := |names|;
      var none: seq<seq<Edge>> := seq(count, _ => []);
      var es, fw, bw := GrowLines(count, lines, geo, [], none, none, 0);
      ghost var added := AllLineEdges(lines, 0, geo);
      GrownFromEmpty(count, none, es, fw, bw, added);
      LinesBetween(lines, 0, geo, count);
      WiredEmpty(count, none);
      WiredGrown(count, [], none, none, es, fw, bw, added);
      DistinctGrown([], added, 0);
      var m := AttachTransfers(map[], es, transfers);
      var isolated: seq<set<StopId>> := seq(count, _ => {});
      var nb := AddNeighbours(isolated, fw, bw);
      WithAdjacentBounded(count, isolated, fw, bw);
      WiredMirrored(count, es, fw, bw);
      WithAdjacentSymmetric(isolated, fw, bw);
      forall s | 0 <= s < count ensures nb[s] == Targets(fw[s]) + Sources(bw[s]) {
        assert isolated[s] == {};
      }
      var labels := seq(count, _ => -1);
      assert Sound(count, lines, es, fw, bw, nb, labels, |es|);
      this.names := names;
      this.geo := geo;
      this.lines := lines;
      this.transfers := transfers;
      edges, forward, backward := es, fw, bw;
      neighbours := nb;
      subGraphId := labels;
      numComponents := 0;
      attached := m;
      nextEdgeId := |es|;
    }

    /** Derives one edge per consecutive stop pair of every line and connects it. */
    method CreateAndConnectEdges()
      requires Valid()
      modifies this`edges, this`forward, this`backward, this`nextEdgeId
      ensures Valid()
      ensures Grown(old(edges), old(forward), old(backward), edges, forward, backward,
                    AllLineEdges(lines, old(nextEdgeId), geo))
      ensures nextEdgeId == old(nextEdgeId) + |AllLineEdges(lines, old(nextEdgeId), geo)|
    {
      var es, fw, bw := GrowLines(n, lines, geo, edges, forward, backward, nextEdgeId);
      var added := AllLineEdges(lines, nextEdgeId, geo);
      LinesBetween(lines, nextEdgeId, geo, n);
      WiredGrown(n, edges, forward, backward, es, fw, bw, added);
      IdsGrown(edges, added, nextEdgeId);
      DistinctGrown(edges, added, nextEdgeId);
      SoundEdges(n, lines, edges, forward, backward, neighbours, subGraphId, nextEdgeId, es, fw, bw, nextEdgeId + |added|);
      edges, forward, backward, nextEdgeId := es, fw, bw, nextEdgeId + |added|;
    }

    /** Attaches every transfer to the first edge that joins the same two stops;
        a transfer that matches no edge is skipped. */
    method AddTransfersToEdges()
      requires Valid()
      modifies this`attached
      ensures Valid()
      ensures attached == AttachAll(old(attached), edges, transfers)
    {
      attached := AttachTransfers(attached, edges, transfers);
    }

    /** Adds to each stop's neighbour set the targets of its forward edges and
        the sources of its backward edges. */
    method ComputeNeighbours()
      requires Valid()
      modifies this`neighbours
      ensures Valid()
      ensures neighbours == WithAdjacent(old(neighbours), forward, backward)
      ensures Symmetric(old(neighbours)) ==> Symmetric(neighbours)
    {
      ghost var nb0 := neighbours;
      var nb := AddNeighbours(neighbours, forward, backward);
      WithAdjacentBounded(n, nb0, forward, backward);
      neighbours := nb;
      if Symmetric(nb0) {
        WiredMirrored(n, edges, forward, backward);
        WithAdjacentSymmetric(nb0, forward, backward);
      }
    }

    /** Adds a walking edge each way for every ordered pair of distinct stops
        within `walkingDistance` of each other. */
    method RecomputeWalkingEdges(walkingDistance: nat)
      requires Valid()
      modifies this`edges, this`forward, this`backward, this`nextEdgeId
      ensures Valid()
      ensures Grown(old(edges), old(forward), old(backward), edges, forward, backward,
                    WalkingEdges(geo, walkingDistance, n, old(nextEdgeId)))
      ensures nextEdgeId == old(nextEdgeId) + |WalkingEdges(geo, walkingDistance, n, old(nextEdgeId))|
    {
      var es, fw, bw := GrowWalking(n, geo, walkingDistance, edges, forward, backward, nextEdgeId);
      var added := WalkingEdges(geo, walkingDistance, n, nextEdgeId);
      WalkingBetween(geo, walkingDistance, n, nextEdgeId);
      WiredGrown(n, edges, forward, backward, es, fw, bw, added);
      IdsGrown(edges, added, nextEdgeId);
      DistinctGrown(edges, added, nextEdgeId);
      SoundEdges(n, lines, edges, forward, backward, neighbours, subGraphId, nextEdgeId, es, fw, bw, nextEdgeId + |added|);
      edges, forward, backward, nextEdgeId := es, fw, bw, nextEdgeId + |added|;
    }

    /** Deletes every walking edge from the stops' lists and from the edge set,
        and resets the component labelling. */
    method RemoveWalkingEdges()
      requires Valid()
      modifies this`subGraphId, this`numComponents, this`forward, this`backward, this`edges
      ensures Valid()
      ensures edges == NonWalking(old(edges))
      ensures |forward| == n && |backward| == n
      ensures forall s :: 0 <= s < n ==>
        forward[s] == NonWalking(old(forward[s])) && backward[s] == NonWalking(old(backward[s]))
      ensures AllUnassigned(subGraphId) && numComponents == 0
    {
      ResetSubGraphIds();
      var es, fw, bw := FilterWalking(n, edges, forward, backward, nextEdgeId);
      SoundEdges(n, lines, edges, forward, backward, neighbours, subGraphId, nextEdgeId, es, fw, bw, nextEdgeId);
      edges, forward, backward := es, fw, bw;
    }

    /** The first stop, in stop order, whose name starts with `prefix`. */
    method GetFirstMatchingStop(prefix: string) returns (r: Option<StopId>)
      ensures r.Some? ==> r.value < n && prefix <= names[r.value]
                          && forall t :: 0 <= t < r.value ==> !(prefix <= names[t])
      ensures r.None? ==> forall t :: 0 <= t < n ==> !(prefix <= names[t])
      ensures var all := Matching(names, prefix, n);
        r == if all == [] then None else Some(all[0])
    {
      var i := 0;
      while i < n
        invariant 0 <= i <= n
        invariant forall t :: 0 <= t < i ==> !(prefix <= names[t])
      {
        if prefix <= names[i] {
          var all := Matching(names, prefix, n);
          assert i in all && all[0] in all;
          return Some(i);
        }
        i := i + 1;
      }
      var all := Matching(names, prefix, n);
      assert all != [] ==> all[0] in all;
      return None;
    }

    /** All stops whose name starts with `prefix`, in stop order. */
    method GetAllMatchingStops(prefix: string) returns (ans: seq<StopId>)
      ensures ans == Matching(names, prefix, n)
    {
      ans := [];
      var i: nat := 0;
      while i < n
        invariant 0 <= i <= n
        invariant ans == Matching(names, prefix, i)
      {
        MatchingStep(names, prefix, i);
        if prefix <= names[i] {
          ans := ans + [i];
        }
        i := i + 1;
      }
    }

    /** Sets the component count; a count of 0 also clears every label. */
    method SetSubGraphCount(num: int)
      requires Valid()
      modifies this`subGraphId, this`numComponents
      ensures Valid()
      ensures num == 0 ==> AllUnassigned(subGraphId) && numComponents == 0
      ensures num != 0 ==> subGraphId == old(subGraphId) && numComponents == num
    {
      numComponents := num;
      if num == 0 {
        ResetSubGraphIds();
      }
    }

    /** Clears every stop's component label to -1 and the count to 0. */
    method ResetSubGraphIds()
      requires Valid()
      modifies this`subGraphId, this`numComponents
      ensures Valid()
      ensures AllUnassigned(subGraphId) && numComponents == 0
    {
      var i := 0;
      while i < n
        invariant 0 <= i <= n
        invariant |subGraphId| == n
        invariant forall s :: 0 <= s < i ==> subGraphId[s] == -1
      {
        subGraphId := subGraphId[i := -1];
        i := i + 1;
      }
      numComponents := 0;
    }
  }
}
