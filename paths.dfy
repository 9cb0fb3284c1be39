/** Directed paths through the per-stop edge lists, shared by the shortest-path
    search and the component labelling. */
module Paths {
  import opened Entities

  /** `p` is a chain of edges from `a` to `b`: each edge leaves the stop the previous one entered. */
  ghost predicate Chain(p: seq<Edge>, a: StopId, b: StopId)
    decreases |p|
  {
    if p == [] then a == b else p[0].from == a && Chain(p[1..], p[0].to, b)
  }

  /** Every edge of `p` is in the forward list of the stop it leaves. */
  ghost predicate InForward(fw: seq<seq<Edge>>, p: seq<Edge>)
  {
    forall i :: 0 <= i < |p| ==> p[i].from < |fw| && p[i] in fw[p[i].from]
  }

  /** Every edge of `p` is in the backward list of the stop it enters. */
  ghost predicate InBackward(bw: seq<seq<Edge>>, p: seq<Edge>)
  {
    forall i :: 0 <= i < |p| ==> p[i].to < |bw| && p[i] in bw[p[i].to]
  }

  /** A path of the graph from `a` to `b` following forward edges. */
  ghost predicate IsPath(fw: seq<seq<Edge>>, p: seq<Edge>, a: StopId, b: StopId)
  {
    Chain(p, a, b) && InForward(fw, p)
  }

  /** A slice of a path's edges still lies in the forward lists. */
  lemma InForwardSlice(fw: seq<seq<Edge>>, p: seq<Edge>, i: nat, j: nat)
    requires InForward(fw, p) && i <= j <= |p|
    ensures InForward(fw, p[i..j])
  {
    forall k | 0 <= k < j - i ensures p[i..j][k].from < |fw| && p[i..j][k] in fw[p[i..j][k].from] {
      assert p[i..j][k] == p[i + k];
    }
  }

  lemma {:induction false} ChainLast(p: seq<Edge>, a: StopId, b: StopId)
    requires Chain(p, a, b) && p != []
    ensures p[|p| - 1].to == b
    decreases |p|
  {
    if |p| > 1 {
      ChainLast(p[1..], p[0].to, b);
    }
  }

  /** Two chains that meet concatenate to one. */
  lemma {:induction false} ChainAppend(p: seq<Edge>, q: seq<Edge>, a: StopId, b: StopId, c: StopId)
    requires Chain(p, a, b) && Chain(q, b, c)
    ensures Chain(p + q, a, c)
    decreases |p|
  {
    if p == [] {
      assert p + q == q;
    } else {
      assert (p + q)[1..] == p[1..] + q;
      ChainAppend(p[1..], q, p[0].to, b, c);
    }
  }

  /** A chain splits around any of its edges. */
  lemma {:induction false} ChainSplit(p: seq<Edge>, a: StopId, b: StopId, i: nat)
    requires Chain(p, a, b) && i < |p|
    ensures Chain(p[..i], a, p[i].from) && Chain(p[i + 1..], p[i].to, b)
    decreases i
  {
    if i > 0 {
      ChainSplit(p[1..], p[0].to, b, i - 1);
      assert p[1..][..i - 1] == p[1..i];
      assert p[..i][1..] == p[1..i];
      assert p[1..][i - 1 + 1..] == p[i + 1..];
    }
  }

  /** A chain that starts inside `inside` and ends outside it has an edge
      that leaves the set. */
  lemma {:induction false} Crossing(p: seq<Edge>, a: StopId, b: StopId, inside: set<StopId>) returns (i: nat)
    requires Chain(p, a, b) && a in inside && b !in inside
    ensures i < |p| && p[i].from in inside && p[i].to !in inside
    decreases |p|
  {
    if p[0].to !in inside {
      i := 0;
    } else {
      var j := Crossing(p[1..], p[0].to, b, inside);
      i := j + 1;
    }
  }

  /** If every forward edge out of a stop of `done` ends in `done` or in
      `before`, then every stop reachable from a stop of `done` by a path that
      never enters `before` is itself in `done`. */
  lemma {:induction false} ForwardClosed(fw: seq<seq<Edge>>, p: seq<Edge>, a: StopId, b: StopId,
                                         done: set<StopId>, before: set<StopId>)
    requires IsPath(fw, p, a, b) && a in done
    requires forall i :: 0 <= i < |p| ==> p[i].to !in before
    requires forall u, e {:trigger e in fw[u]} :: u in done && u < |fw| && e in fw[u] ==> e.to in done || e.to in before
    ensures b in done
    decreases |p|
  {
    if p != [] {
      assert p[0].from == a && p[0] in fw[a];
      assert p[0].to in done;
      forall i | 0 <= i < |p[1..]|
        ensures p[1..][i].from < |fw| && p[1..][i] in fw[p[1..][i].from] && p[1..][i].to !in before
      {
        assert p[1..][i] == p[i + 1];
      }
      ForwardClosed(fw, p[1..], p[0].to, b, done, before);
    }
  }

  /** The mirror image for backward edges: if every backward edge into a stop
      of `done` comes from `done` or from `before`, then every stop from which a
      stop of `done` is reachable without passing through `before` is in `done`. */
  lemma {:induction false} BackwardClosed(bw: seq<seq<Edge>>, p: seq<Edge>, a: StopId, b: StopId,
                                          done: set<StopId>, before: set<StopId>)
    requires Chain(p, a, b) && InBackward(bw, p) && b in done
    requires forall i :: 0 <= i < |p| ==> p[i].from !in before
    requires forall u, e {:trigger e in bw[u]} :: u in done && u < |bw| && e in bw[u] ==> e.from in done || e.from in before
    ensures a in done
    decreases |p|
  {
    if p != [] {
      var k := |p| - 1;
      ChainSplit(p, a, b, k);
      ChainLast(p, a, b);
      assert p[k] in bw[b];
      assert p[k].from in done;
      forall i | 0 <= i < |p[..k]|
        ensures p[..k][i].to < |bw| && p[..k][i] in bw[p[..k][i].to] && p[..k][i].from !in before
      {
        assert p[..k][i] == p[i];
      }
      BackwardClosed(bw, p[..k], a, p[k].from, done, before);
    }
  }
}
