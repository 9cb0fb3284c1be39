/** Articulation points of the undirected neighbour graph
    (ArticulationPoints.java): a depth-first search that numbers stops in
    discovery order and returns the least number reachable from a stop's
    subtree through one non-tree edge, restarted at every stop not yet
    visited. */
module ArticulationPoints {
  import opened Entities
  import opened Network

  /** Every stop of the set is a stop of a graph with `n` stops. */
  ghost predicate Below(vs: set<StopId>, n: nat)
  {
    forall v :: v in vs ==> v < n
  }

  /** The numbers handed out are distinct and lie in [0, number of stops numbered). */
  ghost predicate Numbered(dfsNum: map<StopId, int>)
  {
    (forall v {:trigger v in dfsNum} :: v in dfsNum ==> 0 <= dfsNum[v] < |dfsNum|)
    && (forall u, v {:trigger dfsNum[u], dfsNum[v]} :: u in dfsNum && v in dfsNum && u != v ==> dfsNum[u] != dfsNum[v])
  }

  /** Numbers once handed out never change. */
  ghost predicate Extends(dfsNum: map<StopId, int>, dfsNum': map<StopId, int>)
  {
    forall v {:trigger v in dfsNum} :: v in dfsNum ==> v in dfsNum' && dfsNum'[v] == dfsNum[v]
  }

  /** The stops of `added` are numbered from `k` up: they were discovered later. */
  ghost predicate NumberedFrom(dfsNum: map<StopId, int>, added: set<StopId>, k: int)
  {
    forall v {:trigger v in added} :: v in added && v in dfsNum ==> dfsNum[v] >= k
  }

  /** Every reported stop of `aps` has a neighbour. */
  ghost predicate HasNeighbours(nb: seq<set<StopId>>, aps: set<StopId>)
  {
    forall v {:trigger v in aps} :: v in aps ==> 0 <= v < |nb| && nb[v] != {}
  }

  /** What one search may do to the shared state: the visited stops are the
      numbered ones and only grow, old numbers stay, newly visited stops get
      numbers from the old count up, and only newly visited stops with a
      neighbour are newly reported. */
  ghost predicate Progress(nb: seq<set<StopId>>, visited: set<StopId>, dfsNum: map<StopId, int>, aps: set<StopId>,
                        visited': set<StopId>, dfsNum': map<StopId, int>, aps': set<StopId>)
  {
    && visited' == dfsNum'.Keys && visited <= visited' && Below(visited', |nb|)
    && Extends(dfsNum, dfsNum') && Numbered(dfsNum')
    && NumberedFrom(dfsNum', visited' - visited, |dfsNum|)
    && aps <= aps' <= aps + (visited' - visited)
    && HasNeighbours(nb, aps' - aps)
  }

  function Min(a: int, b: int): (r: int)
    ensures r <= a && r <= b && (r == a || r == b)
  {
    if a <= b then a else b
  }

  // ---------------------------------------------------------------------------
  // The search forest: parents and low values of the finished stops
  // ---------------------------------------------------------------------------

  /** `c` is a tree child of `u`: the search entered `c` from `u`. */
  ghost predicate Child(par: map<StopId, StopId>, c: StopId, u: StopId)
  {
    c in par && par[c] == u && c != u
  }

  /** The tree children of `u` among the finished stops `done`. */
  ghost function Kids(par: map<StopId, StopId>, done: set<StopId>, u: StopId): set<StopId>
  {
    set c | c in done && Child(par, c, u)
  }

  /** `low` is the least of `num`, the low values of the children `kids`, and
      the numbers of the neighbours in `seen` other than `parent`. */
  ghost predicate IsLow(dfsNum: map<StopId, int>, lowm: map<StopId, int>, num: int, parent: StopId,
                        seen: set<StopId>, kids: set<StopId>, low: int)
  {
    && low <= num
    && (forall c :: c in kids ==> c in lowm && low <= lowm[c])
    && (forall v :: v in seen && v != parent ==> v in dfsNum && low <= dfsNum[v])
    && (low == num
        || (exists c :: c in kids && c in lowm && low == lowm[c])
        || (exists v :: v in seen && v != parent && v in dfsNum && low == dfsNum[v]))
  }

  /** Some child in `kids` has a low value that is not below `num`. */
  ghost predicate Separated(lowm: map<StopId, int>, kids: set<StopId>, num: int)
  {
    exists c :: c in kids && c in lowm && lowm[c] >= num
  }

  /** What the search has settled about the finished stop `u`: its parent
      `par[u]` (`u` itself at a root) is a neighbour numbered before it; its
      low value is the least of its number, its children's low values and the
      numbers of its neighbours other than the parent; and it is reported
      exactly when it is a root with more than one child, or a non-root with
      a child whose low value is not below its number. */
  ghost predicate NodeRule(nb: seq<set<StopId>>, dfsNum: map<StopId, int>, par: map<StopId, StopId>,
                           lowm: map<StopId, int>, aps: set<StopId>, done: set<StopId>, u: StopId)
  {
    && u < |nb| && u in dfsNum && u in par && u in lowm
    && par[u] in dfsNum
    && (par[u] != u ==> par[u] < |nb| && u in nb[par[u]] && dfsNum[par[u]] < dfsNum[u])
    && IsLow(dfsNum, lowm, dfsNum[u], par[u], nb[u], Kids(par, done, u), lowm[u])
    && (u in aps <==> if par[u] == u then |Kids(par, done, u)| > 1
                      else Separated(lowm, Kids(par, done, u), dfsNum[u]))
  }

  /** Every finished stop obeys its rule. */
  ghost predicate Forest(nb: seq<set<StopId>>, dfsNum: map<StopId, int>, par: map<StopId, StopId>,
                         lowm: map<StopId, int>, aps: set<StopId>, done: set<StopId>)
  {
    forall u {:trigger NodeRule(nb, dfsNum, par, lowm, aps, done, u)} ::
      u in done ==> NodeRule(nb, dfsNum, par, lowm, aps, done, u)
  }

  /** The parent and low maps cover `done'` and keep their entries for `done`. */
  ghost predicate Grows(par: map<StopId, StopId>, lowm: map<StopId, int>, done: set<StopId>,
                        par': map<StopId, StopId>, lowm': map<StopId, int>, done': set<StopId>)
  {
    && done <= done' && par'.Keys == done' && lowm'.Keys == done'
    && forall u :: u in done ==> u in par && u in lowm && par'[u] == par[u] && lowm'[u] == lowm[u]
  }

  /** A low value stays one when the numbers grow and the children's low
      values stay. */
  lemma IsLowKeep(d1: map<StopId, int>, l1: map<StopId, int>, d2: map<StopId, int>, l2: map<StopId, int>,
                  num: int, parent: StopId, seen: set<StopId>, kids: set<StopId>, low: int)
    requires IsLow(d1, l1, num, parent, seen, kids, low) && Extends(d1, d2)
    requires forall c :: c in kids ==> c in l2 && l2[c] == l1[c]
    ensures IsLow(d2, l2, num, parent, seen, kids, low)
  {
    if low != num {
      if exists c :: c in kids && c in l1 && low == l1[c] {
        var c :| c in kids && c in l1 && low == l1[c];
        assert c in l2 && low == l2[c];
      } else {
        var v :| v in seen && v != parent && v in d1 && low == d1[v];
        assert v in d2 && low == d2[v];
      }
    }
  }

  lemma SeparatedKeep(l1: map<StopId, int>, l2: map<StopId, int>, kids: set<StopId>, num: int)
    requires forall c :: c in kids ==> c in l1 && c in l2 && l2[c] == l1[c]
    ensures Separated(l2, kids, num) <==> Separated(l1, kids, num)
  {
    if Separated(l1, kids, num) {
      var c :| c in kids && c in l1 && l1[c] >= num;
      assert c in l2 && l2[c] >= num;
    }
    if Separated(l2, kids, num) {
      var c :| c in kids && c in l2 && l2[c] >= num;
      assert c in l1 && l1[c] >= num;
    }
  }

  /** The rules of finished stops survive a search that finishes further
      stops, none of them a child of an already finished stop, and leaves
      the finished stops' entries and reports alone. */
  lemma ForestKeep(nb: seq<set<StopId>>,
                   d1: map<StopId, int>, p1: map<StopId, StopId>, l1: map<StopId, int>, a1: set<StopId>, D1: set<StopId>,
                   d2: map<StopId, int>, p2: map<StopId, StopId>, l2: map<StopId, int>, a2: set<StopId>, D2: set<StopId>)
    requires Forest(nb, d1, p1, l1, a1, D1) && Extends(d1, d2) && D1 <= D2
    requires forall u :: u in D1 ==> u in p1 && u in l1 && u in p2 && u in l2
                                     && p2[u] == p1[u] && l2[u] == l1[u] && (u in a2 <==> u in a1)
    requires forall c :: c in D2 && c !in D1 ==> c in p2 && p2[c] !in D1
    ensures forall u :: u in D1 ==> NodeRule(nb, d2, p2, l2, a2, D2, u)
  {
    forall u | u in D1 ensures NodeRule(nb, d2, p2, l2, a2, D2, u) {
      assert NodeRule(nb, d1, p1, l1, a1, D1, u);
      var K := Kids(p1, D1, u);
      forall c | c in D2 ensures Child(p2, c, u) <==> c in K {
        if c !in D1 {
          assert p2[c] !in D1;
        }
      }
      assert Kids(p2, D2, u) == K;
      forall c | c in K ensures c in l2 && l2[c] == l1[c] {
      }
      IsLowKeep(d1, l1, d2, l2, d1[u], p1[u], nb[u], K, l1[u]);
      SeparatedKeep(l1, l2, K, d1[u]);
    }
  }

  /** Reporting a stop that is not finished leaves every finished stop's rule. */
  lemma ForestReport(nb: seq<set<StopId>>, d: map<StopId, int>, p: map<StopId, StopId>, l: map<StopId, int>,
                     aps: set<StopId>, D: set<StopId>, x: StopId)
    requires Forest(nb, d, p, l, aps, D) && x !in D
    ensures Forest(nb, d, p, l, aps + {x}, D)
  {
    forall u | u in D ensures NodeRule(nb, d, p, l, aps + {x}, D, u) {
      assert NodeRule(nb, d, p, l, aps, D, u);
    }
  }

  /** A new child `c` with low value `r` joins the low value. */
  lemma IsLowChild(d1: map<StopId, int>, l1: map<StopId, int>, d2: map<StopId, int>, l2: map<StopId, int>,
                   num: int, parent: StopId, seen: set<StopId>, kids: set<StopId>, low: int, c: StopId, r: int)
    requires IsLow(d1, l1, num, parent, seen, kids, low) && Extends(d1, d2)
    requires forall k :: k in kids ==> k in l2 && l2[k] == l1[k]
    requires c !in kids && c != parent && c in d2 && c in l2 && l2[c] == r && r <= d2[c]
    ensures IsLow(d2, l2, num, parent, seen + {c}, kids + {c}, Min(low, r))
  {
    IsLowKeep(d1, l1, d2, l2, num, parent, seen, kids, low);
    var low' := Min(low, r);
    if low' == r {
      assert c in kids + {c} && c in l2 && low' == l2[c];
    } else if low != num {
      if exists k :: k in kids && k in l2 && low == l2[k] {
        var k :| k in kids && k in l2 && low == l2[k];
        assert k in kids + {c};
      } else {
        var v :| v in seen && v != parent && v in d2 && low == d2[v];
        assert v in seen + {c};
      }
    }
  }

  /** A neighbour already visited joins the low value unless it is the parent. */
  lemma IsLowSeen(d: map<StopId, int>, l: map<StopId, int>, num: int, parent: StopId,
                  seen: set<StopId>, kids: set<StopId>, low: int, v: StopId)
    requires IsLow(d, l, num, parent, seen, kids, low) && (v == parent || v in d)
    ensures IsLow(d, l, num, parent, seen + {v}, kids,
                  if v != parent then Min(low, d[v]) else low)
  {
    var low' := if v != parent then Min(low, d[v]) else low;
    if v != parent && low' == d[v] {
      assert v in seen + {v} && v != parent && v in d && low' == d[v];
    } else if low != num && !(exists k :: k in kids && k in l && low == l[k]) {
      var w :| w in seen && w != parent && w in d && low == d[w];
      assert w in seen + {v};
    }
  }

  /** A new child joins the separating children exactly when its low value
      is not below `num`. */
  lemma SeparatedAdd(l: map<StopId, int>, kids: set<StopId>, num: int, c: StopId)
    requires c in l
    ensures Separated(l, kids + {c}, num) <==> Separated(l, kids, num) || l[c] >= num
  {
    if Separated(l, kids + {c}, num) {
      var k :| k in kids + {c} && k in l && l[k] >= num;
      if k != c {
        assert k in kids;
      }
    }
    if l[c] >= num {
      assert c in kids + {c};
    }
    if Separated(l, kids, num) {
      var k :| k in kids && k in l && l[k] >= num;
      assert k in kids + {c};
    }
  }

  /** Numbering a new stop with the current count keeps the numbers distinct. */
  lemma NumberNew(dfsNum: map<StopId, int>, stop: StopId)
    requires stop !in dfsNum && Numbered(dfsNum)
    ensures Numbered(dfsNum[stop := |dfsNum|]) && Extends(dfsNum, dfsNum[stop := |dfsNum|])
  {
    var d := dfsNum[stop := |dfsNum|];
    assert |d| == |dfsNum| + 1;
    forall u, v | u in d && v in d && u != v ensures d[u] != d[v] {
      if u != stop && v != stop {
        assert d[u] == dfsNum[u] && d[v] == dfsNum[v];
      } else if u == stop {
        assert v in dfsNum;
      } else {
        assert u in dfsNum;
      }
    }
  }

  /** A map whose keys include another's has at least as many entries. */
  lemma KeysGrow(d1: map<StopId, int>, d2: map<StopId, int>)
    requires d1.Keys <= d2.Keys
    ensures |d1| <= |d2|
  {
    assert d2.Keys == d1.Keys + (d2.Keys - d1.Keys);
    assert |d1.Keys| == |d1| && |d2.Keys| == |d2|;
  }

  /** One search grown on top of another is one search. */
  lemma ProgressTrans(nb: seq<set<StopId>>,
                   v1: set<StopId>, d1: map<StopId, int>, a1: set<StopId>,
                   v2: set<StopId>, d2: map<StopId, int>, a2: set<StopId>,
                   v3: set<StopId>, d3: map<StopId, int>, a3: set<StopId>)
    requires v1 == d1.Keys
    requires Progress(nb, v1, d1, a1, v2, d2, a2) && Progress(nb, v2, d2, a2, v3, d3, a3)
    ensures Progress(nb, v1, d1, a1, v3, d3, a3)
  {
    KeysGrow(d1, d2);
    forall v | v in v3 - v1 && v in d3 ensures d3[v] >= |d1| {
      if v in v2 {
        assert v in v2 - v1;
      } else {
        assert v in v3 - v2;
      }
    }
    forall v | v in a3 - a1 ensures 0 <= v < |nb| && nb[v] != {} {
      if v in a2 {
        assert v in a2 - a1;
      } else {
        assert v in a3 - a2;
      }
    }
  }

  /** Reporting `stop`, a stop with a neighbour visited by this search,
      keeps the state one the search may produce. */
  lemma ProgressReport(nb: seq<set<StopId>>, visited: set<StopId>, dfsNum: map<StopId, int>, aps: set<StopId>,
                    v2: set<StopId>, d2: map<StopId, int>, a2: set<StopId>, stop: StopId)
    requires Progress(nb, visited, dfsNum, aps, v2, d2, a2)
    requires stop in v2 - visited && stop < |nb| && nb[stop] != {}
    ensures Progress(nb, visited, dfsNum, aps, v2, d2, a2 + {stop})
  {
    forall v | v in a2 + {stop} - aps ensures 0 <= v < |nb| && nb[v] != {} {
      if v != stop {
        assert v in a2 - aps;
      }
    }
  }

  // ---------------------------------------------------------------------------
  // The search from one stop
  // ---------------------------------------------------------------------------

  /** The stops finished once the loop in dfs from `stop` has visited `v1`:
      those finished before and those the loop's searches finished. */
  ghost function Finished(done: set<StopId>, visited: set<StopId>, v1: set<StopId>, stop: StopId): set<StopId>
  {
    done + (v1 - visited - {stop})
  }

  /** `stop` is newly visited and numbered with the old count, and the state
      is one that a search may produce. */
  ghost predicate Entered(nb: seq<set<StopId>>, stop: StopId, visited: set<StopId>, dfsNum: map<StopId, int>,
                          aps: set<StopId>, v1: set<StopId>, d1: map<StopId, int>, a1: set<StopId>)
  {
    stop !in visited && Progress(nb, visited, dfsNum, aps, v1, d1, a1) && stop in v1 && d1[stop] == |dfsNum|
  }

  /** The parent and low maps cover the finished stops, keep the old entries,
      and hang every newly finished stop below a newly visited one. */
  ghost predicate Hung(par: map<StopId, StopId>, lowm: map<StopId, int>, done: set<StopId>,
                       visited: set<StopId>, stop: StopId, v1: set<StopId>,
                       p1: map<StopId, StopId>, l1: map<StopId, int>)
  {
    && Grows(par, lowm, done, p1, l1, Finished(done, visited, v1, stop))
    && forall c :: c in v1 - visited - {stop} ==> c in p1 && p1[c] in v1 - visited
  }

  /** The report of `stop` so far: none at a root, and otherwise exactly when
      some child in `K` separates it. */
  ghost predicate Reports(stop: StopId, parent: StopId, a1: set<StopId>, l1: map<StopId, int>,
                          K: set<StopId>, num: int)
  {
    && (parent == stop ==> stop !in a1)
    && (parent != stop ==> (stop in a1 <==> Separated(l1, K, num)))
  }

  /** The state between two neighbours of the loop in dfs. `rest` are the
      neighbours still to look at and `K` the tree children so far, `children`
      of them. Every finished stop obeys its rule, and `low` is the low value
      over the neighbours looked at. */
  ghost predicate DfsInv(nb: seq<set<StopId>>, stop: StopId, parent: StopId,
                         visited: set<StopId>, dfsNum: map<StopId, int>, aps: set<StopId>,
                         par: map<StopId, StopId>, lowm: map<StopId, int>, done: set<StopId>,
                         rest: set<StopId>, v1: set<StopId>, d1: map<StopId, int>, a1: set<StopId>,
                         p1: map<StopId, StopId>, l1: map<StopId, int>,
                         low: int, children: nat, K: set<StopId>)
    requires stop < |nb|
  {
    && rest <= nb[stop]
    && Entered(nb, stop, visited, dfsNum, aps, v1, d1, a1)
    && Hung(par, lowm, done, visited, stop, v1, p1, l1)
    && Forest(nb, d1, p1, l1, a1, Finished(done, visited, v1, stop))
    && K == Kids(p1, Finished(done, visited, v1, stop), stop) && children == |K|
    && IsLow(d1, l1, |dfsNum|, parent, nb[stop] - rest, K, low)
    && Reports(stop, parent, a1, l1, K, |dfsNum|)
  }

  /** What dfs demands of its state: the visited stops are the numbered
      ones, the finished ones obey their rules and none of them is the
      parent, and a parent other than the stop itself is a visited stop
      with the stop as a neighbour. */
  ghost predicate DfsPre(nb: seq<set<StopId>>, stop: StopId, parent: StopId, visited: set<StopId>,
                         dfsNum: map<StopId, int>, aps: set<StopId>,
                         par: map<StopId, StopId>, lowm: map<StopId, int>, done: set<StopId>)
  {
    && NeighboursBelow(nb, |nb|) && stop < |nb|
    && stop !in visited && visited == dfsNum.Keys && Below(visited, |nb|)
    && Numbered(dfsNum) && aps <= visited
    && (parent == stop || (parent in visited && parent < |nb| && stop in nb[parent]))
    && done <= visited && parent !in done && par.Keys == done && lowm.Keys == done
    && Forest(nb, dfsNum, par, lowm, aps, done)
  }

  /** The parts of the loop state make up the loop state. */
  lemma MakeInv(nb: seq<set<StopId>>, stop: StopId, parent: StopId,
                visited: set<StopId>, dfsNum: map<StopId, int>, aps: set<StopId>,
                par: map<StopId, StopId>, lowm: map<StopId, int>, done: set<StopId>,
                rest: set<StopId>, v1: set<StopId>, d1: map<StopId, int>, a1: set<StopId>,
                p1: map<StopId, StopId>, l1: map<StopId, int>, low: int, children: nat, K: set<StopId>)
    requires stop < |nb| && rest <= nb[stop]
    requires Entered(nb, stop, visited, dfsNum, aps, v1, d1, a1)
    requires Hung(par, lowm, done, visited, stop, v1, p1, l1)
    requires Forest(nb, d1, p1, l1, a1, Finished(done, visited, v1, stop))
    requires K == Kids(p1, Finished(done, visited, v1, stop), stop) && children == |K|
    requires IsLow(d1, l1, |dfsNum|, parent, nb[stop] - rest, K, low)
    requires Reports(stop, parent, a1, l1, K, |dfsNum|)
    ensures DfsInv(nb, stop, parent, visited, dfsNum, aps, par, lowm, done, rest, v1, d1, a1, p1, l1, low, children, K)
  {
  }

  lemma StartEntered(nb: seq<set<StopId>>, stop: StopId, visited: set<StopId>,
                     dfsNum: map<StopId, int>, aps: set<StopId>)
    requires stop < |nb| && stop !in visited && visited == dfsNum.Keys && Below(visited, |nb|)
    requires Numbered(dfsNum) && aps <= visited
    ensures Entered(nb, stop, visited, dfsNum, aps, visited + {stop}, dfsNum[stop := |dfsNum|], aps)
  {
    NumberNew(dfsNum, stop);
  }

  /** No finished stop hangs below a stop not yet visited. */
  lemma StartKids(nb: seq<set<StopId>>, stop: StopId, dfsNum: map<StopId, int>, aps: set<StopId>,
                  par: map<StopId, StopId>, lowm: map<StopId, int>, done: set<StopId>)
    requires Forest(nb, dfsNum, par, lowm, aps, done) && stop !in dfsNum
    ensures Kids(par, done, stop) == {}
  {
    forall c | c in done ensures !Child(par, c, stop) {
      assert NodeRule(nb, dfsNum, par, lowm, aps, done, c);
    }
  }

  /** The state when the loop over the neighbours starts. */
  lemma DfsStart(nb: seq<set<StopId>>, stop: StopId, parent: StopId, visited: set<StopId>,
                 dfsNum: map<StopId, int>, aps: set<StopId>,
                 par: map<StopId, StopId>, lowm: map<StopId, int>, done: set<StopId>)
    requires DfsPre(nb, stop, parent, visited, dfsNum, aps, par, lowm, done)
    ensures DfsInv(nb, stop, parent, visited, dfsNum, aps, par, lowm, done, nb[stop], visited + {stop},
                   dfsNum[stop := |dfsNum|], aps, par, lowm, |dfsNum|, 0, {})
  {
    var d1 := dfsNum[stop := |dfsNum|];
    StartEntered(nb, stop, visited, dfsNum, aps);
    FinishedStart(done, visited, stop);
    ForestKeep(nb, dfsNum, par, lowm, aps, done, d1, par, lowm, aps, done);
    StartKids(nb, stop, dfsNum, aps, par, lowm, done);
    SeenNone(nb[stop]);
    MakeInv(nb, stop, parent, visited, dfsNum, aps, par, lowm, done, nb[stop], visited + {stop},
            d1, aps, par, lowm, |dfsNum|, 0, {});
  }

  /** The bookkeeping of a tree child `c`: the finished stops grow by the
      child's search, `c` hangs below `stop`, and `c` is the one new child. */
  lemma ChildHung(par: map<StopId, StopId>, lowm: map<StopId, int>, done: set<StopId>,
                  visited: set<StopId>, stop: StopId, v1: set<StopId>, p1: map<StopId, StopId>, l1: map<StopId, int>,
                  c: StopId, v2: set<StopId>, p2: map<StopId, StopId>, l2: map<StopId, int>)
    requires done <= visited && stop in v1 && stop !in visited && visited <= v1 && v1 <= v2 && c in v2 && c !in v1
    requires Hung(par, lowm, done, visited, stop, v1, p1, l1)
    requires Grows(p1, l1, Finished(done, visited, v1, stop), p2, l2, Finished(done, visited, v1, stop) + (v2 - v1))
    requires c in p2 && p2[c] == stop
    requires forall x :: x in v2 - v1 && x != c ==> x in p2 && p2[x] in v2 - v1
    ensures Finished(done, visited, v2, stop) == Finished(done, visited, v1, stop) + (v2 - v1)
    ensures Hung(par, lowm, done, visited, stop, v2, p2, l2)
    ensures stop !in Finished(done, visited, v2, stop)
    ensures c !in Kids(p1, Finished(done, visited, v1, stop), stop)
    ensures Kids(p2, Finished(done, visited, v2, stop), stop) == Kids(p1, Finished(done, visited, v1, stop), stop) + {c}
  {
    var D1, D2 := Finished(done, visited, v1, stop), Finished(done, visited, v2, stop);
    FinishedGrow(done, visited, v1, v2, stop);
    forall x | x in v2 - visited - {stop} ensures x in p2 && p2[x] in v2 - visited {
      if x in v1 {
        assert x in D1 && p2[x] == p1[x];
      }
    }
    forall x | x in D2 ensures Child(p2, x, stop) <==> x in Kids(p1, D1, stop) + {c} {
      if x in D1 {
        assert p2[x] == p1[x];
      }
    }
  }

  /** The report of `stop` after a tree child `c` with low value `r`. */
  lemma ChildReports(stop: StopId, parent: StopId, a1: set<StopId>, l1: map<StopId, int>, K: set<StopId>, num: int,
                     a2: set<StopId>, l2: map<StopId, int>, c: StopId, r: int, a3: set<StopId>)
    requires Reports(stop, parent, a1, l1, K, num) && (stop in a2 <==> stop in a1)
    requires forall k :: k in K ==> k in l1 && k in l2 && l2[k] == l1[k]
    requires c in l2 && l2[c] == r
    requires a3 == if r >= num && parent != stop then a2 + {stop} else a2
    ensures Reports(stop, parent, a3, l2, K + {c}, num)
  {
    SeparatedKeep(l1, l2, K, num);
    SeparatedAdd(l2, K, num, c);
  }

  /** A tree child's search, and the report it may cause, keep the state one
      that a search from `stop` may produce. */
  lemma ChildEntered(nb: seq<set<StopId>>, stop: StopId, visited: set<StopId>, dfsNum: map<StopId, int>,
                     aps: set<StopId>, v1: set<StopId>, d1: map<StopId, int>, a1: set<StopId>,
                     c: StopId, v2: set<StopId>, d2: map<StopId, int>, a2: set<StopId>,
                     report: bool, a3: set<StopId>)
    requires visited == dfsNum.Keys && stop < |nb| && c in nb[stop]
    requires Entered(nb, stop, visited, dfsNum, aps, v1, d1, a1)
    requires Progress(nb, v1, d1, a1, v2, d2, a2)
    requires a3 == if report then a2 + {stop} else a2
    ensures Entered(nb, stop, visited, dfsNum, aps, v2, d2, a3)
    ensures stop in a2 <==> stop in a1
    ensures visited <= v1 <= v2 && Extends(d1, d2)
  {
    ProgressTrans(nb, visited, dfsNum, aps, v1, d1, a1, v2, d2, a2);
    if report {
      ProgressReport(nb, visited, dfsNum, aps, v2, d2, a2, stop);
    }
  }

  /** After a tree child's search the finished stops, now including the
      child's, obey their rules, also when `stop` is reported. */
  lemma ChildForest(nb: seq<set<StopId>>, d2: map<StopId, int>, p2: map<StopId, StopId>, l2: map<StopId, int>,
                    a2: set<StopId>, D2: set<StopId>, stop: StopId, c: StopId, report: bool, a3: set<StopId>)
    requires Forest(nb, d2, p2, l2, a2, D2) && stop !in D2 && c in D2
    requires a3 == if report then a2 + {stop} else a2
    ensures Forest(nb, d2, p2, l2, a3, D2)
    ensures c in d2 && c in l2 && l2[c] <= d2[c]
  {
    assert NodeRule(nb, d2, p2, l2, a2, D2, c);
    if report {
      ForestReport(nb, d2, p2, l2, a2, D2, stop);
    }
  }

  /** The low value after a tree child. */
  lemma ChildLow(nb: seq<set<StopId>>, stop: StopId, parent: StopId, num: int, rest: set<StopId>,
                 v1: set<StopId>, D1: set<StopId>, D2: set<StopId>,
                 d1: map<StopId, int>, p1: map<StopId, StopId>, l1: map<StopId, int>,
                 d2: map<StopId, int>, p2: map<StopId, StopId>, l2: map<StopId, int>,
                 low: int, K: set<StopId>, c: StopId, r: int)
    requires stop < |nb| && c in rest && rest <= nb[stop]
    requires K == Kids(p1, D1, stop) && c !in K && D1 <= v1 && c !in v1 && (parent in v1)
    requires Grows(p1, l1, D1, p2, l2, D2)
    requires IsLow(d1, l1, num, parent, nb[stop] - rest, K, low) && Extends(d1, d2)
    requires c in d2 && c in l2 && l2[c] == r && r <= d2[c]
    ensures IsLow(d2, l2, num, parent, nb[stop] - (rest - {c}), K + {c}, Min(low, r))
    ensures forall k :: k in K ==> k in l1 && k in l2 && l2[k] == l1[k]
  {
    SeenOneMore(nb[stop], rest, c);
    IsLowChild(d1, l1, d2, l2, num, parent, nb[stop] - rest, K, low, c, r);
  }

  lemma OneMore(K: set<StopId>, c: StopId)
    requires c !in K
    ensures |K + {c}| == |K| + 1
  {
  }

  /** A neighbour not yet visited may be searched as a tree child. */
  lemma ChildPre(nb: seq<set<StopId>>, stop: StopId, parent: StopId,
                 visited: set<StopId>, dfsNum: map<StopId, int>, aps: set<StopId>,
                 par: map<StopId, StopId>, lowm: map<StopId, int>, done: set<StopId>,
                 rest: set<StopId>, v1: set<StopId>, d1: map<StopId, int>, a1: set<StopId>,
                 p1: map<StopId, StopId>, l1: map<StopId, int>, low: int, children: nat, K: set<StopId>, c: StopId)
    requires DfsPre(nb, stop, parent, visited, dfsNum, aps, par, lowm, done)
    requires DfsInv(nb, stop, parent, visited, dfsNum, aps, par, lowm, done, rest, v1, d1, a1, p1, l1, low, children, K)
    requires c in rest && c !in v1
    ensures DfsPre(nb, c, stop, v1, d1, a1, p1, l1, Finished(done, visited, v1, stop))
  {
    assert stop in v1 && stop !in Finished(done, visited, v1, stop);
  }

  /** The state parts of a tree child's step: the state extends, the child
      is finished and joins the kids of `stop`. */
  lemma ChildState(nb: seq<set<StopId>>, stop: StopId, visited: set<StopId>, dfsNum: map<StopId, int>,
                   aps: set<StopId>, par: map<StopId, StopId>, lowm: map<StopId, int>, done: set<StopId>,
                   v1: set<StopId>, d1: map<StopId, int>, a1: set<StopId>, p1: map<StopId, StopId>, l1: map<StopId, int>,
                   c: StopId, v2: set<StopId>, d2: map<StopId, int>, a2: set<StopId>,
                   p2: map<StopId, StopId>, l2: map<StopId, int>, report: bool, a3: set<StopId>)
    requires stop < |nb| && visited == dfsNum.Keys && done <= visited && c in nb[stop] && c !in v1
    requires Entered(nb, stop, visited, dfsNum, aps, v1, d1, a1)
    requires Hung(par, lowm, done, visited, stop, v1, p1, l1)
    requires Progress(nb, v1, d1, a1, v2, d2, a2) && c in v2
    requires Grows(p1, l1, Finished(done, visited, v1, stop), p2, l2, Finished(done, visited, v1, stop) + (v2 - v1))
    requires c in p2 && p2[c] == stop
    requires forall x :: x in v2 - v1 && x != c ==> x in p2 && p2[x] in v2 - v1
    requires Forest(nb, d2, p2, l2, a2, Finished(done, visited, v1, stop) + (v2 - v1))
    requires a3 == if report then a2 + {stop} else a2
    ensures Entered(nb, stop, visited, dfsNum, aps, v2, d2, a3)
    ensures Hung(par, lowm, done, visited, stop, v2, p2, l2)
    ensures Forest(nb, d2, p2, l2, a3, Finished(done, visited, v2, stop))
    ensures Kids(p2, Finished(done, visited, v2, stop), stop) == Kids(p1, Finished(done, visited, v1, stop), stop) + {c}
    ensures c !in Kids(p1, Finished(done, visited, v1, stop), stop)
    ensures (stop in a2 <==> stop in a1) && Extends(d1, d2) && Finished(done, visited, v1, stop) <= v1
    ensures c in d2 && c in l2 && l2[c] <= d2[c]
  {
    ChildEntered(nb, stop, visited, dfsNum, aps, v1, d1, a1, c, v2, d2, a2, report, a3);
    ChildHung(par, lowm, done, visited, stop, v1, p1, l1, c, v2, p2, l2);
    ChildForest(nb, d2, p2, l2, a2, Finished(done, visited, v2, stop), stop, c, report, a3);
  }

  /** The low value and the report of a tree child's step. */
  lemma ChildTail(nb: seq<set<StopId>>, stop: StopId, parent: StopId, num: int, rest: set<StopId>,
                  v1: set<StopId>, D1: set<StopId>, D2: set<StopId>,
                  d1: map<StopId, int>, a1: set<StopId>, p1: map<StopId, StopId>, l1: map<StopId, int>,
                  d2: map<StopId, int>, a2: set<StopId>, p2: map<StopId, StopId>, l2: map<StopId, int>,
                  low: int, K: set<StopId>, c: StopId, r: int, a3: set<StopId>)
    requires stop < |nb| && c in rest && rest <= nb[stop]
    requires K == Kids(p1, D1, stop) && c !in K && D1 <= v1 && c !in v1 && parent in v1
    requires Grows(p1, l1, D1, p2, l2, D2)
    requires IsLow(d1, l1, num, parent, nb[stop] - rest, K, low) && Extends(d1, d2)
    requires c in d2 && c in l2 && l2[c] == r && r <= d2[c]
    requires Reports(stop, parent, a1, l1, K, num) && (stop in a2 <==> stop in a1)
    requires a3 == if r >= num && parent != stop then a2 + {stop} else a2
    ensures IsLow(d2, l2, num, parent, nb[stop] - (rest - {c}), K + {c}, Min(low, r))
    ensures Reports(stop, parent, a3, l2, K + {c}, num)
    ensures rest - {c} <= nb[stop] && |K + {c}| == |K| + 1
  {
    ChildLow(nb, stop, parent, num, rest, v1, D1, D2, d1, p1, l1, d2, p2, l2, low, K, c, r);
    ChildReports(stop, parent, a1, l1, K, num, a2, l2, c, r, a3);
    SeenOneMore(nb[stop], rest, c);
    OneMore(K, c);
  }

  /** A tree child: the child's search extends the state, the child joins
      `K`, its low value joins `low`, and a non-root stop is reported when the
      child's low value is not below its number. */
  lemma ChildStep(nb: seq<set<StopId>>, stop: StopId, parent: StopId,
                  visited: set<StopId>, dfsNum: map<StopId, int>, aps: set<StopId>,
                  par: map<StopId, StopId>, lowm: map<StopId, int>, done: set<StopId>,
                  rest: set<StopId>, v1: set<StopId>, d1: map<StopId, int>, a1: set<StopId>,
                  p1: map<StopId, StopId>, l1: map<StopId, int>, low: int, children: nat, K: set<StopId>,
                  c: StopId, r: int, v2: set<StopId>, d2: map<StopId, int>, a2: set<StopId>,
                  p2: map<StopId, StopId>, l2: map<StopId, int>, a3: set<StopId>)
    requires stop < |nb| && visited == dfsNum.Keys && done <= visited && (parent == stop || parent in visited)
    requires DfsInv(nb, stop, parent, visited, dfsNum, aps, par, lowm, done, rest, v1, d1, a1, p1, l1, low, children, K)
    requires c in rest && c !in v1
    requires Progress(nb, v1, d1, a1, v2, d2, a2) && c in v2
    requires Grows(p1, l1, Finished(done, visited, v1, stop), p2, l2, Finished(done, visited, v1, stop) + (v2 - v1))
    requires c in p2 && p2[c] == stop && c in l2 && l2[c] == r
    requires forall x :: x in v2 - v1 && x != c ==> x in p2 && p2[x] in v2 - v1
    requires Forest(nb, d2, p2, l2, a2, Finished(done, visited, v1, stop) + (v2 - v1))
    requires a3 == if r >= |dfsNum| && parent != stop then a2 + {stop} else a2
    ensures DfsInv(nb, stop, parent, visited, dfsNum, aps, par, lowm, done, rest - {c}, v2, d2, a3, p2, l2,
                   Min(low, r), children + 1, K + {c})
  {
    var D1 := Finished(done, visited, v1, stop);
    ChildState(nb, stop, visited, dfsNum, aps, par, lowm, done, v1, d1, a1, p1, l1, c, v2, d2, a2, p2, l2,
               r >= |dfsNum| && parent != stop, a3);
    ChildTail(nb, stop, parent, |dfsNum|, rest, v1, D1, D1 + (v2 - v1), d1, a1, p1, l1, d2, a2, p2, l2,
              low, K, c, r, a3);
  }

  /** A neighbour visited already: it joins the low value unless it is the
      parent, and nothing else changes. */
  lemma SeenStep(nb: seq<set<StopId>>, stop: StopId, parent: StopId,
                 visited: set<StopId>, dfsNum: map<StopId, int>, aps: set<StopId>,
                 par: map<StopId, StopId>, lowm: map<StopId, int>, done: set<StopId>,
                 rest: set<StopId>, v1: set<StopId>, d1: map<StopId, int>, a1: set<StopId>,
                 p1: map<StopId, StopId>, l1: map<StopId, int>, low: int, children: nat, K: set<StopId>,
                 v: StopId, low': int)
    requires stop < |nb| && visited == dfsNum.Keys
    requires DfsInv(nb, stop, parent, visited, dfsNum, aps, par, lowm, done, rest, v1, d1, a1, p1, l1, low, children, K)
    requires v in rest && v in v1 && v in d1
    requires low' == if v != parent then Min(low, d1[v]) else low
    ensures DfsInv(nb, stop, parent, visited, dfsNum, aps, par, lowm, done, rest - {v}, v1, d1, a1, p1, l1,
                   low', children, K)
  {
    SeenOneMore(nb[stop], rest, v);
    IsLowSeen(d1, l1, |dfsNum|, parent, nb[stop] - rest, K, low, v);
    MakeInv(nb, stop, parent, visited, dfsNum, aps, par, lowm, done, rest - {v}, v1, d1, a1, p1, l1,
            low', children, K);
  }

  /** A visited neighbour is numbered. */
  lemma SeenIn(nb: seq<set<StopId>>, stop: StopId, parent: StopId,
               visited: set<StopId>, dfsNum: map<StopId, int>, aps: set<StopId>,
               par: map<StopId, StopId>, lowm: map<StopId, int>, done: set<StopId>,
               rest: set<StopId>, v1: set<StopId>, d1: map<StopId, int>, a1: set<StopId>,
               p1: map<StopId, StopId>, l1: map<StopId, int>, low: int, children: nat, K: set<StopId>,
               v: StopId)
    requires stop < |nb|
    requires DfsInv(nb, stop, parent, visited, dfsNum, aps, par, lowm, done, rest, v1, d1, a1, p1, l1, low, children, K)
    requires v in v1
    ensures v in d1
  {
  }

  lemma Shrinks(rest: set<StopId>, v: StopId)
    requires v in rest
    ensures |rest - {v}| < |rest|
  {
  }

  /** The rule of `stop` once its loop is over. */
  lemma EndRule(nb: seq<set<StopId>>, stop: StopId, parent: StopId, dfsNum: map<StopId, int>,
                d1: map<StopId, int>, a3: set<StopId>, p1: map<StopId, StopId>, l1: map<StopId, int>,
                D1: set<StopId>, low: int, children: nat, K: set<StopId>)
    requires stop < |nb| && stop !in D1 && Numbered(dfsNum) && Extends(dfsNum, d1)
    requires stop in d1 && d1[stop] == |dfsNum|
    requires parent == stop || (parent in dfsNum && parent < |nb| && stop in nb[parent])
    requires forall k :: k in K ==> k in l1
    requires K == Kids(p1, D1, stop) && children == |K|
    requires IsLow(d1, l1, |dfsNum|, parent, nb[stop], K, low)
    requires parent == stop ==> (stop in a3 <==> children > 1)
    requires parent != stop ==> (stop in a3 <==> Separated(l1, K, |dfsNum|))
    ensures NodeRule(nb, d1, p1[stop := parent], l1[stop := low], a3, D1 + {stop}, stop)
  {
    var p3, l3, D3 := p1[stop := parent], l1[stop := low], D1 + {stop};
    forall x | x in D3 ensures Child(p3, x, stop) <==> x in K {
    }
    assert Kids(p3, D3, stop) == K;
    forall k | k in K ensures k in l3 && l3[k] == l1[k] {
    }
    IsLowKeep(d1, l1, d1, l3, |dfsNum|, parent, nb[stop], K, low);
    SeparatedKeep(l1, l3, K, |dfsNum|);
    if parent != stop {
      assert dfsNum[parent] < |dfsNum|;
    }
  }

  /** The parent and low maps once `stop` is finished. */
  lemma EndHung(par: map<StopId, StopId>, lowm: map<StopId, int>, done: set<StopId>,
                visited: set<StopId>, stop: StopId, v1: set<StopId>, p1: map<StopId, StopId>, l1: map<StopId, int>,
                parent: StopId, low: int)
    requires done <= visited && stop in v1 && stop !in visited
    requires Hung(par, lowm, done, visited, stop, v1, p1, l1)
    ensures Grows(par, lowm, done, p1[stop := parent], l1[stop := low], done + (v1 - visited))
    ensures forall x :: x in v1 - visited && x != stop ==> x in p1[stop := parent] && p1[stop := parent][x] in v1 - visited
  {
    FinishedEnd(done, visited, v1, stop);
  }

  /** A root with a tree child has a neighbour, so reporting it after its
      loop keeps the state one that a search may produce. */
  lemma EndProgress(nb: seq<set<StopId>>, stop: StopId, parent: StopId, visited: set<StopId>,
                    dfsNum: map<StopId, int>, aps: set<StopId>, v1: set<StopId>, d1: map<StopId, int>,
                    a1: set<StopId>, p1: map<StopId, StopId>, l1: map<StopId, int>, D1: set<StopId>,
                    children: nat, K: set<StopId>)
    requires stop < |nb| && Entered(nb, stop, visited, dfsNum, aps, v1, d1, a1)
    requires Forest(nb, d1, p1, l1, a1, D1) && K == Kids(p1, D1, stop) && children == |K|
    ensures Progress(nb, visited, dfsNum, aps, v1, d1, if parent == stop && children > 1 then a1 + {stop} else a1)
  {
    if parent == stop && children > 1 {
      var c :| c in K;
      assert NodeRule(nb, d1, p1, l1, a1, D1, c);
      ProgressReport(nb, visited, dfsNum, aps, v1, d1, a1, stop);
    }
  }

  /** The finished stops with `stop` added obey their rules. */
  lemma ForestJoin(nb: seq<set<StopId>>, d: map<StopId, int>, p: map<StopId, StopId>, l: map<StopId, int>,
                   aps: set<StopId>, D1: set<StopId>, stop: StopId)
    requires forall u :: u in D1 ==> NodeRule(nb, d, p, l, aps, D1 + {stop}, u)
    requires NodeRule(nb, d, p, l, aps, D1 + {stop}, stop)
    ensures Forest(nb, d, p, l, aps, D1 + {stop})
  {
  }

  /** After the loop the stop is finished: it takes its parent and low value,
      a root with more than one child is reported, and the stop obeys its
      rule. */
  lemma EndForest(nb: seq<set<StopId>>, stop: StopId, parent: StopId,
                  visited: set<StopId>, dfsNum: map<StopId, int>, done: set<StopId>,
                  v1: set<StopId>, d1: map<StopId, int>, a1: set<StopId>,
                  p1: map<StopId, StopId>, l1: map<StopId, int>, low: int, children: nat, K: set<StopId>)
    requires stop < |nb| && Numbered(dfsNum) && Extends(dfsNum, d1) && visited == dfsNum.Keys
    requires done <= visited && parent !in done && stop in v1 && stop !in visited
    requires parent == stop || (parent in visited && parent < |nb| && stop in nb[parent])
    requires stop in d1 && d1[stop] == |dfsNum|
    requires p1.Keys == Finished(done, visited, v1, stop) && l1.Keys == Finished(done, visited, v1, stop)
    requires Forest(nb, d1, p1, l1, a1, Finished(done, visited, v1, stop))
    requires K == Kids(p1, Finished(done, visited, v1, stop), stop) && children == |K|
    requires IsLow(d1, l1, |dfsNum|, parent, nb[stop] - {}, K, low)
    requires Reports(stop, parent, a1, l1, K, |dfsNum|)
    ensures Forest(nb, d1, p1[stop := parent], l1[stop := low],
                   if parent == stop && children > 1 then a1 + {stop} else a1, done + (v1 - visited))
  {
    var a3 := if parent == stop && children > 1 then a1 + {stop} else a1;
    var p3, l3 := p1[stop := parent], l1[stop := low];
    var D1 := Finished(done, visited, v1, stop);
    FinishedEnd(done, visited, v1, stop);
    assert parent !in D1;
    Extended(d1);
    ForestKeep(nb, d1, p1, l1, a1, D1, d1, p3, l3, a3, D1 + {stop});
    SeenNone(nb[stop]);
    EndRule(nb, stop, parent, dfsNum, d1, a3, p1, l1, D1, low, children, K);
    ForestJoin(nb, d1, p3, l3, a3, D1, stop);
  }

  lemma Extended(d: map<StopId, int>)
    ensures Extends(d, d)
  {
  }

  /** Looking at one more neighbour `v` of the rest adds it to those looked at. */
  lemma SeenOneMore(all: set<StopId>, rest: set<StopId>, v: StopId)
    requires v in rest && rest <= all
    ensures all - (rest - {v}) == (all - rest) + {v} && rest - {v} <= all
  {
  }

  lemma SeenNone(all: set<StopId>)
    ensures all - all == {} && all - {} == all
  {
  }

  /** The finished stops when the loop starts are the ones finished before it. */
  lemma FinishedStart(done: set<StopId>, visited: set<StopId>, stop: StopId)
    ensures Finished(done, visited, visited + {stop}, stop) == done
  {
  }

  /** The finished stops grow by whatever a child's search visits. */
  lemma FinishedGrow(done: set<StopId>, visited: set<StopId>, v1: set<StopId>, v2: set<StopId>, stop: StopId)
    requires stop in v1 && visited <= v1 && v1 <= v2
    ensures Finished(done, visited, v2, stop) == Finished(done, visited, v1, stop) + (v2 - v1)
  {
  }

  /** When the loop ends, `stop` joins the finished stops. */
  lemma FinishedEnd(done: set<StopId>, visited: set<StopId>, v1: set<StopId>, stop: StopId)
    requires done <= visited && stop in v1 && stop !in visited
    ensures done + (v1 - visited) == Finished(done, visited, v1, stop) + {stop}
    ensures stop !in Finished(done, visited, v1, stop)
  {
  }

  /** The recursive search from `stop`, entered from `parent` (`parent ==
      stop` at a root). It numbers `stop` with the count of stops numbered so
      far, searches every unvisited neighbour as a tree child, and returns the
      least of its own number, its children's results and the numbers of its
      other visited neighbours save the parent. A root is reported when it has
      more than one child; any other stop when some child's result is not below
      its number. `par` and `lowm` record the parent and the low value of
      every finished stop `done`; the search finishes every stop it visits,
      records `parent` for `stop` and hangs every other stop it visits below
      one of them. */
  method Dfs(nb: seq<set<StopId>>, stop: StopId, parent: StopId, visited: set<StopId>,
             dfsNum: map<StopId, int>, aps: set<StopId>,
             ghost par: map<StopId, StopId>, ghost lowm: map<StopId, int>, ghost done: set<StopId>)
    returns (low: int, visited': set<StopId>, dfsNum': map<StopId, int>, aps': set<StopId>,
             ghost par': map<StopId, StopId>, ghost lowm': map<StopId, int>)
    requires DfsPre(nb, stop, parent, visited, dfsNum, aps, par, lowm, done)
    ensures Progress(nb, visited, dfsNum, aps, visited', dfsNum', aps')
    ensures stop in visited' && dfsNum'[stop] == |dfsNum|
    ensures Grows(par, lowm, done, par', lowm', done + (visited' - visited))
    ensures par'[stop] == parent && lowm'[stop] == low
    ensures forall x :: x in visited' - visited && x != stop ==> x in par' && par'[x] in visited' - visited
    ensures Forest(nb, dfsNum', par', lowm', aps', done + (visited' - visited))
    decreases AllStops(|nb|) - visited
  {
    DfsStart(nb, stop, parent, visited, dfsNum, aps, par, lowm, done);
    visited' := visited + {stop};
    var dfsNumStop := |dfsNum|;
    dfsNum' := dfsNum[stop := dfsNumStop];
    aps' := aps;
    par', lowm' := par, lowm;
    low := dfsNumStop;
    var children := 0;
    ghost var K: set<StopId> := {};
    var rest := nb[stop];
    while rest != {}
      invariant DfsInv(nb, stop, parent, visited, dfsNum, aps, par, lowm, done, rest, visited', dfsNum', aps',
                       par', lowm', low, children, K)
      decreases |rest|
    {
      var neighbour :| neighbour in rest;
      if neighbour !in visited' {
        ghost var D1 := Finished(done, visited, visited', stop);
        ChildPre(nb, stop, parent, visited, dfsNum, aps, par, lowm, done, rest, visited', dfsNum', aps',
                 par', lowm', low, children, K, neighbour);
        var r, v2, d2, a2, p2, l2 := Dfs(nb, neighbour, stop, visited', dfsNum', aps', par', lowm', D1);
        var a3 := a2;
        if r >= dfsNumStop && parent != stop {
          a3 := a2 + {stop};
        }
        ChildStep(nb, stop, parent, visited, dfsNum, aps, par, lowm, done, rest, visited', dfsNum', aps',
                  par', lowm', low, children, K, neighbour, r, v2, d2, a2, p2, l2, a3);
        children := children + 1;
        K := K + {neighbour};
        visited', dfsNum', aps', par', lowm' := v2, d2, a3, p2, l2;
        low := Min(low, r);
      } else {
        SeenIn(nb, stop, parent, visited, dfsNum, aps, par, lowm, done, rest, visited', dfsNum', aps',
               par', lowm', low, children, K, neighbour);
        var low' := low;
        if neighbour != parent {
          low' := Min(low, dfsNum'[neighbour]);
        }
        SeenStep(nb, stop, parent, visited, dfsNum, aps, par, lowm, done, rest, visited', dfsNum', aps',
                 par', lowm', low, children, K, neighbour, low');
        low := low';
      }
      Shrinks(rest, neighbour);
      rest := rest - {neighbour};
    }
    EndProgress(nb, stop, parent, visited, dfsNum, aps, visited', dfsNum', aps', par', lowm',
                Finished(done, visited, visited', stop), children, K);
    EndHung(par, lowm, done, visited, stop, visited', par', lowm', parent, low);
    EndForest(nb, stop, parent, visited, dfsNum, done, visited', dfsNum', aps', par', lowm', low, children, K);
    if parent == stop && children > 1 {
      aps' := aps' + {stop};
    }
    par', lowm' := par'[stop := parent], lowm'[stop := low];
  }

  // ---------------------------------------------------------------------------
  // The search over all stops
  // ---------------------------------------------------------------------------

  /** The state of the outer loop before stop `stop`: every earlier stop is
      visited, every visited stop is finished and obeys its rule, and the
      reported stops are visited stops with a neighbour. */
  ghost predicate SearchInv(nb: seq<set<StopId>>, stop: nat, visited: set<StopId>,
                            dfsNum: map<StopId, int>, aps: set<StopId>,
                            par: map<StopId, StopId>, lowm: map<StopId, int>)
  {
    && stop <= |nb|
    && visited == dfsNum.Keys && Below(visited, |nb|) && Numbered(dfsNum)
    && (forall t :: 0 <= t < stop ==> t in visited)
    && aps <= visited && HasNeighbours(nb, aps)
    && par.Keys == visited && lowm.Keys == visited
    && Forest(nb, dfsNum, par, lowm, aps, visited)
  }

  lemma SearchStep(nb: seq<set<StopId>>, stop: nat, visited: set<StopId>,
                   dfsNum: map<StopId, int>, aps: set<StopId>,
                   par: map<StopId, StopId>, lowm: map<StopId, int>,
                   v2: set<StopId>, d2: map<StopId, int>, a2: set<StopId>,
                   p2: map<StopId, StopId>, l2: map<StopId, int>)
    requires SearchInv(nb, stop, visited, dfsNum, aps, par, lowm) && stop < |nb|
    requires Progress(nb, visited, dfsNum, aps, v2, d2, a2) && stop in v2
    requires Grows(par, lowm, visited, p2, l2, visited + (v2 - visited))
    requires Forest(nb, d2, p2, l2, a2, visited + (v2 - visited))
    ensures SearchInv(nb, stop + 1, v2, d2, a2, p2, l2)
  {
    UnionDiff(visited, v2);
    forall v | v in a2 ensures 0 <= v < |nb| && nb[v] != {} {
      if v !in aps {
        assert v in a2 - aps;
      }
    }
  }

  /** A stop visited by an earlier search needs no search of its own. */
  lemma SearchSkip(nb: seq<set<StopId>>, stop: nat, visited: set<StopId>,
                   dfsNum: map<StopId, int>, aps: set<StopId>,
                   par: map<StopId, StopId>, lowm: map<StopId, int>)
    requires SearchInv(nb, stop, visited, dfsNum, aps, par, lowm) && stop < |nb| && stop in visited
    ensures SearchInv(nb, stop + 1, visited, dfsNum, aps, par, lowm)
  {
  }

  /** After the last stop every stop is visited. */
  lemma SearchEnd(nb: seq<set<StopId>>, visited: set<StopId>,
                  dfsNum: map<StopId, int>, aps: set<StopId>,
                  par: map<StopId, StopId>, lowm: map<StopId, int>)
    requires SearchInv(nb, |nb|, visited, dfsNum, aps, par, lowm)
    ensures visited == AllStops(|nb|)
  {
  }

  lemma UnionDiff(a: set<StopId>, b: set<StopId>)
    requires a <= b
    ensures a + (b - a) == b
  {
  }

  /** The outer loop of findArticulationPoints: a search rooted at every stop,
      in order, that is not yet visited. Every stop ends up numbered and
      finished, with its parent in `par` and its low value in `lowm`, and
      each obeys its rule: in particular a stop is reported exactly when it
      is a root with more than one child or a non-root with a child whose low
      value is not below its number. Only stops with a neighbour are
      reported. */
  method Search(nb: seq<set<StopId>>)
    returns (aps: set<StopId>, ghost numbers: map<StopId, int>,
             ghost par: map<StopId, StopId>, ghost lowm: map<StopId, int>)
    requires NeighboursBelow(nb, |nb|)
    ensures numbers.Keys == AllStops(|nb|) && Numbered(numbers)
    ensures aps <= AllStops(|nb|) && HasNeighbours(nb, aps)
    ensures par.Keys == AllStops(|nb|) && lowm.Keys == AllStops(|nb|)
    ensures Forest(nb, numbers, par, lowm, aps, AllStops(|nb|))
  {
    var visited: set<StopId> := {};
    var dfsNum: map<StopId, int> := map[];
    aps := {};
    par, lowm := map[], map[];
    var stop := 0;
    while stop < |nb|
      invariant SearchInv(nb, stop, visited, dfsNum, aps, par, lowm)
    {
      if stop !in visited {
        var _, v2, d2, a2, p2, l2 := Dfs(nb, stop, stop, visited, dfsNum, aps, par, lowm, visited);
        SearchStep(nb, stop, visited, dfsNum, aps, par, lowm, v2, d2, a2, p2, l2);
        visited, dfsNum, aps := v2, d2, a2;
        par, lowm := p2, l2;
      } else {
        SearchSkip(nb, stop, visited, dfsNum, aps, par, lowm);
      }
      stop := stop + 1;
    }
    SearchEnd(nb, visited, dfsNum, aps, par, lowm);
    numbers := dfsNum;
  }

  /** findArticulationPoints: add every edge's ends to the
      neighbour sets, then search from fresh state. */
  method FindArticulationPoints(g: Graph)
    returns (aps: set<StopId>, ghost numbers: map<StopId, int>,
             ghost par: map<StopId, StopId>, ghost lowm: map<StopId, int>)
    requires g.Valid()
    modifies g`neighbours
    ensures g.Valid()
    ensures g.neighbours == WithAdjacent(old(g.neighbours), g.forward, g.backward)
    ensures aps <= AllStops(g.n) && HasNeighbours(g.neighbours, aps)
    ensures numbers.Keys == AllStops(g.n) && Numbered(numbers)
    ensures par.Keys == AllStops(g.n) && lowm.Keys == AllStops(g.n)
    ensures Forest(g.neighbours, numbers, par, lowm, aps, AllStops(g.n))
  {
    g.ComputeNeighbours();
    aps, numbers, par, lowm := Search(g.neighbours);
  }
}
