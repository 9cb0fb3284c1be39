/** The element of the shortest-path fringe: a stop reached, the edge it was
    reached by, the cost so far and the estimated total cost, ordered by the
    estimate alone (PathItem.java). */
module PathItems {
  import opened Entities

  /** `previous` is None for the item the search starts from. */
  datatype PathItem = PathItem(node: StopId, previous: Option<Edge>, costSoFar: int, estimatedTotal: int)

  /** -1, 0 or 1 as this item's estimate is below, equal to or above the other's. */
  function CompareTo(a: PathItem, b: PathItem): (r: int)
    ensures r == -1 <==> a.estimatedTotal < b.estimatedTotal
    ensures r == 1 <==> a.estimatedTotal > b.estimatedTotal
    ensures r == 0 <==> a.estimatedTotal == b.estimatedTotal
  {
    if a.estimatedTotal < b.estimatedTotal then -1
    else if a.estimatedTotal > b.estimatedTotal then 1
    else 0
  }

  lemma CompareAntisymmetric(a: PathItem, b: PathItem)
    ensures CompareTo(a, b) == -CompareTo(b, a)
  {
  }

  lemma CompareTransitive(a: PathItem, b: PathItem, c: PathItem)
    requires CompareTo(a, b) <= 0 && CompareTo(b, c) <= 0
    ensures CompareTo(a, c) <= 0
  {
  }

  /** The order looks at the estimate only: the stop, the edge and the cost so
      far do not affect it. */
  lemma CompareIgnoresRest(a: PathItem, a': PathItem, b: PathItem)
    requires a.estimatedTotal == a'.estimatedTotal
    ensures CompareTo(a, b) == CompareTo(a', b) && CompareTo(b, a) == CompareTo(b, a')
  {
  }

  /** `x` is a least item of the fringe `m` in the compareTo order, one a
      priority queue may hand out next. */
  predicate Least(x: PathItem, m: multiset<PathItem>)
  {
    x in m && forall y :: y in m ==> CompareTo(x, y) <= 0
  }

  /** Adding an item to a fringe: the least item is the new one or the old least one. */
  lemma LeastAdd(a: PathItem, b: PathItem, rest: multiset<PathItem>)
    requires Least(b, rest)
    ensures Least(if a.estimatedTotal <= b.estimatedTotal then a else b, rest + multiset{a})
  {
    var x := if a.estimatedTotal <= b.estimatedTotal then a else b;
    forall y | y in rest + multiset{a} ensures CompareTo(x, y) <= 0 {
      if y != a {
        assert y in rest;
      }
    }
  }

  /** Every non-empty fringe has a least item. */
  lemma {:induction false} LeastExists(m: multiset<PathItem>) returns (x: PathItem)
    requires m != multiset{}
    ensures Least(x, m)
    decreases |m|
  {
    var a :| a in m;
    var rest := m - multiset{a};
    assert m == rest + multiset{a};
    if rest == multiset{} {
      x := a;
    } else {
      var b := LeastExists(rest);
      LeastAdd(a, b, rest);
      x := if a.estimatedTotal <= b.estimatedTotal then a else b;
    }
  }
}
