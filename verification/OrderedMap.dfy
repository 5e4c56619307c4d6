/** The parts of an ordered map (`std::map`) the arena walks: least key from a
    position on, greatest key before it, and the sum of the mapped lengths. */
module OrderedMap {
  import opened Wrappers

  predicate IsLeast(m: map<nat, nat>, from: nat, k: nat) {
    k in m && from <= k && forall j | j in m && from <= j :: k <= j
  }

  predicate IsGreatestBelow(m: map<nat, nat>, bound: nat, k: nat) {
    k in m && k < bound && forall j | j in m && j < bound :: j <= k
  }

  lemma {:induction false} LeastExists(m: map<nat, nat>, from: nat)
    requires exists k :: k in m && from <= k
    ensures exists k :: IsLeast(m, from, k)
  {
    var k :| k in m && from <= k;
    while !IsLeast(m, from, k)
      invariant k in m && from <= k
      decreases k
    {
      var j :| j in m && from <= j < k;
      k := j;
    }
  }

  /** `m.lower_bound(from)`: `None` is the end iterator. */
  function LowerBound(m: map<nat, nat>, from: nat): (r: Option<nat>)
    ensures r.Some? <==> exists k :: k in m && from <= k
    ensures r.Some? ==> IsLeast(m, from, r.value)
  {
    if exists k :: k in m && from <= k then
      LeastExists(m, from);
      var k :| k in m && IsLeast(m, from, k);
      Some(k)
    else
      None
  }

  lemma {:induction false} GreatestExists(m: map<nat, nat>, bound: nat)
    requires exists k :: k in m && k < bound
    ensures exists k :: IsGreatestBelow(m, bound, k)
  {
    var k :| k in m && k < bound;
    while !IsGreatestBelow(m, bound, k)
      invariant k in m && k < bound
      decreases bound - k
    {
      var j :| j in m && k < j < bound;
      k := j;
    }
  }

  /** The entry just before `bound`: `std::prev(m.lower_bound(bound))`. */
  function Before(m: map<nat, nat>, bound: nat): (r: Option<nat>)
    ensures r.Some? <==> exists k :: k in m && k < bound
    ensures r.Some? ==> IsGreatestBelow(m, bound, r.value)
  {
    if exists k :: k in m && k < bound then
      GreatestExists(m, bound);
      var k :| k in m && IsGreatestBelow(m, bound, k);
      Some(k)
    else
      None
  }

  lemma SmallerMap(m: map<nat, nat>, k: nat)
    requires k in m
    ensures |m - {k}| < |m|
  {
    assert m.Keys == (m - {k}).Keys + {k};
  }

  /** Sum of the mapped values. */
  ghost function Sum(m: map<nat, nat>): nat
    decreases |m|
  {
    if m == map[] then 0
    else
      var k :| k in m;
      SmallerMap(m, k);
      m[k] + Sum(m - {k})
  }

  /** Any entry can be split off the sum, not only the one `Sum` happens to choose. */
  lemma {:induction false} SumSplit(m: map<nat, nat>, k: nat)
    requires k in m
    ensures Sum(m) == m[k] + Sum(m - {k})
    decreases |m|
  {
    var j :| j in m && Sum(m) == m[j] + Sum(m - {j});
    if j != k {
      SmallerMap(m, j);
      SmallerMap(m, k);
      SumSplit(m - {j}, k);
      SumSplit(m - {k}, j);
      assert m - {j} - {k} == m - {k} - {j};
    }
  }

  lemma SumAdd(m: map<nat, nat>, k: nat, v: nat)
    requires k !in m
    ensures Sum(m[k := v]) == Sum(m) + v
  {
    SumSplit(m[k := v], k);
    assert m[k := v] - {k} == m;
  }

  ghost function Elements(s: seq<nat>): set<nat> {
    set o | o in s
  }
}
