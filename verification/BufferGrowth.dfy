/** The 1.5x amortised growth of the workspace and the operator scratch buffers, over whole
    sequences of successful requests. */
module BufferGrowth {
  import opened MachineWord

  /** New size for a request that does not fit; `size == 0` is a cold start. */
  function GrowTo(size: nat, needed: nat): nat {
    if size == 0 then needed
    else
      var grown := AddWord(size, size / 2);
      if grown > needed then grown else needed
  }

  function Last(s: seq<nat>): nat {
    if s == [] then 0 else s[|s| - 1]
  }

  /** Sizes of the reallocations a sequence of requests causes, oldest first. */
  function Allocs(requests: seq<nat>): seq<nat> {
    if requests == [] then []
    else
      var n := |requests| - 1;
      var before := Allocs(requests[..n]);
      if requests[n] <= Last(before) then before
      else before + [GrowTo(Last(before), requests[n])]
  }

  ghost predicate AtMost(requests: seq<nat>, m: nat) {
    forall i | 0 <= i < |requests| :: requests[i] <= m
  }

  ghost predicate Increasing(a: seq<nat>) {
    forall i, j | 0 <= i < j < |a| :: a[i] < a[j]
  }

  lemma GrowToBounds(s: nat, n: nat, m: nat)
    requires s < n <= m
    ensures n <= GrowTo(s, n) <= m + m / 2
  {
    if s > 0 {
      assert AddWord(s, s / 2) <= s + s / 2;
      assert s / 2 <= m / 2;
    }
  }

  /** The buffer covers the latest request, each reallocation enlarges it, and no size
      exceeds 1.5 times the largest request; in 64-bit arithmetic and for any requests. */
  lemma {:induction false} SizesBounded(requests: seq<nat>, m: nat)
    requires AtMost(requests, m)
    ensures Last(requests) <= Last(Allocs(requests))
    ensures Increasing(Allocs(requests)) && (Allocs(requests) != [] ==> Allocs(requests)[0] > 0)
    ensures forall i | 0 <= i < |Allocs(requests)| :: Allocs(requests)[i] <= m + m / 2
    ensures |Allocs(requests)| >= 2 ==> Allocs(requests)[|Allocs(requests)| - 2] < m
  {
    hide GrowTo;
    if requests != [] {
      var n := |requests| - 1;
      SizesBounded(requests[..n], m);
      var before := Allocs(requests[..n]);
      if requests[n] > Last(before) {
        GrowToBounds(Last(before), requests[n], m);
      }
    }
  }

  // ---- doubling over two regrowths, and the 64-bit condition for it ----

  /** No buffer below the largest request makes `size + size / 2` wrap. */
  predicate NoWrap(m: nat) {
    m == 0 || m - 1 + (m - 1) / 2 < TWO64
  }

  ghost predicate Doubles(a: seq<nat>) {
    forall i | 0 <= i < |a| - 2 :: 2 * a[i] <= a[i + 2]
  }

  lemma TwoGrowthsDouble(s: nat, n1: nat, n2: nat, m: nat)
    requires 0 < s < n1 <= m && GrowTo(s, n1) < n2 <= m && NoWrap(m)
    ensures 2 * s <= GrowTo(GrowTo(s, n1), n2)
  {
    var s1 := GrowTo(s, n1);
    assert AddWord(s, s / 2) == s + s / 2;
    assert AddWord(s1, s1 / 2) == s1 + s1 / 2;
  }

  ghost predicate GrewFor(s: nat, n: nat, s': nat) {
    s < n && s' == GrowTo(s, n)
  }

  ghost predicate Regrowth(s: nat, s': nat, m: nat) {
    exists n: nat :: n <= m && GrewFor(s, n, s')
  }

  /** Each reallocation but the first was caused by a request above the size before it. */
  ghost predicate GrownBy(a: seq<nat>, m: nat) {
    forall i | 0 <= i < |a| - 1 :: Regrowth(a[i], a[i + 1], m)
  }

  lemma {:induction false} AllocsAreGrown(requests: seq<nat>, m: nat)
    requires AtMost(requests, m)
    ensures GrownBy(Allocs(requests), m)
  {
    if requests != [] {
      var n := |requests| - 1;
      AllocsAreGrown(requests[..n], m);
      var before, a := Allocs(requests[..n]), Allocs(requests);
      forall i | 0 <= i < |a| - 1 ensures Regrowth(a[i], a[i + 1], m) {
        if i == |before| - 1 {
          assert GrewFor(a[i], requests[n], a[i + 1]);
        } else {
          assert a[i] == before[i] && a[i + 1] == before[i + 1];
        }
      }
    }
  }

  lemma SizesDouble(requests: seq<nat>, m: nat)
    requires AtMost(requests, m) && NoWrap(m)
    ensures Doubles(Allocs(requests))
  {
    SizesBounded(requests, m);
    AllocsAreGrown(requests, m);
    var a := Allocs(requests);
    forall i | 0 <= i < |a| - 2 ensures 2 * a[i] <= a[i + 2] {
      assert Regrowth(a[i], a[i + 1], m) && Regrowth(a[i + 1], a[i + 1 + 1], m);
      var n1: nat :| n1 <= m && GrewFor(a[i], n1, a[i + 1]);
      var n2: nat :| n2 <= m && GrewFor(a[i + 1], n2, a[i + 2]);
      TwoGrowthsDouble(a[i], n1, n2, m);
    }
  }

  lemma WrappedRun(s: nat, t: nat)
    requires s == t / 2 + 2 && TWO64 <= t + t / 2 && t < TWO64
    ensures Allocs([s, t, t + 1]) == [s, t, t + 1]
  {
    assert [s, t, t + 1][..2] == [s, t] && [s, t][..1] == [s] && [s][..0] == [];
    assert Allocs([s]) == [s];
    assert s + s / 2 <= t && AddWord(s, s / 2) == s + s / 2;
    assert Allocs([s, t]) == [s, t];
    assert AddWord(t, t / 2) == t + t / 2 - TWO64;
  }

  /** Exactly up to that bound do the sizes double over every two regrowths: beyond it the
      sum wraps, the request itself becomes the size, and growth is no longer amortised. */
  lemma DoublingIffNoWrap(m: nat)
    requires m < TWO64
    ensures NoWrap(m) <==> forall requests | AtMost(requests, m) :: Doubles(Allocs(requests))
  {
    if NoWrap(m) {
      forall requests | AtMost(requests, m) ensures Doubles(Allocs(requests)) {
        SizesDouble(requests, m);
      }
    } else {
      var t := m - 1;
      var s := t / 2 + 2;
      WrappedRun(s, t);
      assert AtMost([s, t, m], m);
      var a := Allocs([s, t, m]);
      assert 2 * a[0] > a[0 + 2];
    }
  }

  // ---- logarithmically many reallocations ----

  function Pow2(k: nat): nat {
    if k == 0 then 1 else 2 * Pow2(k - 1)
  }

  /** Floor of the binary logarithm. */
  function Log2(m: nat): nat {
    if m < 2 then 0 else 1 + Log2(m / 2)
  }

  lemma {:induction false} Log2Bounds(k: nat, m: nat)
    requires Pow2(k) <= m
    ensures k <= Log2(m)
  {
    if k > 0 { Log2Bounds(k - 1, m / 2); }
  }

  lemma {:induction false} PowersBelow(a: seq<nat>, i: nat)
    requires Doubles(a) && i < |a| && a[0] > 0 && Increasing(a)
    ensures Pow2(i / 2) <= a[i]
  {
    if i >= 2 {
      PowersBelow(a, i - 2);
      assert i / 2 == (i - 2) / 2 + 1;
    }
  }

  lemma FewReallocations(requests: seq<nat>, m: nat)
    requires AtMost(requests, m) && NoWrap(m)
    ensures |Allocs(requests)| <= 2 * Log2(m) + 3
  {
    var a := Allocs(requests);
    if |a| >= 2 {
      SizesBounded(requests, m);
      SizesDouble(requests, m);
      PowersBelow(a, |a| - 2);
      Log2Bounds((|a| - 2) / 2, m);
    }
  }

  // ---- linear total ----

  ghost function Total(a: seq<nat>): nat {
    if a == [] then 0 else Total(a[..|a| - 1]) + a[|a| - 1]
  }

  lemma {:induction false} TotalOfDoubling(a: seq<nat>)
    requires Doubles(a)
    ensures |a| >= 2 ==> Total(a) <= 2 * a[|a| - 1] + 2 * a[|a| - 2]
  {
    if |a| > 2 {
      var b := a[..|a| - 1];
      TotalOfDoubling(b);
      assert 2 * a[|a| - 3] <= a[|a| - 1];
    } else if |a| == 2 {
      assert a[..1][..0] == [] && Total(a[..1]) == a[0];
    }
  }

  /** All reallocations together ask for at most five times the largest request. */
  lemma TotalIsLinear(requests: seq<nat>, m: nat)
    requires AtMost(requests, m) && NoWrap(m)
    ensures Total(Allocs(requests)) <= 5 * m
  {
    var a := Allocs(requests);
    SizesBounded(requests, m);
    SizesDouble(requests, m);
    if |a| >= 2 {
      TotalOfDoubling(a);
    } else if |a| == 1 {
      assert a[..0] == [] && Total(a) == a[0];
    }
  }
}
