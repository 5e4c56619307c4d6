/** How the blocks of the transient arena lie in `[0, size)`. The free and the live
    map (offset -> length) tile the region, no two free blocks touch, and therefore the
    free map is determined by the live map alone. */
module Tiling {
  import opened OrderedMap

  type Blocks = map<nat, nat>

  const ALIGN: nat := 4096

  ghost predicate Aligned(m: Blocks) {
    forall o | o in m :: o % ALIGN == 0 && m[o] % ALIGN == 0
  }

  ghost predicate Within(m: Blocks, size: nat) {
    forall o | o in m :: m[o] > 0 && o + m[o] <= size
  }

  ghost predicate Covers(m: Blocks, x: int) {
    exists o :: o in m && o <= x < o + m[o]
  }

  ghost predicate Apart(a: Blocks, b: Blocks) {
    forall o, p | o in a && p in b :: o + a[o] <= p || p + b[p] <= o
  }

  ghost predicate Disjoint(m: Blocks) {
    forall o, p | o in m && p in m && o < p :: o + m[o] <= p
  }

  /** Disjoint, and with a gap between any two: fully coalesced. */
  ghost predicate Coalesced(m: Blocks) {
    forall o, p | o in m && p in m && o < p :: o + m[o] < p
  }

  ghost predicate Full(size: nat, free: Blocks, live: Blocks) {
    forall x: nat | x < size :: Covers(live, x) || Covers(free, x)
  }

  ghost predicate Tiled(size: nat, free: Blocks, live: Blocks) {
    && Within(free, size) && Within(live, size)
    && Coalesced(free) && Disjoint(live)
    && Apart(free, live)
    && Full(size, free, live)
  }

  /** The bytes `[w, w + need)` lie in the region and in no live block. */
  ghost predicate ClearWindow(size: nat, live: Blocks, w: nat, need: nat) {
    w + need <= size && forall o | o in live :: o + live[o] <= w || w + need <= o
  }

  // ---- the free map is the map of maximal clear runs ----

  /** First position from `x` on that is live or the end of the region. */
  ghost function RunEnd(size: nat, live: Blocks, x: nat): (e: nat)
    requires x <= size
    ensures x <= e <= size && (e == size || Covers(live, e))
    ensures forall y | x <= y < e :: !Covers(live, y)
    decreases size - x
  {
    if x == size || Covers(live, x) then x else RunEnd(size, live, x + 1)
  }

  ghost predicate RunStart(live: Blocks, x: nat) {
    !Covers(live, x) && (x == 0 || Covers(live, x - 1))
  }

  /** Reference definition of the free list: every maximal run of clear bytes. */
  ghost function ClearRuns(size: nat, live: Blocks): Blocks {
    map o: nat | o < size && RunStart(live, o) :: RunEnd(size, live, o) - o
  }

  lemma FreeIsClear(size: nat, free: Blocks, live: Blocks, x: int)
    requires Tiled(size, free, live) && Covers(free, x)
    ensures !Covers(live, x)
  {
    var o :| o in free && o <= x < o + free[o];
    forall p | p in live ensures !(p <= x < p + live[p]) {}
  }

  lemma FreeBlockEdges(free: Blocks, o: nat)
    requires Coalesced(free) && o in free
    ensures !Covers(free, o - 1) && !Covers(free, o + free[o])
  {
    forall p | p in free ensures !(p <= o - 1 < p + free[p]) && !(p <= o + free[o] < p + free[p]) {
      if p < o { assert p + free[p] < o; } else if o < p { assert o + free[o] < p; }
    }
  }

  lemma FreeBlockIsRun(size: nat, free: Blocks, live: Blocks, o: nat)
    requires Tiled(size, free, live) && o in free
    ensures RunStart(live, o) && RunEnd(size, live, o) == o + free[o]
  {
    FreeBlockEdges(free, o);
    forall x | o <= x < o + free[o] ensures !Covers(live, x) {
      assert Covers(free, x);
      FreeIsClear(size, free, live, x);
    }
    var e := o + free[o];
    assert e == size || Covers(live, e);
  }

  lemma RunStartIsFree(size: nat, free: Blocks, live: Blocks, o: nat)
    requires Tiled(size, free, live) && o < size && RunStart(live, o)
    ensures o in free
  {
    assert Covers(free, o);
    var p :| p in free && p <= o < p + free[p];
    var x := if p < o then o - 1 else o;
    assert Covers(free, x);
    FreeIsClear(size, free, live, x);
  }

  lemma FreeIsClearRuns(size: nat, free: Blocks, live: Blocks)
    requires Tiled(size, free, live)
    ensures free == ClearRuns(size, live)
  {
    var runs := ClearRuns(size, live);
    forall o | o in free ensures o in runs && runs[o] == free[o] {
      FreeBlockIsRun(size, free, live, o);
    }
    forall o | o in runs ensures o in free {
      RunStartIsFree(size, free, live, o);
    }
  }

  // ---- first fit ----

  lemma WindowInOneFreeBlock(size: nat, free: Blocks, live: Blocks, w: nat, need: nat)
      returns (f: nat)
    requires Tiled(size, free, live) && need > 0 && ClearWindow(size, live, w, need)
    ensures f in free && f <= w && w + need <= f + free[f]
  {
    forall x | w <= x < w + need ensures !Covers(live, x) {}
    assert Covers(free, w);
    f :| f in free && f <= w < f + free[f];
    FreeBlockEdges(free, f);
  }

  // ---- the two moves keep the tiling ----

  function Carve(free: Blocks, f: nat, need: nat): Blocks
    requires f in free && need <= free[f]
  {
    if free[f] > need then (free - {f})[f + need := free[f] - need] else free - {f}
  }

  lemma CarveKeepsShape(size: nat, free: Blocks, live: Blocks, f: nat, need: nat)
    requires Tiled(size, free, live) && f in free && 0 < need <= free[f]
    ensures f !in live
    ensures var free', live' := Carve(free, f, need), live[f := need];
            && Within(free', size) && Within(live', size)
            && Coalesced(free') && Disjoint(live')
  {
    assert f !in live;
    forall o | o in free && o != f ensures o + free[o] < f || f + free[f] < o {}
    forall o | o in live ensures o + live[o] <= f || f + free[f] <= o {}
  }

  lemma CarveKeepsApart(size: nat, free: Blocks, live: Blocks, f: nat, need: nat)
    requires Tiled(size, free, live) && f in free && 0 < need <= free[f]
    ensures Apart(Carve(free, f, need), live[f := need])
  {
    var free', live' := Carve(free, f, need), live[f := need];
    forall o, p | o in free' && p in live' ensures o + free'[o] <= p || p + live'[p] <= o {
      assert o == f + need || (o in free && o != f);
      if o in free && o != f { assert o + free[o] < f || f + free[f] < o; }
      if p != f { assert p + live[p] <= f || f + free[f] <= p; }
    }
  }

  lemma CarveKeepsFull(size: nat, free: Blocks, live: Blocks, f: nat, need: nat)
    requires Tiled(size, free, live) && f in free && 0 < need <= free[f] && f !in live
    ensures Full(size, Carve(free, f, need), live[f := need])
  {
    var free', live' := Carve(free, f, need), live[f := need];
    forall x: nat | x < size ensures Covers(live', x) || Covers(free', x) {
      if f <= x < f + need {
        assert f in live';
      } else if f + need <= x < f + free[f] {
        assert f + need in free';
      } else if Covers(live, x) {
        var o :| o in live && o <= x < o + live[o];
        assert o in live' && live'[o] == live[o];
      } else {
        var o :| o in free && o <= x < o + free[o];
        assert o + free[o] < f || f + free[f] < o;
        assert o in free' && free'[o] == free[o];
      }
    }
  }

  lemma CarveTiles(size: nat, free: Blocks, live: Blocks, f: nat, need: nat)
    requires Tiled(size, free, live) && f in free && 0 < need <= free[f]
    ensures f !in live && Tiled(size, Carve(free, f, need), live[f := need])
  {
    CarveKeepsShape(size, free, live, f, need);
    CarveKeepsApart(size, free, live, f, need);
    CarveKeepsFull(size, free, live, f, need);
  }

  lemma CarveSum(free: Blocks, f: nat, need: nat)
    requires f in free && 0 < need <= free[f] && (free[f] > need ==> f + need !in free)
    ensures Sum(Carve(free, f, need)) + need == Sum(free)
  {
    hide Sum;
    SumSplit(free, f);
    if free[f] > need {
      SumAdd(free - {f}, f + need, free[f] - need);
    }
  }

  lemma CarveAligned(free: Blocks, live: Blocks, f: nat, need: nat)
    requires f in free && 0 < need <= free[f] && Aligned(free) && Aligned(live) && need % ALIGN == 0
    ensures Aligned(Carve(free, f, need)) && Aligned(live[f := need])
  {
    assert (f + need) % ALIGN == 0 && (free[f] - need) % ALIGN == 0;
  }

  /** The free block made of `[start, stop)` swallows the released block `[o, e)`, the free
      block right after it if there is one and the one right before it if there is one. */
  ghost predicate MergeShape(free: Blocks, o: nat, e: nat, start: nat, stop: nat) {
    && o < e && o !in free
    && stop == (if e in free then e + free[e] else e)
    && (if start == o then forall p | p in free :: p + free[p] != o
        else start < o && start in free && start + free[start] == o)
  }

  function Merge(free: Blocks, e: nat, start: nat, stop: nat): Blocks
    requires start <= stop
  {
    (free - {e})[start := stop - start]
  }

  lemma OthersClearOfMerge(free: Blocks, o: nat, e: nat, start: nat, stop: nat, p: nat)
    requires Coalesced(free) && MergeShape(free, o, e, start, stop)
    requires p in free && p != start && p != e && (p + free[p] <= o || e <= p)
    ensures p + free[p] < start || stop < p
  {
    if p + free[p] <= o {
      assert start < o ==> p <= start;
    } else if e in free {
      assert e + free[e] < p;
    }
  }

  lemma LiveClearOfMerge(size: nat, free: Blocks, live: Blocks, o: nat, start: nat, stop: nat, q: nat)
    requires Tiled(size, free, live) && o in live
    requires MergeShape(free, o, o + live[o], start, stop)
    requires q in live && q != o
    ensures q + live[q] <= start || stop <= q
  {
    var e := o + live[o];
    assert forall f | f in free :: f + free[f] <= q || q + live[q] <= f;
    if q < o {
      assert q + live[q] <= o;
    } else {
      assert e <= q;
    }
  }

  lemma MergeKeepsShape(size: nat, free: Blocks, live: Blocks, o: nat, start: nat, stop: nat)
    requires Tiled(size, free, live) && o in live
    requires MergeShape(free, o, o + live[o], start, stop)
    ensures start <= stop <= size
    ensures var free' := Merge(free, o + live[o], start, stop);
            Within(free', size) && Coalesced(free')
            && forall p | p in free' && p != start :: p in free && free'[p] == free[p]
  {
    var e := o + live[o];
    assert e <= size;
    hide Disjoint, Full;
    forall p | p in free && p != start && p != e ensures p + free[p] < start || stop < p {
      assert p + free[p] <= o || o + live[o] <= p;
      OthersClearOfMerge(free, o, e, start, stop, p);
    }
  }

  lemma MergeKeepsFull(size: nat, free: Blocks, live: Blocks, o: nat, start: nat, stop: nat)
    requires Tiled(size, free, live) && o in live
    requires MergeShape(free, o, o + live[o], start, stop)
    ensures Full(size, Merge(free, o + live[o], start, stop), live - {o})
  {
    hide Coalesced, Disjoint, Apart;
    var e := o + live[o];
    var free', live' := Merge(free, e, start, stop), live - {o};
    forall x: nat | x < size ensures Covers(live', x) || Covers(free', x) {
      if start <= x < stop {
        assert start in free';
      } else if Covers(live, x) {
        var q :| q in live && q <= x < q + live[q];
        assert q in live' && live'[q] == live[q];
      } else {
        var p :| p in free && p <= x < p + free[p];
        assert p in free' && free'[p] == free[p];
      }
    }
  }

  lemma MergeTiles(size: nat, free: Blocks, live: Blocks, o: nat, start: nat, stop: nat)
    requires Tiled(size, free, live) && o in live
    requires MergeShape(free, o, o + live[o], start, stop)
    ensures start <= stop && Tiled(size, Merge(free, o + live[o], start, stop), live - {o})
  {
    MergeKeepsShape(size, free, live, o, start, stop);
    MergeKeepsFull(size, free, live, o, start, stop);
    var free', live' := Merge(free, o + live[o], start, stop), live - {o};
    forall p, q | p in free' && q in live' ensures p + free'[p] <= q || q + live'[q] <= p {
      LiveClearOfMerge(size, free, live, o, start, stop, q);
    }
  }

  lemma MergeSum(free: Blocks, o: nat, e: nat, start: nat, stop: nat)
    requires MergeShape(free, o, e, start, stop)
    ensures start <= stop && Sum(Merge(free, e, start, stop)) == Sum(free) + (e - o)
  {
    hide Sum;
    var rest := free - {e};
    if e in free { SumSplit(free, e); } else { assert rest == free; }
    if start == o {
      SumAdd(rest, o, stop - o);
    } else {
      var rest' := rest - {start};
      SumSplit(rest, start);
      assert rest[start] == o - start;
      SumAdd(rest', start, stop - start);
      assert Merge(free, e, start, stop) == rest'[start := stop - start];
    }
  }

  lemma MergeAligned(free: Blocks, live: Blocks, o: nat, start: nat, stop: nat)
    requires o in live && MergeShape(free, o, o + live[o], start, stop)
    requires Aligned(free) && Aligned(live)
    ensures start <= stop
    ensures Aligned(Merge(free, o + live[o], start, stop)) && Aligned(live - {o})
  {
    var e := o + live[o];
    assert e % ALIGN == 0;
    assert stop % ALIGN == 0 && start % ALIGN == 0;
    assert (stop - start) % ALIGN == 0;
  }
}
