/** The first-fit, coalescing offset allocator behind the session's transient arena. */
module TransientArena {
  import opened Wrappers
  import opened MachineWord
  import opened OrderedMap
  import opened Tiling
  import opened PageBitmap

  /** `(bytes + kAlign - 1) & ~(kAlign - 1)` in `size_t`; zero rounds up too. */
  function RoundUp(bytes: nat): nat {
    if bytes == 0 then ALIGN else AddWord(bytes, ALIGN - 1) / ALIGN * ALIGN
  }

  /** Whole pages a request occupies, in unbounded arithmetic. */
  function PagesFor(bytes: nat): nat {
    if bytes == 0 then 1 else (bytes + ALIGN - 1) / ALIGN
  }

  /** The 64-bit rounding is the mathematical one exactly when its addition cannot wrap. */
  lemma RoundUpExact(bytes: nat)
    requires bytes < TWO64
    ensures RoundUp(bytes) == PagesFor(bytes) * ALIGN <==> bytes <= TWO64 - ALIGN
    ensures PagesFor(bytes) > 0 && bytes <= PagesFor(bytes) * ALIGN
    ensures if bytes == 0 then PagesFor(bytes) * ALIGN == ALIGN else PagesFor(bytes) * ALIGN < bytes + ALIGN
  {
    if bytes > TWO64 - ALIGN {
      assert AddWord(bytes, ALIGN - 1) == bytes + ALIGN - 1 - TWO64;
    } else {
      assert AddWord(bytes, ALIGN - 1) == bytes + ALIGN - 1;
    }
  }

  /** No smaller positive number of pages holds the request. */
  lemma PagesForIsLeast(bytes: nat, pages: nat)
    requires pages > 0 && bytes <= pages * ALIGN
    ensures PagesFor(bytes) <= pages
  {
  }

  /** The arena's invariant, on the values of its fields. */
  ghost predicate Consistent(size: nat, free: Blocks, live: Blocks, used: nat, hwm: nat) {
    && size < TWO64 && size % ALIGN == 0
    && Tiled(size, free, live)
    && Aligned(free) && Aligned(live)
    && used == Sum(live) && used + Sum(free) == size
    && used <= hwm <= size
  }

  /** The `bytes <= size_` guard of `allocate` keeps the rounding exact, and turns away
      only requests that no window could hold. */
  lemma RoundUpBehindGuard(size: nat, free: Blocks, live: Blocks, used: nat, hwm: nat, bytes: nat)
    requires Consistent(size, free, live, used, hwm) && bytes < TWO64
    ensures PagesFor(bytes) > 0 && PagesFor(bytes) * ALIGN % ALIGN == 0
    ensures bytes <= size ==> RoundUp(bytes) == PagesFor(bytes) * ALIGN
    ensures bytes > size ==> forall w :: !ClearWindow(size, live, w, PagesFor(bytes) * ALIGN)
  {
    assert size <= TWO64 - ALIGN;
    RoundUpExact(bytes);
  }

  /** Without live blocks, the window at 0 holds every request up to the size. */
  lemma IdleHasRoom(size: nat, bytes: nat)
    requires 0 < size < TWO64 && size % ALIGN == 0 && bytes <= size
    ensures ClearWindow(size, map[], 0, PagesFor(bytes) * ALIGN)
  {
    PagesForIsLeast(bytes, size / ALIGN);
  }

  lemma FirstFitFound(size: nat, free: Blocks, live: Blocks, used: nat, hwm: nat, f: nat, need: nat)
    requires Consistent(size, free, live, used, hwm)
    requires f in free && 0 < need <= free[f] && need % ALIGN == 0
    requires forall o | o in free && o < f :: free[o] < need
    ensures ClearWindow(size, live, f, need)
    ensures forall w | ClearWindow(size, live, w, need) :: f <= w
    ensures f !in live && f % ALIGN == 0
    ensures Consistent(size, Carve(free, f, need), live[f := need], used + need,
                       if used + need > hwm then used + need else hwm)
  {
    forall w | ClearWindow(size, live, w, need) ensures f <= w {
      var g := WindowInOneFreeBlock(size, free, live, w, need);
    }
    CarveTiles(size, free, live, f, need);
    CarveSum(free, f, need);
    CarveAligned(free, live, f, need);
    SumAdd(live, f, need);
  }

  lemma BitmapStep(size: nat, free: Blocks, live: Blocks, used: nat, hwm: nat, r: Option<nat>, need: nat)
    requires Consistent(size, free, live, used, hwm) && need > 0 && need % ALIGN == 0
    requires r.Some? ==> r.value !in live && r.value % ALIGN == 0 && ClearWindow(size, live, r.value, need)
    requires forall w | ClearWindow(size, live, w, need) :: r.Some? && r.value <= w
    ensures FirstFit(Pages(size, live), need / ALIGN, 0)
         == if r.Some? then Some(r.value / ALIGN) else None
    ensures r.Some? ==>
      Pages(size, live[r.value := need]) == Fill(Pages(size, live), r.value / ALIGN, need / ALIGN, true)
  {
    LowestWindowIsFirstFit(size, live, r, need);
    if r.Some? { AllocateSetsPages(size, live, r.value, need); }
  }

  lemma NoFit(size: nat, free: Blocks, live: Blocks, used: nat, hwm: nat, need: nat)
    requires Consistent(size, free, live, used, hwm)
    requires need > 0 && forall o | o in free :: free[o] < need
    ensures forall w :: !ClearWindow(size, live, w, need)
  {
    forall w ensures !ClearWindow(size, live, w, need) {
      if ClearWindow(size, live, w, need) {
        var f := WindowInOneFreeBlock(size, free, live, w, need);
      }
    }
  }

  lemma ReleaseStep(size: nat, free: Blocks, live: Blocks, used: nat, hwm: nat, o: nat)
    requires Consistent(size, free, live, used, hwm) && o in live
    ensures Pages(size, live - {o}) == Fill(Pages(size, live), o / ALIGN, live[o] / ALIGN, false)
  {
    ReleaseClearsPages(size, live, o);
  }

  lemma UsedBelowMark(size: nat, free: Blocks, live: Blocks, used: nat, hwm: nat)
    requires Consistent(size, free, live, used, hwm)
    ensures used <= hwm
    ensures forall o | o in live :: 0 < live[o] <= used
    ensures forall o | o in free :: o < size
  {
    forall o | o in live ensures live[o] <= used { SumSplit(live, o); }
  }

  /** The two lookups of `release` find the free neighbours of the block at `o`. */
  lemma NeighboursFound(size: nat, free: Blocks, live: Blocks, o: nat, next: Option<nat>, prev: Option<nat>)
    requires Tiled(size, free, live) && o in live
    requires next == LowerBound(free, o)
    requires prev == Before(if next == Some(o + live[o]) then free - {o + live[o]} else free, o)
    ensures live[o] > 0 && o !in free
    ensures o + live[o] in free <==> next == Some(o + live[o])
    ensures forall p | p in free && p + free[p] == o :: prev == Some(p)
  {
    forall p | p in free ensures p + free[p] <= o || o + live[o] <= p {}
    forall p | p in free && p + free[p] == o ensures prev == Some(p) {
      forall q | q in free && q < o ensures q <= p {
        assert q + free[q] <= o;
      }
      assert p in if next == Some(o + live[o]) then free - {o + live[o]} else free;
    }
  }

  lemma ReleaseFindsShape(size: nat, free: Blocks, live: Blocks, used: nat, hwm: nat, o: nat, next: Option<nat>, prev: Option<nat>)
    requires Consistent(size, free, live, used, hwm) && o in live
    requires next == LowerBound(free, o)
    requires prev == Before(if next == Some(o + live[o]) then free - {o + live[o]} else free, o)
    ensures o + live[o] in free <==> next == Some(o + live[o])
    ensures var merged := if next == Some(o + live[o]) then free - {o + live[o]} else free;
            MergeShape(free, o, o + live[o],
                       if prev.Some? && prev.value + merged[prev.value] == o then prev.value else o,
                       if next == Some(o + live[o]) then o + live[o] + free[o + live[o]] else o + live[o])
  {
    NeighboursFound(size, free, live, o, next, prev);
  }

  lemma ReleaseKeepsConsistent(size: nat, free: Blocks, live: Blocks, used: nat, hwm: nat, o: nat, start: nat, stop: nat)
    requires Consistent(size, free, live, used, hwm) && o in live
    requires MergeShape(free, o, o + live[o], start, stop)
    ensures start <= stop && live[o] <= used
    ensures Consistent(size, Merge(free, o + live[o], start, stop), live - {o}, used - live[o], hwm)
  {
    hide Sum, Tiled;
    MergeTiles(size, free, live, o, start, stop);
    MergeSum(free, o, o + live[o], start, stop);
    MergeAligned(free, live, o, start, stop);
    SumSplit(live, o);
  }

  class TransientArenaAllocator {
    var size: nat
    var free: Blocks
    var live: Blocks
    var used: nat
    var hwm: nat
    var hits: nat
    var misses: nat
    var missBytes: nat

    ghost predicate Valid()
      reads this
    {
      Consistent(size, free, live, used, hwm)
    }

    ghost function Bitmap(): seq<bool>
      reads this
    {
      Pages(size, live)
    }

    constructor ()
      ensures Valid() && size == 0 && live == map[]
    {
      size, free, live := 0, map[], map[];
      used, hwm, hits, misses, missBytes := 0, 0, 0, 0, 0;
    }

    /** `init`: one free block of the size cut down to whole pages. */
    method Init(bytes: nat)
      requires bytes < TWO64
      modifies this
      ensures Valid()
      ensures size <= bytes < size + ALIGN && (bytes % ALIGN == 0 ==> size == bytes)
      ensures live == map[] && used == hwm == hits == misses == missBytes == 0
      ensures free == if size == 0 then map[] else map[0 := size]
    {
      size := bytes / ALIGN * ALIGN;
      free, live := map[], map[];
      used, hwm, hits, misses, missBytes := 0, 0, 0, 0, 0;
      if size > 0 {
        free := free[0 := size];
        SumAdd(map[], 0, size);
        assert 0 in free;
      }
    }

    lemma IdleRequest(bytes: nat)
      requires Valid() && live == map[] && size > 0 && bytes <= size
      ensures ClearWindow(size, live, 0, PagesFor(bytes) * ALIGN)
    {
      hide Tiled, PagesFor, ClearWindow;
      IdleHasRoom(size, bytes);
    }

    /** Succeeds exactly when some window of the rounded size overlaps no live block, and
        then takes the lowest such window: the first fit on the page bitmap. */
    method Allocate(bytes: nat) returns (r: Option<nat>)
      requires Valid() && bytes < TWO64
      modifies this
      ensures Valid() && size == old(size)
      ensures r.Some? <==> exists w :: ClearWindow(size, old(live), w, PagesFor(bytes) * ALIGN)
      ensures r.Some? ==>
        && ClearWindow(size, old(live), r.value, PagesFor(bytes) * ALIGN)
        && forall w | ClearWindow(size, old(live), w, PagesFor(bytes) * ALIGN) :: r.value <= w
      ensures r.Some? ==>
        && r.value !in old(live) && live == old(live)[r.value := PagesFor(bytes) * ALIGN]
        && used == old(used) + PagesFor(bytes) * ALIGN
        && hits == AddWord(old(hits), 1) && misses == old(misses) && missBytes == old(missBytes)
      ensures r.None? ==>
        && live == old(live) && free == old(free) && used == old(used)
        && hits == old(hits) && misses == AddWord(old(misses), 1)
        && missBytes == AddWord(old(missBytes), bytes)
      ensures old(live) == map[] && size > 0 && bytes <= size ==> r == Some(0)
      ensures hwm == if used > old(hwm) then used else old(hwm)
      ensures FirstFit(old(Bitmap()), PagesFor(bytes), 0)
           == if r.Some? then Some(r.value / ALIGN) else None
      ensures Bitmap() == if r.Some? then Fill(old(Bitmap()), r.value / ALIGN, PagesFor(bytes), true)
                          else old(Bitmap())
    {
      hide Consistent, RoundUp, PagesFor, ClearWindow, FirstFit, Pages, Fill;
      UsedBelowMark(size, free, live, used, hwm);
      RoundUpBehindGuard(size, free, live, used, hwm, bytes);
      if live == map[] && size > 0 && bytes <= size { IdleRequest(bytes); }
      if bytes <= size {
        var need := RoundUp(bytes);
        var it := LowerBound(free, 0);
        while it.Some?
          invariant it.Some? ==> it.value in free && it.value < size
          invariant it.None? ==> forall o | o in free :: free[o] < need
          invariant it.Some? ==> forall o | o in free && o < it.value :: free[o] < need
          decreases it.Some?, if it.Some? then size - it.value else 0
        {
          var offset := it.value;
          if free[offset] < need {
            it := LowerBound(free, offset + 1);
            continue;
          }
          FirstFitFound(size, free, live, used, hwm, offset, need);
          BitmapStep(size, free, live, used, hwm, Some(offset), need);
          var avail := free[offset];
          free := free - {offset};
          if avail > need {
            free := free[offset + need := avail - need];
          }
          live := live[offset := need];
          used := used + need;
          hwm := if used > hwm then used else hwm;
          hits := AddWord(hits, 1);
          return Some(offset);
        }
        NoFit(size, free, live, used, hwm, need);
      }
      BitmapStep(size, free, live, used, hwm, None, PagesFor(bytes) * ALIGN);
      misses := AddWord(misses, 1);
      missBytes := AddWord(missBytes, bytes);
      r := None;
    }

    /** False exactly when `offset` is not the start of a live block; otherwise that block,
        and nothing else, becomes clear. */
    method Release(offset: nat) returns (ok: bool)
      requires Valid()
      modifies this
      ensures Valid() && size == old(size)
      ensures ok <==> offset in old(live)
      ensures live == old(live) - {offset}
      ensures used == old(used) - (if ok then old(live)[offset] else 0)
      ensures !ok ==> free == old(free) && live == old(live)
      ensures Bitmap() == if ok then Fill(old(Bitmap()), offset / ALIGN, old(live)[offset] / ALIGN, false)
                          else old(Bitmap())
      ensures hwm == old(hwm) && hits == old(hits) && misses == old(misses) && missBytes == old(missBytes)
    {
      hide Consistent, MergeShape, Pages, Fill, IsLeast, IsGreatestBelow;
      if offset !in live {
        assert live - {offset} == live;
        return false;
      }
      ReleaseStep(size, free, live, used, hwm, offset);
      var len := live[offset];
      ghost var free0, live0, used0 := free, live, used;
      UsedBelowMark(size, free, live, used, hwm);
      live := live - {offset};
      used := used - len;
      var next := LowerBound(free, offset);
      ghost var start, stop := offset, offset + len;
      if next.Some? && next.value == offset + len {
        stop := offset + len + free[next.value];
        len := len + free[next.value];
        free := free - {next.value};
      }
      var prev := Before(free, offset);
      ReleaseFindsShape(size, free0, live0, used0, hwm, offset, next, prev);
      if prev.Some? && prev.value + free[prev.value] == offset {
        start := prev.value;
        free := free[prev.value := free[prev.value] + len];
      } else {
        free := free[offset := len];
      }
      assert free0 - {offset + live0[offset]} == if next == Some(offset + live0[offset]) then free0 - {next.value} else free0;
      assert free == Merge(free0, offset + live0[offset], start, stop);
      ReleaseKeepsConsistent(size, free0, live0, used0, hwm, offset, start, stop);
      return true;
    }

    /** The free map is the map of maximal clear runs of the live one: no history in it. */
    lemma FreeIsDetermined()
      requires Valid()
      ensures free == ClearRuns(size, live)
      ensures live == map[] ==> used == 0 && free == if size == 0 then map[] else map[0 := size]
    {
      FreeIsClearRuns(size, free, live);
      if live == map[] && size > 0 {
        RunStartIsFree(size, free, live, 0);
        FreeBlockIsRun(size, free, live, 0);
        assert forall o | o in free && o > 0 :: free[0] < o;
        assert free == map[0 := size];
      }
    }

    /** Releasing blocks one after the other: what is left depends on which blocks were
        released, not on their order. */
    method ReleaseEach(offsets: seq<nat>)
      requires Valid()
      modifies this
      ensures Valid() && size == old(size)
      ensures live == old(live) - Elements(offsets)
      ensures free == ClearRuns(size, old(live) - Elements(offsets))
      ensures old(live).Keys <= Elements(offsets) ==>
        live == map[] && used == 0 && free == if size == 0 then map[] else map[0 := size]
    {
      hide Consistent, ClearRuns;
      for i := 0 to |offsets|
        invariant Valid() && size == old(size)
        invariant live == old(live) - Elements(offsets[..i])
      {
        var _ := Release(offsets[i]);
        assert Elements(offsets[..i + 1]) == Elements(offsets[..i]) + {offsets[i]};
      }
      assert offsets[..|offsets|] == offsets;
      FreeIsDetermined();
    }

    /** `blockBytes`. */
    method BlockBytes(offset: nat) returns (bytes: nat)
      requires Valid()
      ensures bytes > 0 <==> offset in live
      ensures offset in live ==> bytes == live[offset]
    {
      UsedBelowMark(size, free, live, used, hwm);
      bytes := if offset in live then live[offset] else 0;
    }
  }
}
