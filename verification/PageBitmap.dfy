/** The page bitmap the arena refines: one bit per 4 KiB page, set while the page is in
    a live block. */
module PageBitmap {
  import opened Wrappers
  import opened Tiling

  ghost predicate ClearRange(bits: seq<bool>, p: nat, n: nat) {
    p + n <= |bits| && forall k | p <= k < p + n :: !bits[k]
  }

  /** Reference allocator: the lowest position, from `from` on, with `n` clear pages. */
  ghost function FirstFit(bits: seq<bool>, n: nat, from: nat): (r: Option<nat>)
    ensures r.Some? ==> from <= r.value && ClearRange(bits, r.value, n)
    ensures forall p | from <= p && ClearRange(bits, p, n) :: r.Some? && r.value <= p
    decreases |bits| - from
  {
    if from + n > |bits| then None
    else if ClearRange(bits, from, n) then Some(from)
    else FirstFit(bits, n, from + 1)
  }

  ghost function Fill(bits: seq<bool>, p: nat, n: nat, v: bool): seq<bool> {
    seq(|bits|, k requires 0 <= k < |bits| => if p <= k < p + n then v else bits[k])
  }

  /** The bitmap of a region of `size` bytes with live blocks `live`. */
  ghost function Pages(size: nat, live: Blocks): seq<bool> {
    seq(size / ALIGN, k => Covers(live, k * ALIGN))
  }

  lemma PageOfOverlap(o: nat, len: nat, p: nat, n: nat) returns (k: nat)
    requires o % ALIGN == 0 && len > 0 && n > 0
    requires o < (p + n) * ALIGN && p * ALIGN < o + len
    ensures p <= k < p + n && o <= k * ALIGN < o + len
  {
    k := if o < p * ALIGN then p else o / ALIGN;
  }

  lemma PageSet(size: nat, live: Blocks, o: nat, k: nat)
    requires o in live && o <= k * ALIGN < o + live[o] && k < |Pages(size, live)|
    ensures Pages(size, live)[k]
  {
  }

  lemma WindowIsClearRange(size: nat, live: Blocks, p: nat, n: nat)
    requires Aligned(live) && Within(live, size) && size % ALIGN == 0 && n > 0
    ensures ClearWindow(size, live, p * ALIGN, n * ALIGN) <==> ClearRange(Pages(size, live), p, n)
  {
    var bits := Pages(size, live);
    if ClearRange(bits, p, n) {
      forall o | o in live ensures o + live[o] <= p * ALIGN || (p + n) * ALIGN <= o {
        if o < (p + n) * ALIGN && p * ALIGN < o + live[o] {
          var k := PageOfOverlap(o, live[o], p, n);
          PageSet(size, live, o, k);
        }
      }
    }
    if ClearWindow(size, live, p * ALIGN, n * ALIGN) {
      forall k | p <= k < p + n ensures k < |bits| && !bits[k] {
        assert p * ALIGN <= k * ALIGN < (p + n) * ALIGN;
      }
    }
  }

  /** The lowest clear byte window is the lowest clear page range. */
  lemma LowestWindowIsFirstFit(size: nat, live: Blocks, r: Option<nat>, need: nat)
    requires Aligned(live) && Within(live, size) && size % ALIGN == 0
    requires need > 0 && need % ALIGN == 0
    requires r.Some? ==> r.value % ALIGN == 0 && ClearWindow(size, live, r.value, need)
    requires forall w | ClearWindow(size, live, w, need) :: r.Some? && r.value <= w
    ensures FirstFit(Pages(size, live), need / ALIGN, 0)
         == if r.Some? then Some(r.value / ALIGN) else None
  {
    var bits, n := Pages(size, live), need / ALIGN;
    var f := FirstFit(bits, n, 0);
    if r.Some? {
      WindowIsClearRange(size, live, r.value / ALIGN, n);
      assert r.value / ALIGN * ALIGN == r.value && n * ALIGN == need;
    }
    if f.Some? {
      WindowIsClearRange(size, live, f.value, n);
      assert ClearWindow(size, live, f.value * ALIGN, need);
    }
  }

  lemma CoversUpdate(live: Blocks, r: nat, need: nat, x: nat)
    requires r !in live
    ensures Covers(live[r := need], x) <==> r <= x < r + need || Covers(live, x)
  {
    var live' := live[r := need];
    if r <= x < r + need { assert r in live'; }
    if Covers(live, x) {
      var o :| o in live && o <= x < o + live[o];
      assert o in live' && live'[o] == live[o];
    }
  }

  lemma AllocateSetsPages(size: nat, live: Blocks, r: nat, need: nat)
    requires r !in live && r % ALIGN == 0 && need % ALIGN == 0
    requires ClearWindow(size, live, r, need)
    ensures Pages(size, live[r := need]) == Fill(Pages(size, live), r / ALIGN, need / ALIGN, true)
  {
    var live' := live[r := need];
    forall k: nat | k < size / ALIGN
      ensures Covers(live', k * ALIGN)
          <==> (r / ALIGN <= k < r / ALIGN + need / ALIGN || Covers(live, k * ALIGN))
    {
      assert r / ALIGN <= k < r / ALIGN + need / ALIGN <==> r <= k * ALIGN < r + need;
      CoversUpdate(live, r, need, k * ALIGN);
    }
  }

  lemma ReleaseClearsPages(size: nat, live: Blocks, o: nat)
    requires o in live && Disjoint(live) && Aligned(live)
    ensures Pages(size, live - {o}) == Fill(Pages(size, live), o / ALIGN, live[o] / ALIGN, false)
  {
    var live' := live - {o};
    forall k: nat | k < size / ALIGN
      ensures Covers(live', k * ALIGN)
          <==> (!(o / ALIGN <= k < o / ALIGN + live[o] / ALIGN) && Covers(live, k * ALIGN))
    {
      assert o / ALIGN <= k < o / ALIGN + live[o] / ALIGN <==> o <= k * ALIGN < o + live[o];
      assert live'[o := live[o]] == live;
      CoversUpdate(live', o, live[o], k * ALIGN);
      forall p | p in live' ensures !(p <= k * ALIGN < p + live[p] && o <= k * ALIGN < o + live[o]) {}
    }
  }
}
