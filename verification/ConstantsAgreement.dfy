/** The two ways a model's constants reach the device, full file and bulk copy or streamed
    sources entry by entry, and when they give every constant the same bytes. */
module ConstantsAgreement {
  import opened Wrappers
  import opened MachineWord
  import opened Divisibility
  import opened ConstantsWriter
  import opened ConstantsLoader
  import opened ExternalizeConstants

  // ---- both blobs have room for exactly their layout ----

  lemma {:induction false} FullBlobSize(plans: seq<ConstantPlan>)
    ensures BlobSize(FullInfos(plans)) == LayoutEnd(FullBlob, plans)
  {
    var infos := FullInfos(plans);
    forall i | 0 <= i < |plans| ensures infos[i].offset + infos[i].size <= LayoutEnd(FullBlob, plans) {
      LayoutInOrder(FullBlob, plans, i, |plans|);
      assert plans[..|plans|] == plans;
    }
    if plans != [] {
      var n := |plans| - 1;
      assert infos[n].offset + infos[n].size == LayoutEnd(FullBlob, plans);
    }
  }

  /** The blob size depends on places only, not on sources. */
  lemma {:induction false} SameSize(a: seq<ConstantInfo>, b: seq<ConstantInfo>)
    requires |a| == |b|
    requires forall i | 0 <= i < |a| ::
               a[i].offset == b[i].offset && a[i].size == b[i].size && a[i].diskResident == b[i].diskResident
    ensures BlobSize(a) == BlobSize(b)
  {
    if a != [] { SameSize(a[..|a| - 1], b[..|b| - 1]); }
  }

  lemma {:induction false} StreamedBlobSize(plans: seq<ConstantPlan>)
    ensures BlobSize(StreamedInfos(plans)) == LayoutEnd(StreamedBlob, plans)
  {
    if plans != [] {
      var n := |plans| - 1;
      var infos, front := StreamedInfos(plans), StreamedInfos(plans[..n]);
      StreamedBlobSize(plans[..n]);
      forall i | 0 <= i < n ensures infos[i].offset == front[i].offset {
        assert plans[..n][..i] == plans[..i];
      }
      SameSize(infos[..n], front);
    }
  }

  /** A file fits the blob allocated for its constants exactly when its declared size does not
      exceed the layout's end. */
  lemma {:induction false} FileFitsBlob(files: Files, plans: seq<ConstantPlan>, total: int)
    requires PlansOk(plans) && Readable(files, plans)
    ensures AllPresent(FullEntries(plans)) && Image(files, FullEntries(plans)).Some?
    ensures |Padded(Image(files, FullEntries(plans)).value, total)| <= BlobSize(FullInfos(plans))
       <==> total <= LayoutEnd(FullBlob, plans)
  {
    hide Image;
    FullAccepted(files, plans);
    FullBlobSize(plans);
  }

  // ---- splats ----

  /** Byte `k` of the element's first 8, read on behind `skip` bytes. */
  function Eighth(elem: Bytes, k: nat, skip: nat): bv8
    requires |elem| > 8
  {
    elem[(k + skip) % 8]
  }

  /** Whether tiling the first 8 bytes of the element gives the constant: the element itself repeats
      them and, when there is a second copy of it, they start over at its end. */
  predicate Survives(elem: Bytes, size: nat) {
    |elem| <= 8 || size == 0
    || (&& (forall k | 0 <= k < |elem| :: elem[k] == Eighth(elem, k, 0))
        && (size > |elem| ==> forall k | 0 <= k < 8 :: Eighth(elem, k, |elem|) == elem[k]))
  }

  lemma SplatByte(elem: Bytes, size: nat, k: nat, q: nat, r: nat)
    requires k < size && r < |elem| && k == q * |elem| + r
    ensures Splat(elem, size)[k] == elem[r]
  {
    DivModUnique(k, q, r, |elem|);
  }

  lemma BakedByte(elem: Bytes, size: nat, k: nat)
    requires |elem| > 8 && k < size
    ensures Splat(Baked(elem), size)[k] == Eighth(elem, k, 0)
  {
  }

  lemma FirstCopy(elem: Bytes, size: nat, k: nat)
    requires 8 < |elem| <= size && Splat(Baked(elem), size) == Splat(elem, size) && k < |elem|
    ensures elem[k] == Eighth(elem, k, 0)
  {
    hide Splat;
    SplatByte(elem, size, k, 0, k);
    BakedByte(elem, size, k);
  }

  lemma SecondCopy(elem: Bytes, size: nat, k: nat)
    requires |elem| > 8 && 2 * |elem| <= size && Splat(Baked(elem), size) == Splat(elem, size) && k < 8
    ensures Eighth(elem, k, |elem|) == elem[k]
  {
    hide Splat;
    SplatByte(elem, size, k + |elem|, 1, k);
    BakedByte(elem, size, k + |elem|);
  }

  lemma WholeCopies(q: nat, n: nat, size: nat)
    requires n > 0 && size > 0 && size == q * n
    ensures n <= size && (size > n ==> 2 * n <= size)
  {
    MulLess(0, q, n);
    MulMono(1, q, n);
    if size > n {
      MulLess(1, q, n);
      MulMono(2, q, n);
    }
  }

  lemma {:induction false} SplatSurvives(elem: Bytes, q: nat, size: nat)
    requires |elem| > 8 && size > 0 && size == q * |elem| && Splat(Baked(elem), size) == Splat(elem, size)
    ensures Survives(elem, size)
  {
    hide Splat, Eighth;
    WholeCopies(q, |elem|, size);
    forall k | 0 <= k < |elem| ensures elem[k] == Eighth(elem, k, 0) { FirstCopy(elem, size, k); }
    forall k | 0 <= k < 8 && size > |elem| ensures Eighth(elem, k, |elem|) == elem[k] { SecondCopy(elem, size, k); }
  }

  lemma Divides(k: nat, n: nat) returns (c: nat, r: nat)
    requires n > 0
    ensures k == c * n + r && r < n && (c > 0 ==> k >= n)
  {
    c, r := k / n, k % n;
    assert k == c * n + r;
    if c > 0 { MulMono(1, c, n); }
  }

  lemma OneLess(c: nat, n: nat)
    requires c > 0
    ensures c * n == (c - 1) * n + n
  {
  }

  lemma OneOver(elem: Bytes, x: nat)
    requires |elem| > 8 && Eighth(elem, x % 8, |elem|) == elem[x % 8]
    ensures Eighth(elem, x + |elem|, 0) == Eighth(elem, x, 0)
  {
    ModShift(x % 8 + |elem|, x / 8, 8);
    assert x / 8 * 8 + (x % 8 + |elem|) == x + |elem|;
  }

  /** Moving on by whole elements does not change the phase of the 8 bytes. */
  lemma {:induction false} Restarts(elem: Bytes, c: nat, r: nat, x: nat)
    requires |elem| > 8 && forall k | 0 <= k < 8 :: Eighth(elem, k, |elem|) == elem[k]
    requires x == c * |elem| + r
    ensures Eighth(elem, x, 0) == Eighth(elem, r, 0)
    decreases c
  {
    hide Eighth;
    if c > 0 {
      MulMono(1, c, |elem|);
      OneLess(c, |elem|);
      Restarts(elem, c - 1, r, x - |elem|);
      OneOver(elem, x - |elem|);
    }
  }

  lemma {:induction false} ByteSurvives(elem: Bytes, size: nat, k: nat, c: nat, r: nat)
    requires |elem| > 8 && k < size && k == c * |elem| + r && r < |elem| && (c > 0 ==> k >= |elem|)
    requires Survives(elem, size)
    ensures Splat(Baked(elem), size)[k] == Splat(elem, size)[k]
  {
    hide Splat, Eighth;
    SplatByte(elem, size, k, c, r);
    BakedByte(elem, size, k);
    if c > 0 { Restarts(elem, c, r, k); }
    assert elem[r] == Eighth(elem, r, 0);
  }

  lemma {:induction false} SurvivingSplat(elem: Bytes, size: nat)
    requires |elem| > 8 && size > 0 && Survives(elem, size)
    ensures Splat(Baked(elem), size) == Splat(elem, size)
  {
    var a, b := Splat(Baked(elem), size), Splat(elem, size);
    assert |a| == size == |b|;
    hide Splat, Survives;
    forall k | 0 <= k < size ensures a[k] == b[k] {
      var c, r := Divides(k, |elem|);
      ByteSurvives(elem, size, k, c, r);
    }
  }

  /** Splats of elements longer than 8 bytes reach a streamed model truncated; they keep their
      bytes exactly when they survive that. */
  lemma {:induction false} BakedSplat(elem: Bytes, size: nat)
    requires elem != [] && size % |elem| == 0
    ensures Splat(Baked(elem), size) == Splat(elem, size) <==> Survives(elem, size)
  {
    if |elem| > 8 && size > 0 {
      hide Splat, Survives;
      var q := size / |elem|;
      assert size == q * |elem|;
      if Survives(elem, size) { SurvivingSplat(elem, size); }
      if Splat(Baked(elem), size) == Splat(elem, size) { SplatSurvives(elem, q, size); }
    }
  }

  // ---- the per-entry loader on what the compiler wrote ----

  /** What the compiler's partial file holds. */
  function Partial(files: Files, plans: seq<ConstantPlan>): Bytes
    requires PlansOk(plans)
  {
    PartialAccepted(files, plans);
    Padded(Image(files, PartialEntries(plans)).value, LayoutEnd(PartialFile, plans))
  }

  /** What a streamed constant becomes on the device. */
  function StreamedValue(files: Files, p: ConstantPlan): Option<Bytes>
    requires PlanOk(p)
  {
    match p.source
    case Data(bytes) => Some(bytes)
    case SplatOf(elem) => Some(Splat(Baked(elem), p.size))
    case FileAt(path, offset) => if |path| <= MAX_PATH then FileSlice(files, path, offset, p.size) else None
  }

  lemma {:induction false} StreamedDenotes(files: Files, plans: seq<ConstantPlan>, mapped: bool, i: nat)
    requires PlansOk(plans) && i < |plans| && FitsInt64(PartialFile, plans)
    requires LayoutEnd(PartialFile, plans) <= INT64_MAX
    ensures var info := StreamedInfos(plans)[i];
            && (info.source.MemSource? ==> IsInt64(info.source.memOffset))
            && Denotes(files, Partial(files, plans), mapped, info) == StreamedValue(files, plans[i])
  {
    hide Image, AlignUp, LayoutEnd;
    PartialAccepted(files, plans);
    if plans[i].source.Data? {
      PartialHolds(files, plans, i);
      FetchBranchesAgree(Partial(files, plans), OffsetOf(PartialFile, plans, i), plans[i].size);
    }
  }

  lemma {:induction false} StreamedLoadable(plans: seq<ConstantPlan>)
    requires PlansOk(plans) && FitsInt64(PartialFile, plans)
    ensures forall i | 0 <= i < |plans| :: Loadable(StreamedInfos(plans)[i], LayoutEnd(StreamedBlob, plans))
    ensures InOrder(StreamedInfos(plans))
  {
    hide AlignUp, LayoutEnd;
    var infos := StreamedInfos(plans);
    forall i | 0 <= i < |plans| ensures Loadable(infos[i], LayoutEnd(StreamedBlob, plans)) {
      assert PlanOk(plans[i]);
      assert plans[..|plans|] == plans;
      if !plans[i].diskResident { LayoutInOrder(StreamedBlob, plans, i, |plans|); }
    }
    forall j, k | 0 <= j < k < |infos| && !infos[j].diskResident && !infos[k].diskResident
      ensures infos[j].offset + infos[j].size <= infos[k].offset
    {
      LayoutInOrder(StreamedBlob, plans, j, k);
    }
  }

  /** A constant the per-entry loader gets hold of: a file reference needs a path that fits the
      cache, a disk-resident table a non-empty file that reaches as far. */
  predicate Reached(files: Files, p: ConstantPlan)
    requires PlanOk(p) && Value(files, p).Some?
  {
    match p.source
    case FileAt(path, offset) =>
      if p.diskResident then files[path] != [] && offset + p.size <= |files[path]| else |path| <= MAX_PATH
    case _ => true
  }

  lemma {:induction false} ReachedIff(files: Files, plans: seq<ConstantPlan>, i: nat)
    requires PlansOk(plans) && i < |plans| && Value(files, plans[i]).Some?
    ensures var p, info := plans[i], StreamedInfos(plans)[i];
            && info.diskResident == p.diskResident
            && (p.diskResident ==> (DiskView(files, info).Some? <==> Reached(files, p))
                                   && (Reached(files, p) ==> DiskView(files, info) == Value(files, p)))
            && (!p.diskResident ==> (StreamedValue(files, p).Some? <==> Reached(files, p)))
  {
    assert PlanOk(plans[i]);
  }

  ghost predicate AllReached(files: Files, plans: seq<ConstantPlan>, n: nat)
    requires PlansOk(plans) && Readable(files, plans) && n <= |plans|
  {
    forall i | 0 <= i < n :: Reached(files, plans[i])
  }

  lemma NoneToReach(files: Files, plans: seq<ConstantPlan>)
    requires PlansOk(plans) && Readable(files, plans)
    ensures AllReached(files, plans, 0)
  {
  }

  lemma AllReachedStep(files: Files, plans: seq<ConstantPlan>, n: nat)
    requires PlansOk(plans) && Readable(files, plans) && 0 < n <= |plans|
    ensures PlanOk(plans[n - 1]) && Value(files, plans[n - 1]).Some?
    ensures AllReached(files, plans, n) <==> AllReached(files, plans, n - 1) && Reached(files, plans[n - 1])
  {
    hide Value;
    assert PlanOk(plans[n - 1]);
  }

  lemma {:induction false} LoadsIffReached(files: Files, plans: seq<ConstantPlan>, mapped: bool, blob: Bytes, n: nat)
    requires PlansOk(plans) && Readable(files, plans) && n <= |plans|
    requires FitsInt64(PartialFile, plans) && LayoutEnd(PartialFile, plans) <= INT64_MAX
    requires forall i | 0 <= i < |plans| :: Loadable(StreamedInfos(plans)[i], |blob|)
    ensures Loaded(files, Partial(files, plans), mapped, blob, StreamedInfos(plans), n).Some? <==> AllReached(files, plans, n)
  {
    hide AllReached, Loaded, Denotes, DiskView, Partial, Reached, StreamedValue, Value, StreamedInfos, FitsInt64, Readable,
         LayoutEnd, Loadable, PlanOk;
    var infos, content := StreamedInfos(plans), Partial(files, plans);
    if n > 0 {
      LoadsIffReached(files, plans, mapped, blob, n - 1);
      AllReachedStep(files, plans, n);
      ReachedIff(files, plans, n - 1);
      StreamedDenotes(files, plans, mapped, n - 1);
      LoadedUnfolds(files, content, mapped, blob, infos, n - 1);
    } else {
      NoneToReach(files, plans);
      LoadedUnfolds(files, content, mapped, blob, infos, 0);
    }
  }

  // ---- agreement ----

  /** The bytes of constant `i` in the bulk-loaded blob of the full model. */
  ghost predicate FullHasIt(files: Files, plans: seq<ConstantPlan>, bulk: Bytes, i: nat)
    requires PlansOk(plans) && i < |plans|
  {
    var o := OffsetOf(FullBlob, plans, i);
    o + plans[i].size <= |bulk| && Value(files, plans[i]) == Some(bulk[o..o + plans[i].size])
  }

  /** The same bytes are what the streamed model gets: at its own place in the smaller blob, or behind
      the mapped file of a disk-resident constant. */
  ghost predicate StreamedHasIt(files: Files, plans: seq<ConstantPlan>, loaded: Bytes, i: nat)
    requires PlansOk(plans) && i < |plans|
  {
    if plans[i].diskResident then DiskView(files, StreamedInfos(plans)[i]) == Value(files, plans[i])
    else
      var o := OffsetOf(StreamedBlob, plans, i);
      o + plans[i].size <= |loaded| && Value(files, plans[i]) == Some(loaded[o..o + plans[i].size])
  }

  ghost predicate Keeps(p: ConstantPlan) {
    p.source.SplatOf? && p.source.elem != [] ==> Survives(p.source.elem, p.size)
  }

  lemma {:induction false} BulkAgrees(files: Files, plans: seq<ConstantPlan>, blob: Bytes)
    requires PlansOk(plans) && Readable(files, plans) && |blob| == LayoutEnd(FullBlob, plans)
    ensures AllPresent(FullEntries(plans)) && Image(files, FullEntries(plans)).Some?
    ensures var content := Padded(Image(files, FullEntries(plans)).value, LayoutEnd(FullBlob, plans));
            |content| == |blob| && forall i | 0 <= i < |plans| :: FullHasIt(files, plans, Blit(blob, 0, content), i)
  {
    hide Image, Value, AlignUp, LayoutEnd, Readable;
    FullAccepted(files, plans);
    var image := Image(files, FullEntries(plans)).value;
    assert Blit(blob, 0, image) == image;
    forall i | 0 <= i < |plans| ensures FullHasIt(files, plans, image, i) { FullHolds(files, plans, i); }
  }

  lemma {:induction false} KeptValue(files: Files, p: ConstantPlan)
    requires PlanOk(p) && Value(files, p).Some? && Reached(files, p)
    ensures p.diskResident ==> Keeps(p)
    ensures !p.diskResident ==> (StreamedValue(files, p) == Value(files, p) <==> Keeps(p))
  {
    if p.source.SplatOf? { BakedSplat(p.source.elem, p.size); }
  }

  lemma {:induction false} ReachedAt(files: Files, plans: seq<ConstantPlan>, i: nat)
    requires PlansOk(plans) && Readable(files, plans) && AllReached(files, plans, |plans|) && i < |plans|
    ensures PlanOk(plans[i]) && Value(files, plans[i]).Some? && Reached(files, plans[i])
  {
  }

  lemma {:induction false} LayoutFits(plans: seq<ConstantPlan>, i: nat)
    requires i < |plans| && !plans[i].diskResident
    ensures OffsetOf(StreamedBlob, plans, i) + plans[i].size <= LayoutEnd(StreamedBlob, plans)
  {
    LayoutInOrder(StreamedBlob, plans, i, |plans|);
    assert plans[..|plans|] == plans;
  }

  lemma {:induction false} StreamedAgrees(files: Files, plans: seq<ConstantPlan>, mapped: bool, blob: Bytes, i: nat)
    requires PlansOk(plans) && Readable(files, plans) && FitsInt64(PartialFile, plans) && i < |plans|
    requires LayoutEnd(PartialFile, plans) <= INT64_MAX && |blob| == LayoutEnd(StreamedBlob, plans)
    requires forall k | 0 <= k < |plans| :: Loadable(StreamedInfos(plans)[k], |blob|)
    requires Loaded(files, Partial(files, plans), mapped, blob, StreamedInfos(plans), |plans|).Some?
    ensures StreamedHasIt(files, plans,
                          Loaded(files, Partial(files, plans), mapped, blob, StreamedInfos(plans), |plans|).value, i)
       <==> Keeps(plans[i])
  {
    hide Loaded, Denotes, Partial, Value, StreamedValue, Keeps, PlanOk, Readable, FitsInt64, LayoutEnd, AllReached, InOrder,
         AlignUp, Loadable, Reached, DiskView;
    var infos, content := StreamedInfos(plans), Partial(files, plans);
    LoadsIffReached(files, plans, mapped, blob, |plans|);
    ReachedAt(files, plans, i);
    ReachedIff(files, plans, i);
    KeptValue(files, plans[i]);
    if !plans[i].diskResident {
      StreamedLoadable(plans);
      StreamedDenotes(files, plans, mapped, i);
      LoadedHolds(files, content, mapped, blob, infos, |infos|, i);
      LayoutFits(plans, i);
    }
  }

  /** For every list of constants the compiler can externalize and whose files can be read: the full
      file fills its blob, and the bulk loader gives every constant its bytes. The per-entry loader
      succeeds exactly when it can reach every file, and then gives the same bytes to every constant
      but exactly the splats that do not survive truncation to 8 bytes; whatever was in the blobs
      before, and whether or not the partial file is mapped. */
  lemma {:induction false} LoadersAgree(files: Files, plans: seq<ConstantPlan>, mapped: bool, blobA: Bytes, blobB: Bytes)
    requires PlansOk(plans) && Readable(files, plans)
    requires FitsInt64(PartialFile, plans)
    requires |blobA| == BlobSize(FullInfos(plans)) && |blobB| == BlobSize(StreamedInfos(plans))
    ensures AllPresent(FullEntries(plans)) && Image(files, FullEntries(plans)).Some?
    ensures var content := Padded(Image(files, FullEntries(plans)).value, LayoutEnd(FullBlob, plans));
            |content| == |blobA| && forall i | 0 <= i < |plans| :: FullHasIt(files, plans, Blit(blobA, 0, content), i)
    ensures forall i | 0 <= i < |plans| :: Loadable(StreamedInfos(plans)[i], |blobB|)
    ensures var loaded := Loaded(files, Partial(files, plans), mapped, blobB, StreamedInfos(plans), |plans|);
            && (loaded.Some? <==> AllReached(files, plans, |plans|))
            && forall i | loaded.Some? && 0 <= i < |plans| ::
                 StreamedHasIt(files, plans, loaded.value, i) <==> Keeps(plans[i])
  {
    hide Image, Value, AlignUp, LayoutEnd, Readable, Loaded, Partial, Blit, FullHasIt, StreamedHasIt, Keeps, AllReached, Padded,
         Loadable, BlobSize;
    FullBlobSize(plans);
    StreamedBlobSize(plans);
    BulkAgrees(files, plans, blobA);
    StreamedLoadable(plans);
    FittingEnd(PartialFile, plans);
    LoadsIffReached(files, plans, mapped, blobB, |plans|);
    var loaded := Loaded(files, Partial(files, plans), mapped, blobB, StreamedInfos(plans), |plans|);
    if loaded.Some? {
      forall i | 0 <= i < |plans| ensures StreamedHasIt(files, plans, loaded.value, i) <==> Keeps(plans[i]) {
        StreamedAgrees(files, plans, mapped, blobB, i);
      }
    }
  }
}
