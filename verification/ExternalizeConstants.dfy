/** What the compiler does with externalized constants: their layout, and the two artifacts it
    can write. In full mode one file holds every constant at its offset in the blob. In streaming
    mode a partial file holds only the constants without a splat or file source, and the model's
    metadata says for each constant where its bytes come from. */
module ExternalizeConstants {
  import opened Wrappers
  import opened ConstantsWriter
  import opened ConstantsLoader

  const ALIGNMENT: nat := 64
  const INT64_MAX: nat := 0x7FFF_FFFF_FFFF_FFFF

  datatype PlanSource = Data(bytes: Bytes) | SplatOf(elem: Bytes) | FileAt(path: string, offset: int)

  /** A constant to externalize. Only file constants of a streamed model are disk-resident. */
  datatype ConstantPlan = ConstantPlan(size: nat, source: PlanSource, diskResident: bool)

  /** The blob of a full model, the blob of a streamed one, and the partial file. */
  datatype Layout = FullBlob | StreamedBlob | PartialFile

  predicate Included(l: Layout, p: ConstantPlan) {
    match l
    case FullBlob => true
    case StreamedBlob => !p.diskResident
    case PartialFile => p.source.Data?
  }

  function AlignUp(x: nat): (r: nat)
    ensures x <= r < x + ALIGNMENT && r % ALIGNMENT == 0
  {
    (x + ALIGNMENT - 1) / ALIGNMENT * ALIGNMENT
  }

  /** End of the last included constant. */
  function LayoutEnd(l: Layout, plans: seq<ConstantPlan>): nat {
    if plans == [] then 0
    else
      var n := |plans| - 1;
      var before := LayoutEnd(l, plans[..n]);
      if Included(l, plans[n]) then AlignUp(before) + plans[n].size else before
  }

  function OffsetOf(l: Layout, plans: seq<ConstantPlan>, i: nat): nat
    requires i < |plans|
  {
    if Included(l, plans[i]) then AlignUp(LayoutEnd(l, plans[..i])) else 0
  }

  lemma {:induction false} LayoutStep(l: Layout, plans: seq<ConstantPlan>, i: nat)
    ensures plans[..0] == [] && LayoutEnd(l, []) == 0
    ensures i < |plans| ==>
              LayoutEnd(l, plans[..i + 1])
              == if Included(l, plans[i]) then OffsetOf(l, plans, i) + plans[i].size else LayoutEnd(l, plans[..i])
  {
    if i < |plans| { assert plans[..i + 1][..i] == plans[..i]; }
  }

  ghost predicate FitsInt64(l: Layout, plans: seq<ConstantPlan>) {
    forall i | 0 <= i < |plans| && Included(l, plans[i]) ::
      && LayoutEnd(l, plans[..i]) <= INT64_MAX - (ALIGNMENT - 1)
      && OffsetOf(l, plans, i) + plans[i].size <= INT64_MAX
  }

  /** Included constants are aligned, follow each other in order and end within the layout. */
  lemma {:induction false} LayoutInOrder(l: Layout, plans: seq<ConstantPlan>, i: nat, n: nat)
    requires i < n <= |plans| && Included(l, plans[i])
    ensures OffsetOf(l, plans, i) % ALIGNMENT == 0
    ensures OffsetOf(l, plans, i) + plans[i].size <= LayoutEnd(l, plans[..n])
    ensures n < |plans| && Included(l, plans[n]) ==> OffsetOf(l, plans, i) + plans[i].size <= OffsetOf(l, plans, n)
    decreases n
  {
    assert plans[..n][..n - 1] == plans[..n - 1];
    if i < n - 1 { LayoutInOrder(l, plans, i, n - 1); }
  }

  lemma {:induction false} FittingEnd(l: Layout, plans: seq<ConstantPlan>)
    requires FitsInt64(l, plans)
    ensures LayoutEnd(l, plans) <= INT64_MAX
  {
    if plans != [] {
      var n := |plans| - 1;
      forall i | 0 <= i < n && Included(l, plans[..n][i])
        ensures LayoutEnd(l, plans[..n][..i]) <= INT64_MAX - (ALIGNMENT - 1)
        ensures OffsetOf(l, plans[..n], i) + plans[..n][i].size <= INT64_MAX
      {
        assert plans[..n][..i] == plans[..i];
        assert Included(l, plans[i]);
      }
      FittingEnd(l, plans[..n]);
      assert Included(l, plans[n]) ==> OffsetOf(l, plans, n) + plans[n].size <= INT64_MAX;
    }
  }

  /** `planStreamingLayout`, and the blob offsets of `assignExternalStorage`: fails exactly when an
      offset or an end would not fit in 64 signed bits. */
  method PlanLayout(l: Layout, plans: seq<ConstantPlan>) returns (ok: bool, offsets: seq<nat>, end: nat)
    ensures ok <==> FitsInt64(l, plans)
    ensures ok ==> end == LayoutEnd(l, plans) && |offsets| == |plans|
    ensures ok ==> forall i | 0 <= i < |plans| :: offsets[i] == OffsetOf(l, plans, i)
  {
    hide AlignUp, LayoutEnd;
    offsets, end := [], 0;
    LayoutStep(l, plans, 0);
    for i := 0 to |plans|
      invariant |offsets| == i && end == LayoutEnd(l, plans[..i])
      invariant forall k | 0 <= k < i :: offsets[k] == OffsetOf(l, plans, k)
      invariant forall k | 0 <= k < i && Included(l, plans[k]) ::
                  && LayoutEnd(l, plans[..k]) <= INT64_MAX - (ALIGNMENT - 1)
                  && OffsetOf(l, plans, k) + plans[k].size <= INT64_MAX
    {
      LayoutStep(l, plans, i);
      if Included(l, plans[i]) {
        if end > INT64_MAX - (ALIGNMENT - 1) { return false, offsets, end; }
        var offset := AlignUp(end);
        if plans[i].size > INT64_MAX || offset > INT64_MAX - plans[i].size { return false, offsets, end; }
        offsets := offsets + [offset];
        end := offset + plans[i].size;
      } else {
        offsets := offsets + [0];
      }
    }
    assert plans[..|plans|] == plans;
    ok := true;
  }

  // ---- full mode ----

  /** `makeEntry`. */
  function EntryOf(p: ConstantPlan, offset: nat): (e: ConstantEntry)
    ensures e.offset == offset && e.size == p.size
  {
    match p.source
    case Data(bytes) => ConstantEntry(offset, p.size, bytes, 0, "", 0)
    case SplatOf(elem) => ConstantEntry(offset, p.size, elem, |elem|, "", 0)
    case FileAt(path, from) => ConstantEntry(offset, p.size, [], 0, path, from)
  }

  function FullEntries(plans: seq<ConstantPlan>): (entries: seq<ConstantEntry>)
    ensures |entries| == |plans|
    ensures forall i | 0 <= i < |plans| :: entries[i] == EntryOf(plans[i], OffsetOf(FullBlob, plans, i))
  {
    seq(|plans|, i requires 0 <= i < |plans| => EntryOf(plans[i], OffsetOf(FullBlob, plans, i)))
  }

  /** Metadata of a full model: sizes and offsets only, so the runtime loads the file in bulk. */
  function FullInfos(plans: seq<ConstantPlan>): (infos: seq<ConstantInfo>)
    ensures |infos| == |plans|
  {
    seq(|plans|, i requires 0 <= i < |plans| =>
      ConstantInfo(OffsetOf(FullBlob, plans, i), plans[i].size, NoSource, false))
  }

  // ---- streaming mode ----

  /** Entries of the partial file. */
  function PartialEntries(plans: seq<ConstantPlan>): seq<ConstantEntry> {
    if plans == [] then []
    else
      var n := |plans| - 1;
      PartialEntries(plans[..n])
      + if plans[n].source.Data? then [EntryOf(plans[n], OffsetOf(PartialFile, plans, n))] else []
  }

  /** The metadata carries a splat element in one 64-bit integer. */
  function Baked(elem: Bytes): Bytes {
    if |elem| <= 8 then elem else elem[..8]
  }

  function StreamedSource(plans: seq<ConstantPlan>, i: nat): Source
    requires i < |plans|
  {
    match plans[i].source
    case Data(_) => MemSource(OffsetOf(PartialFile, plans, i))
    case SplatOf(elem) => SplatSource(Baked(elem))
    case FileAt(path, offset) => FileRefSource(path, offset)
  }

  /** Metadata of a streamed model. */
  function StreamedInfos(plans: seq<ConstantPlan>): (infos: seq<ConstantInfo>)
    ensures |infos| == |plans|
  {
    seq(|plans|, i requires 0 <= i < |plans| =>
      ConstantInfo(OffsetOf(StreamedBlob, plans, i), plans[i].size, StreamedSource(plans, i), plans[i].diskResident))
  }

  // ---- what the artifacts hold ----

  /** Sizes match the data, splats are whole elements also after baking, file paths are not empty. */
  predicate PlanOk(p: ConstantPlan) {
    && IsInt64(p.size) && (p.diskResident ==> p.source.FileAt?)
    && match p.source
       case Data(bytes) => |bytes| == p.size
       case SplatOf(elem) => elem != [] && p.size % |elem| == 0 && p.size % |Baked(elem)| == 0
       case FileAt(path, _) => path != ""
  }

  predicate PlansOk(plans: seq<ConstantPlan>) {
    forall i | 0 <= i < |plans| :: PlanOk(plans[i])
  }

  /** The bytes of a constant, if its file can be read. */
  function Value(files: Files, p: ConstantPlan): (v: Option<Bytes>)
    requires PlanOk(p)
    ensures v.Some? ==> |v.value| == p.size
  {
    match p.source
    case Data(bytes) => Some(bytes)
    case SplatOf(elem) => Some(Splat(elem, p.size))
    case FileAt(path, offset) => FileSlice(files, path, offset, p.size)
  }

  predicate Readable(files: Files, plans: seq<ConstantPlan>)
    requires PlansOk(plans)
  {
    forall i | 0 <= i < |plans| :: Value(files, plans[i]).Some?
  }

  lemma {:induction false} EntryValue(files: Files, p: ConstantPlan, offset: nat)
    requires PlanOk(p)
    ensures EntryOf(p, offset).DataPresent() && BytesOf(files, EntryOf(p, offset)) == Value(files, p)
  {
    match p.source
    case Data(bytes) => assert bytes[..p.size] == bytes;
    case SplatOf(elem) => assert elem[..|elem|] == elem;
    case FileAt(_, _) =>
  }

  lemma {:induction false} FullPresent(files: Files, plans: seq<ConstantPlan>)
    requires PlansOk(plans)
    ensures AllPresent(FullEntries(plans))
  {
    forall i | 0 <= i < |plans| ensures FullEntries(plans)[i].DataPresent() {
      EntryValue(files, plans[i], OffsetOf(FullBlob, plans, i));
    }
  }

  lemma {:induction false} FullPrefix(plans: seq<ConstantPlan>, n: nat)
    requires n <= |plans|
    ensures FullEntries(plans)[..n] == FullEntries(plans[..n])
  {
    forall i | 0 <= i < n ensures FullEntries(plans)[i] == FullEntries(plans[..n])[i] {
      assert plans[..n][..i] == plans[..i];
    }
  }

  lemma {:induction false} FullLast(plans: seq<ConstantPlan>)
    requires plans != []
    ensures var n, last := |plans| - 1, FullEntries(plans)[|plans| - 1];
            && last == EntryOf(plans[n], OffsetOf(FullBlob, plans, n))
            && LayoutEnd(FullBlob, plans[..n]) <= last.offset
            && last.offset + last.size == LayoutEnd(FullBlob, plans)
  {
  }

  lemma {:induction false} ReadableStep(files: Files, plans: seq<ConstantPlan>)
    requires PlansOk(plans) && plans != []
    ensures PlansOk(plans[..|plans| - 1])
    ensures Readable(files, plans) <==> Readable(files, plans[..|plans| - 1]) && Value(files, plans[|plans| - 1]).Some?
  {
    hide Value;
  }

  /** The writer accepts the full list exactly when every file range can be read, and the file
      ends where the layout ends. */
  lemma {:induction false} FullAccepted(files: Files, plans: seq<ConstantPlan>)
    requires PlansOk(plans)
    ensures AllPresent(FullEntries(plans))
    ensures Image(files, FullEntries(plans)).Some? <==> Readable(files, plans)
    ensures Readable(files, plans) ==> |Image(files, FullEntries(plans)).value| == LayoutEnd(FullBlob, plans)
  {
    FullPresent(files, plans);
    if plans != [] {
      hide BytesOf, Value, AlignUp, FullEntries, LayoutEnd, Image, Readable, EntryOf;
      var n := |plans| - 1;
      FullLast(plans);
      FullPrefix(plans, n);
      ReadableStep(files, plans);
      FullAccepted(files, plans[..n]);
      EntryValue(files, plans[n], OffsetOf(FullBlob, plans, n));
      ImageStep(files, FullEntries(plans));
    }
  }

  /** Every constant's bytes are in the full file, at its offset in the blob. */
  lemma {:induction false} FullHolds(files: Files, plans: seq<ConstantPlan>, i: nat)
    requires PlansOk(plans) && Readable(files, plans) && i < |plans|
    ensures AllPresent(FullEntries(plans)) && Image(files, FullEntries(plans)).Some?
    ensures var image, o := Image(files, FullEntries(plans)).value, OffsetOf(FullBlob, plans, i);
            o + plans[i].size <= |image| && Value(files, plans[i]) == Some(image[o..o + plans[i].size])
  {
    hide Image, BytesOf, Value, LayoutEnd, AlignUp, Readable;
    FullAccepted(files, plans);
    ImageHolds(files, FullEntries(plans));
    EntryValue(files, plans[i], OffsetOf(FullBlob, plans, i));
    assert HeldAt(files, Image(files, FullEntries(plans)).value, FullEntries(plans)[i]);
  }

  /** The partial file can always be written; it ends where its layout ends. */
  lemma {:induction false} PartialAccepted(files: Files, plans: seq<ConstantPlan>)
    requires PlansOk(plans)
    ensures AllPresent(PartialEntries(plans)) && Image(files, PartialEntries(plans)).Some?
    ensures |Image(files, PartialEntries(plans)).value| == LayoutEnd(PartialFile, plans)
  {
    if plans != [] {
      var n := |plans| - 1;
      var front, before := plans[..n], PartialEntries(plans[..n]);
      PartialAccepted(files, front);
      if plans[n].source.Data? {
        var e := EntryOf(plans[n], OffsetOf(PartialFile, plans, n));
        EntryValue(files, plans[n], OffsetOf(PartialFile, plans, n));
        assert (before + [e])[..|before|] == before;
      } else {
        assert PartialEntries(plans) == before;
      }
    }
  }

  /** The entry of a data constant in the partial list. */
  lemma {:induction false} PartialEntryOf(plans: seq<ConstantPlan>, i: nat) returns (k: nat)
    requires i < |plans| && plans[i].source.Data?
    ensures k < |PartialEntries(plans)|
    ensures PartialEntries(plans)[k] == EntryOf(plans[i], OffsetOf(PartialFile, plans, i))
  {
    var n := |plans| - 1;
    if i == n {
      k := |PartialEntries(plans[..n])|;
    } else {
      k := PartialEntryOf(plans[..n], i);
      assert plans[..n][..i] == plans[..i];
    }
  }

  /** Every data constant's bytes are in the partial file, at the offset its metadata carries. */
  lemma {:induction false} PartialHolds(files: Files, plans: seq<ConstantPlan>, i: nat)
    requires PlansOk(plans) && i < |plans| && plans[i].source.Data?
    ensures AllPresent(PartialEntries(plans)) && Image(files, PartialEntries(plans)).Some?
    ensures var image, o := Image(files, PartialEntries(plans)).value, OffsetOf(PartialFile, plans, i);
            o + plans[i].size <= |image| && Value(files, plans[i]) == Some(image[o..o + plans[i].size])
  {
    hide Image, BytesOf, Value, LayoutEnd, AlignUp;
    PartialAccepted(files, plans);
    ImageHolds(files, PartialEntries(plans));
    var k := PartialEntryOf(plans, i);
    EntryValue(files, plans[i], OffsetOf(PartialFile, plans, i));
    assert HeldAt(files, Image(files, PartialEntries(plans)).value, PartialEntries(plans)[k]);
  }
}
