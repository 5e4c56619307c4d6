/** The two loaders of constants: the bulk copy of the constants file, and the per-entry
    path that follows each constant's source descriptor. */
module ConstantsLoader {
  import opened Wrappers
  import opened MachineWord
  import opened Divisibility
  import opened ConstantsWriter

  datatype Source =
    | NoSource
    | SplatSource(elem: Bytes)
    | FileRefSource(path: string, fileOffset: int)
    | MemSource(memOffset: int)

  /** A disk-resident constant has no place in the blob; its rows are read from its file. */
  datatype ConstantInfo = ConstantInfo(offset: nat, size: nat, source: Source, diskResident: bool)

  /** `compute_constants_total_size`: the largest end of a constant in the blob. */
  function BlobSize(infos: seq<ConstantInfo>): (total: nat)
    ensures forall i | 0 <= i < |infos| && !infos[i].diskResident :: infos[i].offset + infos[i].size <= total
    ensures total == 0
            || exists i :: 0 <= i < |infos| && !infos[i].diskResident && infos[i].offset + infos[i].size == total
  {
    if infos == [] then 0
    else
      var n := |infos| - 1;
      var before, end := BlobSize(infos[..n]), infos[n].offset + infos[n].size;
      assert forall i | 0 <= i < n :: infos[i] == infos[..n][i];
      if !infos[n].diskResident && end > before then end else before
  }

  /** `dst[offset..]` overwritten by `bytes`. */
  function Blit(dst: Bytes, offset: nat, bytes: Bytes): Bytes
    requires offset + |bytes| <= |dst|
  {
    dst[..offset] + bytes + dst[offset + |bytes|..]
  }

  lemma BlitHolds(dst: Bytes, offset: nat, bytes: Bytes)
    requires offset + |bytes| <= |dst|
    ensures |Blit(dst, offset, bytes)| == |dst| && Blit(dst, offset, bytes)[offset..offset + |bytes|] == bytes
  {
  }

  lemma BlitKeeps(dst: Bytes, offset: nat, bytes: Bytes, from: nat, size: nat)
    requires offset + |bytes| <= |dst| && from + size <= offset
    ensures |Blit(dst, offset, bytes)| == |dst| && Blit(dst, offset, bytes)[from..from + size] == dst[from..from + size]
  {
  }

  // ---- reading the constants file ----

  class FileReader {
    const content: Bytes
    const mapped: bool
    var pos: nat

    constructor (content: Bytes, mapped: bool)
      ensures this.content == content && this.mapped == mapped && pos == 0
    {
      this.content, this.mapped, pos := content, mapped, 0;
    }

    method Rewind()
      modifies this
      ensures pos == 0
    {
      pos := 0;
    }

    /** Reads up to `n` bytes from the current position. */
    method Fread(n: nat) returns (got: Bytes)
      requires pos <= |content|
      modifies this
      ensures pos == old(pos) + |got| <= |content|
      ensures |got| == if n <= |content| - old(pos) then n else |content| - old(pos)
      ensures got == content[old(pos)..pos]
    {
      var k := if n <= |content| - pos then n else |content| - pos;
      got := content[pos..pos + k];
      pos := pos + k;
    }
  }

  /** `Outside`: the copy would start before the mapping. */
  datatype Fetched = Fetched(bytes: Bytes) | Rejected | Outside

  /** A signed 64-bit offset cast to unsigned. */
  function AsUnsigned(x: int): nat
    requires 0 <= x + TWO64
  {
    if x < 0 then x + TWO64 else x
  }

  predicate IsInt64(x: int) {
    -0x8000_0000_0000_0000 <= x < 0x8000_0000_0000_0000
  }

  /** The range check of the fetch, in 64-bit arithmetic. */
  predicate InRange(offset: int, size: nat, total: nat)
    requires IsInt64(offset)
  {
    AddWord(AsUnsigned(offset), size) <= total
  }

  /** What the mapped branch copies. */
  function MappedFetch(content: Bytes, offset: int, size: nat): Fetched
    requires IsInt64(offset)
  {
    if !InRange(offset, size, |content|) then Rejected
    else if 0 <= offset && offset + size <= |content| then Fetched(content[offset..offset + size])
    else Outside
  }

  /** What the rewind-skip-read branch delivers. */
  function SkippingFetch(content: Bytes, offset: int, size: nat): Fetched
    requires IsInt64(offset)
  {
    if !InRange(offset, size, |content|) then Rejected
    else if AsUnsigned(offset) + size <= |content| then
      Fetched(content[AsUnsigned(offset)..AsUnsigned(offset) + size])
    else Rejected
  }

  /** The two branches agree exactly on the requests whose range check does not wrap past a
      negative offset; a non-negative offset never does. */
  lemma FetchBranchesAgree(content: Bytes, offset: int, size: nat)
    requires IsInt64(offset) && IsInt64(size) && |content| < TWO64 / 2
    ensures MappedFetch(content, offset, size) == SkippingFetch(content, offset, size)
       <==> !(offset < 0 && 0 <= offset + size <= |content|)
    ensures 0 <= offset && offset + size <= |content| ==>
      MappedFetch(content, offset, size) == Fetched(content[offset..offset + size])
    ensures 0 <= offset && offset + size > |content| ==> MappedFetch(content, offset, size) == Rejected
  {
    if offset < 0 {
      assert AddWord(AsUnsigned(offset), size) == if offset + size < 0 then offset + size + TWO64 else offset + size;
    }
  }

  const SKIP_CHUNK: nat := 0x10000

  /** `constants_file_fetch`. */
  method ConstantsFileFetch(reader: FileReader, offset: int, size: nat) returns (r: Fetched)
    requires IsInt64(offset) && reader.pos <= |reader.content|
    modifies reader
    ensures reader.pos <= |reader.content|
    ensures r == if reader.mapped then MappedFetch(reader.content, offset, size)
                 else SkippingFetch(reader.content, offset, size)
  {
    var content := reader.content;
    if !InRange(offset, size, |content|) { return Rejected; }
    if reader.mapped {
      if 0 <= offset && offset + size <= |content| {
        return Fetched(content[offset..offset + size]);
      }
      return Outside;
    }
    reader.Rewind();
    var remaining := AsUnsigned(offset);
    while remaining > 0
      invariant 0 <= remaining <= AsUnsigned(offset)
      invariant reader.pos == AsUnsigned(offset) - remaining <= |content|
    {
      var toRead := if remaining < SKIP_CHUNK then remaining else SKIP_CHUNK;
      var skipped := reader.Fread(toRead);
      if |skipped| != toRead { return Rejected; }
      remaining := remaining - toRead;
    }
    var got := reader.Fread(size);
    if |got| != size { return Rejected; }
    return Fetched(got);
  }

  // ---- the open external-data file ----

  /** Longest path of a file reference: the cache keeps it in 1024 bytes with its terminator. */
  const MAX_PATH: nat := 1023

  /** `FrefCache`: the one file kept open between constants. */
  class FrefCache {
    var path: string
    var fp: Option<Bytes>

    ghost predicate Valid(files: Files)
      reads this
    {
      fp.Some? ==> |path| <= MAX_PATH && path in files && fp.value == files[path]
    }

    constructor (files: Files)
      ensures Valid(files)
    {
      path, fp := "", None;
    }

    /** `fref_cache_open`: whatever was open before, afterwards this path's file is. */
    method Open(files: Files, wanted: string) returns (ok: bool)
      requires Valid(files)
      modifies this
      ensures Valid(files)
      ensures ok <==> |wanted| <= MAX_PATH && wanted in files
      ensures ok ==> fp == Some(files[wanted])
    {
      if fp.Some? && path == wanted { return true; }
      fp := None;
      if |wanted| + 1 > MAX_PATH + 1 { return false; }
      path := wanted;
      if path !in files { return false; }
      fp := Some(files[path]);
      ok := true;
    }

    /** `fref_fetch` from the open file: a seek, then one read. */
    method Fetch(offset: int, size: nat) returns (bytes: Option<Bytes>)
      requires fp.Some?
      ensures bytes == if offset < 0 then None
                       else if size == 0 then Some([])
                       else if offset + size <= |fp.value| then Some(fp.value[offset..offset + size])
                       else None
    {
      if offset < 0 { return None; }
      var file := fp.value;
      var from := if offset < |file| then offset else |file|;
      var to := if offset + size < |file| then offset + size else |file|;
      var got := if from <= to then file[from..to] else [];
      if |got| != size { return None; }
      bytes := Some(got);
    }
  }

  // ---- per-entry loading ----

  /** What the loader puts at a constant's place, if it can. */
  function Denotes(files: Files, content: Bytes, mapped: bool, info: ConstantInfo): Option<Bytes>
    requires info.source.MemSource? ==> IsInt64(info.source.memOffset)
  {
    match info.source
    case NoSource => None
    case SplatSource(elem) => if 1 <= |elem| <= 8 then Some(Splat(elem, info.size)) else None
    case FileRefSource(path, offset) =>
      if |path| <= MAX_PATH then FileSlice(files, path, offset, info.size) else None
    case MemSource(offset) =>
      var r := if mapped then MappedFetch(content, offset, info.size) else SkippingFetch(content, offset, info.size);
      if r.Fetched? then Some(r.bytes) else None
  }

  lemma DenotesSize(files: Files, content: Bytes, mapped: bool, info: ConstantInfo)
    requires info.source.MemSource? ==> IsInt64(info.source.memOffset)
    ensures Denotes(files, content, mapped, info).Some? ==> |Denotes(files, content, mapped, info).value| == info.size
  {
  }

  /** The bytes behind a disk-resident constant: a range of a mapped, non-empty file. */
  function DiskView(files: Files, info: ConstantInfo): Option<Bytes> {
    if !info.source.FileRefSource? || info.source.path !in files then None
    else
      var file, offset := files[info.source.path], info.source.fileOffset;
      if file == [] || offset < 0 || offset + info.size > |file| then None
      else Some(file[offset..offset + info.size])
  }

  /** What the loader relies on: constants inside the blob, whole splats, offsets that do
      not point before the constants file. */
  predicate Loadable(info: ConstantInfo, blobSize: nat) {
    && (!info.diskResident ==> info.offset + info.size <= blobSize)
    && (info.source.SplatSource? && info.source.elem != [] ==> info.size % |info.source.elem| == 0)
    && (info.source.MemSource? ==> 0 <= info.source.memOffset && IsInt64(info.source.memOffset))
    && IsInt64(info.size)
  }

  /** The blob after the first `n` constants, or None if one of them cannot be loaded. */
  ghost function Loaded(files: Files, content: Bytes, mapped: bool, blob: Bytes, infos: seq<ConstantInfo>, n: nat)
    : (r: Option<Bytes>)
    requires n <= |infos| && forall i | 0 <= i < |infos| :: Loadable(infos[i], |blob|)
    ensures r.Some? ==> |r.value| == |blob|
  {
    if n == 0 then Some(blob)
    else
      var info := infos[n - 1];
      assert Loadable(info, |blob|);
      DenotesSize(files, content, mapped, info);
      match Loaded(files, content, mapped, blob, infos, n - 1)
      case None => None
      case Some(b) =>
        if info.diskResident then
          if DiskView(files, info).None? then None else Some(b)
        else
          var bytes := Denotes(files, content, mapped, info);
          if bytes.None? then None else Some(Blit(b, info.offset, bytes.value))
  }

  /** `memcpy` into an array. */
  method CopyInto(dst: array<bv8>, offset: nat, bytes: Bytes)
    requires offset + |bytes| <= dst.Length
    modifies dst
    ensures dst[..] == Blit(old(dst[..]), offset, bytes)
    ensures dst[..offset] == old(dst[..offset]) && dst[offset..offset + |bytes|] == bytes
  {
    for k := 0 to |bytes|
      invariant dst[..offset] == old(dst[..offset])
      invariant dst[offset..offset + k] == bytes[..k]
      invariant dst[offset + k..] == old(dst[offset + k..])
    {
      dst[offset + k] := bytes[k];
    }
    assert dst[..] == dst[..offset] + dst[offset..offset + |bytes|] + dst[offset + |bytes|..];
    assert old(dst[..])[..offset] == old(dst[..offset]);
    assert old(dst[..])[offset + |bytes|..] == old(dst[offset + |bytes|..]);
  }

  /** The splat loop: copies whole elements until `size` bytes are staged. */
  method StageSplat(staging: array<bv8>, elem: Bytes, size: nat)
    requires elem != [] && size <= staging.Length && size % |elem| == 0
    modifies staging
    ensures staging[..size] == Splat(elem, size)
  {
    hide Splat;
    var n := |elem|;
    ghost var total, copies := size / n, 0;
    assert size == total * n;
    SplatOnce(elem);
    SplatPrefix(elem, 0, 0);
    var off := 0;
    while off < size
      invariant 0 <= copies <= total && off == copies * n <= size
      invariant staging[..off] == Splat(elem, off)
      decreases total - copies
    {
      MulLess(copies, total, n);
      MulMono(copies + 1, total, n);
      assert (copies + 1) * n == copies * n + n;
      CopyInto(staging, off, elem);
      SplatAppend(elem, copies, n);
      assert staging[..off + n] == staging[..off] + staging[off..off + n];
      off, copies := off + n, copies + 1;
    }
  }

  lemma LoadedUnfolds(files: Files, content: Bytes, mapped: bool, blob: Bytes, infos: seq<ConstantInfo>, n: nat)
    requires n <= |infos| && forall i | 0 <= i < |infos| :: Loadable(infos[i], |blob|)
    ensures Loaded(files, content, mapped, blob, infos, 0) == Some(blob)
    ensures n < |infos| && Loaded(files, content, mapped, blob, infos, n).None? ==>
      Loaded(files, content, mapped, blob, infos, n + 1).None?
    ensures n < |infos| && Loaded(files, content, mapped, blob, infos, n).Some? && infos[n].diskResident ==>
      Loaded(files, content, mapped, blob, infos, n + 1)
      == if DiskView(files, infos[n]).None? then None else Loaded(files, content, mapped, blob, infos, n)
    ensures n < |infos| && Loaded(files, content, mapped, blob, infos, n).Some? && !infos[n].diskResident ==>
      && Loadable(infos[n], |blob|)
      && var b, bytes := Loaded(files, content, mapped, blob, infos, n).value, Denotes(files, content, mapped, infos[n]);
         && |b| == |blob| && (bytes.Some? ==> |bytes.value| == infos[n].size)
         && Loaded(files, content, mapped, blob, infos, n + 1)
            == if bytes.None? then None else Some(Blit(b, infos[n].offset, bytes.value))
  {
    if n < |infos| {
      assert Loadable(infos[n], |blob|);
      DenotesSize(files, content, mapped, infos[n]);
    }
  }

  function LargestSize(infos: seq<ConstantInfo>): (m: nat)
    ensures forall i | 0 <= i < |infos| && !infos[i].diskResident :: infos[i].size <= m
  {
    if infos == [] then 0
    else
      var n := |infos| - 1;
      var m := LargestSize(infos[..n]);
      assert forall i | 0 <= i < n :: infos[i] == infos[..n][i];
      if !infos[n].diskResident && infos[n].size > m then infos[n].size else m
  }

  /** One constant into the staging buffer. */
  method Stage(files: Files, reader: FileReader, cache: FrefCache, info: ConstantInfo, staging: array<bv8>)
    returns (ok: bool)
    requires reader.pos <= |reader.content| && cache.Valid(files)
    requires info.size <= staging.Length && Loadable(info, info.offset + info.size)
    modifies reader, cache, staging
    ensures reader.pos <= |reader.content| && cache.Valid(files)
    ensures ok <==> Denotes(files, reader.content, reader.mapped, info).Some?
    ensures ok ==> Some(staging[..info.size]) == Denotes(files, reader.content, reader.mapped, info)
  {
    match info.source
    case NoSource =>
      return false;
    case SplatSource(elem) =>
      if |elem| == 0 || |elem| > 8 { return false; }
      StageSplat(staging, elem, info.size);
      return true;
    case FileRefSource(path, offset) =>
      var isOpen := cache.Open(files, path);
      if !isOpen { return false; }
      var bytes := cache.Fetch(offset, info.size);
      if bytes.None? { return false; }
      CopyInto(staging, 0, bytes.value);
      return true;
    case MemSource(offset) =>
      var r := ConstantsFileFetch(reader, offset, info.size);
      if !r.Fetched? { return false; }
      CopyInto(staging, 0, r.bytes);
      return true;
  }

  lemma {:induction false} StaysFailed(files: Files, content: Bytes, mapped: bool, blob: Bytes, infos: seq<ConstantInfo>, i: nat)
    requires i <= |infos| && forall k | 0 <= k < |infos| :: Loadable(infos[k], |blob|)
    requires Loaded(files, content, mapped, blob, infos, i).None?
    ensures Loaded(files, content, mapped, blob, infos, |infos|).None?
    decreases |infos| - i
  {
    if i < |infos| { StaysFailed(files, content, mapped, blob, infos, i + 1); }
  }

  /** `per_entry_load_constants`: one staging buffer of the largest constant; each constant is
      staged from its source and copied to its place, or left on disk. It succeeds exactly when
      every source can be read, and then blob and disk tables are as specified. */
  method PerEntryLoad(files: Files, reader: FileReader, infos: seq<ConstantInfo>, blob: array<bv8>)
    returns (ok: bool, tables: seq<Option<Bytes>>)
    requires reader.pos <= |reader.content| && forall i | 0 <= i < |infos| :: Loadable(infos[i], blob.Length)
    modifies reader, blob
    ensures ok <==> Loaded(files, reader.content, reader.mapped, old(blob[..]), infos, |infos|).Some?
    ensures ok ==> Some(blob[..]) == Loaded(files, reader.content, reader.mapped, old(blob[..]), infos, |infos|)
    ensures ok ==> |tables| == |infos| && forall i | 0 <= i < |infos| ::
                     tables[i] == if infos[i].diskResident then DiskView(files, infos[i]) else None
    ensures ok ==> forall i | 0 <= i < |infos| && infos[i].diskResident :: tables[i].Some?
  {
    hide Loaded, Denotes, Blit, DiskView;
    var staging := new bv8[LargestSize(infos)];
    var cache := new FrefCache(files);
    tables := [];
    LoadedUnfolds(files, reader.content, reader.mapped, old(blob[..]), infos, 0);
    for i := 0 to |infos|
      invariant reader.pos <= |reader.content| && cache.Valid(files) && fresh(cache)
      invariant Some(blob[..]) == Loaded(files, reader.content, reader.mapped, old(blob[..]), infos, i)
      invariant |tables| == i
      invariant forall k | 0 <= k < i ::
                  && tables[k] == (if infos[k].diskResident then DiskView(files, infos[k]) else None)
                  && (infos[k].diskResident ==> tables[k].Some?)
    {
      var info := infos[i];
      assert Loadable(info, blob.Length);
      LoadedUnfolds(files, reader.content, reader.mapped, old(blob[..]), infos, i);
      if info.diskResident {
        var view := DiskView(files, info);
        if view.None? {
          StaysFailed(files, reader.content, reader.mapped, old(blob[..]), infos, i + 1);
          return false, tables;
        }
        tables := tables + [view];
        continue;
      }
      var staged := Stage(files, reader, cache, info, staging);
      if !staged {
        StaysFailed(files, reader.content, reader.mapped, old(blob[..]), infos, i + 1);
        return false, tables;
      }
      CopyInto(blob, info.offset, staging[..info.size]);
      tables := tables + [None];
    }
    return true, tables;
  }

  /** Constants in the blob follow each other without overlap. */
  ghost predicate InOrder(infos: seq<ConstantInfo>) {
    forall j, k | 0 <= j < k < |infos| && !infos[j].diskResident && !infos[k].diskResident ::
      infos[j].offset + infos[j].size <= infos[k].offset
  }

  lemma InOrderAt(infos: seq<ConstantInfo>, i: nat, j: nat)
    requires InOrder(infos) && i <= j < |infos| && !infos[i].diskResident && !infos[j].diskResident
    ensures i < j ==> infos[i].offset + infos[i].size <= infos[j].offset
  {
  }

  /** Writing constant `n - 1` puts its bytes in place and leaves those of constant `i` alone. */
  lemma LoadedKeeps(files: Files, content: Bytes, mapped: bool, blob: Bytes, infos: seq<ConstantInfo>, n: nat, i: nat)
    requires 0 < n <= |infos| && forall k | 0 <= k < |infos| :: Loadable(infos[k], |blob|)
    requires InOrder(infos) && i < n && !infos[i].diskResident && !infos[n - 1].diskResident
    requires Loaded(files, content, mapped, blob, infos, n).Some?
    ensures Loadable(infos[i], |blob|) && Loaded(files, content, mapped, blob, infos, n - 1).Some?
    ensures var here := infos[i];
            Loaded(files, content, mapped, blob, infos, n).value[here.offset..here.offset + here.size] ==
              if i == n - 1 then Denotes(files, content, mapped, here).value
              else Loaded(files, content, mapped, blob, infos, n - 1).value[here.offset..here.offset + here.size]
    ensures Denotes(files, content, mapped, infos[n - 1]).Some?
  {
    var here, last := infos[i], infos[n - 1];
    hide Denotes, DiskView, Loaded, InOrder, Blit;
    assert Loadable(last, |blob|) && Loadable(here, |blob|);
    hide Loadable;
    InOrderAt(infos, i, n - 1);
    LoadedUnfolds(files, content, mapped, blob, infos, n - 1);
    var before := Loaded(files, content, mapped, blob, infos, n - 1).value;
    var bytes := Denotes(files, content, mapped, last).value;
    BlitHolds(before, last.offset, bytes);
    if i < n - 1 { BlitKeeps(before, last.offset, bytes, here.offset, here.size); }
  }

  /** Then they do not disturb each other. */
  lemma {:induction false} LoadedHolds(files: Files, content: Bytes, mapped: bool, blob: Bytes,
                                       infos: seq<ConstantInfo>, n: nat, i: nat)
    requires n <= |infos| && forall k | 0 <= k < |infos| :: Loadable(infos[k], |blob|)
    requires InOrder(infos)
    requires Loaded(files, content, mapped, blob, infos, n).Some? && i < n && !infos[i].diskResident
    ensures Loadable(infos[i], |blob|)
    ensures Denotes(files, content, mapped, infos[i])
         == Some(Loaded(files, content, mapped, blob, infos, n).value[infos[i].offset..infos[i].offset + infos[i].size])
  {
    hide Denotes, DiskView, Loaded, InOrder, Blit;
    assert Loadable(infos[n - 1], |blob|) && Loadable(infos[i], |blob|);
    LoadedUnfolds(files, content, mapped, blob, infos, n - 1);
    if i < n - 1 {
      LoadedHolds(files, content, mapped, blob, infos, n - 1, i);
    }
    if !infos[n - 1].diskResident {
      LoadedKeeps(files, content, mapped, blob, infos, n, i);
    }
  }

  /** Loading `n` constants succeeds exactly when each source can be read. */
  lemma {:induction false} LoadsIffReadable(files: Files, content: Bytes, mapped: bool, blob: Bytes, infos: seq<ConstantInfo>,
                                            n: nat)
    requires n <= |infos| && forall i | 0 <= i < |infos| :: Loadable(infos[i], |blob|)
    ensures Loaded(files, content, mapped, blob, infos, n).Some? <==> forall i | 0 <= i < n ::
              var size := infos[i].size;
              match infos[i].source
              case NoSource => false
              case SplatSource(elem) => !infos[i].diskResident && 1 <= |elem| <= 8
              case FileRefSource(path, offset) =>
                && path in files && 0 <= offset
                && if infos[i].diskResident then files[path] != [] && offset + size <= |files[path]|
                   else |path| <= 1023 && (size == 0 || offset + size <= |files[path]|)
              case MemSource(offset) =>
                && !infos[i].diskResident && IsInt64(offset)
                && (if mapped then MappedFetch(content, offset, size) else SkippingFetch(content, offset, size)).Fetched?
  {
    if n > 0 {
      assert Loadable(infos[n - 1], |blob|);
      LoadsIffReadable(files, content, mapped, blob, infos, n - 1);
      LoadedUnfolds(files, content, mapped, blob, infos, n - 1);
      hide Loaded, MappedFetch, SkippingFetch, Splat;
    }
  }

  // ---- bulk loading ----

  /** `bulk_load_constants`: the whole file to the start of the blob, mapped or read. Whether the
      file opens, the staging buffer can be had and the copy succeeds is up to the environment. */
  method BulkLoad(reader: Option<FileReader>, blob: array<bv8>, staged: bool, copied: bool) returns (rc: int)
    requires reader.Some? ==> reader.value.pos == 0 && |reader.value.content| <= blob.Length
    modifies if reader.Some? then {reader.value} else {}, blob
    ensures rc == if reader.Some? && (reader.value.mapped || staged) && copied then 0 else 1
    ensures blob[..] == if rc == 0 then Blit(old(blob[..]), 0, reader.value.content) else old(blob[..])
  {
    if reader.None? { return 1; }
    var total := |reader.value.content|;
    var src := reader.value.content;
    if !reader.value.mapped {
      if !staged { return 1; }
      src := reader.value.Fread(total);
      if |src| != total { return 1; }
    }
    if !copied { return 1; }
    CopyInto(blob, 0, src);
    return 0;
  }
}
