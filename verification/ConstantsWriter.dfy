/** The writer of the constants file: padding, tiled splats, streamed file references. */
module ConstantsWriter {
  import opened Wrappers
  import opened Divisibility

  type Bytes = seq<bv8>

  /** External data files by path. */
  type Files = map<string, Bytes>

  /** Placement and source of one constant. A non-empty `filePath` is a file reference, else
      a positive `splatElemSize` a splat of the element in `data`, else `data` itself. */
  datatype ConstantEntry = ConstantEntry(
    offset: int, size: nat, data: Bytes, splatElemSize: nat, filePath: string, fileOffset: int)
  {
    /** `data` holds what the caller of the writer promises. */
    predicate DataPresent() {
      filePath == "" ==> |data| >= if splatElemSize > 0 then splatElemSize else size
    }
  }

  function Zeros(n: nat): Bytes {
    seq(n, _ => 0)
  }

  function Splat(elem: Bytes, size: nat): Bytes
    requires elem != []
  {
    seq(size, k requires 0 <= k => elem[k % |elem|])
  }

  /** `size` bytes of a file from `offset`; reading nothing needs no data there. */
  function FileSlice(files: Files, path: string, offset: int, size: nat): Option<Bytes> {
    if path !in files || offset < 0 then None
    else if size == 0 then Some([])
    else if offset + size <= |files[path]| then Some(files[path][offset..offset + size])
    else None
  }

  /** The bytes a constant denotes, if its source can be read. */
  function BytesOf(files: Files, e: ConstantEntry): Option<Bytes>
    requires e.DataPresent()
  {
    if e.filePath != "" then FileSlice(files, e.filePath, e.fileOffset, e.size)
    else if e.splatElemSize > 0 then Some(Splat(e.data[..e.splatElemSize], e.size))
    else Some(e.data[..e.size])
  }

  predicate AllPresent(entries: seq<ConstantEntry>) {
    forall i | 0 <= i < |entries| :: entries[i].DataPresent()
  }

  /** The image of a list of entries: each where it asks to be, zeros in between. None when
      an entry would overlap what is already written or its source cannot be read. */
  function Image(files: Files, entries: seq<ConstantEntry>): Option<Bytes>
    requires AllPresent(entries)
  {
    if entries == [] then Some([])
    else
      var n := |entries| - 1;
      var e := entries[n];
      match Image(files, entries[..n])
      case None => None
      case Some(before) =>
        if e.offset < |before| || BytesOf(files, e).None? then None
        else Some(before + Zeros(e.offset - |before|) + BytesOf(files, e).value)
  }

  class FileWriter {
    var content: Bytes

    constructor ()
      ensures content == []
    {
      content := [];
    }

    method Fwrite(b: Bytes)
      modifies this
      ensures content == old(content) + b
    {
      content := content + b;
    }
  }

  const ZERO_CHUNK: nat := 4096
  const CHUNK: nat := 0x100000

  /** `writePaddingTo`. */
  method WritePaddingTo(writer: FileWriter, pos: nat, target: int) returns (ok: bool)
    requires pos == |writer.content|
    modifies writer
    ensures ok <==> target >= pos
    ensures ok ==> writer.content == old(writer.content) + Zeros(target - pos)
    ensures !ok ==> writer.content == old(writer.content)
  {
    if target < pos { return false; }
    var padding := target - pos;
    while padding > 0
      invariant 0 <= padding <= target - pos
      invariant writer.content == old(writer.content) + Zeros(target - pos - padding)
    {
      var chunk := if padding < ZERO_CHUNK then padding else ZERO_CHUNK;
      writer.Fwrite(Zeros(chunk));
      padding := padding - chunk;
    }
    return true;
  }

  /** Whole elements in one tile: as many as fit the chunk or the constant, at least one. */
  function TileCount(size: nat, elem: nat): (count: nat)
    requires elem > 0
    ensures count > 0
  {
    var fit := (if size < CHUNK then size else CHUNK) / elem;
    if fit == 0 then 1 else fit
  }

  lemma SplatOnce(elem: Bytes)
    requires elem != []
    ensures Splat(elem, |elem|) == elem
  {
  }

  lemma SplatPrefix(elem: Bytes, n: nat, k: nat)
    requires elem != [] && k <= n
    ensures |Splat(elem, n)| == n && Splat(elem, n)[..k] == Splat(elem, k) && Splat(elem, 0) == []
  {
  }

  /** A splat of whole elements goes on like a fresh one. */
  lemma SplatAppend(elem: Bytes, copies: nat, b: nat)
    requires elem != []
    ensures Splat(elem, copies * |elem| + b) == Splat(elem, copies * |elem|) + Splat(elem, b)
  {
    var n := |elem|;
    forall k | 0 <= k < b ensures (copies * n + k) % n == k % n {
      ModShift(k, copies, n);
    }
    forall k | copies * n <= k < copies * n + b ensures k % n == (k - copies * n) % n {
      assert k == copies * n + (k - copies * n);
    }
  }

  /** The tile of `writeSplat`: as many whole elements as fit a chunk, at least one. */
  method FillTile(elem: Bytes, size: nat) returns (tile: Bytes, ghost tiles: nat)
    requires elem != []
    ensures tiles == TileCount(size, |elem|) && |tile| == tiles * |elem| && tile == Splat(elem, |tile|)
  {
    hide Splat, TileCount;
    var n := |elem|;
    var count := TileCount(size, n);
    SplatPrefix(elem, 0, 0);
    SplatOnce(elem);
    tile := [];
    var i := 0;
    while i < count
      invariant 0 <= i <= count && |tile| == i * n && tile == Splat(elem, |tile|)
    {
      SplatAppend(elem, i, n);
      assert (i + 1) * n == i * n + n;
      tile := tile + elem;
      i := i + 1;
    }
    tiles := count;
  }

  /** `writeSplat`: writes the tile until `size` bytes are out, also when the element is
      longer than the tile or does not divide `size`. */
  method WriteSplat(writer: FileWriter, elem: Bytes, size: nat)
    requires elem != []
    modifies writer
    ensures writer.content == old(writer.content) + Splat(elem, size)
  {
    hide Splat, TileCount;
    var tile, tiles := FillTile(elem, size);
    MulMono(1, tiles, |elem|);
    var remaining := size;
    ghost var written := 0;
    SplatPrefix(elem, 0, 0);
    assert writer.content + [] == writer.content;
    while remaining > 0
      invariant 0 <= remaining <= size
      invariant remaining > 0 ==> size - remaining == written * |elem|
      invariant writer.content == old(writer.content) + Splat(elem, size - remaining)
    {
      var toWrite := if remaining < |tile| then remaining else |tile|;
      SplatPrefix(elem, |tile|, toWrite);
      SplatAppend(elem, written, toWrite);
      writer.Fwrite(tile[..toWrite]);
      remaining := remaining - toWrite;
      assert (written + tiles) * |elem| == written * |elem| + tiles * |elem|;
      written := written + tiles;
    }
  }

  /** `writeFileRef`: a seek, then reads of at most one chunk each. */
  method WriteFileRef(files: Files, writer: FileWriter, path: string, offset: int, size: nat) returns (ok: bool)
    modifies writer
    ensures ok <==> FileSlice(files, path, offset, size).Some?
    ensures ok ==> writer.content == old(writer.content) + FileSlice(files, path, offset, size).value
  {
    if path !in files || offset < 0 { return false; }
    var file := files[path];
    var at, remaining := offset, size;
    assert writer.content + [] == writer.content;
    while remaining > 0
      invariant 0 <= remaining <= size && at == offset + (size - remaining)
      invariant remaining < size ==> at <= |file|
      invariant writer.content == old(writer.content) + if remaining == size then [] else file[offset..at]
    {
      var toRead := if remaining < CHUNK then remaining else CHUNK;
      if at + toRead > |file| { return false; }
      writer.Fwrite(file[at..at + toRead]);
      assert file[offset..at] + file[at..at + toRead] == file[offset..at + toRead];
      at, remaining := at + toRead, remaining - toRead;
    }
    assert FileSlice(files, path, offset, size) == Some(if size == 0 then [] else file[offset..at]);
    return true;
  }

  function Padded(image: Bytes, total: int): Bytes {
    if total > |image| then image + Zeros(total - |image|) else image
  }

  lemma {:induction false} NoImageAfter(files: Files, entries: seq<ConstantEntry>, i: nat)
    requires AllPresent(entries)
    requires i <= |entries| && Image(files, entries[..i]).None?
    ensures Image(files, entries).None?
    decreases |entries| - i
  {
    if i == |entries| {
      assert entries[..i] == entries;
    } else {
      assert entries[..i + 1][..i] == entries[..i];
      NoImageAfter(files, entries, i + 1);
    }
  }

  /** `writeConstantsBinToFileSystem`, the file being open and its writes complete. Accepts
      exactly the lists that have an image, and writes it, padded to the declared size. */
  method WriteConstants(files: Files, entries: seq<ConstantEntry>, total: int, writer: FileWriter) returns (ok: bool)
    requires writer.content == [] && AllPresent(entries)
    modifies writer
    ensures ok <==> Image(files, entries).Some?
    ensures ok ==> writer.content == Padded(Image(files, entries).value, total)
  {
    var pos := 0;
    for i := 0 to |entries|
      invariant pos == |writer.content|
      invariant Image(files, entries[..i]) == Some(writer.content)
    {
      var e := entries[i];
      assert entries[..i + 1][..i] == entries[..i];
      ghost var before := writer.content;
      ok := WritePaddingTo(writer, pos, e.offset);
      if !ok {
        NoImageAfter(files, entries, i + 1);
        return false;
      }
      if e.filePath != "" {
        ok := WriteFileRef(files, writer, e.filePath, e.fileOffset, e.size);
        if !ok {
          NoImageAfter(files, entries, i + 1);
          return false;
        }
      } else if e.splatElemSize > 0 {
        WriteSplat(writer, e.data[..e.splatElemSize], e.size);
      } else {
        writer.Fwrite(e.data[..e.size]);
      }
      assert writer.content == before + Zeros(e.offset - |before|) + BytesOf(files, e).value;
      pos := e.offset + e.size;
    }
    assert entries[..|entries|] == entries;
    if total > pos {
      var _ := WritePaddingTo(writer, pos, total);
    }
    return true;
  }

  // ---- what an image holds ----

  function End(e: ConstantEntry): int {
    e.offset + e.size
  }

  ghost predicate HeldAt(files: Files, image: Bytes, e: ConstantEntry)
    requires e.DataPresent()
  {
    && 0 <= e.offset && End(e) <= |image|
    && BytesOf(files, e) == Some(image[e.offset..End(e)])
  }

  ghost predicate OutsideAll(entries: seq<ConstantEntry>, k: int) {
    forall i | 0 <= i < |entries| :: !(entries[i].offset <= k < End(entries[i]))
  }

  /** One more entry leaves what was held where it was. */
  lemma HeldAfterAppend(files: Files, image: Bytes, e: ConstantEntry, more: Bytes)
    requires e.DataPresent() && HeldAt(files, image, e)
    ensures HeldAt(files, image + more, e)
  {
    assert (image + more)[e.offset..End(e)] == image[e.offset..End(e)];
  }

  lemma BytesOfSize(files: Files, e: ConstantEntry)
    requires e.DataPresent() && BytesOf(files, e).Some?
    ensures |BytesOf(files, e).value| == e.size
  {
  }

  lemma HeldAtEnd(files: Files, image: Bytes, e: ConstantEntry)
    requires e.DataPresent() && BytesOf(files, e).Some? && e.offset >= |image|
    ensures |BytesOf(files, e).value| == e.size
    ensures HeldAt(files, image + Zeros(e.offset - |image|) + BytesOf(files, e).value, e)
  {
    BytesOfSize(files, e);
    var all := image + Zeros(e.offset - |image|) + BytesOf(files, e).value;
    assert all[e.offset..End(e)] == BytesOf(files, e).value;
  }

  lemma ImageStep(files: Files, entries: seq<ConstantEntry>)
    requires entries != [] && AllPresent(entries)
    ensures var n := |entries| - 1; var front, e := Image(files, entries[..n]), entries[n];
            Image(files, entries) ==
              if front.Some? && |front.value| <= e.offset && BytesOf(files, e).Some?
              then Some(front.value + Zeros(e.offset - |front.value|) + BytesOf(files, e).value)
              else None
  {
  }

  lemma ImageUnfolds(files: Files, entries: seq<ConstantEntry>)
    requires entries != [] && AllPresent(entries)
    requires Image(files, entries).Some?
    ensures var n := |entries| - 1; var front, e := Image(files, entries[..n]), entries[n];
            && front.Some? && |front.value| <= e.offset && BytesOf(files, e).Some?
            && Image(files, entries) == Some(front.value + Zeros(e.offset - |front.value|) + BytesOf(files, e).value)
  {
  }

  /** Every constant's bytes are at its offset. */
  lemma {:induction false} ImageHolds(files: Files, entries: seq<ConstantEntry>)
    requires AllPresent(entries)
    requires Image(files, entries).Some?
    ensures |Image(files, entries).value| == if entries == [] then 0 else End(entries[|entries| - 1])
    ensures forall i | 0 <= i < |entries| :: HeldAt(files, Image(files, entries).value, entries[i])
  {
    if entries != [] {
      var n := |entries| - 1;
      var e, front := entries[n], entries[..n];
      hide HeldAt, BytesOf, Image;
      ImageUnfolds(files, entries);
      ImageHolds(files, front);
      var before, image := Image(files, front).value, Image(files, entries).value;
      HeldAtEnd(files, before, e);
      var more := Zeros(e.offset - |before|) + BytesOf(files, e).value;
      assert image == before + more;
      forall i | 0 <= i < n ensures HeldAt(files, image, entries[i]) {
        assert front[i] == entries[i];
        HeldAfterAppend(files, before, front[i], more);
      }
    }
  }

  lemma HeldInside(files: Files, image: Bytes, e: ConstantEntry)
    requires e.DataPresent() && HeldAt(files, image, e)
    ensures 0 <= e.offset && End(e) <= |image|
  {
  }

  /** Constants follow each other in entry order without overlap. */
  lemma {:induction false} ImageInOrder(files: Files, entries: seq<ConstantEntry>, i: nat, j: nat)
    requires AllPresent(entries)
    requires Image(files, entries).Some? && i < j < |entries|
    ensures End(entries[i]) <= entries[j].offset
  {
    var n := |entries| - 1;
    var e, front := entries[n], entries[..n];
    hide HeldAt, BytesOf, Image;
    ImageUnfolds(files, entries);
    assert front[i] == entries[i];
    if j < n {
      assert front[j] == entries[j];
      ImageInOrder(files, front, i, j);
    } else {
      ImageHolds(files, front);
      HeldInside(files, Image(files, front).value, front[i]);
    }
  }

  ghost predicate ZeroOutside(entries: seq<ConstantEntry>, image: Bytes) {
    forall k | 0 <= k < |image| && OutsideAll(entries, k) :: image[k] == 0
  }

  lemma EmptyImage(files: Files)
    ensures Image(files, []) == Some([]) && ZeroOutside([], [])
  {
  }

  lemma ZeroAfterAppend(entries: seq<ConstantEntry>, before: Bytes, offset: int, image: Bytes)
    requires entries != [] && entries[|entries| - 1].offset == offset >= |before|
    requires |image| == End(entries[|entries| - 1])
    requires image[..offset] == before + Zeros(offset - |before|)
    requires ZeroOutside(entries[..|entries| - 1], before)
    ensures ZeroOutside(entries, image)
  {
    var front := entries[..|entries| - 1];
    forall k | 0 <= k < |image| && OutsideAll(entries, k) ensures image[k] == 0 {
      var last := entries[|entries| - 1];
      assert !(last.offset <= k < End(last));
      assert image[k] == image[..offset][k];
      if k < |before| {
        assert forall i | 0 <= i < |front| :: front[i] == entries[i];
        assert OutsideAll(front, k);
      }
    }
  }

  /** Every byte outside the constants is zero. */
  lemma {:induction false} ImageGaps(files: Files, entries: seq<ConstantEntry>)
    requires AllPresent(entries)
    requires Image(files, entries).Some?
    ensures ZeroOutside(entries, Image(files, entries).value)
  {
    hide HeldAt, BytesOf, Image, ZeroOutside;
    if entries != [] {
      var n := |entries| - 1;
      var e, front := entries[n], entries[..n];
      ImageUnfolds(files, entries);
      ImageHolds(files, entries);
      ImageGaps(files, front);
      ZeroAfterAppend(entries, Image(files, front).value, e.offset, Image(files, entries).value);
    } else {
      EmptyImage(files);
    }
  }
}
