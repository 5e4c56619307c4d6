/** Gathering rows of a table that stays on disk: the row lookup, and worker threads that copy
    slices of the row list into one buffer while the calling thread copies its own. */
module DiskGather {
  import opened Divisibility
  import opened MachineWord
  import opened Wrappers

  type Byte = b: int | 0 <= b < 256

  const MAX_THREADS: nat := 8
  const MIN_BYTES_PER_THREAD: nat := 0x40_0000

  /** Number of slices; the product is taken in `size_t`. */
  function Threads(n: nat, rowBytes: nat): (t: nat)
    ensures 1 <= t <= MAX_THREADS
  {
    var byWork := n * rowBytes % TWO64 / MIN_BYTES_PER_THREAD;
    if byWork < 1 then 1 else if byWork > MAX_THREADS then MAX_THREADS else byWork
  }

  /** First row of slice `t` out of `threads`. */
  function Bound(n: nat, t: nat, threads: nat): nat
    requires threads > 0
  {
    n * t / threads
  }

  lemma DivMono(a: nat, b: nat, n: nat)
    requires n > 0 && a <= b
    ensures a / n <= b / n
  {
    var q, q' := a / n, b / n;
    assert (q' + 1) * n == q' * n + n;
    if q > q' { MulMono(q' + 1, q, n); }
  }

  lemma BoundsIncrease(n: nat, s: nat, t: nat, threads: nat)
    requires threads > 0 && s <= t <= threads
    ensures Bound(n, 0, threads) == 0 && Bound(n, s, threads) <= Bound(n, t, threads) <= Bound(n, threads, threads) == n
  {
    DivModUnique(n * threads, n, 0, threads);
    DivModUnique(0, 0, 0, threads);
    MulMono(s, t, n);
    MulMono(t, threads, n);
    DivMono(n * s, n * t, threads);
    DivMono(n * t, n * threads, threads);
  }

  /** Byte range of a slice. */
  function Begin(n: nat, t: nat, threads: nat, rowBytes: nat): nat
    requires threads > 0
  {
    Bound(n, t, threads) * rowBytes
  }

  lemma BeginsIncrease(n: nat, s: nat, t: nat, threads: nat, rowBytes: nat)
    requires threads > 0 && s <= t <= threads
    ensures Begin(n, 0, threads, rowBytes) == 0
    ensures Begin(n, s, threads, rowBytes) <= Begin(n, t, threads, rowBytes)
    ensures Begin(n, t, threads, rowBytes) <= Begin(n, threads, threads, rowBytes) == n * rowBytes
  {
    BoundsIncrease(n, s, t, threads);
    MulMono(Bound(n, s, threads), Bound(n, t, threads), rowBytes);
    MulMono(Bound(n, t, threads), n, rowBytes);
  }

  ghost predicate InSlice(p: nat, n: nat, t: nat, threads: nat, rowBytes: nat)
    requires threads > 0
  {
    Begin(n, t, threads, rowBytes) <= p < Begin(n, t + 1, threads, rowBytes)
  }

  /** The slices partition the buffer: every byte lies in one of them. */
  lemma {:induction false} SomeSlice(p: nat, n: nat, upTo: nat, threads: nat, rowBytes: nat) returns (t: nat)
    requires threads > 0 && upTo <= threads && p < Begin(n, upTo, threads, rowBytes)
    ensures t < upTo && InSlice(p, n, t, threads, rowBytes)
  {
    BeginsIncrease(n, 0, upTo, threads, rowBytes);
    if p >= Begin(n, upTo - 1, threads, rowBytes) {
      t := upTo - 1;
    } else {
      t := SomeSlice(p, n, upTo - 1, threads, rowBytes);
    }
  }

  /** And in no other. */
  lemma OnlySlice(p: nat, n: nat, s: nat, t: nat, threads: nat, rowBytes: nat)
    requires s < t < threads && InSlice(p, n, s, threads, rowBytes)
    ensures !InSlice(p, n, t, threads, rowBytes)
  {
    BeginsIncrease(n, s + 1, t, threads, rowBytes);
  }

  // ---- the copies ----

  /** A row to copy, or none for a row of zeros. */
  type Row = Option<seq<Byte>>

  ghost predicate RowsOk(rows: seq<Row>, rowBytes: nat) {
    rowBytes > 0 && forall i | 0 <= i < |rows| :: rows[i].Some? ==> |rows[i].value| == rowBytes
  }

  function RowOf(p: nat, n: nat, rowBytes: nat): (row: nat)
    requires rowBytes > 0 && p < n * rowBytes
    ensures row < n && row * rowBytes <= p < (row + 1) * rowBytes
  {
    var q := p / rowBytes;
    assert p == q * rowBytes + p % rowBytes;
    MulLess(q, n, rowBytes);
    q
  }

  /** Byte `p` of the gathered rows. */
  function Wanted(rows: seq<Row>, rowBytes: nat, p: nat): Byte
    requires RowsOk(rows, rowBytes) && p < |rows| * rowBytes
  {
    var row := RowOf(p, |rows|, rowBytes);
    if rows[row].Some? then rows[row].value[p % rowBytes] else 0
  }

  /** One call of `gather_rows`: the tasks, how far each has come, and the buffer region at
      `base` they write. Threads make progress at any point, in any order, byte by byte. */
  class RowGather {
    const rows: seq<Row>
    const rowBytes: nat
    const threads: nat
    const staging: array<Byte>
    const base: nat

    /** Next byte of each task, as an offset in the region. */
    var next: seq<nat>
    var started: set<nat>
    /** Bytes in the order they were written, and the buffer as it was before. */
    ghost var log: seq<nat>
    ghost var original: seq<Byte>

    ghost function First(t: nat): nat
      requires threads > 0
    {
      Begin(|rows|, t, threads, rowBytes)
    }

    function Last(t: nat): nat
      requires threads > 0
    {
      Begin(|rows|, t + 1, threads, rowBytes)
    }

    ghost predicate Covered(p: nat)
      requires threads > 0
      reads this`next
    {
      exists t :: 0 <= t < |next| && First(t) <= p < next[t]
    }

    ghost predicate Shape()
      reads this`next
    {
      && RowsOk(rows, rowBytes) && threads > 0 && |next| == threads
      && base + |rows| * rowBytes <= staging.Length
    }

    ghost predicate Valid()
      reads this, staging
    {
      && Shape() && |original| == staging.Length
      && (forall t | 0 <= t < threads :: First(t) <= next[t] <= Last(t) <= |rows| * rowBytes)
      && (forall p: nat | p < |rows| * rowBytes && Covered(p) :: staging[base + p] == Wanted(rows, rowBytes, p))
      && (forall k | 0 <= k < staging.Length && !(base <= k < base + |rows| * rowBytes) :: staging[k] == original[k])
      && (forall i, j | 0 <= i < j < |log| :: log[i] != log[j])
      && (forall p: nat :: p in log <==> Covered(p))
    }

    constructor (rows: seq<Row>, rowBytes: nat, staging: array<Byte>, base: nat)
      requires RowsOk(rows, rowBytes) && base + |rows| * rowBytes <= staging.Length
      ensures Valid() && started == {} && log == [] && original == staging[..]
      ensures this.rows == rows && this.rowBytes == rowBytes && this.staging == staging && this.base == base
    {
      var n := Threads(|rows|, rowBytes);
      this.rows, this.rowBytes, this.threads, this.staging, this.base := rows, rowBytes, n, staging, base;
      next := seq(n, t requires 0 <= t < n => Begin(|rows|, t, n, rowBytes));
      started, log, original := {}, [], staging[..];
      new;
      forall t | 0 <= t < threads ensures First(t) <= Last(t) <= |rows| * rowBytes {
        BeginsIncrease(|rows|, t, t + 1, threads, rowBytes);
      }
    }

    lemma NotYetCovered(t: nat)
      requires Valid() && t < threads && next[t] < Last(t)
      ensures !Covered(next[t])
    {
      hide Begin, Wanted;
      forall s | 0 <= s < threads && s != t ensures !(First(s) <= next[t] < next[s]) {
        if s < t && First(s) <= next[t] < Last(s) {
          OnlySlice(next[t], |rows|, s, t, threads, rowBytes);
        } else if t < s && First(t) <= next[t] < Last(t) {
          OnlySlice(next[t], |rows|, t, s, threads, rowBytes);
        }
      }
    }

    /** The worker of task `t` copies one byte; no worker has written it before. */
    method CopyByte(t: nat)
      requires Valid() && t < threads && next[t] < Last(t)
      modifies this`next, this`log, staging
      ensures Valid() && next == old(next)[t := old(next[t]) + 1]
      ensures log == old(log) + [old(next[t])]
    {
      hide Begin, Wanted, RowsOk;
      var p := next[t];
      NotYetCovered(t);
      staging[base + p] := Wanted(rows, rowBytes, p);
      next := next[t := p + 1];
      log := log + [p];
      forall q: nat ensures Covered(q) <==> old(Covered(q)) || q == p {
        if Covered(q) && q != p {
          var s :| 0 <= s < |next| && First(s) <= q < next[s];
          assert First(s) <= q < old(next)[s];
        }
        if old(Covered(q)) {
          var s :| 0 <= s < |next| && First(s) <= q < old(next)[s];
          assert First(s) <= q < next[s];
        }
        if q == p { assert First(t) <= p < next[t]; }
      }
    }

    /** The running threads get any distance. */
    method ThreadsRun()
      requires Valid()
      modifies this`next, this`log, staging
      ensures Valid() && forall t | 0 <= t < threads :: next[t] >= old(next)[t]
      ensures forall t | 0 <= t < threads && t !in started :: next[t] == old(next)[t]
    {
      var steps: nat := *;
      hide Begin, Wanted, RowsOk, Covered;
      var step := 0;
      while step < steps
        invariant Valid() && forall t | 0 <= t < threads :: next[t] >= old(next)[t]
        invariant forall t | 0 <= t < threads && t !in started :: next[t] == old(next)[t]
      {
        var t: nat := *;
        if t in started && t < threads && next[t] < Last(t) { CopyByte(t); }
        step := step + 1;
      }
    }

    /** Task `t` runs to its end while the other threads go on. */
    method CopyRows(t: nat)
      requires Valid() && t < threads
      modifies this`next, this`log, staging
      ensures Valid() && next[t] == Last(t)
      ensures forall s | 0 <= s < threads :: next[s] >= old(next)[s]
    {
      hide Begin, Wanted, RowsOk, Covered;
      while next[t] < Last(t)
        invariant Valid() && forall s | 0 <= s < threads :: next[s] >= old(next)[s]
        decreases Last(t) - next[t]
      {
        label before:
        ThreadsRun();
        if next[t] < Last(t) { CopyByte(t); }
        assert next[t] > old@before(next)[t];
      }
    }

    lemma AllCovered()
      requires Valid() && forall t | 0 <= t < threads :: next[t] == Last(t)
      ensures forall p: nat :: p in log <==> p < |rows| * rowBytes
      ensures forall p: nat | p < |rows| * rowBytes :: Covered(p)
    {
      hide Begin, Wanted;
      forall p: nat | p < |rows| * rowBytes ensures Covered(p) {
        BeginsIncrease(|rows|, 0, threads, threads, rowBytes);
        var t := SomeSlice(p, |rows|, threads, threads, rowBytes);
        assert First(t) <= p < next[t];
      }
    }

    /** `gather_rows`: tasks whose thread could not be created are copied by the caller, who also
        copies task 0 and then joins the threads. `created` tells which creations succeed. */
    method GatherRows(created: nat -> bool)
      requires Valid() && started == {} && log == []
      modifies this, staging
      ensures Valid() && original == old(original)
      ensures forall p: nat | p < |rows| * rowBytes :: staging[base + p] == Wanted(rows, rowBytes, p)
      ensures forall p: nat :: p in log <==> p < |rows| * rowBytes
    {
      hide Begin, Wanted, RowsOk, Covered;
      for t := 1 to threads
        invariant Valid() && original == old(original)
        invariant forall s | 1 <= s < t :: s in started || next[s] == Last(s)
      {
        ThreadsRun();
        if created(t) { started := started + {t}; } else { CopyRows(t); }
      }
      CopyRows(0);
      for t := 1 to threads
        invariant Valid() && original == old(original) && next[0] == Last(0)
        invariant forall s | 1 <= s < t :: next[s] == Last(s)
        invariant forall s | 1 <= s < threads :: s in started || next[s] == Last(s)
      {
        if t in started { CopyRows(t); }
      }
      AllCovered();
    }
  }

  // ---- the gather ----

  /** The table row an index names, negatives counting from the end; none when out of range. */
  function Lookup(index: int, numRows: nat): Option<nat> {
    var row := if index < 0 then index + numRows else index;
    if 0 <= row < numRows then Some(row) else None
  }

  function SliceOf(s: seq<Byte>, from: nat, count: nat): seq<Byte> {
    if from + count <= |s| then s[from..from + count] else []
  }

  /** What the operator promises for an index: its row, counted from the end when negative, or
      none when there is no such row. */
  ghost function RowNamed(table: seq<Byte>, index: int, numRows: nat, rowBytes: nat): Row {
    if 0 <= index < numRows then Some(SliceOf(table, index * rowBytes, rowBytes))
    else if 0 <= numRows + index < numRows then Some(SliceOf(table, (numRows + index) * rowBytes, rowBytes))
    else None
  }

  /** Row `k` of the output is the row its index names, or zeros. */
  ghost predicate GatheredRow(out: seq<Byte>, table: seq<Byte>, indices: seq<int>, numRows: nat, rowBytes: nat, k: nat)
    requires k < |indices|
  {
    && k * rowBytes + rowBytes <= |out|
    && out[k * rowBytes..k * rowBytes + rowBytes] ==
         match RowNamed(table, indices[k], numRows, rowBytes)
         case Some(row) => row
         case None => seq(rowBytes, _ => 0)
  }

  /** Offset of the rows in the staging buffer, behind the indices. */
  function IndicesRegion(bytes: nat): (r: nat)
    ensures bytes <= r < bytes + 64 && r % 64 == 0
  {
    (bytes + 63) / 64 * 64
  }

  /** `ensure_disk_gather_staging`, with an allocation that succeeds. */
  method EnsureStaging(staging: array<Byte>, size: nat) returns (r: array<Byte>)
    ensures r.Length >= size && (r == staging || fresh(r))
    ensures size <= staging.Length ==> r == staging
  {
    if size <= staging.Length { return staging; }
    r := new Byte[size](_ => 0);
  }

  method ResolveRows(table: seq<Byte>, indices: seq<int>, numRows: nat, rowBytes: nat) returns (rows: seq<Row>)
    requires rowBytes > 0 && rowBytes * numRows == |table|
    ensures |rows| == |indices| && RowsOk(rows, rowBytes)
    ensures forall k | 0 <= k < |rows| :: rows[k] == RowNamed(table, indices[k], numRows, rowBytes)
  {
    rows := [];
    while |rows| < |indices|
      invariant |rows| <= |indices| && RowsOk(rows, rowBytes)
      invariant forall k | 0 <= k < |rows| :: rows[k] == RowNamed(table, indices[k], numRows, rowBytes)
    {
      var row := Lookup(indices[|rows|], numRows);
      if row.Some? {
        MulMono(row.value + 1, numRows, rowBytes);
        assert (row.value + 1) * rowBytes == row.value * rowBytes + rowBytes;
        rows := rows + [Some(SliceOf(table, row.value * rowBytes, rowBytes))];
      } else {
        rows := rows + [None];
      }
    }
  }

  lemma SliceEquals(s: seq<Byte>, from: nat, t: seq<Byte>)
    requires from + |t| <= |s| && forall j | 0 <= j < |t| :: s[from + j] == t[j]
    ensures s[from..from + |t|] == t
  {
  }

  lemma WantedAt(rows: seq<Row>, rowBytes: nat, k: nat, j: nat, p: nat)
    requires RowsOk(rows, rowBytes) && k < |rows| && j < rowBytes && p == k * rowBytes + j < |rows| * rowBytes
    ensures Wanted(rows, rowBytes, p) == if rows[k].Some? then rows[k].value[j] else 0
  {
    DivModUnique(p, k, j, rowBytes);
  }

  lemma RowIsGathered(rows: seq<Row>, out: seq<Byte>, rowBytes: nat, k: nat)
    requires RowsOk(rows, rowBytes) && k < |rows| && |out| == |rows| * rowBytes
    requires forall p: nat | p < |out| :: out[p] == Wanted(rows, rowBytes, p)
    ensures k * rowBytes + rowBytes <= |out|
    ensures out[k * rowBytes..k * rowBytes + rowBytes] ==
              match rows[k] case Some(row) => row case None => seq(rowBytes, _ => 0)
  {
    var from := k * rowBytes;
    MulMono(k + 1, |rows|, rowBytes);
    assert (k + 1) * rowBytes == from + rowBytes;
    var row := match rows[k] case Some(row) => row case None => seq(rowBytes, _ => 0);
    hide Wanted;
    forall j | 0 <= j < rowBytes ensures out[from + j] == row[j] {
      WantedAt(rows, rowBytes, k, j, from + j);
    }
    SliceEquals(out, from, row);
  }

  /** `hipdnn_ep_disk_constant_gather_rows`: `None` is the error return. */
  method DiskConstantGatherRows(staging: array<Byte>, table: seq<Byte>, indices: seq<int>, indexBytes: int,
                                numRows: int, rowBytes: int, created: nat -> bool)
    returns (out: Option<seq<Byte>>, buffer: array<Byte>)
    modifies staging
    ensures out.Some? <==> indexBytes in {4, 8} && numRows > 0 && rowBytes > 0 && rowBytes * numRows == |table|
    ensures out.Some? ==>
              && |out.value| == |indices| * rowBytes
              && forall k: nat | k < |indices| :: GatheredRow(out.value, table, indices, numRows, rowBytes, k)
  {
    if indexBytes != 4 && indexBytes != 8 { return None, staging; }
    if numRows <= 0 || rowBytes <= 0 || rowBytes * numRows != |table| { return None, staging; }
    var region, size := IndicesRegion(|indices| * indexBytes), |indices| * rowBytes;
    buffer := EnsureStaging(staging, region + size);
    var rows := ResolveRows(table, indices, numRows, rowBytes);
    var gather := new RowGather(rows, rowBytes, buffer, region);
    gather.GatherRows(created);
    out := Some(buffer[region..region + size]);
    forall k: nat | k < |indices| ensures GatheredRow(out.value, table, indices, numRows, rowBytes, k) {
      RowIsGathered(rows, out.value, rowBytes, k);
    }
  }
}
