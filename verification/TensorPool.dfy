/** The GPU buffer pool of the tensor entry points: who holds each buffer the pool has ever
    obtained from the driver. */
module TensorPool {
  import opened MachineWord
  import opened TensorSize
  import opened Wrappers

  /** A GPU address; 0 is null. */
  type Ptr = nat

  const DEFAULT_ELEMENT_SIZE: nat := 4

  datatype Tensor = Tensor(data: Ptr, shape: Option<seq<int>>, rank: nat, elementSize: nat, onGpu: bool)

  datatype Code = Ok | NullPointer | IndexOutOfBounds | RankMismatch | AllocFailed | H2DFailed | D2HFailed

  function ElementSize(t: Tensor): nat {
    if t.elementSize == 0 then DEFAULT_ELEMENT_SIZE else t.elementSize
  }

  ghost function Bytes(t: Tensor): nat {
    TensorBytes(t.shape, t.rank, ElementSize(t))
  }

  /** Argument errors, in the order they are checked, before any memory is touched. */
  ghost function ArgumentError(inputs: seq<Tensor>, index: nat, expectedRank: nat): Option<Code> {
    if index >= |inputs| then Some(IndexOutOfBounds)
    else if inputs[index].shape.None? && inputs[index].rank != 0 then Some(NullPointer)
    else if inputs[index].rank != expectedRank then Some(RankMismatch)
    else if Bytes(inputs[index]) > 0 && inputs[index].data == 0 then Some(NullPointer)
    else None
  }

  /** A device-to-host copy on the stream. */
  datatype Copy = Copy(dst: Ptr, src: Ptr, size: nat)

  class TensorBuffer {
    var gpuPtr: Ptr
    var hostPtr: Ptr
    var sizeBytes: nat
    var isAliased: bool
    /** Let go since it was last filled. */
    ghost var released: bool

    constructor ()
      ensures gpuPtr == 0 && sizeBytes == 0 && !isAliased && !released
    {
      gpuPtr, hostPtr, sizeBytes, isAliased, released := 0, 0, 0, false, false;
    }

    /** A non-empty tensor buffer points somewhere until it is let go. */
    ghost predicate Filled()
      reads this
    {
      sizeBytes > 0 ==> (gpuPtr == 0 <==> released) && (released ==> !isAliased)
    }

    lemma JustFilled()
      requires (sizeBytes == 0 || gpuPtr != 0) && !released
      ensures Filled()
    {
    }

    /** Holds a buffer of the pool, rather than nothing or the caller's memory. */
    predicate Owns()
      reads this
    {
      gpuPtr != 0 && !isAliased
    }
  }

  class GpuBufferPool {
    var pool: map<nat, seq<Ptr>>
    /** Buffers obtained from the driver and not given back, with their sizes. */
    ghost var owned: map<Ptr, nat>
    ghost var buffers: set<TensorBuffer>

    ghost predicate Pooled(p: Ptr)
      reads this`pool, this`owned
    {
      p in owned && owned[p] in pool && p in pool[owned[p]]
    }

    ghost predicate Held(p: Ptr)
      reads this, buffers
    {
      exists b :: b in buffers && b.Owns() && b.gpuPtr == p
    }

    /** Free lists hold driver buffers of their own size, each once. */
    ghost predicate PoolOk()
      reads this`pool, this`owned
    {
      && 0 !in owned
      && (forall size, i | size in pool && 0 <= i < |pool[size]| :: pool[size][i] in owned && owned[pool[size][i]] == size)
      && (forall size, i, j | size in pool && 0 <= i < j < |pool[size]| :: pool[size][i] != pool[size][j])
    }

    /** Tensor buffers hold driver buffers of their own size, no two the same, none that is free;
        caller memory is not driver memory of the pool; empty tensors hold nothing. */
    ghost predicate BuffersOk()
      reads this, buffers
    {
      && (forall b | b in buffers && b.Owns() :: b.gpuPtr in owned && owned[b.gpuPtr] == b.sizeBytes && !Pooled(b.gpuPtr))
      && (forall b, c | b in buffers && c in buffers && b != c && b.Owns() && c.Owns() :: b.gpuPtr != c.gpuPtr)
      && (forall b | b in buffers && b.isAliased && b.gpuPtr != 0 :: b.gpuPtr !in owned)
      && (forall b | b in buffers && b.sizeBytes == 0 :: b.gpuPtr == 0)
    }

    ghost predicate Filled()
      reads this`buffers, buffers
    {
      forall b | b in buffers :: b.Filled()
    }

    ghost predicate Placed()
      reads this, buffers
    {
      PoolOk() && BuffersOk() && forall p | p in owned :: Pooled(p) || Held(p)
    }

    ghost predicate Valid()
      reads this, buffers
    {
      Placed() && Filled()
    }

    constructor ()
      ensures Valid() && pool == map[] && owned == map[] && buffers == {}
    {
      pool, owned, buffers := map[], map[], {};
    }

    /** A tensor buffer of the generated graph, holding nothing yet. */
    method NewTensorBuffer() returns (b: TensorBuffer)
      requires Valid()
      modifies this`buffers
      ensures Valid() && fresh(b) && buffers == old(buffers) + {b} && !b.Owns()
    {
      hide TensorBuffer.Filled, PoolOk, Pooled;
      b := new TensorBuffer();
      b.JustFilled();
      buffers := buffers + {b};
      forall p | p in owned ensures Pooled(p) || Held(p) {
        if !Pooled(p) {
          assert old(Held(p));
          var c :| c in old(buffers) && c.Owns() && c.gpuPtr == p;
        }
      }
    }

    /** Every buffer is in exactly one place: once in the free list of its own size, or in one
        tensor buffer. */
    lemma OnePlace(p: Ptr)
      requires Valid() && p in owned
      ensures Pooled(p) != Held(p)
      ensures forall size, i, j | size in pool && 0 <= i < |pool[size]| && 0 <= j < |pool[size]| ::
                pool[size][i] == p == pool[size][j] ==> size == owned[p] && i == j
      ensures forall b, c | b in buffers && c in buffers && b.Owns() && c.Owns() :: b.gpuPtr == p == c.gpuPtr ==> b == c
    {
    }

    /** A fresh buffer from the driver is in nobody's hands. */
    ghost predicate Fresh(driver: Option<Ptr>)
      reads this, buffers
    {
      driver.Some? ==> driver.value != 0 && driver.value !in owned && forall b | b in buffers :: b.gpuPtr != driver.value
    }

    /** Out of everybody's hands: what a caller of `PoolAlloc` gets. */
    ghost predicate Loose(p: Ptr)
      reads this, buffers
    {
      && p in owned && !Pooled(p) && (forall b | b in buffers :: b.gpuPtr != p)
      && forall q | q in owned && q != p :: Pooled(q) || Held(q)
    }

    method TakeFree(size: nat) returns (ptr: Ptr)
      requires Valid() && size in pool && pool[size] != []
      modifies this`pool
      ensures PoolOk() && BuffersOk() && Filled() && Loose(ptr) && ptr != 0 && owned[ptr] == size
      ensures ptr == old(pool)[size][|old(pool)[size]| - 1]
      ensures pool == old(pool)[size := old(pool)[size][..|old(pool)[size]| - 1]]
    {
      var free := pool[size];
      ptr := free[|free| - 1];
      assert Pooled(ptr);
      pool := pool[size := free[..|free| - 1]];
      forall p | p in owned && p != ptr ensures Pooled(p) <==> old(Pooled(p)) {
        if old(Pooled(p)) && owned[p] == size {
          var i :| 0 <= i < |free| && free[i] == p;
          assert pool[size][i] == p;
        }
      }
    }

    ghost method TakeFresh(ptr: Ptr, size: nat)
      requires Valid() && Fresh(Some(ptr))
      modifies this`owned
      ensures PoolOk() && BuffersOk() && Filled() && Loose(ptr) && owned == old(owned)[ptr := size]
    {
      owned := owned[ptr := size];
      forall p | p in old(owned) ensures Pooled(p) <==> old(Pooled(p)) {}
    }

    /** `pool_alloc`; `driver` is what `hipMalloc` would answer. */
    method PoolAlloc(size: nat, driver: Option<Ptr>) returns (ptr: Ptr)
      requires Valid() && size > 0 && Fresh(driver)
      modifies this`pool, this`owned
      ensures PoolOk() && BuffersOk() && Filled()
      ensures ptr == 0 <==> driver.None? && (size !in old(pool) || old(pool)[size] == [])
      ensures ptr == 0 ==> unchanged(this)
      ensures ptr != 0 ==>
                Loose(ptr) && owned == old(owned)[ptr := size]
      ensures size in old(pool) && old(pool)[size] != [] ==>
                ptr == old(pool)[size][|old(pool)[size]| - 1] && owned == old(owned)
      ensures (size !in old(pool) || old(pool)[size] == []) && driver.Some? ==> ptr == driver.value
    {
      if size in pool && pool[size] != [] {
        ptr := TakeFree(size);
      } else if driver.None? {
        ptr := 0;
      } else {
        ptr := driver.value;
        TakeFresh(ptr, size);
      }
    }

    /** `pool_release` of a buffer that nobody else holds. */
    method PutFree(ptr: Ptr, size: nat)
      requires PoolOk() && BuffersOk() && Loose(ptr) && owned[ptr] == size
      modifies this`pool
      ensures Placed() && Pooled(ptr)
      ensures pool == old(pool)[size := (if size in old(pool) then old(pool)[size] else []) + [ptr]]
    {
      pool := pool[size := (if size in pool then pool[size] else []) + [ptr]];
      assert pool[size][|pool[size]| - 1] == ptr;
      forall p | p in owned && p != ptr ensures Pooled(p) <==> old(Pooled(p)) {
        if old(Pooled(p)) && owned[p] == size {
          var i :| 0 <= i < |old(pool)[size]| && old(pool)[size][i] == p;
          assert pool[size][i] == p;
        }
      }
    }

    /** The tensor buffer no longer points at its memory. */
    method Unhold(b: TensorBuffer)
      requires Placed() && b in buffers && !b.isAliased
      modifies b`gpuPtr
      ensures PoolOk() && BuffersOk() && b.gpuPtr == 0
      ensures if old(b.gpuPtr) == 0 then Placed() else Loose(old(b.gpuPtr)) && owned[old(b.gpuPtr)] == b.sizeBytes
    {
      hide PoolOk, Pooled;
      ghost var ptr := b.gpuPtr;
      b.gpuPtr := 0;
      forall p | p in owned && p != ptr ensures Pooled(p) || Held(p) {
        if !Pooled(p) {
          assert old(Held(p));
          var c :| c in buffers && old(c.Owns()) && old(c.gpuPtr) == p;
          assert c.Owns() && c.gpuPtr == p;
        }
      }
    }

    /** What a tensor buffer holds goes back to the pool, if it holds anything. */
    method PoolRelease(b: TensorBuffer)
      requires Placed() && b in buffers && b.sizeBytes > 0 && !b.isAliased
      modifies this`pool, b`gpuPtr
      ensures Placed() && b.gpuPtr == 0
      ensures old(b.gpuPtr) == 0 ==> pool == old(pool)
      ensures old(b.gpuPtr) != 0 ==>
                && Pooled(old(b.gpuPtr))
                && pool == old(pool)[b.sizeBytes := (if b.sizeBytes in old(pool) then old(pool)[b.sizeBytes] else []) + [old(b.gpuPtr)]]
    {
      hide PoolOk, BuffersOk, Loose, Pooled;
      var ptr := b.gpuPtr;
      Unhold(b);
      if ptr != 0 { PutFree(ptr, b.sizeBytes); }
    }

    /** The tensor buffer now shows caller memory, or nothing. */
    method HandOver(b: TensorBuffer, ptr: Ptr, host: Ptr, size: nat, aliased: bool)
      requires Valid() && b in buffers && !b.Owns() && (ptr == 0 || aliased) && ptr !in owned && (size == 0 <==> ptr == 0)
      modifies b
      ensures Valid() && b.gpuPtr == ptr && b.hostPtr == host && b.sizeBytes == size && b.isAliased == aliased
      ensures !b.released
    {
      b.gpuPtr, b.hostPtr, b.sizeBytes, b.isAliased, b.released := ptr, host, size, aliased, false;
      forall p | p in owned && old(Held(p)) ensures Held(p) {
        var c :| c in buffers && old(c.Owns()) && old(c.gpuPtr) == p;
        assert c.Owns() && c.gpuPtr == p;
      }
    }

    twostate lemma StillFilled(b: TensorBuffer)
      requires b in buffers && old(Filled()) && b.Filled() && unchanged(this`buffers)
      requires forall c | c in buffers && c != b :: unchanged(c)
      ensures Filled()
    {
      hide TensorBuffer.Filled;
    }

    method GiveLoose(b: TensorBuffer, ptr: Ptr, host: Ptr, size: nat)
      requires PoolOk() && BuffersOk() && Filled() && Loose(ptr) && owned[ptr] == size > 0
      requires b in buffers && !b.Owns() && ptr != 0
      modifies b
      ensures Valid() && b.Owns() && b.gpuPtr == ptr && b.hostPtr == host && b.sizeBytes == size && !b.released
    {
      hide TensorBuffer.Filled, Filled, Pooled, PoolOk;
      b.gpuPtr, b.hostPtr, b.sizeBytes, b.isAliased, b.released := ptr, host, size, false, false;
      b.JustFilled();
      StillFilled(b);
      assert b.Owns() && b.gpuPtr == ptr;
      forall p | p in owned ensures Pooled(p) || Held(p) {
        if p != ptr && !Pooled(p) {
          assert old(Held(p));
          var c :| c in buffers && old(c.Owns()) && old(c.gpuPtr) == p;
          assert c.Owns() && c.gpuPtr == p;
        }
      }
    }

    ghost method HipFree(ptr: Ptr)
      requires PoolOk() && BuffersOk() && Filled() && Loose(ptr)
      modifies this`owned
      ensures Valid() && owned == old(owned) - {ptr}
    {
      hide TensorBuffer.Filled, Filled;
      owned := owned - {ptr};
      forall p | p in owned ensures Pooled(p) <==> old(Pooled(p)) {}
      assert PoolOk();
      hide PoolOk, Pooled;
      forall p | p in owned ensures Pooled(p) || Held(p) {
        if !Pooled(p) {
          assert old(Held(p));
          var c :| c in buffers && old(c.Owns()) && old(c.gpuPtr) == p;
          assert c.Owns() && c.gpuPtr == p;
        }
      }
    }

    /** `hipdnn_ep_tensor_prepare_input` into a tensor buffer that holds nothing of the pool's.
        `copied` tells whether the host-to-device copy could be enqueued. */
    method PrepareInput(inputs: seq<Tensor>, index: nat, expectedRank: nat, b: TensorBuffer, driver: Option<Ptr>, copied: bool)
      returns (code: Code)
      requires Valid() && b in buffers && !b.Owns() && Fresh(driver)
      requires forall i | 0 <= i < |inputs| ::
                 && (inputs[i].shape.Some? ==> |inputs[i].shape.value| == inputs[i].rank) && inputs[i].elementSize < TWO64
                 && (inputs[i].onGpu ==> inputs[i].data !in owned)
      modifies this`pool, this`owned, b
      ensures Valid() && buffers == old(buffers)
      ensures ArgumentError(inputs, index, expectedRank).Some? ==>
                code == ArgumentError(inputs, index, expectedRank).value && unchanged(this)
      ensures code != Ok ==> unchanged(b)
      ensures ArgumentError(inputs, index, expectedRank).None? ==>
                var t := inputs[index];
                && (code == Ok ==> b.sizeBytes == Bytes(t) && b.hostPtr == t.data && !b.released)
                && (Bytes(t) == 0 ==> code == Ok && b.gpuPtr == 0 && unchanged(this))
                && (Bytes(t) > 0 && t.onGpu ==> code == Ok && b.isAliased && b.gpuPtr == t.data && unchanged(this))
                && (Bytes(t) > 0 && !t.onGpu ==>
                      var free := Bytes(t) in old(pool) && old(pool)[Bytes(t)] != [];
                      && (code == AllocFailed <==> !free && driver.None?) && (code == AllocFailed ==> unchanged(this))
                      && (code == Ok || code == AllocFailed || code == H2DFailed)
                      && (code == Ok ==> copied && b.Owns() && owned == old(owned)[b.gpuPtr := Bytes(t)])
                      && (code == Ok && free ==> b.gpuPtr in old(pool)[Bytes(t)] && owned == old(owned))
                      && (code == H2DFailed ==> !copied && owned.Keys <= old(owned).Keys))
    {
      hide TensorBytes;
      if index >= |inputs| { return IndexOutOfBounds; }
      var t := inputs[index];
      if t.shape.None? && t.rank != 0 { return NullPointer; }
      if t.rank != expectedRank { return RankMismatch; }
      var size := CalculateTensorSize(t.shape, t.rank, ElementSize(t));
      if size == 0 {
        HandOver(b, 0, t.data, 0, false);
        return Ok;
      }
      if t.data == 0 { return NullPointer; }
      if t.onGpu {
        HandOver(b, t.data, t.data, size, true);
        return Ok;
      }
      var ptr := PoolAlloc(size, driver);
      if ptr == 0 { return AllocFailed; }
      if !copied {
        HipFree(ptr);
        return H2DFailed;
      }
      GiveLoose(b, ptr, t.data, size);
      code := Ok;
    }

    method Forget(b: TensorBuffer)
      requires Placed() && b in buffers && !b.Owns() && b.sizeBytes > 0
      requires forall c | c in buffers && c != b :: c.Filled()
      modifies b`gpuPtr, b`isAliased, b`released
      ensures Valid() && b.gpuPtr == 0 && !b.isAliased && b.released
    {
      b.gpuPtr, b.isAliased, b.released := 0, false, true;
      forall p | p in owned && old(Held(p)) ensures Held(p) {
        var c :| c in buffers && old(c.Owns()) && old(c.gpuPtr) == p;
        assert c.Owns() && c.gpuPtr == p;
      }
    }

    /** The pool gained what the tensor buffer owned, and nothing when it owned nothing: on a second
        release, for caller memory, and for empty tensors. */
    twostate predicate Returned(b: TensorBuffer)
      reads this, b, buffers
    {
      if old(b.Owns()) then
        && Pooled(old(b.gpuPtr))
        && pool == old(pool)[old(b.sizeBytes) := (if old(b.sizeBytes) in old(pool) then old(pool)[old(b.sizeBytes)] else [])
                                                 + [old(b.gpuPtr)]]
      else pool == old(pool)
    }

    /** The part `finalize_output` and `free_input` share: what the pool owns goes back to it,
        caller memory is let go. */
    method LetGo(b: TensorBuffer)
      requires Valid() && b in buffers && b.sizeBytes > 0
      modifies this`pool, b
      ensures Valid() && b.gpuPtr == 0 && !b.isAliased && b.released
      ensures b.sizeBytes == old(b.sizeBytes) && b.hostPtr == old(b.hostPtr)
      ensures Returned(b)
    {
      if !b.isAliased { PoolRelease(b); }
      Forget(b);
    }

    /** `hipdnn_ep_tensor_finalize_output`; `copied` tells whether its device-to-host copy could be
        enqueued. The copy reads a null pointer exactly for a non-empty buffer that was already let go. */
    method FinalizeOutput(b: TensorBuffer, copied: bool) returns (code: Code, copy: Option<Copy>)
      requires Valid() && b in buffers
      modifies this`pool, b
      ensures Valid() && b.gpuPtr == 0 && Returned(b)
      ensures b.sizeBytes == old(b.sizeBytes) && b.hostPtr == old(b.hostPtr) && (b.sizeBytes > 0 ==> b.released)
      ensures code == if b.sizeBytes == 0 || old(b.isAliased) || copied then Ok else D2HFailed
      ensures copy == if b.sizeBytes == 0 || old(b.isAliased) then None
                      else Some(Copy(b.hostPtr, old(b.gpuPtr), b.sizeBytes))
      ensures copy.Some? && copy.value.src == 0 <==> b.sizeBytes > 0 && old(b.released)
      ensures copy.Some? && copy.value.src != 0 ==> copy.value.src in owned && owned[copy.value.src] == b.sizeBytes
    {
      if b.sizeBytes == 0 { return Ok, None; }
      copy := if b.isAliased then None else Some(Copy(b.hostPtr, b.gpuPtr, b.sizeBytes));
      code := if !b.isAliased && !copied then D2HFailed else Ok;
      LetGo(b);
    }

    /** A second finalize releases nothing, but for a non-empty buffer it always copies from a null
        pointer to the caller's memory: also for an alias, which the first call did not copy. */
    method FinalizeTwice(b: TensorBuffer, copied: bool, copiedAgain: bool) returns (first: Option<Copy>, second: Option<Copy>)
      requires Valid() && b in buffers && !b.released
      modifies this`pool, b
      ensures Valid() && Returned(b)
      ensures first.Some? ==> first.value.src != 0
      ensures second == if b.sizeBytes == 0 then None else Some(Copy(b.hostPtr, 0, b.sizeBytes))
      ensures first.None? && second.Some? <==> b.sizeBytes > 0 && old(b.isAliased)
    {
      var code;
      code, first := FinalizeOutput(b, copied);
      code, second := FinalizeOutput(b, copiedAgain);
    }

    method FreeInput(b: TensorBuffer)
      requires Valid() && b in buffers
      modifies this`pool, b
      ensures Valid() && b.gpuPtr == 0 && Returned(b)
    {
      if b.sizeBytes == 0 { return; }
      LetGo(b);
    }
  }
}
