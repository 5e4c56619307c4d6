/** Checked byte size of a tensor in 64-bit arithmetic. */
module TensorSize {
  import opened Divisibility
  import opened MachineWord
  import opened Shapes
  import opened Wrappers

  ghost predicate NonNegative(shape: seq<int>) {
    forall i | 0 <= i < |shape| :: shape[i] >= 0
  }

  ghost function Dims(shape: seq<int>): (dims: seq<nat>)
    requires NonNegative(shape)
    ensures |dims| == |shape| && forall i | 0 <= i < |shape| :: dims[i] == shape[i]
  {
    seq(|shape|, i requires 0 <= i < |shape| => shape[i])
  }

  /** The mathematical byte count, which exists when no extent is negative. */
  ghost function ExactBytes(shape: seq<int>, elementSize: nat): nat
    requires NonNegative(shape)
  {
    Product(Dims(shape)) * elementSize
  }

  /** A product that overflowed stays out of range, unless a later extent is zero. */
  lemma OverflowLasts(dims: seq<nat>, i: nat, elementSize: nat)
    requires i <= |dims| && elementSize > 0 && Product(dims[..i]) >= TWO64
    ensures Product(dims) == 0 || Product(dims) * elementSize >= TWO64
  {
    assert dims == dims[..i] + dims[i..];
    ProductSplit(dims[..i], dims[i..]);
    var front, back, all := Product(dims[..i]), Product(dims[i..]), Product(dims);
    hide Product;
    if back > 0 {
      MulMono(1, back, front);
      MulMono(1, elementSize, all);
    }
  }

  lemma QuotientGuard(total: nat, factor: nat)
    requires factor > 0
    ensures total > (TWO64 - 1) / factor <==> total * factor >= TWO64
  {
    var q := (TWO64 - 1) / factor;
    assert q * factor <= TWO64 - 1 < (q + 1) * factor;
    if total > q {
      assert total * factor >= (q + 1) * factor;
    } else {
      assert total * factor <= q * factor;
    }
  }

  /** The byte count callers are promised: exact when it fits 64 bits; 0 when it does not and for
      shapes that are missing or have a negative extent. */
  ghost function TensorBytes(shape: Option<seq<int>>, rank: nat, elementSize: nat): nat {
    if rank == 0 then ExactBytes([], elementSize)
    else if shape.None? || !NonNegative(shape.value) then 0
    else if ExactBytes(shape.value, elementSize) < TWO64 then ExactBytes(shape.value, elementSize)
    else 0
  }

  /** `calculateTensorSize`: `None` is the null shape pointer; the element size is positive, as its
      caller makes it. */
  method CalculateTensorSize(shape: Option<seq<int>>, rank: nat, elementSize: nat) returns (bytes: nat)
    requires 0 < elementSize < TWO64 && (shape.Some? ==> |shape.value| == rank)
    ensures bytes < TWO64
    ensures bytes == TensorBytes(shape, rank, elementSize)
  {
    if rank == 0 {
      assert Dims([]) == [];
      return elementSize;
    }
    if shape.None? { return 0; }
    var dims := shape.value;
    for i := 0 to rank
      invariant NonNegative(dims[..i])
    {
      if dims[i] < 0 { return 0; }
    }
    assert dims[..rank] == dims;
    ghost var exact := Dims(dims);
    var total := 1;
    for i := 0 to rank
      invariant 0 <= total < TWO64 && total == Product(exact[..i])
    {
      var dim := dims[i];
      assert exact[..i + 1] == exact[..i] + [dim];
      ProductAppend(exact[..i], dim);
      if dim != 0 { QuotientGuard(total, dim); }
      if dim != 0 && total > (TWO64 - 1) / dim {
        OverflowLasts(exact, i + 1, elementSize);
        return 0;
      }
      total := total * dim;
    }
    assert exact[..rank] == exact;
    QuotientGuard(total, elementSize);
    if total > (TWO64 - 1) / elementSize { return 0; }
    bytes := total * elementSize;
  }

  /** A zero extent makes the tensor empty wherever it stands, whatever the other extents. */
  lemma {:induction false} ZeroExtentIsEmpty(shape: seq<int>, i: nat, elementSize: nat)
    requires NonNegative(shape) && i < |shape| && shape[i] == 0
    ensures ExactBytes(shape, elementSize) == 0
  {
    var dims := Dims(shape);
    assert dims == dims[..i] + ([dims[i]] + dims[i + 1..]);
    ProductSplit(dims[..i], [dims[i]] + dims[i + 1..]);
    ProductPrepend(dims[i], dims[i + 1..]);
  }

  lemma {:induction false} EmptyHasZeroExtent(dims: seq<nat>) returns (i: nat)
    requires Product(dims) == 0
    ensures i < |dims| && dims[i] == 0
  {
    if dims[0] == 0 {
      i := 0;
    } else {
      i := EmptyHasZeroExtent(dims[1..]);
      i := i + 1;
    }
  }

  /** Size 0, which `prepare_input` takes for an empty tensor, is also what corrupt extents and
      byte counts beyond 64 bits get. */
  lemma ZeroMeans(shape: seq<int>, elementSize: nat)
    requires 0 < elementSize < TWO64
    ensures TensorBytes(Some(shape), |shape|, elementSize) == 0 <==>
              || !NonNegative(shape)
              || (exists i :: 0 <= i < |shape| && shape[i] == 0)
              || ExactBytes(shape, elementSize) >= TWO64
  {
    if NonNegative(shape) {
      var product := Product(Dims(shape));
      if product == 0 {
        var i := EmptyHasZeroExtent(Dims(shape));
        assert shape[i] == 0;
      } else {
        MulMono(1, product, elementSize);
        forall i | 0 <= i < |shape| ensures shape[i] != 0 {
          if shape[i] == 0 { ZeroExtentIsEmpty(shape, i, 1); }
        }
      }
    }
  }
}
