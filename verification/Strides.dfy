/** Row-major and NHWC strides of the hipDNN graph, as layouts of one block of memory. */
module Strides {
  import opened Divisibility
  import opened Shapes

  ghost predicate Positive(shape: seq<nat>) {
    forall i | 0 <= i < |shape| :: shape[i] > 0
  }

  /** A multi-index of the shape. */
  ghost predicate InShape(index: seq<nat>, shape: seq<nat>) {
    |index| == |shape| && forall i | 0 <= i < |shape| :: index[i] < shape[i]
  }

  /** Offset of a multi-index under given strides. */
  function Offset(index: seq<nat>, strides: seq<nat>): nat
    requires |index| == |strides|
  {
    if index == [] then 0 else index[0] * strides[0] + Offset(index[1..], strides[1..])
  }

  /** Each stride is the number of elements below it. */
  ghost predicate RowMajor(strides: seq<nat>, shape: seq<nat>) {
    |strides| == |shape| && forall i | 0 <= i < |shape| :: strides[i] == Product(shape[i + 1..])
  }

  method ComputeStrides(shape: seq<nat>) returns (strides: seq<nat>)
    ensures RowMajor(strides, shape)
  {
    strides := seq(|shape|, _ => 0);
    var stride, i := 1, |shape|;
    while i > 0
      invariant 0 <= i <= |shape| == |strides| && stride == Product(shape[i..])
      invariant forall k | i <= k < |shape| :: strides[k] == Product(shape[k + 1..])
    {
      i := i - 1;
      assert shape[i..][1..] == shape[i + 1..];
      strides := strides[i := stride];
      stride := stride * shape[i];
    }
  }

  lemma {:induction false} ProductPositive(shape: seq<nat>)
    requires Positive(shape)
    ensures Product(shape) > 0
  {
    if shape != [] { ProductPositive(shape[1..]); }
  }

  lemma RowMajorTail(strides: seq<nat>, shape: seq<nat>)
    requires RowMajor(strides, shape) && shape != []
    ensures RowMajor(strides[1..], shape[1..]) && strides[0] == Product(shape[1..])
  {
    forall i | 0 <= i < |shape| - 1 ensures strides[1..][i] == Product(shape[1..][i + 1..]) {
      assert shape[1..][i + 1..] == shape[i + 2..];
    }
  }

  /** The multi-index at a given offset. */
  ghost function IndexAt(offset: nat, shape: seq<nat>): (index: seq<nat>)
    requires Positive(shape)
    ensures |index| == |shape|
  {
    if shape == [] then []
    else
      ProductPositive(shape[1..]);
      [offset / Product(shape[1..])] + IndexAt(offset % Product(shape[1..]), shape[1..])
  }

  /** Row-major strides number the multi-indices 0, 1, .., numel - 1: every multi-index has an
      offset in range, and it is the one multi-index there. */
  lemma {:induction false} OffsetIsIndexed(index: seq<nat>, strides: seq<nat>, shape: seq<nat>)
    requires InShape(index, shape) && RowMajor(strides, shape) && Positive(shape)
    ensures Offset(index, strides) < Product(shape) && IndexAt(Offset(index, strides), shape) == index
  {
    if shape != [] {
      RowMajorTail(strides, shape);
      OffsetIsIndexed(index[1..], strides[1..], shape[1..]);
      var below, rest := Product(shape[1..]), Offset(index[1..], strides[1..]);
      DivModUnique(Offset(index, strides), index[0], rest, below);
      MulMono(index[0] + 1, shape[0], below);
      assert (index[0] + 1) * below == index[0] * below + below;
      assert index == [index[0]] + index[1..];
    }
  }

  lemma IndexSplits(offset: nat, shape: seq<nat>) returns (q: nat, r: nat)
    requires Positive(shape) && shape != [] && offset < Product(shape)
    ensures offset == q * Product(shape[1..]) + r && q < shape[0] && r < Product(shape[1..])
    ensures IndexAt(offset, shape) == [q] + IndexAt(r, shape[1..])
  {
    ProductPositive(shape[1..]);
    var below := Product(shape[1..]);
    q, r := offset / below, offset % below;
    assert offset == q * below + r;
    MulLess(q, shape[0], below);
  }

  /** And every offset in range is reached. */
  lemma {:induction false} IndexHasOffset(offset: nat, strides: seq<nat>, shape: seq<nat>)
    requires offset < Product(shape) && RowMajor(strides, shape) && Positive(shape)
    ensures InShape(IndexAt(offset, shape), shape) && Offset(IndexAt(offset, shape), strides) == offset
  {
    if shape != [] {
      hide IndexAt, Product, RowMajor;
      RowMajorTail(strides, shape);
      var q, r := IndexSplits(offset, shape);
      IndexHasOffset(r, strides[1..], shape[1..]);
      var index := IndexAt(offset, shape);
      assert index[1..] == IndexAt(r, shape[1..]);
      forall i | 0 <= i < |shape| ensures index[i] < shape[i] {
        if i > 0 { assert index[i] == index[1..][i - 1] && shape[i] == shape[1..][i - 1]; }
      }
    }
  }

  // ---- NHWC ----

  /** An NCHW quadruple in NHWC order. */
  function ChannelsLast(s: seq<nat>): seq<nat>
    requires |s| == 4
  {
    [s[0], s[2], s[3], s[1]]
  }

  ghost function RowMajorStrides(shape: seq<nat>): (strides: seq<nat>)
    ensures RowMajor(strides, shape)
  {
    seq(|shape|, i requires 0 <= i < |shape| => Product(shape[i + 1..]))
  }

  lemma OffsetOfFour(index: seq<nat>, strides: seq<nat>)
    requires |index| == 4 == |strides|
    ensures Offset(index, strides)
            == index[0] * strides[0] + index[1] * strides[1] + index[2] * strides[2] + index[3] * strides[3]
  {
    assert index[3..][1..] == [];
    assert Offset(index[3..], strides[3..]) == index[3] * strides[3];
    assert index[2..][1..] == index[3..] && strides[2..][1..] == strides[3..];
    assert Offset(index[2..], strides[2..]) == index[2] * strides[2] + index[3] * strides[3];
    assert index[1..][1..] == index[2..] && strides[1..][1..] == strides[2..];
    assert Offset(index[1..], strides[1..]) == index[1] * strides[1] + Offset(index[2..], strides[2..]);
  }

  lemma NhwcStrides(shape: seq<nat>)
    requires |shape| == 4
    ensures RowMajorStrides(ChannelsLast(shape)) == [shape[2] * shape[3] * shape[1], shape[3] * shape[1], shape[1], 1]
  {
    var s := ChannelsLast(shape);
    assert s[4..] == [] && s[3..] == [s[3]] + s[4..] && s[2..] == [s[2]] + s[3..] && s[1..] == [s[1]] + s[2..];
    ProductPrepend(s[3], s[4..]);
    ProductPrepend(s[2], s[3..]);
    ProductPrepend(s[1], s[2..]);
    assert s[1] * (s[2] * s[3]) == s[1] * s[2] * s[3];
  }

  method ComputeNHWCStrides(shape: seq<nat>) returns (strides: seq<nat>)
    requires |shape| == 4
    ensures |strides| == 4
    ensures forall index | InShape(index, shape) ::
              Offset(index, strides) == Offset(ChannelsLast(index), RowMajorStrides(ChannelsLast(shape)))
  {
    var c, h, w := shape[1], shape[2], shape[3];
    strides := [h * w * c, 1, w * c, c];
    forall index | InShape(index, shape)
      ensures Offset(index, strides) == Offset(ChannelsLast(index), RowMajorStrides(ChannelsLast(shape)))
    {
      OffsetOfFour(index, strides);
      NhwcStrides(shape);
      OffsetOfFour(ChannelsLast(index), RowMajorStrides(ChannelsLast(shape)));
    }
  }

  /** `ComputeConvStrides`: strides of a 4-D shape in either layout. */
  method ComputeConvStrides(shape: seq<nat>, nhwc: bool) returns (strides: seq<nat>)
    requires |shape| == 4
    ensures if nhwc then
              |strides| == 4 && forall index | InShape(index, shape) ::
                Offset(index, strides) == Offset(ChannelsLast(index), RowMajorStrides(ChannelsLast(shape)))
            else RowMajor(strides, shape)
  {
    if nhwc { strides := ComputeNHWCStrides(shape); } else { strides := ComputeStrides(shape); }
  }

  function ChannelsFirst(s: seq<nat>): seq<nat>
    requires |s| == 4
  {
    [s[0], s[3], s[1], s[2]]
  }

  lemma OrdersCancel(s: seq<nat>)
    requires |s| == 4
    ensures ChannelsFirst(ChannelsLast(s)) == s == ChannelsLast(ChannelsFirst(s))
  {
    assert [s[0], s[1], s[2], s[3]] == s;
  }

  lemma OrdersKeepRange(index: seq<nat>, shape: seq<nat>)
    requires |shape| == 4
    ensures InShape(index, shape) ==> InShape(ChannelsLast(index), ChannelsLast(shape))
    ensures InShape(index, ChannelsLast(shape)) ==> InShape(ChannelsFirst(index), shape)
  {
  }

  /** Where the element at a row-major offset lies in the NHWC layout of the same shape. */
  ghost function Relaid(offset: nat, shape: seq<nat>): nat
    requires |shape| == 4 && Positive(shape)
  {
    Offset(ChannelsLast(IndexAt(offset, shape)), RowMajorStrides(ChannelsLast(shape)))
  }

  /** And back. */
  ghost function RelaidBack(offset: nat, shape: seq<nat>): nat
    requires |shape| == 4 && Positive(shape)
  {
    Offset(ChannelsFirst(IndexAt(offset, ChannelsLast(shape))), RowMajorStrides(shape))
  }

  lemma SameNumel(shape: seq<nat>)
    requires |shape| == 4
    ensures Product(ChannelsLast(shape)) == Product(shape)
  {
    var a, b := [shape[0]], [shape[1]];
    var hw := [shape[2], shape[3]];
    assert shape == a + (b + hw) && ChannelsLast(shape) == a + (hw + b);
    ProductSplit(a, b + hw);
    ProductSplit(b, hw);
    ProductSplit(a, hw + b);
    ProductSplit(hw, b);
  }

  lemma PositiveLast(shape: seq<nat>)
    requires |shape| == 4 && Positive(shape)
    ensures Positive(ChannelsLast(shape))
  {
  }

  lemma RelaidReturns(offset: nat, shape: seq<nat>)
    requires |shape| == 4 && Positive(shape) && offset < Product(shape)
    ensures Relaid(offset, shape) < Product(shape) && RelaidBack(Relaid(offset, shape), shape) == offset
  {
    var last, index := ChannelsLast(shape), IndexAt(offset, shape);
    PositiveLast(shape);
    hide Product, RowMajorStrides, Offset, IndexAt, InShape, ChannelsLast, ChannelsFirst, Positive, RowMajor;
    SameNumel(shape);
    IndexHasOffset(offset, RowMajorStrides(shape), shape);
    OrdersKeepRange(index, shape);
    OffsetIsIndexed(ChannelsLast(index), RowMajorStrides(last), last);
    OrdersCancel(index);
  }

  lemma RelaidBackReturns(offset: nat, shape: seq<nat>)
    requires |shape| == 4 && Positive(shape) && offset < Product(shape)
    ensures RelaidBack(offset, shape) < Product(shape) && Relaid(RelaidBack(offset, shape), shape) == offset
  {
    var last, index := ChannelsLast(shape), IndexAt(offset, ChannelsLast(shape));
    PositiveLast(shape);
    hide Product, RowMajorStrides, Offset, IndexAt, InShape, ChannelsLast, ChannelsFirst, Positive, RowMajor;
    SameNumel(shape);
    IndexHasOffset(offset, RowMajorStrides(last), last);
    OrdersKeepRange(index, shape);
    OffsetIsIndexed(ChannelsFirst(index), RowMajorStrides(shape), shape);
    OrdersCancel(index);
  }

  /** The two layouts differ by a permutation of the same memory. */
  lemma LayoutsPermute(shape: seq<nat>)
    requires |shape| == 4 && Positive(shape)
    ensures Product(ChannelsLast(shape)) == Product(shape)
    ensures forall o: nat | o < Product(shape) ::
              && Relaid(o, shape) < Product(shape) && RelaidBack(Relaid(o, shape), shape) == o
              && RelaidBack(o, shape) < Product(shape) && Relaid(RelaidBack(o, shape), shape) == o
  {
    SameNumel(shape);
    hide Product, Relaid, RelaidBack;
    forall o: nat | o < Product(shape)
      ensures Relaid(o, shape) < Product(shape) && RelaidBack(Relaid(o, shape), shape) == o
      ensures RelaidBack(o, shape) < Product(shape) && Relaid(RelaidBack(o, shape), shape) == o
    {
      RelaidReturns(o, shape);
      RelaidBackReturns(o, shape);
    }
  }
}
