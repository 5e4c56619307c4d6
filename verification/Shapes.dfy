/** Element counts of tensor shapes. */
module Shapes {
  /** Number of elements of a shape. */
  function Product(s: seq<nat>): nat {
    if s == [] then 1 else s[0] * Product(s[1..])
  }

  lemma {:induction false} ProductSplit(a: seq<nat>, b: seq<nat>)
    ensures Product(a + b) == Product(a) * Product(b)
  {
    if a == [] {
      assert a + b == b;
    } else {
      assert (a + b)[1..] == a[1..] + b;
      ProductSplit(a[1..], b);
      assert a[0] * (Product(a[1..]) * Product(b)) == (a[0] * Product(a[1..])) * Product(b);
    }
  }

  lemma ProductAppend(a: seq<nat>, x: nat)
    ensures Product(a + [x]) == Product(a) * x
  {
    ProductSplit(a, [x]);
    assert [x][1..] == [];
  }

  lemma ProductPrepend(x: nat, b: seq<nat>)
    ensures Product([x] + b) == x * Product(b)
  {
    assert ([x] + b)[1..] == b;
  }
}
