/**
 The vector type of lib.rs (lines 1-18) and its score function; the copy of
 this type in vector.rs is not part of this model. The `f32` components are
 integers here, so the score is an exact integer and `int`'s total order
 stands in for `f32::total_cmp`.
 */
module Vectors {

  /** `Vector<DIM>`: the components in order. */
  datatype Vector = Vector(data: seq<int>)

  /** Sum of the first `n` componentwise products, accumulated front to back
      as the iterator `sum` does. */
  function SumProducts(xs: seq<int>, ys: seq<int>, n: nat): int
    requires n <= |xs| && n <= |ys|
  {
    if n == 0 then 0 else SumProducts(xs, ys, n - 1) + xs[n - 1] * ys[n - 1]
  }

  /** `Vector::euclidian_distance`: despite its name, the sum over the zipped
      components of their products, that is, a dot product. `zip` stops at the
      shorter of the two. */
  function Distance(a: Vector, b: Vector): int {
    SumProducts(a.data, b.data, ZipLength(a, b))
  }

  function ZipLength(a: Vector, b: Vector): nat {
    if |a.data| <= |b.data| then |a.data| else |b.data|
  }

  lemma {:induction false} SumProductsSymmetric(xs: seq<int>, ys: seq<int>, n: nat)
    requires n <= |xs| && n <= |ys|
    ensures SumProducts(xs, ys, n) == SumProducts(ys, xs, n)
  {
    if n > 0 {
      SumProductsSymmetric(xs, ys, n - 1);
    }
  }

  /** The score does not depend on which of the two vectors it is called on. */
  lemma DistanceSymmetric(a: Vector, b: Vector)
    ensures Distance(a, b) == Distance(b, a)
  {
    SumProductsSymmetric(a.data, b.data, ZipLength(a, b));
  }

  /** Extending both vectors by one component adds that component's product. */
  lemma DistanceAppend(a: Vector, b: Vector, x: int, y: int)
    requires |a.data| == |b.data|
    ensures Distance(Vector(a.data + [x]), Vector(b.data + [y])) == Distance(a, b) + x * y
  {
    SumProductsPrefix(a.data, b.data, a.data + [x], b.data + [y], |a.data|);
  }

  /** The sum over a prefix only looks at that prefix. */
  lemma {:induction false} SumProductsPrefix(xs: seq<int>, ys: seq<int>, xs': seq<int>, ys': seq<int>, n: nat)
    requires n <= |xs| <= |xs'| && n <= |ys| <= |ys'|
    requires xs'[..n] == xs[..n] && ys'[..n] == ys[..n]
    ensures SumProducts(xs', ys', n) == SumProducts(xs, ys, n)
  {
    if n > 0 {
      assert xs'[..n - 1] == xs[..n - 1] && ys'[..n - 1] == ys[..n - 1];
      assert xs'[n - 1] == xs'[..n][n - 1] && xs[n - 1] == xs[..n][n - 1];
      assert ys'[n - 1] == ys'[..n][n - 1] && ys[n - 1] == ys[..n][n - 1];
      SumProductsPrefix(xs, ys, xs', ys', n - 1);
    }
  }
}
