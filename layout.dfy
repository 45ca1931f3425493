/**
 * Raster layout of an N-dimensional box of cells, axis 0 varying fastest.
 *
 * A box is given by its extent per axis (`dims`); a position inside it is a
 * vector `p` with `0 <= p[k] < dims[k]`. The flat index of `p` is
 * `p[0] + dims[0] * (p[1] + dims[1] * (p[2] + ...))`. Both the coefficient
 * buffer of a neighborhood and the pixel buffer of an image are laid out
 * this way, so that one flat index means one position in both.
 */
module Layout {

  /** Component-wise sum of two index vectors of the same length. */
  function Plus(a: seq<int>, b: seq<int>): (c: seq<int>)
    requires |a| == |b|
    ensures |c| == |a| && forall k {:trigger c[k]} :: 0 <= k < |c| ==> c[k] == a[k] + b[k]
  {
    seq(|a|, k requires 0 <= k < |a| => a[k] + b[k])
  }

  /** Component-wise difference of two index vectors of the same length. */
  function Minus(a: seq<int>, b: seq<int>): (c: seq<int>)
    requires |a| == |b|
    ensures |c| == |a| && forall k {:trigger c[k]} :: 0 <= k < |c| ==> c[k] == a[k] - b[k]
  {
    seq(|a|, k requires 0 <= k < |a| => a[k] - b[k])
  }

  /** Number of cells of a box: the product of its extents. */
  function Count(dims: seq<nat>): nat
  {
    if dims == [] then 1 else dims[0] * Count(dims[1..])
  }

  /** `p` is a position inside the box `dims`. */
  predicate InBox(dims: seq<nat>, p: seq<int>)
  {
    |p| == |dims| && forall k {:trigger p[k]} :: 0 <= k < |p| ==> 0 <= p[k] < dims[k]
  }

  lemma MulMono(a: nat, x: int, y: int)
    requires x <= y
    ensures a * x <= a * y
  {
  }

  /** Splitting a flat index below `a * b` by `a` leaves a quotient below `b`. */
  lemma DivBound(i: nat, a: nat, b: nat)
    requires i < a * b
    ensures a > 0 && i / a < b
  {
  }

  /** Putting a digit `x < a` in front of `f < c` stays below `a * c`. */
  lemma JoinBound(x: int, a: nat, f: nat, c: nat)
    requires 0 <= x < a && f < c
    ensures x + a * f < a * c
  {
    MulMono(a, f, c - 1);
    assert a * (c - 1) == a * c - a;
  }

  /** Euclidean division undoes `x + a * f` for a digit `0 <= x < a`. */
  lemma DivModJoin(x: int, a: nat, f: int)
    requires 0 <= x < a
    ensures (x + a * f) / a == f && (x + a * f) % a == x
  {
    var n := x + a * f;
    var q, r := n / a, n % a;
    assert a * q + r == n;
    if q > f {
      MulMono(a, f + 1, q);
      assert false;
    } else if q < f {
      MulMono(a, q + 1, f);
      assert false;
    }
  }

  /** The position whose flat index is `i`. */
  function Unflatten(dims: seq<nat>, i: nat): (p: seq<int>)
    requires i < Count(dims)
    ensures InBox(dims, p)
    decreases |dims|
  {
    if dims == [] then []
    else
      DivBound(i, dims[0], Count(dims[1..]));
      [i % dims[0]] + Unflatten(dims[1..], i / dims[0])
  }

  /** The flat index of position `p`. */
  function Flatten(dims: seq<nat>, p: seq<int>): (i: nat)
    requires InBox(dims, p)
    ensures i < Count(dims)
    decreases |dims|
  {
    if dims == [] then 0
    else
      assert InBox(dims[1..], p[1..]);
      var f := Flatten(dims[1..], p[1..]);
      JoinBound(p[0], dims[0], f, Count(dims[1..]));
      p[0] + dims[0] * f
  }

  /** Flattening the position of a flat index gives that index back. */
  lemma {:induction false} FlattenUnflatten(dims: seq<nat>, i: nat)
    requires i < Count(dims)
    ensures Flatten(dims, Unflatten(dims, i)) == i
    decreases |dims|
  {
    if dims != [] {
      var a, q, r := dims[0], i / dims[0], i % dims[0];
      DivBound(i, a, Count(dims[1..]));
      var p := Unflatten(dims, i);
      assert p == [r] + Unflatten(dims[1..], q);
      assert p[1..] == Unflatten(dims[1..], q);
      FlattenUnflatten(dims[1..], q);
      assert Flatten(dims, p) == r + a * q;
    }
  }

  /** Unflattening the flat index of a position gives that position back. */
  lemma {:induction false} UnflattenFlatten(dims: seq<nat>, p: seq<int>)
    requires InBox(dims, p)
    ensures Unflatten(dims, Flatten(dims, p)) == p
    decreases |dims|
  {
    if dims != [] {
      assert InBox(dims[1..], p[1..]);
      var f := Flatten(dims[1..], p[1..]);
      DivModJoin(p[0], dims[0], f);
      UnflattenFlatten(dims[1..], p[1..]);
      assert p == [p[0]] + p[1..];
    }
  }
}
