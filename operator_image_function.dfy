/**
 * NeighborhoodOperatorImageFunction: the response of a stored neighborhood
 * operator applied to the image around one location.
 *
 * The response at an integer index is the inner product of the operator's
 * coefficients with the window of image samples of the same shape centred
 * at that index, both taken in the same raster order. Evaluation at a
 * physical point or at a continuous index is not implemented by this class
 * and answers zero.
 */
module OperatorImageFunction {
  import opened Layout
  import opened Neighborhoods
  import opened Images

  /**
   * The samples the operator is applied to: cell `n` of a neighborhood of
   * the given radius, centred at `index`, read through the boundary condition.
   */
  function Window(image: Image, boundary: BoundaryCondition, index: seq<int>, radius: seq<nat>): (w: seq<int>)
    requires image.Valid() && |index| == |image.size| == |radius|
    ensures |w| == Size(radius)
  {
    seq(Size(radius), n requires 0 <= n < Size(radius) =>
      Sample(image, boundary, Plus(index, Offset(radius, n))))
  }

  /** Sum of `c[k] * w[k]` over the first `n` cells, accumulated front to back. */
  function InnerProduct(c: seq<real>, w: seq<int>, n: nat): real
    requires n <= |c| <= |w|
  {
    if n == 0 then 0.0 else InnerProduct(c, w, n - 1) + c[n - 1] * (w[n - 1] as real)
  }

  /** Sum of the first `n` coefficients. */
  function Total(c: seq<real>, n: nat): real
    requires n <= |c|
  {
    if n == 0 then 0.0 else Total(c, n - 1) + c[n - 1]
  }

  /** Coefficient-wise sum of two operators' buffers. */
  function AddBuffers(a: seq<real>, b: seq<real>): (c: seq<real>)
    requires |a| == |b|
    ensures |c| == |a| && forall n :: 0 <= n < |c| ==> c[n] == a[n] + b[n]
  {
    seq(|a|, n requires 0 <= n < |a| => a[n] + b[n])
  }

  /** Every coefficient of an operator's buffer multiplied by `s`. */
  function Scale(s: real, a: seq<real>): (c: seq<real>)
    ensures |c| == |a| && forall n :: 0 <= n < |c| ==> c[n] == s * a[n]
  {
    seq(|a|, n requires 0 <= n < |a| => s * a[n])
  }

  /** What `EvaluateAtIndex` computes for operator `op` at `index`. */
  function Response(op: Neighborhood, image: Image, boundary: BoundaryCondition, index: seq<int>): real
    requires op.WellFormed() && image.Valid() && |index| == |image.size| == |op.radius|
  {
    BufferFits(op);
    InnerProduct(op.buffer, Window(image, boundary, index, op.radius), |op.buffer|)
  }

  /**
   * Coefficient and sample line up: the window's cell for offset `o` holds
   * the sample at `index + o`, the position the operator's cell for `o` weighs.
   */
  lemma WindowAtOffset(image: Image, boundary: BoundaryCondition, index: seq<int>, radius: seq<nat>, o: seq<int>)
    requires image.Valid() && |index| == |image.size| == |radius|
    requires InRadius(radius, o)
    ensures Window(image, boundary, index, radius)[CellAt(radius, o)] == Sample(image, boundary, Plus(index, o))
  {
    OffsetOfCellAt(radius, o);
  }

  /** The window's centre cell holds the sample at the index itself. */
  lemma WindowAtCenter(image: Image, boundary: BoundaryCondition, index: seq<int>, radius: seq<nat>)
    requires image.Valid() && |index| == |image.size| == |radius|
    ensures Window(image, boundary, index, radius)[Center(radius)] == Sample(image, boundary, index)
  {
    CenterOffset(radius);
    assert Plus(index, Zeros(|index|)) == index;
  }

  /** An operator and its window have the same number of cells, so the inner product uses every coefficient. */
  lemma WindowMatchesOperator(op: Neighborhood, image: Image, boundary: BoundaryCondition, index: seq<int>)
    requires op.Allocated() && image.Valid() && |index| == |image.size| == |op.radius|
    ensures |Window(image, boundary, index, op.radius)| == |op.buffer| > 0
  {
    SizeOdd(op.radius);
  }

  lemma {:induction false} InnerProductZero(c: seq<real>, w: seq<int>, n: nat)
    requires n <= |c| <= |w|
    requires forall k :: 0 <= k < n ==> c[k] == 0.0
    ensures InnerProduct(c, w, n) == 0.0
  {
    if n > 0 {
      InnerProductZero(c, w, n - 1);
    }
  }

  lemma {:induction false} InnerProductUnit(c: seq<real>, w: seq<int>, n: nat, m: nat)
    requires n <= |c| <= |w| && m < n
    requires forall k :: 0 <= k < n && k != m ==> c[k] == 0.0
    ensures InnerProduct(c, w, n) == c[m] * (w[m] as real)
  {
    if m == n - 1 {
      InnerProductZero(c, w, n - 1);
    } else {
      InnerProductUnit(c, w, n - 1, m);
    }
  }

  lemma {:induction false} InnerProductConstant(c: seq<real>, w: seq<int>, n: nat, v: int)
    requires n <= |c| <= |w|
    requires forall k :: 0 <= k < n ==> w[k] == v
    ensures InnerProduct(c, w, n) == Total(c, n) * (v as real)
  {
    if n > 0 {
      InnerProductConstant(c, w, n - 1, v);
    }
  }

  lemma {:induction false} InnerProductAdd(a: seq<real>, b: seq<real>, w: seq<int>, n: nat)
    requires n <= |a| == |b| <= |w|
    ensures InnerProduct(AddBuffers(a, b), w, n) == InnerProduct(a, w, n) + InnerProduct(b, w, n)
  {
    if n > 0 {
      InnerProductAdd(a, b, w, n - 1);
    }
  }

  lemma {:induction false} InnerProductScale(s: real, c: seq<real>, w: seq<int>, n: nat)
    requires n <= |c| <= |w|
    ensures InnerProduct(Scale(s, c), w, n) == s * InnerProduct(c, w, n)
  {
    if n > 0 {
      InnerProductScale(s, c, w, n - 1);
    }
  }

  lemma {:induction false} InnerProductAgree(c: seq<real>, w: seq<int>, w': seq<int>, n: nat)
    requires n <= |c| <= |w| && |c| <= |w'|
    requires forall k :: 0 <= k < n ==> w[k] == w'[k]
    ensures InnerProduct(c, w, n) == InnerProduct(c, w', n)
  {
    if n > 0 {
      InnerProductAgree(c, w, w', n - 1);
    }
  }

  /** An operator whose coefficients are all zero (or that has none) responds with zero everywhere. */
  lemma ZeroOperatorResponse(op: Neighborhood, image: Image, boundary: BoundaryCondition, index: seq<int>)
    requires op.WellFormed() && image.Valid() && |index| == |image.size| == |op.radius|
    requires forall n :: 0 <= n < |op.buffer| ==> op.buffer[n] == 0.0
    ensures Response(op, image, boundary, index) == 0.0
  {
    BufferFits(op);
    InnerProductZero(op.buffer, Window(image, boundary, index, op.radius), |op.buffer|);
  }

  /** The default-constructed operator has no coefficients and responds with zero everywhere. */
  lemma UnsetOperatorResponse(image: Image, boundary: BoundaryCondition, index: seq<int>)
    requires image.Valid() && |index| == |image.size|
    ensures Response(Unset(|index|), image, boundary, index) == 0.0
  {
  }

  /** The identity operator (one at the centre, zero elsewhere) reads back the sample at the index itself. */
  lemma IdentityOperatorResponse(op: Neighborhood, image: Image, boundary: BoundaryCondition, index: seq<int>)
    requires op.Allocated() && image.Valid() && |index| == |image.size| == |op.radius|
    requires op.buffer[Center(op.radius)] == 1.0
    requires forall n :: 0 <= n < |op.buffer| && n != Center(op.radius) ==> op.buffer[n] == 0.0
    ensures Response(op, image, boundary, index) == Sample(image, boundary, index) as real
  {
    var w := Window(image, boundary, index, op.radius);
    var c := Center(op.radius);
    InnerProductUnit(op.buffer, w, |op.buffer|, c);
    WindowAtCenter(image, boundary, index, op.radius);
    assert Response(op, image, boundary, index) == InnerProduct(op.buffer, w, |op.buffer|);
    assert InnerProduct(op.buffer, w, |op.buffer|) == 1.0 * (w[c] as real);
  }

  /** Where every sample the neighborhood covers is `v`, every cell of the window is `v`. */
  lemma WindowConstant(image: Image, boundary: BoundaryCondition, index: seq<int>, radius: seq<nat>, v: int)
    requires image.Valid() && |index| == |image.size| == |radius|
    requires forall o :: InRadius(radius, o) ==> Sample(image, boundary, Plus(index, o)) == v
    ensures forall n :: 0 <= n < Size(radius) ==> Window(image, boundary, index, radius)[n] == v
  {
  }

  /** Where every sample of the window is `v`, the response is `v` times the sum of the coefficients. */
  lemma ConstantWindowResponse(op: Neighborhood, image: Image, boundary: BoundaryCondition, index: seq<int>, v: int)
    requires op.WellFormed() && image.Valid() && |index| == |image.size| == |op.radius|
    requires forall o :: InRadius(op.radius, o) ==> Sample(image, boundary, Plus(index, o)) == v
    ensures Response(op, image, boundary, index) == Total(op.buffer, |op.buffer|) * (v as real)
  {
    BufferFits(op);
    var w := Window(image, boundary, index, op.radius);
    WindowConstant(image, boundary, index, op.radius, v);
    InnerProductConstant(op.buffer, w, |op.buffer|, v);
  }

  /** The response is additive in the operator: the response of a sum of operators is the sum of their responses. */
  lemma SuperpositionResponse(a: Neighborhood, b: Neighborhood, image: Image, boundary: BoundaryCondition, index: seq<int>)
    requires a.Allocated() && b.radius == a.radius && b.Allocated()
    requires image.Valid() && |index| == |image.size| == |a.radius|
    ensures Neighborhood(a.radius, AddBuffers(a.buffer, b.buffer)).Allocated()
    ensures Response(Neighborhood(a.radius, AddBuffers(a.buffer, b.buffer)), image, boundary, index)
         == Response(a, image, boundary, index) + Response(b, image, boundary, index)
  {
    InnerProductAdd(a.buffer, b.buffer, Window(image, boundary, index, a.radius), |a.buffer|);
  }

  /**
   * The response is homogeneous in the operator: scaling every coefficient
   * by `s` scales the response by `s`. With `SuperpositionResponse`, the
   * response is linear in the operator.
   */
  lemma ScaleResponse(op: Neighborhood, s: real, image: Image, boundary: BoundaryCondition, index: seq<int>)
    requires op.WellFormed() && image.Valid() && |index| == |image.size| == |op.radius|
    ensures Neighborhood(op.radius, Scale(s, op.buffer)).WellFormed()
    ensures Response(Neighborhood(op.radius, Scale(s, op.buffer)), image, boundary, index)
         == s * Response(op, image, boundary, index)
  {
    BufferFits(op);
    if !op.Allocated() {
      assert Scale(s, op.buffer) == [];
    }
    InnerProductScale(s, op.buffer, Window(image, boundary, index, op.radius), |op.buffer|);
  }

  /**
   * The response depends only on the samples the operator covers: two
   * images (or boundary conditions) that agree on the neighborhood of
   * `index` give the same response there.
   */
  lemma LocalResponse(op: Neighborhood, image: Image, boundary: BoundaryCondition,
                      image': Image, boundary': BoundaryCondition, index: seq<int>)
    requires op.WellFormed() && image.Valid() && image'.Valid()
    requires |index| == |image.size| == |image'.size| == |op.radius|
    requires forall o :: InRadius(op.radius, o) ==>
      Sample(image, boundary, Plus(index, o)) == Sample(image', boundary', Plus(index, o))
    ensures Response(op, image, boundary, index) == Response(op, image', boundary', index)
  {
    BufferFits(op);
    var w := Window(image, boundary, index, op.radius);
    var w' := Window(image', boundary', index, op.radius);
    forall n | 0 <= n < |op.buffer| ensures w[n] == w'[n] {
      assert InRadius(op.radius, Offset(op.radius, n));
    }
    InnerProductAgree(op.buffer, w, w', |op.buffer|);
  }

  /**
   * The inner product of a window with an operator's coefficients, summed
   * front to back over the operator's cells.
   */
  method NeighborhoodInnerProduct(window: seq<int>, coefficients: seq<real>) returns (sum: real)
    requires |coefficients| <= |window|
    ensures sum == InnerProduct(coefficients, window, |coefficients|)
  {
    sum := 0.0;
    var n := 0;
    while n < |coefficients|
      invariant n <= |coefficients|
      invariant sum == InnerProduct(coefficients, window, n)
    {
      sum := sum + coefficients[n] * (window[n] as real);
      n := n + 1;
    }
  }

  /**
   * The image function. It holds a copy of one operator of the image's
   * dimension and a modification stamp that every change of the operator
   * advances.
   */
  class NeighborhoodOperatorImageFunction {
    const dimension: nat
    var op: Neighborhood
    var mtime: nat

    /** The stored operator has the image's dimension and is well formed. */
    predicate Valid()
      reads this
    {
      |op.radius| == dimension && op.WellFormed()
    }

    /** A new function holds the default-constructed, empty operator. */
    constructor (dimension: nat)
      ensures Valid() && this.dimension == dimension && op == Unset(dimension)
    {
      this.dimension := dimension;
      op := Unset(dimension);
      mtime := 0;
    }

    /** Store a copy of `p` as the operator and mark the function modified. */
    method SetOperator(p: Neighborhood)
      requires Valid() && |p.radius| == dimension && p.WellFormed()
      modifies this
      ensures Valid()
      ensures op == p
      ensures mtime > old(mtime)
    {
      op := p;
      mtime := mtime + 1;
    }

    /** Evaluation at a physical point is not implemented here: the answer is zero. */
    method Evaluate(point: seq<real>) returns (out: real)
      ensures out == 0.0
    {
      out := 0.0;
    }

    /**
     * The response of the stored operator at `index`: position a window of
     * the operator's radius at `index` and take its inner product with the
     * stored coefficients.
     */
    method EvaluateAtIndex(image: Image, boundary: BoundaryCondition, index: seq<int>) returns (out: real)
      requires Valid() && image.Valid() && |image.size| == dimension && |index| == dimension
      ensures out == Response(op, image, boundary, index)
    {
      BufferFits(op);
      var window := Window(image, boundary, index, op.radius);
      out := NeighborhoodInnerProduct(window, op.buffer);
    }

    /** Evaluation at a continuous index is not implemented here: the answer is zero. */
    method EvaluateAtContinuousIndex(continuousIndex: seq<real>) returns (out: real)
      ensures out == 0.0
    {
      out := 0.0;
    }
  }
}
