/**
 * The operator type of the image function: an N-dimensional neighborhood
 * of coefficients (`NeighborhoodType`, a `Neighborhood<TOutput, D>`).
 *
 * A neighborhood of radius `r` spans `2 * r[k] + 1` cells along axis `k`;
 * its buffer holds one coefficient per cell in the raster order of module
 * Layout (axis 0 fastest). Cell `n` sits at the offset `Offset(r, n)` from
 * the centre, each component within `[-r[k], r[k]]`.
 */
module Neighborhoods {
  import opened Layout

  /** Extent per axis of a neighborhood of the given radius. */
  function Dims(radius: seq<nat>): (d: seq<nat>)
    ensures |d| == |radius|
    ensures forall k {:trigger d[k]} :: 0 <= k < |d| ==> d[k] == 2 * radius[k] + 1
  {
    if radius == [] then [] else [2 * radius[0] + 1] + Dims(radius[1..])
  }

  /** Number of cells of a neighborhood: the product of `2 * r[k] + 1`. */
  function Size(radius: seq<nat>): nat
  {
    Count(Dims(radius))
  }

  /** The number of cells is the product of the extents, taken one axis at a time. */
  lemma SizeProduct(radius: seq<nat>)
    ensures radius == [] ==> Size(radius) == 1
    ensures radius != [] ==> Size(radius) == (2 * radius[0] + 1) * Size(radius[1..])
  {
  }

  /** Every neighborhood has an odd, hence positive, number of cells. */
  lemma {:induction false} SizeOdd(radius: seq<nat>)
    ensures Size(radius) % 2 == 1
  {
    if radius != [] {
      var a := 2 * radius[0] + 1;
      SizeOdd(radius[1..]);
      var s := Size(radius[1..]);
      var m := s / 2;
      SizeProduct(radius);
      assert Size(radius) == a * s;
      var k := radius[0] * s + m;
      assert a * s == 2 * k + 1 by {
        assert s == 2 * m + 1;
        assert a * s == 2 * (radius[0] * s) + s;
      }
    }
  }

  /** `o` is an offset from the centre that the neighborhood covers. */
  predicate InRadius(radius: seq<nat>, o: seq<int>)
  {
    |o| == |radius| && forall k {:trigger o[k]} :: 0 <= k < |o| ==> -radius[k] <= o[k] <= radius[k]
  }

  /** The offset from the centre of cell `n`. */
  function Offset(radius: seq<nat>, n: nat): (o: seq<int>)
    requires n < Size(radius)
    ensures InRadius(radius, o)
  {
    Minus(Unflatten(Dims(radius), n), radius)
  }

  /** The cell at offset `o` from the centre. */
  function CellAt(radius: seq<nat>, o: seq<int>): (n: nat)
    requires InRadius(radius, o)
    ensures n < Size(radius)
  {
    Flatten(Dims(radius), Plus(o, radius))
  }

  /** Cells and offsets correspond one to one: from a cell to its offset and back. */
  lemma CellAtOffset(radius: seq<nat>, n: nat)
    requires n < Size(radius)
    ensures CellAt(radius, Offset(radius, n)) == n
  {
    var p := Unflatten(Dims(radius), n);
    assert Plus(Minus(p, radius), radius) == p;
    FlattenUnflatten(Dims(radius), n);
  }

  /** Cells and offsets correspond one to one: from an offset to its cell and back. */
  lemma OffsetOfCellAt(radius: seq<nat>, o: seq<int>)
    requires InRadius(radius, o)
    ensures Offset(radius, CellAt(radius, o)) == o
  {
    var d := Dims(radius);
    var p := Plus(o, radius);
    assert InBox(d, p) by {
      forall k | 0 <= k < |p| ensures 0 <= p[k] < d[k] {
        assert p[k] == o[k] + radius[k];
      }
    }
    var n := Flatten(d, p);
    assert CellAt(radius, o) == n;
    UnflattenFlatten(d, p);
    assert Offset(radius, n) == Minus(p, radius);
    assert Minus(p, radius) == o;
  }

  /** The zero vector of dimension `d`. */
  function Zeros(d: nat): (z: seq<nat>)
    ensures |z| == d && forall k :: 0 <= k < d ==> z[k] == 0
  {
    seq(d, _ => 0)
  }

  /** The centre cell (`GetCenterNeighborhoodIndex`): half the size, rounded down. */
  function Center(radius: seq<nat>): (n: nat)
    ensures n < Size(radius)
  {
    SizeOdd(radius);
    Size(radius) / 2
  }

  lemma {:induction false} UnflattenCenter(radius: seq<nat>)
    ensures Unflatten(Dims(radius), Center(radius)) == radius
  {
    if radius != [] {
      var a := 2 * radius[0] + 1;
      var s := Size(radius[1..]);
      SizeOdd(radius[1..]);
      var m := s / 2;
      assert Dims(radius) == [a] + Dims(radius[1..]);
      assert Size(radius) == a * s;
      assert Center(radius) == radius[0] + a * m by {
        assert a * s == 2 * (radius[0] + a * m) + 1 by {
          assert s == 2 * m + 1;
        }
      }
      DivModJoin(radius[0], a, m);
      UnflattenCenter(radius[1..]);
      assert Unflatten(Dims(radius), Center(radius))
          == [radius[0]] + Unflatten(Dims(radius[1..]), Center(radius[1..]));
    }
  }

  /** The centre cell sits at offset zero. */
  lemma CenterOffset(radius: seq<nat>)
    ensures Offset(radius, Center(radius)) == Zeros(|radius|)
  {
    UnflattenCenter(radius);
  }

  /**
   * A neighborhood of coefficients. The default-constructed neighborhood
   * has a zero radius and no buffer at all; once a radius is set the buffer
   * holds one coefficient per cell.
   */
  datatype Neighborhood = Neighborhood(radius: seq<nat>, buffer: seq<real>)
  {
    /** The buffer is allocated for the radius. */
    predicate Allocated()
    {
      |buffer| == Size(radius)
    }

    /** Allocated, or the default-constructed empty neighborhood. */
    predicate WellFormed()
    {
      Allocated() || this == Unset(|radius|)
    }
  }

  /** The default-constructed neighborhood of dimension `d`: zero radius, empty buffer. */
  function Unset(d: nat): (n: Neighborhood)
    ensures |n.radius| == d && n.buffer == []
    ensures forall k :: 0 <= k < d ==> n.radius[k] == 0
  {
    Neighborhood(Zeros(d), [])
  }

  /** A well-formed neighborhood never holds more coefficients than it has cells. */
  lemma BufferFits(n: Neighborhood)
    requires n.WellFormed()
    ensures |n.buffer| <= Size(n.radius)
  {
  }
}
