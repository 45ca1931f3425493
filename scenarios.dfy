/**
 * Worked cases of the image function's response, each stated for concrete
 * images and operators: a centred difference on a 1-D ramp, and 3 x 3
 * operators on 3 x 3 images, inside the image and at a zero-padded corner.
 */
module Scenarios {
  import opened Layout
  import opened Neighborhoods
  import opened Images
  import opened OperatorImageFunction

  /** In one dimension, the cell at offset `d` of a radius-1 neighborhood is `d + 1`. */
  lemma Cell1(d: int)
    requires -1 <= d <= 1
    ensures InRadius([1], [d]) && CellAt([1], [d]) == d + 1
  {
    assert Dims([1]) == [3];
    assert Plus([d], [1]) == [d + 1];
    assert Flatten([3], [d + 1]) == d + 1 + 3 * Flatten([], []);
  }

  lemma Flatten2(a: nat, x: int, y: int)
    requires 0 <= x < a && 0 <= y < a
    ensures InBox([a, a], [x, y]) && Flatten([a, a], [x, y]) == x + a * y
  {
    assert Flatten([a], [y]) == y;
  }

  /** In two dimensions, the cell at offset (dx, dy) of a radius-1 neighborhood is `(dx + 1) + 3 * (dy + 1)`. */
  lemma Cell2(dx: int, dy: int)
    requires -1 <= dx <= 1 && -1 <= dy <= 1
    ensures InRadius([1, 1], [dx, dy]) && CellAt([1, 1], [dx, dy]) == (dx + 1) + 3 * (dy + 1)
  {
    assert Dims([1, 1]) == [3, 3];
    assert Plus([dx, dy], [1, 1]) == [dx + 1, dy + 1];
    Flatten2(3, dx + 1, dy + 1);
  }

  lemma Size2()
    ensures Size([1, 1]) == 9
  {
    assert Dims([1, 1]) == [3, 3];
    assert Count([3, 3]) == 9;
  }

  /** Cell `n` of a 3 x 3 window at `index` reads the sample at (x, y), within one step of `index` on each axis. */
  lemma WindowCell(image: Image, boundary: BoundaryCondition, index: seq<int>, n: nat, x: int, y: int)
    requires image.Valid() && |image.size| == 2 && |index| == 2
    requires -1 <= x - index[0] <= 1 && -1 <= y - index[1] <= 1
    requires n == (x - index[0] + 1) + 3 * (y - index[1] + 1)
    ensures n < Size([1, 1])
    ensures Window(image, boundary, index, [1, 1])[n] == Sample(image, boundary, [x, y])
  {
    var o := [x - index[0], y - index[1]];
    Cell2(o[0], o[1]);
    WindowAtOffset(image, boundary, index, [1, 1], o);
    assert Plus(index, o) == [x, y];
  }

  /*
   * Display3, EqualAt9 and Display9 need no proof of their own. They keep
   * the sequence extensionality step out of the callers' larger contexts,
   * where the solver would otherwise search the window's cells at length.
   */

  /** A sequence of three elements is the display of its elements. */
  lemma Display3(a: seq<int>, v0: int, v1: int, v2: int)
    requires |a| == 3 && a[0] == v0 && a[1] == v1 && a[2] == v2
    ensures a == [v0, v1, v2]
  {
  }

  /** Two sequences of nine elements that agree at every position are equal. */
  lemma EqualAt9(a: seq<int>, b: seq<int>)
    requires |a| == 9 == |b|
    requires a[0] == b[0] && a[1] == b[1] && a[2] == b[2]
    requires a[3] == b[3] && a[4] == b[4] && a[5] == b[5]
    requires a[6] == b[6] && a[7] == b[7] && a[8] == b[8]
    ensures a == b
  {
  }

  /** A sequence of nine elements is the display of its elements. */
  lemma Display9(a: seq<int>, v0: int, v1: int, v2: int, v3: int, v4: int, v5: int, v6: int, v7: int, v8: int)
    requires |a| == 9
    requires a[0] == v0 && a[1] == v1 && a[2] == v2
    requires a[3] == v3 && a[4] == v4 && a[5] == v5
    requires a[6] == v6 && a[7] == v7 && a[8] == v8
    ensures a == [v0, v1, v2, v3, v4, v5, v6, v7, v8]
  {
  }

  /** Sampling a 3 x 3 image whose region starts at the origin. */
  lemma Sample3x3(image: Image, boundary: BoundaryCondition, x: int, y: int)
    requires image.Valid() && image.start == [0, 0] && image.size == [3, 3]
    ensures |image.pixels| == 9
    ensures Sample(image, boundary, [x, y])
         == if 0 <= x < 3 && 0 <= y < 3 then image.pixels[x + 3 * y] else boundary([x, y])
  {
    assert Count([3]) == 3;
    var m := Minus([x, y], image.start);
    assert m == [x, y];
    if 0 <= x < 3 && 0 <= y < 3 {
      Flatten2(3, x, y);
      assert image.InRegion([x, y]);
      assert image.Pixel([x, y]) == image.pixels[x + 3 * y];
    } else {
      assert !InBox(image.size, m) by {
        if x < 0 || x >= 3 { assert !(0 <= m[0] < image.size[0]); } else { assert !(0 <= m[1] < image.size[1]); }
      }
    }
  }

  /** A cell of a 3 x 3 window that falls inside the region of a 3 x 3 image holds the stored pixel. */
  lemma PixelCell(image: Image, boundary: BoundaryCondition, index: seq<int>, n: nat, x: int, y: int, p: nat)
    requires image.Valid() && image.start == [0, 0] && image.size == [3, 3] && |index| == 2
    requires -1 <= x - index[0] <= 1 && -1 <= y - index[1] <= 1 && 0 <= x < 3 && 0 <= y < 3
    requires n == (x - index[0] + 1) + 3 * (y - index[1] + 1) && p == x + 3 * y
    ensures n < Size([1, 1]) && p < |image.pixels| == 9
    ensures Window(image, boundary, index, [1, 1])[n] == image.pixels[p]
  {
    WindowCell(image, boundary, index, n, x, y);
    Sample3x3(image, boundary, x, y);
  }

  /** A cell of a 3 x 3 window that falls outside the region of a 3 x 3 image reads the boundary condition. */
  lemma BoundaryCell(image: Image, boundary: BoundaryCondition, index: seq<int>, n: nat, q: seq<int>)
    requires image.Valid() && image.start == [0, 0] && image.size == [3, 3] && |index| == 2
    requires |q| == 2 && -1 <= q[0] - index[0] <= 1 && -1 <= q[1] - index[1] <= 1 && !(0 <= q[0] < 3 && 0 <= q[1] < 3)
    requires n == (q[0] - index[0] + 1) + 3 * (q[1] - index[1] + 1)
    ensures n < Size([1, 1])
    ensures Window(image, boundary, index, [1, 1])[n] == boundary(q)
  {
    WindowCell(image, boundary, index, n, q[0], q[1]);
    Sample3x3(image, boundary, q[0], q[1]);
    assert [q[0], q[1]] == q;
  }

  /** A nine-cell inner product written out term by term. */
  lemma InnerProduct9(c: seq<real>, w: seq<int>)
    requires |c| == 9 <= |w|
    ensures InnerProduct(c, w, 9)
         == c[0] * (w[0] as real) + c[1] * (w[1] as real) + c[2] * (w[2] as real)
          + c[3] * (w[3] as real) + c[4] * (w[4] as real) + c[5] * (w[5] as real)
          + c[6] * (w[6] as real) + c[7] * (w[7] as real) + c[8] * (w[8] as real)
  {
    assert InnerProduct(c, w, 0) == 0.0;
    assert InnerProduct(c, w, 1) == InnerProduct(c, w, 0) + c[0] * (w[0] as real);
    assert InnerProduct(c, w, 2) == InnerProduct(c, w, 1) + c[1] * (w[1] as real);
    assert InnerProduct(c, w, 3) == InnerProduct(c, w, 2) + c[2] * (w[2] as real);
    assert InnerProduct(c, w, 4) == InnerProduct(c, w, 3) + c[3] * (w[3] as real);
    assert InnerProduct(c, w, 5) == InnerProduct(c, w, 4) + c[4] * (w[4] as real);
    assert InnerProduct(c, w, 6) == InnerProduct(c, w, 5) + c[5] * (w[5] as real);
    assert InnerProduct(c, w, 7) == InnerProduct(c, w, 6) + c[6] * (w[6] as real);
    assert InnerProduct(c, w, 8) == InnerProduct(c, w, 7) + c[7] * (w[7] as real);
    assert InnerProduct(c, w, 9) == InnerProduct(c, w, 8) + c[8] * (w[8] as real);
  }

  /** A three-cell inner product written out term by term. */
  lemma InnerProduct3(c: seq<real>, w: seq<int>)
    requires |c| == 3 <= |w|
    ensures InnerProduct(c, w, 3) == c[0] * (w[0] as real) + c[1] * (w[1] as real) + c[2] * (w[2] as real)
  {
    assert InnerProduct(c, w, 0) == 0.0;
    assert InnerProduct(c, w, 1) == InnerProduct(c, w, 0) + c[0] * (w[0] as real);
    assert InnerProduct(c, w, 2) == InnerProduct(c, w, 1) + c[1] * (w[1] as real);
    assert InnerProduct(c, w, 3) == InnerProduct(c, w, 2) + c[2] * (w[2] as real);
  }

  /** The 1-D image [0, 1, 2, 3, 4]. */
  function Ramp(): (image: Image)
    ensures image.Valid()
  {
    Image([0], [5], [0, 1, 2, 3, 4])
  }

  /** The centred difference [-1, 0, 1] of radius 1. */
  function CentredDifference(): (op: Neighborhood)
    ensures op.Allocated()
  {
    Neighborhood([1], [-1.0, 0.0, 1.0])
  }

  /** Inside the region of a 1-D image whose region starts at 0, a sample is the stored pixel. */
  lemma Sample1(image: Image, boundary: BoundaryCondition, x: int)
    requires image.Valid() && image.start == [0] && |image.size| == 1 && 0 <= x < image.size[0]
    ensures |image.pixels| == image.size[0]
    ensures Sample(image, boundary, [x]) == image.pixels[x]
  {
    assert Count(image.size) == image.size[0] * Count([]);
    assert Minus([x], image.start) == [x];
    assert Flatten(image.size, [x]) == x + image.size[0] * Flatten([], []);
  }

  /** Cell `n` of the radius-1 window at `x` of a 1-D image holds the pixel at `p`, one step from `x` at most. */
  lemma WindowCell1(image: Image, boundary: BoundaryCondition, x: int, n: nat, p: nat)
    requires image.Valid() && image.start == [0] && |image.size| == 1 && p < image.size[0]
    requires -1 <= p - x <= 1 && n == p - x + 1
    ensures |image.pixels| == image.size[0] && n < Size([1])
    ensures Window(image, boundary, [x], [1])[n] == image.pixels[p]
  {
    Cell1(p - x);
    WindowAtOffset(image, boundary, [x], [1], [p - x]);
    assert Plus([x], [p - x]) == [p];
    Sample1(image, boundary, p);
  }

  /** Away from its ends, the radius-1 window of a 1-D image is the three pixels around the index. */
  lemma Window1(image: Image, boundary: BoundaryCondition, x: int)
    requires image.Valid() && image.start == [0] && |image.size| == 1 && 1 <= x && x + 1 < image.size[0]
    ensures |image.pixels| == image.size[0]
    ensures Window(image, boundary, [x], [1]) == [image.pixels[x - 1], image.pixels[x], image.pixels[x + 1]]
  {
    var w := Window(image, boundary, [x], [1]);
    assert |w| == 3 by { assert Dims([1]) == [3]; assert Count([3]) == 3; }
    WindowCell1(image, boundary, x, 0, x - 1);
    WindowCell1(image, boundary, x, 1, x);
    WindowCell1(image, boundary, x, 2, x + 1);
    Display3(w, image.pixels[x - 1], image.pixels[x], image.pixels[x + 1]);
  }

  lemma RampWindow(boundary: BoundaryCondition)
    ensures Window(Ramp(), boundary, [2], [1]) == [1, 2, 3]
  {
    Window1(Ramp(), boundary, 2);
  }

  /** On the ramp, the window at index 2 is [1, 2, 3] and the centred difference answers 2. */
  lemma CentredDifferenceOnRamp(boundary: BoundaryCondition)
    ensures Window(Ramp(), boundary, [2], [1]) == [1, 2, 3]
    ensures Response(CentredDifference(), Ramp(), boundary, [2]) == 2.0
  {
    RampWindow(boundary);
    var w := [1, 2, 3];
    assert Response(CentredDifference(), Ramp(), boundary, [2]) == InnerProduct([-1.0, 0.0, 1.0], w, 3);
    InnerProduct3([-1.0, 0.0, 1.0], w);
  }

  /** A 3 x 3 image whose pixel at (x, y) is its flat index x + 3 * y. */
  function Numbered(): (image: Image)
    ensures image.Valid()
  {
    Image([0, 0], [3, 3], [0, 1, 2, 3, 4, 5, 6, 7, 8])
  }

  /** A 3 x 3 operator whose coefficient at cell n is n. */
  function NumberedOperator(): (op: Neighborhood)
    ensures op.Allocated()
  {
    Neighborhood([1, 1], [0.0, 1.0, 2.0, 3.0, 4.0, 5.0, 6.0, 7.0, 8.0])
  }

  /** The 3 x 3 image of ones. */
  function Ones(): (image: Image)
    ensures image.Valid()
  {
    Image([0, 0], [3, 3], [1, 1, 1, 1, 1, 1, 1, 1, 1])
  }

  /** The 3 x 3 operator of ones. */
  function Box(): (op: Neighborhood)
    ensures op.Allocated()
  {
    Neighborhood([1, 1], [1.0, 1.0, 1.0, 1.0, 1.0, 1.0, 1.0, 1.0, 1.0])
  }

  /** The 3 x 3 average: every coefficient 1/9. */
  function Average(): (op: Neighborhood)
    ensures op.Allocated()
  {
    Neighborhood([1, 1], [1.0 / 9.0, 1.0 / 9.0, 1.0 / 9.0, 1.0 / 9.0, 1.0 / 9.0, 1.0 / 9.0, 1.0 / 9.0, 1.0 / 9.0, 1.0 / 9.0])
  }

  /** The window at the centre of a 3 x 3 image is its pixel buffer: all nine samples lie inside the region. */
  lemma CentreWindow(image: Image, boundary: BoundaryCondition)
    requires image.Valid() && image.start == [0, 0] && image.size == [3, 3]
    ensures Window(image, boundary, [1, 1], [1, 1]) == image.pixels
  {
    var w := Window(image, boundary, [1, 1], [1, 1]);
    assert |w| == 9 == |image.pixels| by { Size2(); Sample3x3(image, boundary, 0, 0); }
    PixelCell(image, boundary, [1, 1], 0, 0, 0, 0);
    PixelCell(image, boundary, [1, 1], 1, 1, 0, 1);
    PixelCell(image, boundary, [1, 1], 2, 2, 0, 2);
    PixelCell(image, boundary, [1, 1], 3, 0, 1, 3);
    PixelCell(image, boundary, [1, 1], 4, 1, 1, 4);
    PixelCell(image, boundary, [1, 1], 5, 2, 1, 5);
    PixelCell(image, boundary, [1, 1], 6, 0, 2, 6);
    PixelCell(image, boundary, [1, 1], 7, 1, 2, 7);
    PixelCell(image, boundary, [1, 1], 8, 2, 2, 8);
    EqualAt9(w, image.pixels);
  }

  /**
   * At the corner (0, 0) of a 3 x 3 image whose boundary condition reads
   * zero at the five cells of the window outside the region, the window
   * holds those zeros and the 2 x 2 quadrant of the image.
   */
  lemma CornerWindowZeroPadded(image: Image, boundary: BoundaryCondition)
    requires image.Valid() && image.start == [0, 0] && image.size == [3, 3]
    requires boundary([-1, -1]) == boundary([0, -1]) == boundary([1, -1]) == 0
    requires boundary([-1, 0]) == boundary([-1, 1]) == 0
    ensures |image.pixels| == 9
    ensures Window(image, boundary, [0, 0], [1, 1])
         == [0, 0, 0, 0, image.pixels[0], image.pixels[1], 0, image.pixels[3], image.pixels[4]]
  {
    var w := Window(image, boundary, [0, 0], [1, 1]);
    assert |w| == 9 == |image.pixels| by { Size2(); Sample3x3(image, boundary, 0, 0); }
    assert w[0] == 0 by { BoundaryCell(image, boundary, [0, 0], 0, [-1, -1]); }
    assert w[1] == 0 by { BoundaryCell(image, boundary, [0, 0], 1, [0, -1]); }
    assert w[2] == 0 by { BoundaryCell(image, boundary, [0, 0], 2, [1, -1]); }
    assert w[3] == 0 by { BoundaryCell(image, boundary, [0, 0], 3, [-1, 0]); }
    assert w[6] == 0 by { BoundaryCell(image, boundary, [0, 0], 6, [-1, 1]); }
    PixelCell(image, boundary, [0, 0], 4, 0, 0, 0);
    PixelCell(image, boundary, [0, 0], 5, 1, 0, 1);
    PixelCell(image, boundary, [0, 0], 7, 0, 1, 3);
    PixelCell(image, boundary, [0, 0], 8, 1, 1, 4);
    Display9(w, 0, 0, 0, 0, image.pixels[0], image.pixels[1], 0, image.pixels[3], image.pixels[4]);
  }

  /** Against a given nine-cell window, the numbered operator answers the weighted sum. */
  lemma NumberedSum(w: seq<int>)
    requires w == [0, 1, 2, 3, 4, 5, 6, 7, 8]
    ensures InnerProduct(NumberedOperator().buffer, w, 9) == 204.0
  {
    InnerProduct9(NumberedOperator().buffer, w);
  }

  /**
   * Coefficients and samples are taken in the same order: at the centre of
   * the numbered image the window is the image itself, cell for cell, and
   * the numbered operator answers 0 * 0 + 1 * 1 + ... + 8 * 8 = 204.
   */
  lemma NumberedOrder(boundary: BoundaryCondition)
    ensures Window(Numbered(), boundary, [1, 1], [1, 1]) == [0, 1, 2, 3, 4, 5, 6, 7, 8]
    ensures Response(NumberedOperator(), Numbered(), boundary, [1, 1]) == 204.0
  {
    CentreWindow(Numbered(), boundary);
    var w := Window(Numbered(), boundary, [1, 1], [1, 1]);
    assert Response(NumberedOperator(), Numbered(), boundary, [1, 1]) == InnerProduct(NumberedOperator().buffer, w, 9);
    NumberedSum(w);
  }

  /** Against nine samples of one, a nine-cell inner product is the sum of the coefficients. */
  lemma OnesSum(c: seq<real>, w: seq<int>)
    requires |c| == 9 && w == [1, 1, 1, 1, 1, 1, 1, 1, 1]
    ensures InnerProduct(c, w, 9) == c[0] + c[1] + c[2] + c[3] + c[4] + c[5] + c[6] + c[7] + c[8]
  {
    InnerProduct9(c, w);
  }

  /** At the centre of the image of ones the box operator answers 9. */
  lemma BoxOnOnes(boundary: BoundaryCondition)
    ensures Response(Box(), Ones(), boundary, [1, 1]) == 9.0
  {
    CentreWindow(Ones(), boundary);
    var w := Window(Ones(), boundary, [1, 1], [1, 1]);
    assert Response(Box(), Ones(), boundary, [1, 1]) == InnerProduct(Box().buffer, w, 9);
    OnesSum(Box().buffer, w);
  }

  /** At the centre of the image of ones the average answers 1. */
  lemma AverageOnOnes(boundary: BoundaryCondition)
    ensures Response(Average(), Ones(), boundary, [1, 1]) == 1.0
  {
    CentreWindow(Ones(), boundary);
    var w := Window(Ones(), boundary, [1, 1], [1, 1]);
    assert Response(Average(), Ones(), boundary, [1, 1]) == InnerProduct(Average().buffer, w, 9);
    OnesSum(Average().buffer, w);
  }

  /** The average against the zero-padded corner window of the image of ones. */
  lemma AverageCornerSum(w: seq<int>)
    requires w == [0, 0, 0, 0, 1, 1, 0, 1, 1]
    ensures InnerProduct(Average().buffer, w, 9) == 4.0 / 9.0
  {
    InnerProduct9(Average().buffer, w);
  }

  /** Padded with zeros, the corner window of the image of ones keeps only its 2 x 2 quadrant inside the region. */
  lemma OnesCornerWindow(boundary: BoundaryCondition)
    requires forall index :: boundary(index) == 0
    ensures Window(Ones(), boundary, [0, 0], [1, 1]) == [0, 0, 0, 0, 1, 1, 0, 1, 1]
  {
    CornerWindowZeroPadded(Ones(), boundary);
  }

  /**
   * At the corner (0, 0) of the image of ones, padded with zeros, only the
   * 2 x 2 quadrant inside the image counts: the average answers 4/9.
   */
  lemma AverageAtCornerZeroPadded(boundary: BoundaryCondition)
    requires forall index :: boundary(index) == 0
    ensures Window(Ones(), boundary, [0, 0], [1, 1]) == [0, 0, 0, 0, 1, 1, 0, 1, 1]
    ensures Response(Average(), Ones(), boundary, [0, 0]) == 4.0 / 9.0
  {
    OnesCornerWindow(boundary);
    var w := Window(Ones(), boundary, [0, 0], [1, 1]);
    assert Response(Average(), Ones(), boundary, [0, 0]) == InnerProduct(Average().buffer, w, 9);
    AverageCornerSum(w);
  }
}
