/**
 * The input image the function is evaluated on, in the shape the
 * evaluator needs of it: a region (start index and size per axis), a pixel
 * buffer laid out like a neighborhood (axis 0 fastest), and a boundary
 * condition that supplies a value for any index outside the region.
 *
 * The image container, its neighborhood iterator and its boundary
 * conditions are collaborators of the image function; the boundary
 * condition is therefore an arbitrary total function of the index here.
 */
module Images {
  import opened Layout

  /** The value read at an index outside the image's region. */
  type BoundaryCondition = seq<int> -> int

  datatype Image = Image(start: seq<int>, size: seq<nat>, pixels: seq<int>)
  {
    /** The buffer holds one pixel per index of the region. */
    predicate Valid()
    {
      |start| == |size| && |pixels| == Count(size)
    }

    /** `index` lies inside the region. */
    predicate InRegion(index: seq<int>)
    {
      |index| == |start| == |size| && InBox(size, Minus(index, start))
    }

    /** The pixel stored for an index of the region. */
    function Pixel(index: seq<int>): int
      requires Valid() && InRegion(index)
    {
      pixels[Flatten(size, Minus(index, start))]
    }
  }

  /**
   * The value the neighborhood iterator reads at `index`: the stored pixel
   * inside the region, the boundary condition's value outside it.
   */
  function Sample(image: Image, boundary: BoundaryCondition, index: seq<int>): int
    requires image.Valid() && |index| == |image.size|
  {
    if image.InRegion(index) then image.Pixel(index) else boundary(index)
  }
}
