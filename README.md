# NeighborhoodOperatorImageFunction, modelled in Dafny

ITK's `NeighborhoodOperatorImageFunction` holds a copy of one N-dimensional
neighborhood operator, a `Neighborhood<TOutput, D>` of coefficients. Evaluated
at an integer index of an image, it answers the operator's response there: the
inner product of the coefficients with the image samples in a window of the
same shape centred at that index. Evaluation at a physical point or at a
continuous index is not implemented by this class; it answers zero.

The model has five modules.

- `Layout` (`layout.dfy`) is the raster layout of an N-dimensional box, with
  axis 0 varying fastest. `Flatten` and `Unflatten` are inverses.
- `Neighborhoods` (`neighborhood.dfy`) is the operator type.
  - A radius `r` spans `2 * r[k] + 1` cells on axis `k`, so `Size(r)` is the
    product of those extents (the `NeighborhoodType` shape).
  - Cell `n` sits at offset `Offset(r, n)` from the centre, and `CellAt` inverts
    that.
  - The centre cell is `Size(r) / 2`.
  - A default-constructed neighborhood has a zero radius and an empty buffer.
- `Images` (`image.dfy`) is the input image: a region (start and size) and a
  pixel buffer in the same raster order. The boundary condition is a separate
  type, `BoundaryCondition`, passed alongside the image. `Sample` reads a
  stored pixel inside the region and the boundary condition's value outside it.
- `OperatorImageFunction` (`operator_image_function.dfy`) contains:
  - the specification functions `Window`, `InnerProduct` and `Response`;
  - the lemmas about the response;
  - the loop `NeighborhoodInnerProduct`;
  - the class `NeighborhoodOperatorImageFunction`, with a mutable operator slot
    `op` (`m_Operator`) and a modification stamp `mtime`.
- `Scenarios` (`scenarios.dfy`) holds worked cases on concrete images and
  operators:
  - the centred difference on a ramp;
  - numbered, box and average 3 x 3 operators at the centre of a 3 x 3 image;
  - the average at a zero-padded corner.

Pixel values are `int` (`InputPixelType`). Coefficients and results are `real`
(`TOutput`), so every sum is exact, and each pixel is converted to the output
type before it is multiplied.

The evaluation methods have no `modifies` clause. The evaluator and the image
are therefore unchanged by them. Their results are fixed by the inputs and the
stored operator: that is the `const` and deterministic behaviour of the C++
methods.

## Model

| member | source | states |
|---|---|---|
| Layout.FlattenUnflatten | Code/Common/itkNeighborhoodOperatorImageFunction.h:67 | every flat index of a neighborhood-shaped box is the flat index of its own position, so the raster order is a bijection |
| Layout.Unflatten | Code/Common/itkNeighborhoodOperatorImageFunction.h:67 | the position of a flat index, axis 0 fastest, lies inside the box |
| Layout.Flatten | Code/Common/itkNeighborhoodOperatorImageFunction.h:67 | the flat index of a position inside the box is below the box's cell count |
| Layout.UnflattenFlatten | Code/Common/itkNeighborhoodOperatorImageFunction.h:67 | every position in the box is recovered from its flat index |
| Neighborhoods.Size | Code/Common/itkNeighborhoodOperatorImageFunction.h:67 | the length of a `NeighborhoodType` buffer of radius r: the cell count of the box of extents 2 * r[k] + 1 |
| Neighborhoods.SizeProduct | Code/Common/itkNeighborhoodOperatorImageFunction.h:67 | the cell count is the product over the axes of 2 * r[k] + 1: 1 for no axes, and the first axis's extent times the count of the rest |
| Neighborhoods.Dims | Code/Common/itkNeighborhoodOperatorImageFunction.h:67 | a neighborhood of radius r has extent 2 * r[k] + 1 on every axis k |
| Neighborhoods.SizeOdd | Code/Common/itkNeighborhoodOperatorImageFunction.h:67 | the number of cells, the product of 2 * r[k] + 1, is odd and hence positive |
| Neighborhoods.Offset | Code/Common/itkNeighborhoodOperatorImageFunction.h:67 | every cell's offset from the centre lies within the radius on every axis |
| Neighborhoods.CellAt | Code/Common/itkNeighborhoodOperatorImageFunction.h:67 | every offset within the radius names a cell of the neighborhood |
| Neighborhoods.CellAtOffset | Code/Common/itkNeighborhoodOperatorImageFunction.h:67 | cells and offsets correspond one to one: cell to offset and back gives the cell |
| Neighborhoods.OffsetOfCellAt | Code/Common/itkNeighborhoodOperatorImageFunction.h:67 | cells and offsets correspond one to one: offset to cell and back gives the offset |
| Neighborhoods.Center | Code/Common/itkNeighborhoodOperatorImageFunction.h:67 | the centre cell (`GetCenterNeighborhoodIndex`), half the cell count rounded down, is a cell of the neighborhood |
| Neighborhoods.UnflattenCenter | Code/Common/itkNeighborhoodOperatorImageFunction.h:67 | the centre cell, half the size rounded down, sits at position r of the box |
| Neighborhoods.CenterOffset | Code/Common/itkNeighborhoodOperatorImageFunction.h:67 | the centre cell sits at offset zero |
| Neighborhoods.Neighborhood.Allocated | Code/Common/itkNeighborhoodOperatorImageFunction.h:119 | the value held in `m_Operator`: a radius and a coefficient buffer, allocated when the buffer has one coefficient per cell |
| Neighborhoods.Neighborhood.WellFormed | Code/Common/itkNeighborhoodOperatorImageFunction.h:119 | the operators `m_Operator` can hold: allocated for their radius, or the default-constructed empty neighborhood |
| Neighborhoods.Unset | Code/Common/itkNeighborhoodOperatorImageFunction.h:119 | the operator slot of a new function has the image's dimension, a zero radius and no coefficients |
| Neighborhoods.BufferFits | Code/Common/itkNeighborhoodOperatorImageFunction.h:119 | a well-formed operator never holds more coefficients than its window has cells |
| Images.Sample | Code/Common/itkNeighborhoodOperatorImageFunction.h:26-30 | the value read at an index: the stored pixel inside the region, the boundary condition's value outside it |
| OperatorImageFunction.Window | Code/Common/itkNeighborhoodOperatorImageFunction.h:26-30 | the window centred at an index has exactly as many cells as an operator of that radius |
| OperatorImageFunction.InnerProduct | Code/Common/itkNeighborhoodOperatorImageFunction.h:95 | the sum of coefficient[k] * sample[k] over the first n cells, in flat order; its algebra is stated by the `InnerProduct*` lemmas |
| OperatorImageFunction.Response | Code/Common/itkNeighborhoodOperatorImageFunction.h:95 | what `EvaluateAtIndex` answers: the inner product of every coefficient of the operator with the window of its radius centred at the index; its properties are stated by the `*Response` lemmas |
| OperatorImageFunction.WindowAtOffset | Code/Common/itkNeighborhoodOperatorImageFunction.h:26-30 | the window cell that the operator's cell for offset o weighs holds the image sample at index + o |
| OperatorImageFunction.WindowAtCenter | Code/Common/itkNeighborhoodOperatorImageFunction.h:26-30 | the window's centre cell holds the sample at the index itself |
| OperatorImageFunction.WindowMatchesOperator | Code/Common/itkNeighborhoodOperatorImageFunction.h:67 | an allocated operator and its window have the same, positive, number of cells |
| OperatorImageFunction.WindowConstant | Code/Common/itkNeighborhoodOperatorImageFunction.h:26-30 | where every sample the neighborhood covers is v, every window cell is v |
| OperatorImageFunction.InnerProductZero | Code/Common/itkNeighborhoodOperatorImageFunction.h:95 | zero coefficients give a zero sum, whatever the samples |
| OperatorImageFunction.InnerProductUnit | Code/Common/itkNeighborhoodOperatorImageFunction.h:95 | with one non-zero coefficient, the sum is that coefficient times its sample |
| OperatorImageFunction.InnerProductConstant | Code/Common/itkNeighborhoodOperatorImageFunction.h:95 | against constant samples v, the sum is v times the sum of the coefficients |
| OperatorImageFunction.InnerProductAdd | Code/Common/itkNeighborhoodOperatorImageFunction.h:95 | the sum is additive in the coefficients |
| OperatorImageFunction.InnerProductScale | Code/Common/itkNeighborhoodOperatorImageFunction.h:95 | the sum is homogeneous in the coefficients: scaling them by s scales the sum by s |
| OperatorImageFunction.InnerProductAgree | Code/Common/itkNeighborhoodOperatorImageFunction.h:95 | the sum depends only on the first n samples |
| OperatorImageFunction.ZeroOperatorResponse | Code/Common/itkNeighborhoodOperatorImageFunction.h:95 | an all-zero operator responds with 0 at every index, for every image and boundary condition |
| OperatorImageFunction.UnsetOperatorResponse | Code/Common/itkNeighborhoodOperatorImageFunction.h:109 | before any operator is set, the response is 0 at every index |
| OperatorImageFunction.IdentityOperatorResponse | Code/Common/itkNeighborhoodOperatorImageFunction.h:95 | an operator with 1 at the centre and 0 elsewhere reads back the sample at the index |
| OperatorImageFunction.ConstantWindowResponse | Code/Common/itkNeighborhoodOperatorImageFunction.h:95 | where the image is v around the index, the response is v times the sum of the coefficients |
| OperatorImageFunction.SuperpositionResponse | Code/Common/itkNeighborhoodOperatorImageFunction.h:26-30 | the response, a convolution, is additive in the operator: the sum of two operators responds with the sum of their responses |
| OperatorImageFunction.ScaleResponse | Code/Common/itkNeighborhoodOperatorImageFunction.h:26-30 | the response, a convolution, is homogeneous in the operator: scaling every coefficient by s scales the response by s; with `SuperpositionResponse` the response is linear in the operator |
| OperatorImageFunction.LocalResponse | Code/Common/itkNeighborhoodOperatorImageFunction.h:26-30 | the response depends only on the samples within the operator's radius of the index |
| OperatorImageFunction.NeighborhoodInnerProduct | Code/Common/itkNeighborhoodOperatorImageFunction.h:95 | the accumulation loop returns the sum of coefficient[i] * window[i] over every coefficient, in flat order |
| OperatorImageFunction.NeighborhoodOperatorImageFunction.Valid | Code/Common/itkNeighborhoodOperatorImageFunction.h:119 | the invariant of the function: the stored operator has the image's dimension and is well formed |
| OperatorImageFunction.NeighborhoodOperatorImageFunction.constructor | Code/Common/itkNeighborhoodOperatorImageFunction.h:109 | a new function is valid, has the given dimension and holds the default-constructed empty operator |
| OperatorImageFunction.NeighborhoodOperatorImageFunction.SetOperator | Code/Common/itkNeighborhoodOperatorImageFunction.h:75-82 | afterwards the stored operator equals p (a value copy, so p is not aliased), the modification stamp has strictly increased and the function stays valid |
| OperatorImageFunction.NeighborhoodOperatorImageFunction.Evaluate | Code/Common/itkNeighborhoodOperatorImageFunction.h:84-92 | returns 0 for every point, whatever operator is stored |
| OperatorImageFunction.NeighborhoodOperatorImageFunction.EvaluateAtIndex | Code/Common/itkNeighborhoodOperatorImageFunction.h:94-95 | returns the stored operator's response: the inner product of its coefficients with the window of the same radius centred at the index, in the same raster order |
| OperatorImageFunction.NeighborhoodOperatorImageFunction.EvaluateAtContinuousIndex | Code/Common/itkNeighborhoodOperatorImageFunction.h:97-106 | returns 0 for every continuous index, whatever operator is stored |
| Scenarios.CentredDifferenceOnRamp | Code/Common/itkNeighborhoodOperatorImageFunction.h:95 | on the 1-D image [0, 1, 2, 3, 4], the window at index 2 is [1, 2, 3] and the operator [-1, 0, 1] answers 2 |
| Scenarios.NumberedOrder | Code/Common/itkNeighborhoodOperatorImageFunction.h:95 | coefficients and samples pair in the same order: at the centre of a 3 x 3 image numbered 0..8, the operator numbered 0..8 answers 204 |
| Scenarios.BoxOnOnes | Code/Common/itkNeighborhoodOperatorImageFunction.h:95 | at the centre of a 3 x 3 image of ones, the 3 x 3 operator of ones answers 9 |
| Scenarios.AverageOnOnes | Code/Common/itkNeighborhoodOperatorImageFunction.h:95 | at the centre of a 3 x 3 image of ones, the 3 x 3 average answers 1 |
| Scenarios.CornerWindowZeroPadded | Code/Common/itkNeighborhoodOperatorImageFunction.h:26-30 | at the corner of a 3 x 3 image, the five window cells outside the region read the boundary condition and the other four hold the image's 2 x 2 quadrant |
| Scenarios.AverageAtCornerZeroPadded | Code/Common/itkNeighborhoodOperatorImageFunction.h:95 | at the corner of a 3 x 3 image of ones padded with zeros, the 3 x 3 average answers 4/9 |

## Left out

- The `std::cout` messages of `Evaluate` and `EvaluateAtContinuousIndex` are I/O. Only the returned zero is modelled.
- The body of `EvaluateAtIndex` is in `itkNeighborhoodOperatorImageFunction.txx`, which is not part of this model.
  - It is modelled as ITK's usual computation: a `ConstNeighborhoodIterator` of the operator's radius is placed at the index, and `NeighborhoodInnerProduct` takes the coefficient-by-sample sum in flat order.
  - The window extraction is the `Window` function. The accumulation loop is `NeighborhoodInnerProduct`.
- The input image comes from the `ImageFunction` superclass. It is a parameter of `EvaluateAtIndex` here.
  - The image container, the neighborhood iterator and the boundary condition are not part of this model.
  - The boundary condition is an arbitrary total function of the index, so every ITK boundary policy is an instance of it.
  - The "no input image" case therefore cannot arise.
- Every index is accepted. A window cell that falls outside the image's region reads the boundary condition.
- Evaluate and EvaluateAtContinuousIndex: the point and the continuous index are plain `seq<real>`. The answer ignores them, so neither the point type nor the continuous index type is modelled.
- The `mutable`/`const` declaration of `m_Operator` and `SetOperator` is not modelled, and neither is thread safety. The slot is an ordinary field, and `SetOperator` declares that it modifies the object.
- SetOperator: `Modified()` advances ITK's global time stamp. Here it increments the object's own counter. Only the strict increase is stated, not a relation to other objects' stamps.
- The following are not modelled:
  - smart pointers, the object factory (`itkNewMacro`), run-time type information (`itkTypeMacro`) and the static dimension macro;
  - the protected copy constructor and assignment;
  - the destructor;
  - `PrintSelf`;
  - the `ITK_TEMPLATE_*` explicit instantiation machinery.
- Floating point is not modelled. `TOutput` is exact `real` and pixels are `int`, so rounding and the order of floating-point accumulation have no effect here.
- SetOperator: requires an operator of the image's dimension, either allocated for its radius or default-constructed. In C++ the template parameter fixes the dimension, and a `Neighborhood` always has this shape.
