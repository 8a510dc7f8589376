# Uniform grid: index arithmetic and stencils

This project models the integer core of the learner's D-dimensional uniform
grid (`learner/Grid.cpp`) in Dafny and proves what its index queries return.

The grid has D axes. Axis `d` has `N[d]` evenly spaced nodes between a lower
and an upper bound. A node is addressed in two ways:

- a **dim index**, one node number per axis;
- a **flat index**, a single number in `[0, nodeCount)`.

The flat index is mixed-radix with axis 0 varying fastest:
`k = Σ idx[d] * cumN[d]`, where `cumN[d]` is the product of the node counts of
the axes before `d`.

The model is split into four modules:

- `Radix` (`radix.dfy`): the mixed-radix arithmetic. `Product` gives the node
  count, `Strides` the stride per axis, and `Flatten`/`Unflatten` convert
  between dim and flat indices. It proves the round trips and the bounds.
- `Odometer` (`odometer.dfy`): the counter that `enumerateNeighborHood` and
  `getEnvelopingNodes` drive over a box of index space. `Step` is one
  increment-and-carry. `BoxPoint(lo, hi, i)` is the counter's i-th state, and
  `BoxFlats` is the sequence of flat indices the walk yields. The module proves
  that the walk visits every lattice point of the box exactly once.
- `Stencil` (`stencil.dfy`): the shapes the grid queries produce. These are the
  clamped node lookups, the neighbourhood box (centre excluded) and the
  enveloping box of a point (none excluded), with their characterisations and
  worked 3 x 3 examples. It also holds the as-written model of the lower bound
  of `getEnvelopingNodes` (see Findings).
- `UniformGrid` (`grid.dfy`): the `Grid` class. It has array fields `N`,
  `cumN`, `min` and `max` and the scalars `dim` and `nodeCount`. Its methods
  follow the source loops: they set the configuration, rasterize, convert
  indices, look up nodes, walk the odometer in place over an array and test
  containment. Every method is proved against the specification functions of
  the other three modules.

A point's continuous position enters the node lookups as an integer **scaled
position** per axis. That is `(x[d] - min[d]) * strideinv[d]`, already truncated
(bottom-left lookups) or rounded (nearest lookups); the clamping that follows is
modelled exactly.

The model differs from the code's comments, or from the code, in three places:

- The comments describe the neighbourhood as a Manhattan ball that contains the
  node itself when the radius is 0 (`learner/Grid.cpp:268-282`). The code
  enumerates the Chebyshev box and always leaves the centre out. The model
  follows the code: `NeighborhoodMembers` and `NeighborhoodRadiusZero` state
  what it does.
- The constructor leaves `DIM` uninitialised. The model's constructor sets it
  to 0.
- The lower bound of the enveloping box is evidently meant to be
  `max(0, idx[d] - r)`, as in `enumerateNeighborHood`. The code computes
  `qMax(idx[d] - r, 0)` in unsigned arithmetic, which wraps (see Findings).
  Here the model does not follow the code. `EnvelopingNodes` uses the intended
  bound, and `LowerCornerAsWritten` models the wrapping expression on its own.

## Model

| member | source | states |
|---|---|---|
| UniformGrid.Grid.constructor | learner/Grid.cpp:53-56 | a fresh grid has no nodes (`nodeCount == 0`); its per-axis arrays are consistent, with 0 dimensions |
| UniformGrid.Grid.SetDim | learner/Grid.cpp:59-71 | every per-axis array is resized to `d` entries: old entries are kept, new ones are 0; `nodeCount` is untouched |
| UniformGrid.Resize | learner/Grid.cpp:62-70 | QVector-style resize: length `n`, old entries kept below the old length, the fill value past it |
| UniformGrid.Resized | learner/Grid.cpp:62-70 | a new array whose contents are `Resize` of the old contents |
| UniformGrid.Grid.SetMin | learner/Grid.cpp:96-100 | the lower bounds become the first `dim` entries of the argument |
| UniformGrid.Grid.SetMax | learner/Grid.cpp:105-109 | the upper bounds become the first `dim` entries of the argument |
| UniformGrid.Grid.SetUniformN | learner/Grid.cpp:125-131 | every axis gets the same node count `n` |
| UniformGrid.Grid.SetN | learner/Grid.cpp:135-139 | the node counts become the first `dim` entries of the argument |
| UniformGrid.Grid.Rasterize | learner/Grid.cpp:152-163 | afterwards `nodeCount` is the product of all `N[d]` and `cumN` is the stride sequence (`cumN[0] == 1`, `cumN[d]` the product of `N[..d]`) |
| Radix.Strides | learner/Grid.cpp:160-162 | the first stride is 1 and, on a grid with nodes on every axis, every stride is positive |
| Radix.StridesStep | learner/Grid.cpp:160-162 | each stride is the previous stride times the previous axis's node count |
| Radix.Product | learner/Grid.cpp:154-156 | the node count is positive when every axis has a node |
| UniformGrid.Grid.FlatIndex | learner/Grid.cpp:190-198 | the loop computes `Flatten(idx, N)`; for a dim index inside the grid the result is below `nodeCount` and decodes back to `idx` |
| UniformGrid.Grid.DimIndex | learner/Grid.cpp:202-211 | the loop computes `Unflatten(flat, N)`, a dim index inside the grid; a flat index below the product of the node counts re-encodes to itself |
| Radix.Unflatten | learner/Grid.cpp:202-211 | each decoded digit `v % N[d]` is below `N[d]` |
| Radix.FlattenPrefix | learner/Grid.cpp:192-196 | one loop step of `convertIndex` adds `idx[d] * cumN[d]` to the flat index of the prefix |
| Radix.UnflattenStep | learner/Grid.cpp:205-209 | one loop step of the decoding keeps the decoded prefix plus the decoding of the quotient equal to the whole decoding |
| Radix.FlattenBound | learner/Grid.cpp:190-198 | every dim index inside the grid has a flat index below the node count |
| Radix.FlattenUnflatten | learner/Grid.cpp:190-211 | decoding any flat index below the node count and re-encoding it gives it back |
| Radix.UnflattenFlatten | learner/Grid.cpp:190-211 | encoding any dim index inside the grid and decoding it gives it back |
| Radix.FlattenInjective | learner/Grid.cpp:190-198 | distinct nodes have distinct flat indices |
| Radix.UnflattenInjective | learner/Grid.cpp:202-211 | distinct flat indices below the node count decode to distinct nodes |
| Radix.FlattenCons | learner/Grid.cpp:190-198 | the flat index also unfolds in Horner form from axis 0 |
| Radix.UnflattenZero | learner/Grid.cpp:202-211 | flat index 0 decodes to the origin |
| Radix.FlattenOrigin | learner/Grid.cpp:190-198 | the origin has flat index 0 |
| Stencil.QBound | learner/Grid.cpp:218 | qBound clamps: the result is at least the lower limit and at most the upper one when they are ordered, and equals the value when it lies between them |
| Stencil.BottomLeft | learner/Grid.cpp:215-220 | each axis is clamped to `[0, N[d]-2]`: the node and its successor are in the grid when `N[d] >= 2`, a position already in range is kept, a negative one becomes 0, one past `N[d]-2` becomes `N[d]-2` |
| Stencil.Nearest | learner/Grid.cpp:224-229 | each axis is clamped to `[0, N[d]-1]`: always a node of the grid, a position in range is kept, one past the end becomes the last node |
| UniformGrid.Grid.NodeIndexBl | learner/Grid.cpp:215-220 | the loop computes `BottomLeft(pos, N)` |
| UniformGrid.Grid.NodeIndex | learner/Grid.cpp:224-229 | the loop computes `Nearest(pos, N)` |
| UniformGrid.Grid.NodeFlatIndexBl | learner/Grid.cpp:233-238 | the result is the flat index of the bottom-left node and lies below `nodeCount` |
| UniformGrid.Grid.NodeFlatIndex | learner/Grid.cpp:242-247 | the result is the flat index of the nearest node and lies below `nodeCount` |
| Odometer.Extents | learner/Grid.cpp:303-304 | every axis of a box has at least one lattice point |
| Odometer.BoxSize | learner/Grid.cpp:301-304 | the number of lattice points `neighbors` counts is positive for every box with `bmin <= bmax` |
| Odometer.Step | learner/Grid.cpp:315-323 | one increment-and-carry keeps the number of axes and keeps a point of the box inside the box |
| Odometer.VisitFlats | learner/Grid.cpp:310-311 | the first `count` iterations compute `count` flat indices, one per odometer state |
| Odometer.Without | learner/Grid.cpp:312-314 | leaving out the skipped value never lengthens the output |
| Odometer.BoxFlats | learner/Grid.cpp:306-324 | the walk's output has at most as many entries as the box has lattice points |
| Odometer.BoxPoint | learner/Grid.cpp:307-323 | every state of the odometer lies inside the box `[bmin, bmax]` |
| Odometer.BoxPointZero | learner/Grid.cpp:307-308 | the odometer starts at the lower corner `bmin` |
| Odometer.StepPrefix | learner/Grid.cpp:315-323 | one pass of the carry loop at axis `d` increments that axis, or resets it to `bmin[d]` and carries into the next axis |
| Odometer.StepAdvances | learner/Grid.cpp:315-323 | one increment-and-carry moves the odometer from its i-th state to its (i+1)-th |
| Odometer.BoxPointCovers | learner/Grid.cpp:310-324 | every lattice point of the box is reached within the first `Π(bmax[d]-bmin[d]+1)` states |
| Odometer.BoxPointInjective | learner/Grid.cpp:310-324 | no lattice point is visited twice within those states |
| Odometer.VisitNoDup | learner/Grid.cpp:310-324 | inside the grid, the walk yields no flat index twice |
| Odometer.VisitFlatInjective | learner/Grid.cpp:310-324 | inside the grid, distinct visits yield distinct flat indices |
| Odometer.BoxMembers | learner/Grid.cpp:310-324 | a flat index is yielded exactly when it is that of a lattice point of the box other than the skipped one |
| Odometer.BoxMemberPoint | learner/Grid.cpp:310-324 | every yielded flat index is that of a lattice point of the box and is not the skipped one |
| Odometer.BoxPointMember | learner/Grid.cpp:310-324 | the flat index of every lattice point other than the skipped one is yielded |
| Odometer.WithoutPrefix | learner/Grid.cpp:312-314 | filtering one more element appends it unless it is the skipped value |
| Odometer.WithoutMembers | learner/Grid.cpp:312-314 | the filter keeps exactly the elements other than the skipped value |
| Odometer.WithoutNoDup | learner/Grid.cpp:312-314 | filtering keeps a repetition-free sequence repetition-free |
| Odometer.WithoutLength | learner/Grid.cpp:312-314 | on a repetition-free sequence, filtering removes one element if the skipped value occurs and none otherwise |
| Odometer.WithoutNone | learner/Grid.cpp:360 | with nothing skipped, every flat index is kept |
| Odometer.WalkAdvance | learner/Grid.cpp:310-324 | one iteration of the walk keeps both loop invariants: the odometer is at the next state, and the output is the filtered flat indices of all states so far |
| UniformGrid.Increment | learner/Grid.cpp:315-323 | the in-place carry loop over the array performs exactly one `Step` |
| UniformGrid.BoxCount | learner/Grid.cpp:302-304 | the iteration count is the number of lattice points of the box |
| UniformGrid.Corner | learner/Grid.cpp:307-308 | the odometer array starts at `bmin` |
| Stencil.LowerCorner | learner/Grid.cpp:295 | the lower bound is `idx[d] - below` when that is not negative and 0 otherwise |
| Stencil.UpperCorner | learner/Grid.cpp:297 | the upper bound lies between `idx[d]` and the last node `N[d]-1`: it is `idx[d] + above` when that is a node and the last node otherwise |
| UniformGrid.ClipBox | learner/Grid.cpp:293-299 | the box bounds are `idx[d] - below` stopped at 0 and `idx[d] + above` stopped at `N[d]-1` |
| UniformGrid.Grid.Walk | learner/Grid.cpp:306-324 | the odometer loop returns the flat indices of the box's lattice points in odometer order, without the skipped value |
| Stencil.ClippedBox | learner/Grid.cpp:293-299 | the clipped box lies inside the grid; its lattice points are exactly the grid nodes within `below`/`above` of `idx` on every axis |
| UniformGrid.Grid.EnumerateNeighborhood | learner/Grid.cpp:285-327 | the result is `Neighborhood(N, idx, r)`: no flat index twice, the centre left out, one entry fewer than the clipped box |
| UniformGrid.Grid.EnumerateNeighborhoodOfNode | learner/Grid.cpp:274-277 | the result is the neighbourhood of the decoded node and does not contain `n` when `n` is a node |
| Stencil.Neighborhood | learner/Grid.cpp:285-327 | the neighbourhood is drawn from its clipped box: never more entries than the box has lattice points |
| Stencil.NeighborhoodMembers | learner/Grid.cpp:285-327 | `x` is in the neighbourhood exactly when it is the flat index of a grid node other than the centre within `r` of it on every axis (a Chebyshev box) |
| Stencil.NeighborhoodExcludesCenter | learner/Grid.cpp:312-314 | the centre's flat index is never yielded |
| Stencil.NeighborhoodNoDup | learner/Grid.cpp:285-327 | no flat index is yielded twice |
| Stencil.NeighborhoodSize | learner/Grid.cpp:301-324 | the neighbourhood has exactly one entry fewer than its clipped box |
| Stencil.NeighborhoodRadiusZero | learner/Grid.cpp:285-327 | with radius 0 the neighbourhood is empty |
| Stencil.ProductAllEqual | learner/Grid.cpp:302-304 | a box whose extents are all `k` has `k^D` points |
| Stencil.PowOne | learner/Grid.cpp:302-304 | `1^D == 1`: the arithmetic step by which a radius-0 box, one node wide on every axis, holds only its centre |
| UniformGrid.Grid.EnvelopingNodes | learner/Grid.cpp:334-374 | the result is `Envelope(N, bl, r)` for the bottom-left node `bl`: no flat index twice, as many entries as the clipped box, lower bound stopped at 0 |
| Stencil.Envelope | learner/Grid.cpp:334-374 | the envelope is drawn from its clipped box: never more entries than the box has lattice points |
| Stencil.EnvelopeMembers | learner/Grid.cpp:334-374 | `x` is in the envelope exactly when it is the flat index of a grid node at most `r` below and `r + 1` above the bottom-left node on every axis; no node is left out |
| Stencil.EnvelopeSize | learner/Grid.cpp:349-371 | the envelope has no repeated flat index and exactly as many entries as its box has lattice points |
| Stencil.CellExtents | learner/Grid.cpp:345-346 | with radius 0 and at least two nodes per axis, the box spans two nodes on every axis |
| Stencil.CellSize | learner/Grid.cpp:349-352 | with radius 0 and at least two nodes per axis, the box has `2^D` points |
| Stencil.EnvelopeCell | learner/Grid.cpp:334-374 | with radius 0 and at least two nodes per axis, the envelope is the `2^D` distinct corners of the cell |
| Stencil.FlattenThree | learner/Grid.cpp:190-198 | in a 3 x 3 grid, node `[a, b]` has flat index `a + 3b` |
| Stencil.ThreeByThreeIndex | learner/Grid.cpp:190-211 | a 3 x 3 grid has 9 nodes; node `[1, 1]` is flat index 4, and 4 decodes to `[1, 1]` |
| Stencil.SquareDigits | learner/Grid.cpp:202-211 | over two axes of 2 nodes, flat indices 0 to 3 decode to `[0,0]`, `[1,0]`, `[0,1]`, `[1,1]` |
| Stencil.SquarePoints | learner/Grid.cpp:307-323 | the odometer over `[0,1] x [0,1]` visits `[0,0]`, `[1,0]`, `[0,1]`, `[1,1]` in that order |
| Stencil.SquareWalk | learner/Grid.cpp:310-324 | in a 3 x 3 grid that walk yields flat indices 0, 1, 3, 4 |
| Stencil.SquareCorners | learner/Grid.cpp:293-299 | the radius-1 box around `[0,0]` and the radius-0 envelope of the first cell are both `[0,1] x [0,1]` |
| Stencil.CornerWalk | learner/Grid.cpp:285-327 | the neighbourhood of the corner `[0,0]` of a 3 x 3 grid filters that walk, skipping flat index 0 |
| Stencil.DropCorner | learner/Grid.cpp:312-314 | skipping 0 from 0, 1, 3, 4 leaves 1, 3, 4 |
| Stencil.CornerNeighborhood | learner/Grid.cpp:285-327 | in a 3 x 3 grid the radius-1 neighbourhood of the corner `[0,0]` is exactly flat indices 1, 3, 4: off-grid nodes and the centre are dropped |
| Stencil.FirstCellEnvelope | learner/Grid.cpp:334-374 | in a 3 x 3 grid the radius-0 envelope of bottom-left node `[0,0]` is flat indices 0, 1, 3, 4, the four corners of the cell |
| Stencil.LowerCornerAsWritten | learner/Grid.cpp:345 | as written, every lower bound is a 32-bit unsigned value, and it agrees with the intended bound whenever `r <= bl[d]` |
| Stencil.LowerCornerUnderflow | learner/Grid.cpp:345 | as written, when the radius exceeds the bottom-left index, the lower bound wraps to `2^32 - (r - bl[d])`; that is above the upper bound, while the intended bound is 0 |
| Stencil.LowerCornerUnderflowExample | learner/Grid.cpp:345-352 | as written, for one axis of 3 nodes, bottom-left `[0]` and radius 1: the walk starts at 4294967295, which is no node, and counts 4 points where the box has 3 |
| UniformGrid.Grid.ContainsPoint | learner/Grid.cpp:377-384 | true exactly when `min[d] <= x[d] <= max[d]` on every axis, both bounds inclusive |

## Left out

- Floating-point raster construction is not modelled, because it is IEEE double arithmetic. This covers `stride`, `strideinv` and the `raster` table (`learner/Grid.cpp:165-173`), `getStride` and both `getNodeCoordinates` overloads.
- Converting a position to a node number is not modelled: the `(int)` truncation and the `qRound` of `(x[d]-min[d])*strideinv[d]` are float-to-int conversions. The lookups take the already scaled integer position, and the clamping after it is modelled exactly.
- `uniformSample` is left out: it is a random draw through a statistics helper that is not part of this model.
- `load`/`save` (file I/O), `printGridNodes` and `drawGridNodes` (debug and painter output) are left out.
- The scalar `setMin(double)`/`setMax(double)` overloads are left out: their bodies are commented out and do nothing. The getters (`getDim`, `getMin`, `getMax`, `getN`, `getNodeCount`) only return fields, and the model reads the fields directly.
- The model does not capture aliasing of the `_idx`/`_x` scratch buffers. The source returns pointers into them and later calls overwrite them. The model returns fresh sequences, and the odometer runs on a fresh array.
- Unsigned 32-bit overflow is not modelled, except for the lower bound of the enveloping box (see Findings). Integers are unbounded, so `nodeCount`, `cumN[d]`, `k` in `convertIndex`, `idx[d] + radius`, the neighbour count and `_idx[d]++` never wrap.
- `UniformGrid.Grid.EnumerateNeighborhood`: requires the centre to be a node of the grid, because the source documents `idx` as "the node specified by DIM index idx" (`learner/Grid.cpp:279-280`). The source does not check this. For an index off the grid it still clips the box, but the centre's flat index can alias a real node, which is then dropped: with `N = [3, 3]`, `idx = [3, 0]` and `r = 3` the centre's flat index is 3, the flat index of node `[0, 1]`. The count `bmax - bmin + 1` also wraps once `idx[d] > N[d] + r`. The model does not describe these results.
- `UniformGrid.Grid.EnumerateNeighborhoodOfNode`: requires every axis to have a node. The source divides by `N[d]` and gives no meaning to a zero count.
- `UniformGrid.Grid.EnvelopingNodes`: requires every axis to have a node, because with `N[d] == 0` the source's `N[d]-1` wraps. It also uses the corrected lower bound `max(0, bl[d] - r)` instead of the wrapping `qMax(idx[d]-radius, (uint)0)` at `learner/Grid.cpp:345` (see Findings). So when the radius exceeds the bottom-left index, it returns the clipped box, not what the code as written returns.
- `UniformGrid.Grid.Rasterize`: requires at least one dimension, because the source reads `N[0]`.
- `UniformGrid.Grid.ContainsPoint`: bounds are exact reals, so NaN coordinates, which compare false both ways in the source, are not represented.
- `util/GLlib.h` is not part of this model: it holds drawing declarations only.

## Findings

| source | as written | input that shows it | evidently intended | confidence | as-written member | corrected member |
|---|---|---|---|---|---|---|
| learner/Grid.cpp:345 | `bmin[d] = qMax(idx[d]-radius, (uint)0)` subtracts in unsigned arithmetic, so it wraps below 0 and `qMax` with 0 cannot undo it | one axis, `N = [3]`, bottom-left node `[0]`, radius 1: `bmin = 4294967295`, the node count becomes `(2 - 4294967295 + 1) mod 2^32 = 4`, and the walk starts at flat index 4294967295, which is not a node | `bmin[d] = max(0, idx[d] - radius)`, as `enumerateNeighborHood` does at line 295; the box then holds the 3 nodes of the axis | high (not executed) | Stencil.LowerCornerUnderflow | Stencil.EnvelopeMembers |
