# otb core in Dafny

A verified model of the working core of otb, an ambient-occlusion baker:

- the post-processing passes applied to the baked occlusion map: `invert`, the separable `gaussian_blur` and the unimplemented `dither`;
- the scalar helpers `saturate` and `clamp`;
- the helpers of `utils.cpp` that do real work:
  - the mesh-acceptance filter of `load_meshes_helper`;
  - the `same_side` / `point_in_tris` test;
  - the helper-axis choice of `cosine_weighted_hemisphere_sample`;
  - `generate_gaussian_kernel_1d`;
  - the `generate_unique_index` counter;
- the `image` pixel buffer;
- the three bookkeeping tables `buffer_manager`, `binding_manager` and `mesh_data_manager`;
- `mesh_t`.

Each source file maps to the modules below:

| file | module | form |
|---|---|---|
| otb/utils.hpp | `Scalar` (`scalar.dfy`) | functions |
| otb/utils.cpp | `Geometry`, `GaussianKernel`, `UniqueIndex`, `MeshLoading` | functions and lemmas for the expression-only helpers; methods with loops for the kernel and the loader; a class with one method for the counter |
| otb/image.hpp | `Images` | class `Image<T>` over an `array<T>` |
| otb/postprocess.cpp | `PostProcess` | methods with the source's loop nests, proved against specification functions |
| otb/buffer_manager.hpp | `Buffers` | class `BufferManager` plus a replay model of its call history |
| otb/binding_manager.cpp | `Bindings` | class `BindingManager` |
| otb/mesh_data_manager.cpp | `MeshData` | class `MeshDataManager` |
| otb/mesh.hpp | `Meshes` | class `Mesh` with `const` fields |

`Tables` holds the two `std::vector` updates the managers use (`resize` and `insert`), and `Wrappers` holds `Option`.

Pixel values and coordinates are exact reals. Integer widths that matter are written out: `uint32_t` sums wrap with `Wrap32` (the blur's sample coordinates and the index counter), and `U32Value` is the `uint32_t` range.

The blur's specification takes an edge rule. `AsWritten` samples with the source's wrapping coordinate, and the loops are proved against it. `Corrected` samples with the clamp the code evidently intends (see Findings). The range and uniform-image properties are proved for both rules.

Two things the model does not compute become parameters:
- The Gaussian `exp(-x^2 / 2 sigma^2) / sqrt(2 pi sigma^2)` is a function `gauss` of the integer offset, only known to be positive, because floating-point transcendentals are not modelled.
- GL object names (`glGenBuffers`, `glGenVertexArrays`) are handles the caller passes in.

## Model

| member | source | states |
|---|---|---|
| Scalar.Saturate | otb/utils.hpp:47-51 | the result lies in [0, 1]; it is the value itself inside [0, 1], 0 below and 1 above |
| Scalar.SaturateIdempotent | otb/utils.hpp:47-51 | saturating twice is saturating once |
| Scalar.Clamp | otb/utils.hpp:53-57 | for lo <= hi the result lies in [lo, hi] and is the value itself inside it, lo below, hi above; for lo > hi the result is hi |
| Scalar.Wrap32 | otb/postprocess.cpp:52 | `uint32_t` arithmetic: a value in range is kept, a value in [-2^32, 0) gains 2^32 |
| Geometry.SameSideIsOrientationTest | otb/utils.cpp:181-194 | `same_side` holds iff the two signed areas against the edge a-b have a non-negative product |
| Geometry.PointInTriangleIff | otb/utils.cpp:196-199 | `point_in_tris` holds iff for every edge p is on the side of the opposite vertex or on the edge's line |
| Geometry.EdgePointsInside | otb/utils.cpp:181-199 | every point of the closed edge a-b is inside, for any triangle, degenerate ones included |
| Geometry.WindingIndependent | otb/utils.cpp:196-199 | swapping b and c (the opposite winding) or a and b does not change the answer; together these give every vertex order |
| Geometry.HelperAxis | otb/utils.cpp:223-229 | the helper vector is n with exactly one component set to 1: the one of smallest absolute value, ties going to x, then y |
| Geometry.HelperAxisNotParallel | otb/utils.cpp:223-231 | for n != 0 whose overridden component was not already 1, the helper vector is not parallel to n, so `cross(h, n)` is non-zero |
| GaussianKernel.WeightSum | otb/utils.cpp:242-256 | with a positive Gaussian the running `weight_sum` is positive once one entry is added |
| GaussianKernel.GenerateGaussianKernel | otb/utils.cpp:238-263 | the generation and normalisation loops return exactly `Kernel`: `kernel_size` entries, entry i the Gaussian at offset `i - kernel_size / 2` divided by the total weight |
| GaussianKernel.KernelPrefixSum | otb/utils.cpp:251-260 | each prefix of the kernel sums to the running weight sum divided by the total weight |
| GaussianKernel.KernelSumsToOne | otb/utils.cpp:258-260 | a non-empty kernel sums to 1 |
| GaussianKernel.KernelPositive | otb/utils.cpp:251-260 | every kernel entry is positive |
| GaussianKernel.KernelSymmetric | otb/utils.cpp:240-254 | for an even Gaussian and an odd size, entries i and size-1-i are equal |
| UniqueIndex.IndexCounter.constructor | otb/utils.cpp:267 | the counter starts at 0 |
| UniqueIndex.IndexCounter.Generate | otb/utils.cpp:265-269 | returns the counter's value and advances it by one modulo 2^32 |
| UniqueIndex.Issued | otb/utils.cpp:265-269 | n calls hand out n indices |
| UniqueIndex.IssuedStep | otb/utils.cpp:265-269 | one more call appends the counter's current value, and wrapping composes |
| UniqueIndex.IssuedIncreasing | otb/utils.cpp:265-269 | before the counter wraps, the indices are start, start+1, ..., strictly increasing and so distinct |
| UniqueIndex.IssuedWrapsAround | otb/utils.cpp:265-269 | after 2^32 calls an index repeats |
| Meshes.Mesh.constructor | otb/mesh.hpp:31-34 | the mesh takes the counter's next index, advancing it by one, and keeps exactly the four vectors it is given |
| MeshLoading.Vec3s | otb/utils.cpp:45-48 | `|f| / 3` vectors, vector i built from floats 3i, 3i+1, 3i+2; trailing floats dropped |
| MeshLoading.Vec2s | otb/utils.cpp:49-50 | `|f| / 2` vectors, vector i built from floats 2i, 2i+1 |
| MeshLoading.Faces | otb/utils.cpp:51-52 | `|f| / 3` faces, face i built from indices 3i, 3i+1, 3i+2 |
| MeshLoading.Accepted | otb/utils.cpp:33-43 | the filter never adds shapes |
| MeshLoading.AcceptedMembers | otb/utils.cpp:33-43 | a shape is kept iff it is in the input and has vertices, triangles, one normal and one texture coordinate per vertex |
| MeshLoading.AcceptedAppend | otb/utils.cpp:33-56 | the filter keeps source order: filtering a concatenation is concatenating the filtered parts |
| MeshLoading.AcceptedShapesAreConsistent | otb/utils.cpp:37-43 | a kept shape yields equally many vertices, normals and texture coordinates, and at least one face |
| MeshLoading.LoadedFromStep | otb/utils.cpp:54-55 | appending the mesh of one more kept shape, with the next index, keeps "built from the kept shapes, in order" |
| MeshLoading.AddMesh | otb/utils.cpp:45-55 | one accepted shape becomes one fresh mesh appended to the output, taking the counter's next index |
| MeshLoading.LoadShapes | otb/utils.cpp:33-56 | the loop appends exactly one fresh mesh per kept shape, in order, with consecutive counter indices, and leaves the given meshes untouched |
| MeshLoading.LoadMeshesHelper | otb/utils.cpp:20-57 | an empty path, a missing file, an extension other than ".obj" or a failed parse appends nothing; otherwise the kept shapes are appended as above |
| MeshLoading.LoadMeshes | otb/utils.cpp:59-64 | the meshes returned are exactly those built from the kept shapes |
| Images.PixelBytes | otb/image.hpp:21-37 | one byte per pixel for U8, four for F32 (one channel each) |
| Images.Image.constructor | otb/image.hpp:48-56 | allocates a fresh buffer of `width * height` pixels with the given format and dimensions, for positive dimensions |
| Images.Image.Size | otb/image.hpp:74-77 | `size()` is `width * height` bytes for U8 and four times that for F32 |
| Images.Image.Get | otb/image.hpp:95-99 | reading index i, allowed only below `width * height`, returns pixel i |
| Images.Image.Set | otb/image.hpp:95-99 | writing index i, allowed only below `width * height`, changes pixel i and no other |
| Images.IdxIsProduct | otb/postprocess.cpp:17 | the row-major address of row i, column j is `i * w + j` |
| Images.IdxBound | otb/postprocess.cpp:53 | the address of a cell of a w x h image is below `w * h` |
| Images.IdxInjective | otb/postprocess.cpp:57 | distinct cells have distinct addresses |
| Images.CellOfIndex | otb/postprocess.cpp:75 | every index below `w * h` is the address of exactly the cell (index / w, index % w) |
| Images.RowColAreDivMod | otb/postprocess.cpp:75 | the recovered row and column are `index / w` and `index % w` |
| PostProcess.Inverted | otb/postprocess.cpp:13-22 | the inverted image has as many texels as the original |
| PostProcess.Invert | otb/postprocess.cpp:8-25 | the row-by-row loop leaves every texel equal to `saturate(1 - old)` |
| PostProcess.InvertedInUnitRange | otb/postprocess.cpp:20 | after `invert` every texel lies in [0, 1] |
| PostProcess.InvertInvolution | otb/postprocess.cpp:13-22 | on texels already in [0, 1], inverting twice gives the image back |
| PostProcess.SampleIndex | otb/postprocess.cpp:52 | the as-written sample column is always below w; it is j + k when that lies in [0, w), and w - 1 when it lies in [w, 2^32) |
| PostProcess.NegativeSampleWraps | otb/postprocess.cpp:52 | as written, a negative `j + k` wraps and clamps to w - 1, the opposite border |
| PostProcess.LeftEdgeSamplesRightBorder | otb/postprocess.cpp:52 | at column 0 of an 8-wide image the tap at offset -1 reads column 7 as written, column 0 once corrected |
| PostProcess.ClampedSampleIndex | otb/postprocess.cpp:52 | the corrected sample column lies in [0, w): j + k inside, 0 past the left edge, w - 1 past the right edge |
| PostProcess.SampleIndexDiffersOnlyLeft | otb/postprocess.cpp:70 | the as-written and corrected coordinates differ exactly when `i + k` (or `j + k`) is negative |
| PostProcess.TapsInBoundsIffOdd | otb/postprocess.cpp:50-54 | every `kernel[k + kernel_half_width]` read is in bounds iff `kernel_size` is odd; an even size reads `kernel[kernel_size]` |
| PostProcess.HorizontalPassAt | otb/postprocess.cpp:45-60 | texel (i, j) of the horizontal half is the full weighted sum along row i around column j, with the taps sampled by the chosen edge rule (line 52's wrapping clamp for `AsWritten`) |
| PostProcess.VerticalPassAt | otb/postprocess.cpp:63-78 | texel (i, j) of the vertical half is the full weighted sum along column j around row i, with the taps sampled by the chosen edge rule (line 70's wrapping clamp for `AsWritten`) |
| PostProcess.RowSumStep | otb/postprocess.cpp:50-55 | each tap adds the sampled texel of the same row times its kernel weight, and that texel's address is in bounds |
| PostProcess.ColumnSumStep | otb/postprocess.cpp:68-73 | each tap adds the sampled texel of the same column times its kernel weight, and that texel's address is in bounds |
| PostProcess.SumRow | otb/postprocess.cpp:49-55 | the `k` loop computes the as-written row sum of texel (i, j), reading column `clamp(Wrap32(j + k), 0, w - 1)` for each tap |
| PostProcess.SumColumn | otb/postprocess.cpp:67-73 | the `k` loop computes the as-written column sum of texel (i, j) from `temp`, reading row `clamp(Wrap32(i + k), 0, h - 1)` for each tap |
| PostProcess.BlurRow | otb/postprocess.cpp:47-59 | the `j` loop sets every texel of row i of `temp` to its as-written horizontal value and no other texel |
| PostProcess.BlurRows | otb/postprocess.cpp:45-60 | after the horizontal half, all of `temp` is the as-written horizontal pass of the image, before the vertical half reads it |
| PostProcess.BlurColumn | otb/postprocess.cpp:65-77 | the `i` loop sets every texel of column j of the image to its as-written vertical value and no other texel |
| PostProcess.BlurColumns | otb/postprocess.cpp:63-78 | after the vertical half, every image texel is the as-written vertical pass of `temp` |
| PostProcess.BlurPasses | otb/postprocess.cpp:42-79 | `num_pass` passes leave the image equal to `Blurred` of the original under the `AsWritten` edge rule |
| PostProcess.GaussianBlur | otb/postprocess.cpp:32-82 | the image ends as `num_pass` as-written separable passes with the normalised Gaussian kernel; with `num_pass == 0` it is unchanged |
| PostProcess.WeightedBounds | otb/postprocess.cpp:49-55 | a weighted sum of texels in [0, 1] with non-negative weights lies between 0 and the sum of the weights |
| PostProcess.TapsInUnitRange | otb/postprocess.cpp:52-54 | under either edge rule, the texels a row sum or a column sum reads lie in [0, 1] when the image's texels do |
| PostProcess.PassesKeepUnitRange | otb/postprocess.cpp:45-78 | under either edge rule, one horizontal or vertical half with a normalised kernel keeps an image inside [0, 1] |
| PostProcess.BlurredInUnitRange | otb/postprocess.cpp:42-79 | under either edge rule, any number of passes with a normalised kernel keeps an image inside [0, 1] |
| PostProcess.GaussianBlurInUnitRange | otb/postprocess.cpp:37-42 | with the generated Gaussian kernel, `gaussian_blur` (as written, and corrected) keeps an image whose texels lie in [0, 1] inside [0, 1] |
| PostProcess.WeightedConstant | otb/postprocess.cpp:49-55 | a weighted sum of equal texels v is v times the sum of the weights |
| PostProcess.UniformStaysUniform | otb/postprocess.cpp:45-78 | under either edge rule, a horizontal or vertical half with a kernel summing to 1 maps a uniform image to itself |
| PostProcess.BlurredUniform | otb/postprocess.cpp:42-79 | under either edge rule, any number of passes with a kernel summing to 1 leaves a uniform image unchanged |
| PostProcess.GaussianBlurKeepsUniform | otb/postprocess.cpp:37-42 | `gaussian_blur` with the generated kernel leaves a uniform map unchanged, for every kernel size and pass count |
| PostProcess.SamplesAgreeInside | otb/postprocess.cpp:52 | the as-written and corrected sample coordinates are equal whenever `j + k` lies in [0, 2^32) |
| PostProcess.HorizontalRulesAgreeInside | otb/postprocess.cpp:45-60 | at columns j >= `kernel_half_width`, the as-written horizontal half equals the corrected one |
| PostProcess.VerticalRulesAgreeInside | otb/postprocess.cpp:63-78 | at rows i >= `kernel_half_width`, the as-written vertical half equals the corrected one |
| PostProcess.LeftEdgeTapsDiffer | otb/postprocess.cpp:52-54 | with the 3-tap kernel, the first tap of column 0 reads the row's last texel as written, and its first texel when corrected |
| PostProcess.Dither | otb/postprocess.cpp:89-130 | `dither` changes no texel: its body is commented out |
| Tables.Resized | otb/binding_manager.cpp:46-47 | `resize(n)` yields n entries, keeps the old ones below n, and fills the rest with the default |
| Tables.Inserted | otb/mesh_data_manager.cpp:44-48 | `insert` at index adds one entry: x at index, entries before index unchanged, entries from index on shifted right by one |
| Tables.InsertedRemoved | otb/mesh_data_manager.cpp:44 | removing the inserted entry gives the old table back: nothing is lost or reordered |
| Buffers.Apply | otb/buffer_manager.hpp:56-82 | a create appends its handle; a release succeeds iff its index is in range, then tombstones that slot with `UINT32_MAX` and keeps the length and every other slot |
| Buffers.ReplayLength | otb/buffer_manager.hpp:66-67 | the table's length is the number of creations |
| Buffers.IndicesNeverReused | otb/buffer_manager.hpp:66-75 | a later `create_buffer` returns a strictly larger index than an earlier one, whatever was released in between |
| Buffers.ReleasedStaysTombstoned | otb/buffer_manager.hpp:76-82 | once released, a slot holds `UINT32_MAX` for good |
| Buffers.ReleasedIndexInRange | otb/buffer_manager.hpp:76-78 | in a history whose assertions all hold, every released index is a slot of the table |
| Buffers.TombstoneIffReleased | otb/buffer_manager.hpp:66-81 | when no created handle equals `UINT32_MAX`, a slot holds `UINT32_MAX` iff it was released |
| Buffers.CreatedHandleKept | otb/buffer_manager.hpp:66-67 | a created handle stays in its slot until that slot is released |
| Buffers.BufferManager.constructor | otb/buffer_manager.hpp:32-39 | a new manager has an empty table |
| Buffers.BufferManager.CreateBuffer | otb/buffer_manager.hpp:56-73 | returns the previous table length and appends exactly the new handle |
| Buffers.BufferManager.ReleaseBuffer | otb/buffer_manager.hpp:76-82 | requires the index in range; tombstones that slot and changes nothing else |
| Buffers.BufferManager.Get | otb/buffer_manager.hpp:84-92 | `get` succeeds iff the index is in range (`at` throws otherwise) and then reads the same entry as `operator[]` |
| Bindings.Bound | otb/binding_manager.cpp:46-48 | below the end: one more entry, the record at index, later records shifted right; at or past the end: length index + 2, default records up to index, the record at index, a default record at index + 1; entries before index unchanged |
| Bindings.BindShiftsExisting | otb/binding_manager.cpp:48 | binding at an occupied index moves the record it displaces to index + 1 |
| Bindings.BindingManager.constructor | otb/binding_manager.hpp:25 | a new manager has an empty table |
| Bindings.BindingManager.BindData | otb/binding_manager.cpp:8-52 | the table becomes `Bound` of the old one with the three VAOs in the order base, occlusion, wireframe, and `get(mesh)` then returns that record |
| Bindings.BindingManager.Get | otb/binding_manager.cpp:54-72 | the mesh overloads and the index overloads read the same entry |
| MeshData.MeshDataManager.constructor | otb/mesh_data_manager.hpp:32 | the manager keeps the buffer manager it is given and starts empty |
| MeshData.MeshDataManager.BindData | otb/mesh_data_manager.cpp:8-52 | requires `mesh.index` at most the length and the four buffer indices in range; inserts the three VAOs followed by the four buffer indices in argument order at `mesh.index`, and leaves the buffer manager's table unchanged |
| MeshData.MeshDataManager.Get | otb/mesh_data_manager.cpp:54-72 | the mesh overloads and the index overloads read the same entry |

## Left out

- GL, SDL and driver calls are not modelled: context switches, `glGenBuffers`/`glBufferData`/`glDeleteBuffers`, VAO setup, `glGetError` assertions. The handles they produce are parameters.
- `async_apply`, promises, futures and the `_async` loaders are not modelled: every helper is a synchronous method.
- Floating point is not modelled: pixels, positions and kernel weights are exact reals. `exp`, `sqrt` and `sigma` are replaced by the positive function `gauss`, so results are exact, not IEEE-rounded.
- File-system queries, the OBJ parser and `path.extension()` are parameters of `LoadMeshesHelper`, not modelled calls.
- `load_program`, `write_image`, `random_double` and the trigonometric and normalising part of `cosine_weighted_hemisphere_sample` are not modelled: they are GL, codec I/O, randomness and float numerics.
- `generate_unique_index`'s function-local static becomes an `IndexCounter` object that callers pass explicitly.
- Images.Image.constructor: requires `width * height < 2^32`. The source computes `width * height` and `i * w + j` in `uint32_t`, and the model does not follow those products through a wrap-around.
- Images.Image: the pixel type is a type parameter, so a U8 image does not bound its pixels to [0, 255]. `raw()` is not modelled; the format is the `format` field and `channels()` is `Channels`.
- GaussianKernel.GenerateGaussianKernel: requires `kernel_size < 2^31`. Beyond that, `static_cast<int32_t>(kernel_size)` turns negative and the generation loop does not run, which the model does not follow.
- PostProcess.GaussianBlur: requires an odd `kernel_size`. With an even size the loop reads `kernel[kernel_size]`, which `TapsInBoundsIffOdd` proves. It also requires `kernel_size < 2^31`, where the `int32_t` casts keep their value.
- PostProcess.BlurColumns: proves every texel's final value, not that each texel is written exactly once. The same holds for `BlurRows`, `BlurRow` and `BlurColumn`.
- PostProcess.Dither: the commented-out ordered-dither code is not modelled.
- Bindings.BindingManager.BindData: requires `mesh.index < 2^32 - 1`. With `UINT32_MAX`, `mesh.index + 1` wraps to 0 in `uint32_t`, and the insert then runs past the end.
- Bindings.BindingManager.Get: the four getter overloads are one function per argument kind; `operator[]` is the same read as `get`. The same holds for `MeshData.MeshDataManager.Get`. Their `requires` is the in-range index that the unchecked `_data[...]` needs.
- Buffers.BufferManager.ReleaseBuffer: requires the index in range, where the source asserts it; `Buffers.Apply` models a release out of range as the failed assertion (`None`).
- MeshData.MeshDataManager.BindData: requires `mesh.index` at most the table's length, because `insert` past the end is undefined behaviour; unlike the binding manager, this one does not resize first. The buffer indices are required in range because the unchecked `_buffer_mgr[...]` reads need it. The VAOs and attribute-pointer setup are GL calls and are not modelled.
- Buffers.TombstoneIffReleased: assumes no `glGenBuffers` name equals `UINT32_MAX`. A handle equal to it is accepted, as in the source, and is then indistinguishable from a released slot.
- Buffers.BufferManager.CreateBuffer: the buffer type, usage and data upload are not modelled; only the table update is.
- Meshes.Mesh: deleted copy operations are not modelled, because a Dafny class has no copy constructor; accessors are the `const` fields themselves.

## Findings

| source | as written | input that shows it | evidently intended | confidence | as-written member | corrected member |
|---|---|---|---|---|---|---|
| otb/postprocess.cpp:52 | `clamp(j + k, (uint32_t)0, w - 1)` adds the `int32_t` offset to the `uint32_t` column. A negative sum wraps to near 2^32 and is clamped to `w - 1`; line 70 does the same for rows and `h - 1`. | j = 0, k = -1, w = 8: the tap reads column 7 instead of column 0 | clamp the signed sum, so taps past the left or top edge repeat the edge texel | not executed | PostProcess.LeftEdgeSamplesRightBorder | PostProcess.ClampedSampleIndex |

The blur's specification runs under either rule. `GaussianBlur` is proved for `AsWritten`, what the source computes. `Corrected` is the intended blur: its range and uniform-image properties are proved, and `HorizontalRulesAgreeInside` and `VerticalRulesAgreeInside` show it agrees with the source away from the left and top edges.
