# Padding operator (gorgonia `padOp`) in Dafny

This project models the padding operator of the gorgonia graph library:

- `Pad` builds a padding node from a rank-4 input and a list of margins (`nn_li.go`).
- `padOp` implements it (`op_nn_li.go`): shape inference, input validation, the text identity used by `String` and `WriteHash`, and the forward entry points `Do` and `UsePreallocDo`.
- `do` and its kernels `f32s`/`f64s` work directly on strided buffers. They step through the input, output and mask buffers one (batch, channel) plane at a time.

Modules:

- `Results`: the value-or-error result of every fallible operation.
- `Decimal`: Go's `%d` rendering of integers. It proves that a rendered number followed by a separator can be read back uniquely.
- `PoolKernel`: the kernel `f32s`/`f64s`, written once for both element widths. It is an imperative method over arrays, proved against the `KernelDone` specification. Every output cell holds the larger of the sentinel and the maximum of its clipped input window. The mask holds the row-major index of the first window cell that attains that value. When no window cell exceeds the sentinel, the mask keeps its start value: -1 within the output's length, the old entry beyond it (see below).
- `PadOperator`: the `Tensor` and `PadOp` classes and the operator's functions. `PadOp` holds the configuration and the mask tensor that the operator owns and overwrites.
- `PadBuild`: `Pad`, as a pure function that returns the operator configuration or the error.

`padOp` is configured with margins, a constant `mode` and a fill `Value` (op_nn_li.go:11-16, nn_li.go:31-37), but the body of `f32s`/`f64s` (op_nn_li.go:181-277) is a max-pooling kernel. The model follows that body as written:

- It scans a window set by `h`, `w`, `strideH`, `strideW`, `padNorth`, `padWest`, `padSouth`, `padEast` and `explicitPadding`.
- `padOp` declares none of these fields. The model passes them in as the `Window` datatype.
- Cells start from `-maxFloat32`/`-maxFloat64` (op_nn_li.go:188, 237), not from the configured `Value`. The model passes this sentinel in as a parameter.
- The margins `padTop`, `padBottom`, `padLeft` and `padRight` are never read by the kernel; they only set the output shape through `calcShape`.

`PoolKernel.UnitWindowCopies` proves where max pooling and padding meet. Take a 1x1 window, unit strides, `explicitPadding` false, and the offsets `padNorth`/`padWest` set to the top and left margins. Then the kernel copies each shifted input cell that exists and exceeds the sentinel. Every other output cell keeps the sentinel and its start mask entry.

Two further points of the source's text shape the model:

- The first loop of the kernel (op_nn_li.go:187-190) resets the mask only over the output's length. Mask cells past that length keep their old contents (`PoolKernel.ResetMask`).
- `do` reads the mask's strides (op_nn_li.go:156) before testing the mask for nil (op_nn_li.go:161). A nil mask therefore never reaches the allocation branch, so the model requires a mask.

Element values are only compared and copied, so they are modelled as `int`. A tensor is a class with an element type, a shape and a row-major `array<int>`. A tensor's plane stride, `Strides()[1]`, is height times width.

## Model

| member | source | states |
|---|---|---|
| PoolKernel.PoolPlanes | op_nn_li.go:181-228 | The kernel: after the sentinel/-1 initialisation and the walk over all batches * channels planes with per-buffer plane strides, every cell of every plane holds its window maximum (`KernelDone`); output cells outside the planes hold the sentinel and mask cells outside them hold what the first loop left there |
| PoolKernel.PoolPlane | op_nn_li.go:200-221 | One (batch, channel) plane: every output cell ph * outW + pw of the plane holds its window maximum and mask entry; no cell outside the plane's output and mask slices changes |
| PoolKernel.ScanWindow | op_nn_li.go:203-219 | One output cell: after the clipped row-major window scan with strict `>`, the cell holds a value that dominates every window cell, equals the first window cell attaining it (whose index is in the mask), or is still the sentinel with the mask entry untouched; nothing else changes |
| PoolKernel.ResetMask | op_nn_li.go:186-190 | The initialisation loop sets mask entries to -1 exactly at positions below the output's length and leaves the rest as they were |
| PoolKernel.WindowMaxUnique | op_nn_li.go:211-219 | The window-maximum specification determines an output cell and its mask entry uniquely |
| PoolKernel.MaskIsPlaneIndex | op_nn_li.go:210-217 | For a cell started at -1: the mask entry is -1 if and only if the value is the sentinel; otherwise it decodes to an input row and column of the plane and the value is that input cell |
| PoolKernel.KernelCell | op_nn_li.go:186-227 | After the whole kernel, for every plane and cell whose mask entry lies within the output's length: the mask is -1 if and only if the output cell holds the sentinel, and otherwise it indexes the input cell whose value the output holds |
| PoolKernel.UnitWindowCopies | op_nn_li.go:191-219 | With a 1x1 window, unit strides and implicit offsets, output cell (ph, pw) takes input cell (ph - padNorth, pw - padWest) with that index as mask entry when the cell exists and exceeds the sentinel; otherwise it keeps the sentinel and its start mask entry |
| PadOperator.CalcShape | op_nn_li.go:141-147 | The padded shape has four dimensions; batch and channel are unchanged; height grows by top + bottom and width by left + right |
| PadOperator.InferShape | op_nn_li.go:38-43 | Succeeds if and only if the first argument is a shape, with the padded shape; otherwise fails with the expected-shape error |
| PadOperator.CheckInput | op_nn_li.go:123-138 | Succeeds if and only if there is exactly one input, it is a tensor, and it has rank 4, returning that tensor; otherwise it returns the arity error, the not-a-tensor error or the rank error, checked in that order |
| PadOperator.String | op_nn_li.go:67-71 | The `Sprintf` text: it opens with `Pad{` and the top margin in `%d` followed by a comma, and closes with `)`; the margins are rendered by `%d` and the value through the `%f` parameter `fmtFloat` |
| PadOperator.StringDeterminesMargins | op_nn_li.go:67-71 | Two configurations with the same `String` text have the same four margins |
| Decimal.FormatInt | op_nn_li.go:68 | `%d` renders a non-empty string of digits with a leading minus exactly for negative numbers |
| Decimal.FormatIntInjective | op_nn_li.go:68 | Different integers render differently under `%d` |
| Decimal.FormatIntThen | op_nn_li.go:68-70 | A rendered number followed by a separator splits back uniquely into the number and the rest |
| PadOperator.Tensor.constructor | op_nn_li.go:51 | A new tensor has the given element type and shape, a fresh buffer of shape-volume length, and all cells zero |
| PadOperator.PadOp.constructor | op_nn_li.go:18-29 | `makePadOp` stores the four margins, mode and value, and allocates a fresh `Int` mask shaped like the padded input |
| PadOperator.PadOp.OwnMaskFits | op_nn_li.go:27 | The mask allocated for an input shape fits the output `Do` produces for inputs of that shape |
| PadOperator.PadOp.WriteHash | op_nn_li.go:59-63 | Appends exactly the `String` text to the hash |
| PadOperator.PadOp.DoKernel | op_nn_li.go:151-179 | For Float64 and Float32 inputs, output and mask satisfy the kernel specification with the output's extents and the three plane strides; for any other element type both buffers are unchanged |
| PadOperator.PadOp.Do | op_nn_li.go:45-54 | Returns `checkInput`'s error with the mask untouched; otherwise returns a fresh tensor of the input's element type shaped `CalcShape(input shape)`, filled by the kernel for float inputs and left zero otherwise |
| PadOperator.PadOp.UsePreallocDo | op_nn_li.go:73-85 | Returns `checkInput`'s error, or the not-a-tensor error for a non-tensor prealloc, changing nothing; otherwise runs the kernel into the prealloc and returns it |
| PadBuild.Pad | nn_li.go:10-47 | Fails with the rank error if and only if the input's rank is not 4; on success the mode is "constant" and the value 0; the margins are taken verbatim from a four-entry list and as `[h, h, w, w]` from any other; the padded height and width are non-negative |
| PadBuild.PadAcceptsExactly | nn_li.go:39-47 | A rank-4 input is accepted if and only if both padded dimensions are non-negative; the height error takes precedence over the width error |
| PadBuild.PadShorthand | nn_li.go:19-29 | Any margin list whose length is not four means the same as its first two entries expanded to `[h, h, w, w]` |
| PadBuild.PadIgnoresDtype | nn_li.go:33-37 | The element type does not change the configuration or the error |
| PadBuild.PadNegativeMargins | nn_li.go:39-47 | For example: margins [-1, -2, 3, -3] on a 1x1x4x4 input are accepted and give a 1x1x1x4 output; [-3, 0, 0, 0] on a 1x1x2x2 input is the height error; a rank-5 input is the rank error |
| PadBuild.PadScenario | nn_li.go:19-49 | A 1x1x4x4 input with margins [1, 2, 1, 3] gives the configuration (1, 2, 1, 3), and the operator infers the shape 1x1x7x8 |
| PadBuild.PadBuildsOperator | nn_li.go:49 | A successful `Pad` on a non-negative shape yields an operator whose output shape is non-negative, keeps batch and channel, and is what shape inference returns |

## Left out

- `Type`, `ReturnsPtr`, `CallsExtern`, `OverwritesInput`, `DiffWRT` and `Hashcode`/`simpleHash` are constant answers or foreign hashing; they are not modelled. `Arity` is the constant `Arity` used by `CheckInput`.
- `SymDiff` and `DoDiff` build and run `maxPoolDiffOp` from a `maxPoolOp`. Those types are not part of this model, and `op2 = *op` assigns a `padOp` to a `maxPoolOp`.
- `checkArity` is not part of this model. `CheckInput` assumes it fails exactly when the input count differs from 1, and reports that as `ArityMismatch`.
- Integer overflow is not modelled. Go's `int` is 64 bits wide and wraps around, while the model's `int` is unbounded. The model therefore does not capture the sums `h+padTop+padBottom` and `w+padLeft+padRight` wrapping negative in `Pad` (nn_li.go:39, 44) and `calcShape` (op_nn_li.go:144-145), or the kernel's index arithmetic wrapping (op_nn_li.go:203-213). For example, `h = 4` with `pad = [2^62, 2^62, 0, 0]` wraps negative in Go and returns the height error, where `PadBuild.Pad` returns a configuration.
- PadOperator.InferShape: requires at least one argument, because Go indexes `inputs[0]` (op_nn_li.go:39) and panics on an empty call. It also requires a shape argument of at least four dimensions, as does `PadOperator.CalcShape`. In Go, `calcShape` panics on a shorter shape when it reads `s[0]` to `s[3]` (op_nn_li.go:142). The model makes both panics preconditions.
- PadOperator.PadOp.Do: requires the padded shape of the input to be non-negative. Go's `tensor.New` panics on a negative dimension (op_nn_li.go:51). An input smaller than the shape `Pad` validated reaches that panic: for example, margins [-1, -2, 3, -3] accepted for a 1x1x4x4 input give height -1 on a 1x1x2x2 input.
- Error messages are modelled as error constructors, not as text.
- Element values are `int`. The model does not capture floating-point NaN comparisons or the float32/float64 bit widths. The `-maxFloat32`/`-maxFloat64` sentinel is a parameter.
- The window fields (`h`, `w`, `strideH`, `strideW`, `padNorth`, `padWest`, `padSouth`, `padEast`, `explicitPadding`) are read by the kernel but not declared on `padOp`. They are a `Window` parameter.
- Tensor engines (`WithEngine`) and the host allocator are not modelled.
- `%f` rendering of the fill value is the `fmtFloat` parameter of `String`.
- PadOperator.StringDeterminesMargins: proves that the text determines the four margins only, not the mode and the fill value. Their `%s`/`%f` renderings are not analysed.
- PadOperator.PadOp.DoKernel: the nil-mask allocation in `do` is unreachable, because the mask's strides are read first. The model requires a mask, since a nil one panics.
- PadOperator.PadOp.DoKernel: input, output and mask must be distinct buffers. Aliasing between them, as in a prealloc that is the input, is not modelled.
- PadOperator.PadOp.DoKernel: float kernels require plane strides at least as large as the planes. Overlapping planes, such as a mask whose planes are smaller than the output's, are not modelled.
- PadOperator.PadOp.DoKernel: float kernels require buffers that hold batches * channels plane strides. Shorter buffers make the reslicing panic in Go, so they are preconditions.
- PadOperator.PadOp.UsePreallocDo: requires a rank-4 prealloc, of the input's element type for float inputs. Go panics on fewer than four dimensions. It accepts more than four, running the kernel with `Strides()[1]` spanning the trailing dimensions; such preallocs are not modelled.
- PadOperator.PadOp.Do: requires that the operator's mask fits the output. `PadOperator.PadOp.OwnMaskFits` shows this holds when the operator was built for the input's shape.
- PadBuild.Pad: returns the configuration passed to `makePadOp` instead of the graph node. `encoding.NewGroup`, `ApplyOp` and the group upsert are not modelled.
- PadBuild.Pad: a margin list with fewer than two entries panics in Go after the rank check. The model makes this a precondition for rank-4 inputs.
- PadBuild.Pad: the fill value is an `interface{}` holding `float64(0)` or `float32(0)`, passed where `makePadOp` expects a `float64`. The model uses the real 0 for both.
- The source does not compile as written (the missing window fields, the `interface{}` argument, `op2 = *op`). The model follows the text.
