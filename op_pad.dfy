/** The padding operator `padOp`: its configuration, shape inference, input
    validation, text identity, and the forward entry points that run the kernel
    of module PoolKernel on tensor buffers. */
module PadOperator {
  import opened Results
  import opened Decimal
  import opened PoolKernel

  /** Element types of tensors; the mask is an `Int` tensor. */
  datatype DType = Float64 | Float32 | Int | OtherDtype

  predicate IsFloat(d: DType) { d == Float64 || d == Float32 }

  /** Number of elements of a dense tensor of the given shape. */
  function Volume(shape: seq<int>): int
  {
    if shape == [] then 1 else shape[0] * Volume(shape[1..])
  }

  predicate NonNegative(shape: seq<int>)
  {
    forall i :: 0 <= i < |shape| ==> shape[i] >= 0
  }

  lemma {:induction false} VolumeNonNegative(shape: seq<int>)
    requires NonNegative(shape)
    ensures Volume(shape) >= 0
  {
    if shape != [] {
      VolumeNonNegative(shape[1..]);
    }
  }

  /** A dense rank-4 tensor holds (batch * channel) planes of height * width cells. */
  lemma Volume4(s: seq<int>)
    requires |s| == 4
    ensures Volume(s) == (s[0] * s[1]) * (s[2] * s[3])
  {
    assert Volume(s[3..]) == s[3] by { assert s[3..][1..] == []; }
    assert Volume(s[2..]) == s[2] * s[3] by { assert s[2..][1..] == s[3..]; }
    assert Volume(s[1..]) == s[1] * (s[2] * s[3]) by { assert s[1..][1..] == s[2..]; }
  }

  /** A dense tensor: element type, shape and a row-major backing array. Element
      values are only compared and copied by the operator, so they are `int`. */
  class Tensor {
    const dtype: DType
    const shape: seq<int>
    const data: array<int>

    ghost predicate Valid()
    {
      NonNegative(shape) && data.Length == Volume(shape)
    }

    /** `tensor.New(tensor.Of(dtype), tensor.WithShape(shape...))`: a zero-filled buffer. */
    constructor (dtype: DType, shape: seq<int>)
      requires NonNegative(shape)
      ensures Valid() && this.dtype == dtype && this.shape == shape && fresh(data)
      ensures forall i :: 0 <= i < data.Length ==> data[i] == 0
    {
      VolumeNonNegative(shape);
      this.dtype := dtype;
      this.shape := shape;
      this.data := new int[Volume(shape)](_ => 0);
    }
  }

  /** `Strides()[1]` of a dense rank-4 tensor: the distance between two
      (batch, channel) planes. */
  function PlaneStride(t: Tensor): nat
    requires t.Valid() && |t.shape| == 4
  {
    t.shape[2] * t.shape[3]
  }

  /** Graph values handed to the operator: tensors or scalars. */
  datatype Value = TensorValue(t: Tensor) | ScalarValue(x: int)

  /** Arguments of shape inference: a shape, or some other dimension sizer. */
  datatype DimSizer = ShapeSizer(dims: seq<int>) | OtherSizer

  /** The configuration fields of `padOp`. */
  datatype PadConfig = PadConfig(top: int, bottom: int, left: int, right: int, mode: string, value: real)

  datatype OpError =
    | ArityMismatch(expected: int, got: int)
    | InputNotTensor
    | InputRankNot4
    | ExpectedShape
    | PreallocNotTensor

  /** The operator takes one input. */
  const Arity: int := 1

  /** `calcShape`: batch and channel pass through, height grows by the top and
      bottom margins, width by the left and right ones. Dimensions past the
      fourth are dropped. */
  function CalcShape(c: PadConfig, s: seq<int>): (r: seq<int>)
    requires |s| >= 4
    ensures |r| == 4 && r[0] == s[0] && r[1] == s[1]
    ensures r[2] - s[2] == c.top + c.bottom && r[3] - s[3] == c.left + c.right
  {
    var b, ch, h, w := s[0], s[1], s[2], s[3];
    [b, ch, h + c.top + c.bottom, w + c.right + c.left]
  }

  /** `InferShape`: the padded shape when the first argument is a shape, an
      error otherwise. The rank is not checked, so the shape has at least four
      dimensions. */
  function InferShape(c: PadConfig, inputs: seq<DimSizer>): (r: Result<seq<int>, OpError>)
    requires |inputs| >= 1
    requires inputs[0].ShapeSizer? ==> |inputs[0].dims| >= 4
    ensures r.Ok? <==> inputs[0].ShapeSizer?
    ensures r.Ok? ==> r.value == CalcShape(c, inputs[0].dims)
    ensures r.Err? ==> r.error == ExpectedShape
  {
    match inputs[0]
    case ShapeSizer(s) => Ok(CalcShape(c, s))
    case OtherSizer => Err(ExpectedShape)
  }

  /** `checkInput`: exactly one input, a tensor, of rank 4. */
  function CheckInput(inputs: seq<Value>): (r: Result<Tensor, OpError>)
    ensures r.Ok? <==> |inputs| == Arity && inputs[0].TensorValue? && |inputs[0].t.shape| == 4
    ensures r.Ok? ==> r.value == inputs[0].t
    ensures |inputs| != Arity ==> r == Err(ArityMismatch(Arity, |inputs|))
    ensures |inputs| == Arity && !inputs[0].TensorValue? ==> r == Err(InputNotTensor)
    ensures |inputs| == Arity && inputs[0].TensorValue? && |inputs[0].t.shape| != 4 ==> r == Err(InputRankNot4)
  {
    if |inputs| != Arity then Err(ArityMismatch(Arity, |inputs|))
    else if !inputs[0].TensorValue? then Err(InputNotTensor)
    else if |inputs[0].t.shape| != 4 then Err(InputRankNot4)
    else Ok(inputs[0].t)
  }

  /** The text `String` returns and `WriteHash` writes:
      `Pad{top, bottom, left, right}( mode: (mode),value: (value)`, with the
      margins in `%d` and the fill value rendered by `fmtFloat` (`%f`). */
  function String(c: PadConfig, fmtFloat: real -> string): (r: string)
    ensures |r| > 4 + |FormatInt(c.top)| && r[..4] == "Pad{"
    ensures r[4..4 + |FormatInt(c.top)|] == FormatInt(c.top) && r[4 + |FormatInt(c.top)|] == ','
    ensures r[|r| - 1] == ')'
  {
    "Pad{" + (FormatInt(c.top) + (", " + (FormatInt(c.bottom) + (", " + (FormatInt(c.left) + (", " +
      (FormatInt(c.right) + ("}( mode: (" + c.mode + "),value: (" + fmtFloat(c.value) + ")"))))))))
  }

  /** The text identifies the margins: configurations with the same text have
      the same four margins. */
  lemma StringDeterminesMargins(c1: PadConfig, c2: PadConfig, fmtFloat: real -> string)
    requires String(c1, fmtFloat) == String(c2, fmtFloat)
    ensures c1.top == c2.top && c1.bottom == c2.bottom && c1.left == c2.left && c1.right == c2.right
  {
    var tail1 := "}( mode: (" + c1.mode + "),value: (" + fmtFloat(c1.value) + ")";
    var tail2 := "}( mode: (" + c2.mode + "),value: (" + fmtFloat(c2.value) + ")";
    var r1, r2 := FormatInt(c1.right) + tail1, FormatInt(c2.right) + tail2;
    var l1, l2 := FormatInt(c1.left) + (", " + r1), FormatInt(c2.left) + (", " + r2);
    var b1, b2 := FormatInt(c1.bottom) + (", " + l1), FormatInt(c2.bottom) + (", " + l2);
    var t1, t2 := FormatInt(c1.top) + (", " + b1), FormatInt(c2.top) + (", " + b2);
    AfterPrefix("Pad{", t1, t2);
    FormatIntThen(c1.top, c2.top, ", " + b1, ", " + b2);
    AfterPrefix(", ", b1, b2);
    FormatIntThen(c1.bottom, c2.bottom, ", " + l1, ", " + l2);
    AfterPrefix(", ", l1, l2);
    FormatIntThen(c1.left, c2.left, ", " + r1, ", " + r2);
    AfterPrefix(", ", r1, r2);
    FormatIntThen(c1.right, c2.right, tail1, tail2);
  }

  lemma AfterPrefix(p: string, x: string, y: string)
    requires p + x == p + y
    ensures x == y
  {
    assert x == (p + x)[|p|..];
    assert y == (p + y)[|p|..];
  }

  /** The hash the operator writes its identity into (a `hash.Hash`): the text
      written so far. */
  class Hasher {
    var written: seq<char>

    constructor ()
      ensures written == []
    {
      written := [];
    }
  }

  /** A rank-4 mask fits an output of shape `outShape`: it is at least as long
      as the output, its planes are at least as large as the output's, and it
      holds one plane stride per output (batch, channel) plane. */
  ghost predicate MaskFits(mask: Tensor, outShape: seq<int>)
    requires |outShape| == 4
  {
    && mask.Valid() && |mask.shape| == 4
    && mask.data.Length >= Volume(outShape)
    && outShape[2] * outShape[3] <= PlaneStride(mask)
    && outShape[0] * outShape[1] * PlaneStride(mask) <= mask.data.Length
  }

  /** The tensors `do` works on fit the kernel: distinct buffers, a mask that
      fits the output, and an input buffer that holds one plane stride per
      output (batch, channel) plane. */
  ghost predicate Fits(out: Tensor, input: Tensor, mask: Tensor)
  {
    && out.Valid() && input.Valid()
    && |out.shape| == 4 && |input.shape| == 4
    && out.data != mask.data && input.data != out.data && input.data != mask.data
    && MaskFits(mask, out.shape)
    && out.shape[0] * out.shape[1] * PlaneStride(input) <= input.data.Length
  }

  /** The kernel's geometry as `do` reads it: output extents from the output's
      shape, input extents from the input's. */
  function KernelGeometry(out: Tensor, input: Tensor, win: Window, sentinel: int): Geometry
    requires out.Valid() && input.Valid() && |out.shape| == 4 && |input.shape| == 4
  {
    Geometry(out.shape[2], out.shape[3], input.shape[2], input.shape[3], win, sentinel)
  }

  function KernelStrides(out: Tensor, input: Tensor, mask: Tensor): Strides
    requires out.Valid() && input.Valid() && mask.Valid()
    requires |out.shape| == 4 && |input.shape| == 4 && |mask.shape| == 4
  {
    Strides(PlaneStride(input), PlaneStride(out), PlaneStride(mask))
  }

  /** The padding operator: an immutable configuration and the mask tensor it
      owns. */
  class PadOp {
    const config: PadConfig
    var mask: Tensor?

    /** The operator owns a rank-4 mask tensor. */
    ghost predicate Valid()
      reads this
    {
      mask != null && mask.Valid() && |mask.shape| == 4
    }

    /** `makePadOp`: records the configuration and allocates a zeroed `Int`
        mask shaped like the padded input. */
    constructor (inputShape: seq<int>, padTop: int, padBottom: int, padLeft: int, padRight: int,
                 mode: string, value: real)
      requires |inputShape| >= 4
      requires NonNegative(CalcShape(PadConfig(padTop, padBottom, padLeft, padRight, mode, value), inputShape))
      ensures config == PadConfig(padTop, padBottom, padLeft, padRight, mode, value)
      ensures Valid() && fresh(mask) && fresh(mask.data)
      ensures mask.dtype == Int && mask.shape == CalcShape(config, inputShape)
    {
      config := PadConfig(padTop, padBottom, padLeft, padRight, mode, value);
      var shape := CalcShape(PadConfig(padTop, padBottom, padLeft, padRight, mode, value), inputShape);
      mask := new Tensor(Int, shape);
    }

    /** `WriteHash`: writes exactly the text `String` returns. */
    method WriteHash(h: Hasher, fmtFloat: real -> string)
      modifies h
      ensures h.written == old(h.written) + String(config, fmtFloat)
    {
      h.written := h.written + String(config, fmtFloat);
    }

    /** `do`: reads the output's shape, the three plane strides and the input's
        extents, then runs the kernel for Float64 and Float32 inputs and does
        nothing for any other element type. */
    method DoKernel(out: Tensor, input: Tensor, win: Window, sentinel: int)
      requires Valid()
      requires out.Valid() && input.Valid() && |out.shape| == 4 && |input.shape| == 4
      requires IsFloat(input.dtype) ==> out.dtype == input.dtype && Fits(out, input, mask)
      modifies out.data, mask.data
      ensures IsFloat(input.dtype) ==>
                KernelDone(KernelGeometry(out, input, win, sentinel), KernelStrides(out, input, mask),
                           out.shape[0] * out.shape[1], input.data[..], out.data[..], mask.data[..], old(mask.data[..]))
      ensures !IsFloat(input.dtype) ==> out.data[..] == old(out.data[..]) && mask.data[..] == old(mask.data[..])
    {
      var outShape := out.shape;
      var outStride := PlaneStride(out);
      var inShape := input.shape;
      var inStride := PlaneStride(input);
      var maskStride := PlaneStride(mask);
      var b, c, h, w := outShape[0], outShape[1], outShape[2], outShape[3];
      var inH, inW := inShape[2], inShape[3];
      // The mask's strides are read above, so a nil mask never reaches the
      // allocation `do` guards with `op.mask == nil`.
      match input.dtype
      case Float64 =>
        Volume4(outShape);
        PoolPlanes(b, c, h, w, inH, inW, outStride, inStride, maskStride, out.data, input.data[..], mask.data, win, sentinel);
      case Float32 =>
        Volume4(outShape);
        PoolPlanes(b, c, h, w, inH, inW, outStride, inStride, maskStride, out.data, input.data[..], mask.data, win, sentinel);
      case _ =>
    }

    /** The output shape of `Do` fits this operator's mask. */
    ghost predicate MaskFitsShape(outShape: seq<int>)
      reads this
      requires |outShape| == 4
    {
      Valid() && MaskFits(mask, outShape)
    }

    /** The mask `makePadOp` allocates for input shape `s` fits the output `Do`
        produces for an input of that shape. */
    lemma OwnMaskFits(s: seq<int>)
      requires Valid() && |s| == 4 && mask.shape == CalcShape(config, s)
      ensures MaskFitsShape(CalcShape(config, s))
    {
      Volume4(mask.shape);
      assert mask.shape[2] >= 0 && mask.shape[3] >= 0;
    }

    /** `Do`: validates the input, allocates a zeroed output of the input's
        element type shaped `CalcShape(input shape)`, and runs `do` on it. */
    method Do(inputs: seq<Value>, win: Window, sentinel: int) returns (r: Result<Tensor, OpError>)
      requires Valid()
      requires forall i :: 0 <= i < |inputs| && inputs[i].TensorValue? ==> inputs[i].t.Valid()
      requires CheckInput(inputs).Ok? ==>
                 var input := CheckInput(inputs).value;
                 NonNegative(CalcShape(config, input.shape))
                 && input.data != mask.data
                 && (IsFloat(input.dtype) ==> MaskFitsShape(CalcShape(config, input.shape)))
      modifies mask.data
      ensures CheckInput(inputs).Err? ==> r == Err(CheckInput(inputs).error) && mask.data[..] == old(mask.data[..])
      ensures CheckInput(inputs).Ok? ==>
                var input := CheckInput(inputs).value;
                && r.Ok? && fresh(r.value) && fresh(r.value.data) && r.value.Valid()
                && r.value.dtype == input.dtype && r.value.shape == CalcShape(config, input.shape)
                && (IsFloat(input.dtype) ==>
                      KernelDone(KernelGeometry(r.value, input, win, sentinel), KernelStrides(r.value, input, mask),
                                 input.shape[0] * input.shape[1], input.data[..], r.value.data[..],
                                 mask.data[..], old(mask.data[..])))
                && (!IsFloat(input.dtype) ==>
                      (forall i :: 0 <= i < r.value.data.Length ==> r.value.data[i] == 0)
                      && mask.data[..] == old(mask.data[..]))
    {
      var check := CheckInput(inputs);
      if check.Err? {
        return Err(check.error);
      }
      var input := check.value;
      var inShp := input.shape;
      var out := new Tensor(input.dtype, CalcShape(config, inShp));
      if IsFloat(input.dtype) {
        Volume4(inShp);
        Volume4(out.shape);
        assert Fits(out, input, mask);
      }
      DoKernel(out, input, win, sentinel);
      return Ok(out);
    }

    /** `UsePreallocDo`: validates the input, then runs `do` into the
        preallocated value when it is a tensor and fails otherwise. */
    method UsePreallocDo(prealloc: Value, inputs: seq<Value>, win: Window, sentinel: int)
      returns (r: Result<Tensor, OpError>)
      requires Valid()
      requires forall i :: 0 <= i < |inputs| && inputs[i].TensorValue? ==> inputs[i].t.Valid()
      requires CheckInput(inputs).Ok? && prealloc.TensorValue? ==>
                 var input, p := CheckInput(inputs).value, prealloc.t;
                 p.Valid() && |p.shape| == 4
                 && (IsFloat(input.dtype) ==> p.dtype == input.dtype && Fits(p, input, mask))
      modifies mask.data, if prealloc.TensorValue? then {prealloc.t.data} else {}
      ensures CheckInput(inputs).Err? ==> r == Err(CheckInput(inputs).error)
      ensures CheckInput(inputs).Ok? && !prealloc.TensorValue? ==> r == Err(PreallocNotTensor)
      ensures CheckInput(inputs).Err? || !prealloc.TensorValue? ==>
                mask.data[..] == old(mask.data[..])
                && (prealloc.TensorValue? ==> prealloc.t.data[..] == old(prealloc.t.data[..]))
      ensures CheckInput(inputs).Ok? && prealloc.TensorValue? ==>
                var input, p := CheckInput(inputs).value, prealloc.t;
                && r == Ok(p)
                && (IsFloat(input.dtype) ==>
                      KernelDone(KernelGeometry(p, input, win, sentinel), KernelStrides(p, input, mask),
                                 p.shape[0] * p.shape[1], input.data[..], p.data[..],
                                 mask.data[..], old(mask.data[..])))
                && (!IsFloat(input.dtype) ==>
                      p.data[..] == old(p.data[..]) && mask.data[..] == old(mask.data[..]))
    {
      var check := CheckInput(inputs);
      if check.Err? {
        return Err(check.error);
      }
      var input := check.value;
      if prealloc.TensorValue? {
        var p := prealloc.t;
        DoKernel(p, input, win, sentinel);
        return Ok(p);
      }
      return Err(PreallocNotTensor);
    }
  }
}
