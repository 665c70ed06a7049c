/** `Pad`, the graph-construction call: validates the input's rank and the
    margins and fixes the configuration the operator is built with. */
module PadBuild {
  import opened Results
  import opened PadOperator

  datatype PadError = BadInputRank | ImpossibleHeight | ImpossibleWidth

  /** `Pad(x, pad)` for an input of shape `xShape` and element type `xDtype`:
      the configuration `makePadOp` receives, or the error returned.
      `pad` is `[top, bottom, left, right]` when it has four entries and
      `[top/bottom, left/right]` otherwise; reading `pad[1]` needs at least two
      entries once the rank check has passed. */
  function Pad(xShape: seq<int>, xDtype: DType, pad: seq<int>): (r: Result<PadConfig, PadError>)
    requires |xShape| == 4 ==> |pad| >= 2
    ensures |xShape| != 4 <==> r == Err(BadInputRank)
    ensures r.Ok? ==> r.value.mode == "constant" && r.value.value == 0.0
    ensures r.Ok? && |pad| == 4 ==>
              r.value.top == pad[0] && r.value.bottom == pad[1] && r.value.left == pad[2] && r.value.right == pad[3]
    ensures r.Ok? && |pad| != 4 ==>
              r.value.top == r.value.bottom == pad[0] && r.value.left == r.value.right == pad[1]
    ensures r.Ok? ==> NonNegative(CalcShape(r.value, xShape)[2..])
  {
    if |xShape| != 4 then Err(BadInputRank)
    else
      var h, w := xShape[2], xShape[3];
      var padTop, padLeft, padBottom, padRight :=
        pad[0],
        if |pad| == 4 then pad[2] else pad[1],
        if |pad| == 4 then pad[1] else pad[0],
        if |pad| == 4 then pad[3] else pad[1];
      var mode := "constant";
      // float64(0) for Float64 inputs, float32(0) otherwise: zero either way
      var value := 0.0;
      if h + padTop + padBottom < 0 then Err(ImpossibleHeight)
      else if w + padLeft + padRight < 0 then Err(ImpossibleWidth)
      else Ok(PadConfig(padTop, padBottom, padLeft, padRight, mode, value))
  }

  /** A rank-4 input is accepted exactly when neither padded spatial dimension
      is negative, with the height checked first. */
  lemma PadAcceptsExactly(xShape: seq<int>, xDtype: DType, pad: seq<int>)
    requires |xShape| == 4 && |pad| >= 2
    ensures var top, bottom := pad[0], if |pad| == 4 then pad[1] else pad[0];
            var left, right := if |pad| == 4 then pad[2] else pad[1], if |pad| == 4 then pad[3] else pad[1];
            && (xShape[2] + top + bottom < 0 <==> Pad(xShape, xDtype, pad) == Err(ImpossibleHeight))
            && (xShape[2] + top + bottom >= 0 && xShape[3] + left + right < 0 <==>
                  Pad(xShape, xDtype, pad) == Err(ImpossibleWidth))
            && (Pad(xShape, xDtype, pad).Ok? <==> xShape[2] + top + bottom >= 0 && xShape[3] + left + right >= 0)
  {
  }

  /** The shorthand `[h, w]` (and any other length but four) means `[h, h, w, w]`. */
  lemma PadShorthand(xShape: seq<int>, xDtype: DType, pad: seq<int>)
    requires |pad| >= 2 && |pad| != 4
    ensures Pad(xShape, xDtype, pad) == Pad(xShape, xDtype, [pad[0], pad[0], pad[1], pad[1]])
  {
  }

  /** The element type does not change the result. This holds because the
      model represents both `float64(0)` and `float32(0)` by the real 0; it is
      a fact about that representation as much as about `Pad`, whose margins
      and errors never depend on the element type. */
  lemma PadIgnoresDtype(xShape: seq<int>, d1: DType, d2: DType, pad: seq<int>)
    requires |xShape| == 4 ==> |pad| >= 2
    ensures Pad(xShape, d1, pad) == Pad(xShape, d2, pad)
  {
  }

  /** Individually negative margins are accepted as long as both padded
      dimensions stay non-negative: a 4x4 input padded with
      `[-1, -2, 3, -3]` becomes 1x4. */
  lemma PadNegativeMargins()
    ensures Pad([1, 1, 4, 4], Float32, [-1, -2, 3, -3]) == Ok(PadConfig(-1, -2, 3, -3, "constant", 0.0))
    ensures CalcShape(PadConfig(-1, -2, 3, -3, "constant", 0.0), [1, 1, 4, 4]) == [1, 1, 1, 4]
    ensures Pad([1, 1, 2, 2], Float64, [-3, 0, 0, 0]) == Err(ImpossibleHeight)
    ensures Pad([1, 1, 4, 4, 1], Float64, [1, 1]) == Err(BadInputRank)
  {
  }

  /** A 1x1x4x4 input padded with `[1, 2, 1, 3]` gives a 1x1x7x8 operator
      output, and shape inference of the built operator agrees. */
  lemma PadScenario()
    ensures Pad([1, 1, 4, 4], Float64, [1, 2, 1, 3]) == Ok(PadConfig(1, 2, 1, 3, "constant", 0.0))
    ensures CalcShape(PadConfig(1, 2, 1, 3, "constant", 0.0), [1, 1, 4, 4]) == [1, 1, 7, 8]
    ensures InferShape(PadConfig(1, 2, 1, 3, "constant", 0.0), [ShapeSizer([1, 1, 4, 4])]) == Ok([1, 1, 7, 8])
  {
  }

  /** On success the operator can be built on the input's shape: every
      dimension of its output shape is non-negative (as `makePadOp` needs when
      the input's own dimensions are), and shape inference yields that shape. */
  lemma PadBuildsOperator(xShape: seq<int>, xDtype: DType, pad: seq<int>)
    requires |xShape| == 4 ==> |pad| >= 2
    requires NonNegative(xShape)
    requires Pad(xShape, xDtype, pad).Ok?
    ensures var c := Pad(xShape, xDtype, pad).value;
            && NonNegative(CalcShape(c, xShape))
            && InferShape(c, [ShapeSizer(xShape)]) == Ok(CalcShape(c, xShape))
            && CalcShape(c, xShape)[..2] == xShape[..2]
  {
    var c := Pad(xShape, xDtype, pad).value;
    var s := CalcShape(c, xShape);
    assert s[2..][0] == s[2] && s[2..][1] == s[3];
  }
}
