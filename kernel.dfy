/** The forward kernel of the padding operator (`f32s` / `f64s`, one generic
    method here). Its body is a max-pooling kernel: every output cell takes the
    strict maximum of a clipped input window and the mask records where that
    maximum came from. Element values are only compared and copied, so they are
    modelled as `int`, and the `-maxFloat` sentinel is a parameter. */
module PoolKernel {

  /** The pooling parameters the kernel reads from the operator: window height
      and width, strides, the four offsets and the flag choosing between them. */
  datatype Window = Window(h: int, w: int, strideH: int, strideW: int,
                           padNorth: int, padWest: int, padSouth: int, padEast: int,
                           explicitPadding: bool)

  /** The extents the kernel works with, and the sentinel every cell starts from. */
  datatype Geometry = Geometry(outH: nat, outW: nat, inH: nat, inW: nat, win: Window, sentinel: int)

  /** The per-(batch, channel) plane strides of the input, output and mask buffers. */
  datatype Strides = Strides(input: nat, output: nat, mask: nat)

  function Min(a: int, b: int): int { if a < b then a else b }
  function Max(a: int, b: int): int { if a < b then b else a }

  /** Row offset: the north offset, or the south one when padding is explicit. */
  function RowPad(win: Window): int { if win.explicitPadding then win.padSouth else win.padNorth }

  /** Column offset: the west offset, or the east one when padding is explicit. */
  function ColPad(win: Window): int { if win.explicitPadding then win.padEast else win.padWest }

  /** Clipped input rows [HStart, HEnd) and columns [WStart, WEnd) of output cell (ph, pw). */
  function HStart(win: Window, ph: int): int { Max(ph * win.strideH - RowPad(win), 0) }
  function HEnd(win: Window, ph: int, inH: int): int { Min(ph * win.strideH - RowPad(win) + win.h, inH) }
  function WStart(win: Window, pw: int): int { Max(pw * win.strideW - ColPad(win), 0) }
  function WEnd(win: Window, pw: int, inW: int): int { Min(pw * win.strideW - ColPad(win) + win.w, inW) }

  /** In-plane input index `i` (row `i / inW`, column `i % inW`) lies in the
      clipped window of output cell (ph, pw). */
  ghost predicate InWindow(g: Geometry, ph: int, pw: int, i: int)
  {
    && g.inW > 0
    && 0 <= i < g.inH * g.inW
    && HStart(g.win, ph) <= i / g.inW < HEnd(g.win, ph, g.inH)
    && WStart(g.win, pw) <= i % g.inW < WEnd(g.win, pw, g.inW)
  }

  /** Index `i` comes before index `m` in row-major scan order. */
  ghost predicate Before(g: Geometry, i: int, m: int)
    requires g.inW > 0
  {
    i / g.inW < m / g.inW || (i / g.inW == m / g.inW && i % g.inW < m % g.inW)
  }

  /** Window cell `i` has been scanned once the scan stands at row `hi`, column `wi`. */
  ghost predicate Scanned(g: Geometry, ph: int, pw: int, i: int, hi: int, wi: int)
  {
    InWindow(g, ph, pw, i) && (i / g.inW < hi || (i / g.inW == hi && i % g.inW < wi))
  }

  /** The running maximum `v` and its mask entry `m` after scanning up to (hi, wi)
      of the window of (ph, pw), over the input plane that starts at `base`,
      from the sentinel and the mask entry `m0`: `v` dominates every scanned
      cell; while nothing has beaten the sentinel the mask entry is still `m0`,
      otherwise `m` is the first scanned cell holding `v`. */
  ghost predicate BestSoFar(g: Geometry, input: seq<int>, base: int, ph: int, pw: int,
                            m0: int, v: int, m: int, hi: int, wi: int)
  {
    && 0 <= base && base + g.inH * g.inW <= |input|
    && v >= g.sentinel
    && (forall i :: Scanned(g, ph, pw, i, hi, wi) ==> input[base + i] <= v)
    && (v == g.sentinel ==> m == m0)
    && (v != g.sentinel ==>
          && Scanned(g, ph, pw, m, hi, wi)
          && v == input[base + m]
          && v > g.sentinel
          && (forall i :: InWindow(g, ph, pw, i) && Before(g, i, m) ==> input[base + i] < v))
  }

  /** The finished cell, started from the sentinel and mask entry `m0`: `v` is
      at least the sentinel and every input cell of the clipped window; when no
      window cell exceeds the sentinel, `v` is the sentinel and the mask entry
      is still `m0`; otherwise `m` is the in-plane index of the first window
      cell, in row-major order, that holds the maximum `v`. */
  ghost predicate WindowMax(g: Geometry, input: seq<int>, base: int, ph: int, pw: int, m0: int, v: int, m: int)
  {
    && 0 <= base && base + g.inH * g.inW <= |input|
    && v >= g.sentinel
    && (forall i :: InWindow(g, ph, pw, i) ==> input[base + i] <= v)
    && (v == g.sentinel ==> m == m0)
    && (v != g.sentinel ==>
          && InWindow(g, ph, pw, m)
          && v == input[base + m]
          && v > g.sentinel
          && (forall i :: InWindow(g, ph, pw, i) && Before(g, i, m) ==> input[base + i] < v))
  }

  /** Output cell `q` of the plane whose input, output and mask slices start at
      `inBase`, `outBase` and `maskBase` holds its window maximum; its mask entry
      started from `start[maskBase + q]`. */
  ghost predicate PlaneCell(g: Geometry, input: seq<int>, inBase: int, out: seq<int>, outBase: int,
                            mask: seq<int>, maskBase: int, start: seq<int>, q: int)
  {
    && g.outW > 0
    && 0 <= q
    && 0 <= outBase && outBase + q < |out|
    && 0 <= maskBase && maskBase + q < |mask| == |start|
    && WindowMax(g, input, inBase, q / g.outW, q % g.outW, start[maskBase + q], out[outBase + q], mask[maskBase + q])
  }

  /** Cell `q` of plane `k` (k = b * channels + c) is finished: the slices of
      plane `k` start `k` plane strides into each buffer. */
  ghost predicate Pooled(g: Geometry, st: Strides, input: seq<int>, out: seq<int>, mask: seq<int>,
                         start: seq<int>, k: int, q: int)
  {
    0 <= k && PlaneCell(g, input, k * st.input, out, k * st.output, mask, k * st.mask, start, q)
  }

  /** Buffer position `p` lies in one of the first `planes` planes of size
      `size` laid out `stride` apart. */
  ghost predicate Covered(p: int, stride: nat, planes: int, size: int)
  {
    stride > 0 && 0 <= p && p / stride < planes && p % stride < size
  }

  /** The mask as the kernel's first loop leaves it: -1 over the output's
      length, its old contents beyond. */
  function ResetMask(oldMask: seq<int>, outLen: int): (r: seq<int>)
    ensures |r| == |oldMask|
    ensures forall p :: 0 <= p < |r| ==> r[p] == if p < outLen then -1 else oldMask[p]
  {
    seq(|oldMask|, p requires 0 <= p < |oldMask| => if p < outLen then -1 else oldMask[p])
  }

  /** The whole postcondition of the kernel over `planes` planes, for a mask that
      held `oldMask` on entry: every plane cell is pooled; output cells outside
      the planes hold the sentinel; mask cells outside the planes hold what the
      first loop left there (-1 within the output's length, the old entry beyond). */
  ghost predicate KernelDone(g: Geometry, st: Strides, planes: int, input: seq<int>,
                             out: seq<int>, mask: seq<int>, oldMask: seq<int>)
  {
    && |mask| == |oldMask|
    && (forall k, q :: 0 <= k < planes && 0 <= q < g.outH * g.outW ==>
          Pooled(g, st, input, out, mask, ResetMask(oldMask, |out|), k, q))
    && (forall p :: 0 <= p < |out| && !Covered(p, st.output, planes, g.outH * g.outW) ==> out[p] == g.sentinel)
    && (forall p :: 0 <= p < |mask| && !Covered(p, st.mask, planes, g.outH * g.outW) ==>
          mask[p] == ResetMask(oldMask, |out|)[p])
  }

  // ---------------------------------------------------------------------------
  // Arithmetic facts about the row-major layout.

  /** Row `hi`, column `wi` of a row-major plane of width `width` is the linear
      index `hi * width + wi`, and that index decodes back to (hi, wi). */
  lemma CellIndex(hi: int, wi: int, height: int, width: int)
    requires 0 <= hi < height && 0 <= wi < width
    ensures 0 <= hi * width + wi < height * width
    ensures (hi * width + wi) / width == hi && (hi * width + wi) % width == wi
  {
    var i := hi * width + wi;
    assert hi * width + wi < hi * width + width == (hi + 1) * width;
    assert (hi + 1) * width <= height * width by { MulMono(hi + 1, height, width); }
    DivModUnique(i, width, hi, wi);
  }

  /** Euclidean division is unique. */
  lemma DivModUnique(n: int, d: int, q: int, r: int)
    requires d > 0 && 0 <= r < d && n == q * d + r
    ensures n / d == q && n % d == r
  {
    var q', r' := n / d, n % d;
    assert n == q' * d + r';
    assert (q - q') * d == r' - r;
    if q' < q {
      assert (q - q') * d >= d by { MulMono(1, q - q', d); }
    } else if q < q' {
      assert (q' - q) * d >= d by { MulMono(1, q' - q, d); }
    }
  }

  /** An index is recovered from its row and column. */
  lemma Recompose(j: int, d: int, r: int, c: int)
    requires d > 0 && j / d == r && j % d == c
    ensures j == r * d + c
  {
  }

  lemma MulMono(a: int, b: int, c: int)
    requires a <= b && 0 <= c
    ensures a * c <= b * c
  {
    assert b * c - a * c == (b - a) * c;
  }

  /** Position `p` in plane `k` of a layout with plane stride `s` decodes to
      plane `k` and offset `p - k * s`. */
  lemma PlaneOfPosition(p: int, k: int, s: int)
    requires s > 0 && k * s <= p < k * s + s
    ensures p / s == k && p % s == p - k * s
  {
    DivModUnique(p, s, k, p - k * s);
  }

  /** Plane `j` before plane `k` ends before plane `k` starts. */
  lemma EarlierPlane(j: int, k: int, s: int)
    requires 0 <= j < k && 0 <= s
    ensures j * s + s <= k * s
  {
    MulMono(j + 1, k, s);
  }

  // ---------------------------------------------------------------------------
  // What a finished cell means.

  /** Two results that both satisfy `WindowMax` for the same cell and start
      entry are equal, so `WindowMax` pins down one cell of the kernel exactly. */
  lemma WindowMaxUnique(g: Geometry, input: seq<int>, base: int, ph: int, pw: int, m0: int,
                        v1: int, m1: int, v2: int, m2: int)
    requires WindowMax(g, input, base, ph, pw, m0, v1, m1)
    requires WindowMax(g, input, base, ph, pw, m0, v2, m2)
    ensures v1 == v2 && m1 == m2
  {
    if v1 != g.sentinel && v2 != g.sentinel {
      assert m1 == g.inW * (m1 / g.inW) + m1 % g.inW;
      assert m2 == g.inW * (m2 / g.inW) + m2 % g.inW;
    }
  }

  /** A cell started from mask entry -1 ends with -1 exactly when its value is
      the sentinel; otherwise its mask entry is `hi * inW + wi` for an input row
      `hi` and column `wi` of the plane, and its value is that input cell. */
  lemma MaskIsPlaneIndex(g: Geometry, input: seq<int>, base: int, ph: int, pw: int, v: int, m: int)
    requires WindowMax(g, input, base, ph, pw, -1, v, m)
    ensures m == -1 <==> v == g.sentinel
    ensures m != -1 ==> 0 <= m / g.inW < g.inH && 0 <= m % g.inW < g.inW
                        && m == m / g.inW * g.inW + m % g.inW && v == input[base + m]
  {
    if v != g.sentinel {
      assert InWindow(g, ph, pw, m);
      assert m / g.inW < g.inH;
    }
  }

  /** With a 1x1 window, unit strides and implicit offsets, the kernel acts as
      a padding copy: output cell (ph, pw) takes input cell
      (ph - padNorth, pw - padWest) when that cell exists and exceeds the
      sentinel, with the mask entry set to its in-plane index; every other
      output cell keeps the sentinel and its start mask entry. */
  lemma UnitWindowCopies(g: Geometry, input: seq<int>, base: int, ph: int, pw: int, m0: int, v: int, m: int)
    requires g.win.h == 1 && g.win.w == 1 && g.win.strideH == 1 && g.win.strideW == 1 && !g.win.explicitPadding
    requires WindowMax(g, input, base, ph, pw, m0, v, m)
    ensures var y, x := ph - g.win.padNorth, pw - g.win.padWest;
            var i := y * g.inW + x;
            && (0 <= y < g.inH && 0 <= x < g.inW ==> 0 <= i < g.inH * g.inW && 0 <= base + i < |input|)
            && (if 0 <= y < g.inH && 0 <= x < g.inW && 0 <= base + i < |input| && input[base + i] > g.sentinel
                then v == input[base + i] && m == i
                else v == g.sentinel && m == m0)
  {
    var y, x := ph - g.win.padNorth, pw - g.win.padWest;
    var i := y * g.inW + x;
    if 0 <= y < g.inH && 0 <= x < g.inW {
      CellIndex(y, x, g.inH, g.inW);
      assert InWindow(g, ph, pw, i);
      if v != g.sentinel {
        Recompose(m, g.inW, y, x);
      }
    }
  }

  // ---------------------------------------------------------------------------
  // Steps of the window scan.

  /** Nothing is scanned before the first row and column of the window. */
  lemma ScanStart(g: Geometry, input: seq<int>, base: int, ph: int, pw: int, m0: int)
    requires 0 <= base && base + g.inH * g.inW <= |input|
    ensures BestSoFar(g, input, base, ph, pw, m0, g.sentinel, m0, HStart(g.win, ph), WStart(g.win, pw))
  {
  }

  /** Scanning cell (hi, wi), index `i`, keeps the strict running maximum. */
  lemma ScanCell(g: Geometry, input: seq<int>, base: int, ph: int, pw: int, m0: int,
                 v: int, m: int, hi: int, wi: int)
    requires BestSoFar(g, input, base, ph, pw, m0, v, m, hi, wi)
    requires g.inW > 0 && InWindow(g, ph, pw, hi * g.inW + wi)
    requires (hi * g.inW + wi) / g.inW == hi && (hi * g.inW + wi) % g.inW == wi
    ensures var i := hi * g.inW + wi;
            if input[base + i] > v then BestSoFar(g, input, base, ph, pw, m0, input[base + i], i, hi, wi + 1)
            else BestSoFar(g, input, base, ph, pw, m0, v, m, hi, wi + 1)
  {
    var i := hi * g.inW + wi;
    var nextCol := wi + 1;
    forall j | Scanned(g, ph, pw, j, hi, nextCol) && !Scanned(g, ph, pw, j, hi, wi)
      ensures j == i
    {
      Recompose(j, g.inW, hi, wi);
    }
    if input[base + i] > v {
      var u := input[base + i];
      forall j | Scanned(g, ph, pw, j, hi, nextCol)
        ensures input[base + j] <= u
      {
      }
      forall j | InWindow(g, ph, pw, j) && Before(g, j, i)
        ensures input[base + j] < u
      {
        assert Scanned(g, ph, pw, j, hi, wi);
      }
      assert Scanned(g, ph, pw, i, hi, nextCol);
    } else {
      forall j | Scanned(g, ph, pw, j, hi, nextCol)
        ensures input[base + j] <= v
      {
      }
      if v != g.sentinel {
        assert Scanned(g, ph, pw, m, hi, nextCol);
      }
    }
  }

  /** Past the last column of row `hi` the scan moves to the first column of
      row `hi + 1` without passing a window cell. */
  lemma ScanNextRow(g: Geometry, input: seq<int>, base: int, ph: int, pw: int, m0: int,
                    v: int, m: int, hi: int, wi: int)
    requires BestSoFar(g, input, base, ph, pw, m0, v, m, hi, wi)
    requires wi >= WEnd(g.win, pw, g.inW)
    ensures BestSoFar(g, input, base, ph, pw, m0, v, m, hi + 1, WStart(g.win, pw))
  {
    var nextRow, firstCol := hi + 1, WStart(g.win, pw);
    forall j | Scanned(g, ph, pw, j, nextRow, firstCol)
      ensures input[base + j] <= v
    {
      assert Scanned(g, ph, pw, j, hi, wi);
    }
    if v != g.sentinel {
      assert Scanned(g, ph, pw, m, nextRow, firstCol);
    }
  }

  /** Past the last row, every window cell has been scanned. */
  lemma ScanDone(g: Geometry, input: seq<int>, base: int, ph: int, pw: int, m0: int,
                 v: int, m: int, hi: int, wi: int)
    requires BestSoFar(g, input, base, ph, pw, m0, v, m, hi, wi)
    requires hi >= HEnd(g.win, ph, g.inH)
    ensures WindowMax(g, input, base, ph, pw, m0, v, m)
  {
    forall j | InWindow(g, ph, pw, j)
      ensures input[base + j] <= v
    {
      assert Scanned(g, ph, pw, j, hi, wi);
    }
  }

  // ---------------------------------------------------------------------------
  // The kernel.

  /** One output cell: scans the clipped window of (ph, pw) row by row and keeps
      the strict maximum in `out[pos]`, recording its in-plane index in
      `mask[mpos]`. */
  method ScanWindow(out: array<int>, mask: array<int>, input: seq<int>, base: int,
                    pos: int, mpos: int, g: Geometry, ph: int, pw: int)
    requires out != mask
    requires 0 <= pos < out.Length && 0 <= mpos < mask.Length
    requires 0 <= base && base + g.inH * g.inW <= |input|
    requires out[pos] == g.sentinel
    modifies out, mask
    ensures WindowMax(g, input, base, ph, pw, old(mask[mpos]), out[pos], mask[mpos])
    ensures forall p :: 0 <= p < out.Length && p != pos ==> out[p] == old(out[p])
    ensures forall p :: 0 <= p < mask.Length && p != mpos ==> mask[p] == old(mask[p])
  {
    ghost var m0 := mask[mpos];
    var hStart := ph * g.win.strideH - RowPad(g.win);
    var wStart := pw * g.win.strideW - ColPad(g.win);
    var hEnd := Min(hStart + g.win.h, g.inH);
    var wEnd := Min(wStart + g.win.w, g.inW);
    hStart := Max(hStart, 0);
    wStart := Max(wStart, 0);
    ScanStart(g, input, base, ph, pw, m0);

    var hi := hStart;
    while hi < hEnd
      invariant BestSoFar(g, input, base, ph, pw, m0, out[pos], mask[mpos], hi, wStart)
      invariant forall p :: 0 <= p < out.Length && p != pos ==> out[p] == old(out[p])
      invariant forall p :: 0 <= p < mask.Length && p != mpos ==> mask[p] == old(mask[p])
    {
      var wi := wStart;
      while wi < wEnd
        invariant wi <= wEnd || wi == wStart
        invariant BestSoFar(g, input, base, ph, pw, m0, out[pos], mask[mpos], hi, wi)
        invariant forall p :: 0 <= p < out.Length && p != pos ==> out[p] == old(out[p])
        invariant forall p :: 0 <= p < mask.Length && p != mpos ==> mask[p] == old(mask[p])
      {
        var i := hi * g.inW + wi;
        CellIndex(hi, wi, g.inH, g.inW);
        ScanCell(g, input, base, ph, pw, m0, out[pos], mask[mpos], hi, wi);
        if input[base + i] > out[pos] {
          out[pos] := input[base + i];
          mask[mpos] := i;
        }
        wi := wi + 1;
      }
      ScanNextRow(g, input, base, ph, pw, m0, out[pos], mask[mpos], hi, wi);
      hi := hi + 1;
    }
    ScanDone(g, input, base, ph, pw, m0, out[pos], mask[mpos], hi, wStart);
  }

  /** One (batch, channel) plane: every output cell of the plane, in row-major
      order, gets its window maximum, each mask entry starting from what `start`
      holds there. Only the plane's cells change. */
  method PoolPlane(out: array<int>, mask: array<int>, input: seq<int>,
                   inBase: int, outBase: int, maskBase: int, g: Geometry, ghost start: seq<int>)
    requires out != mask && |start| == mask.Length
    requires 0 <= inBase && inBase + g.inH * g.inW <= |input|
    requires 0 <= outBase && outBase + g.outH * g.outW <= out.Length
    requires 0 <= maskBase && maskBase + g.outH * g.outW <= mask.Length
    requires forall p :: outBase <= p < outBase + g.outH * g.outW ==> out[p] == g.sentinel
    requires forall p :: maskBase <= p < maskBase + g.outH * g.outW ==> mask[p] == start[p]
    modifies out, mask
    ensures forall q :: 0 <= q < g.outH * g.outW ==> PlaneCell(g, input, inBase, out[..], outBase, mask[..], maskBase, start, q)
    ensures forall p :: 0 <= p < out.Length && !(outBase <= p < outBase + g.outH * g.outW) ==> out[p] == old(out[p])
    ensures forall p :: 0 <= p < mask.Length && !(maskBase <= p < maskBase + g.outH * g.outW) ==> mask[p] == old(mask[p])
  {
    for ph := 0 to g.outH
      invariant forall q :: 0 <= q < ph * g.outW ==> PlaneCell(g, input, inBase, out[..], outBase, mask[..], maskBase, start, q)
      invariant forall p :: outBase + ph * g.outW <= p < outBase + g.outH * g.outW ==> out[p] == g.sentinel
      invariant forall p :: maskBase + ph * g.outW <= p < maskBase + g.outH * g.outW ==> mask[p] == start[p]
      invariant forall p :: 0 <= p < out.Length && !(outBase <= p < outBase + g.outH * g.outW) ==> out[p] == old(out[p])
      invariant forall p :: 0 <= p < mask.Length && !(maskBase <= p < maskBase + g.outH * g.outW) ==> mask[p] == old(mask[p])
    {
      for pw := 0 to g.outW
        invariant forall q :: 0 <= q < ph * g.outW + pw ==> PlaneCell(g, input, inBase, out[..], outBase, mask[..], maskBase, start, q)
        invariant forall p :: outBase + ph * g.outW + pw <= p < outBase + g.outH * g.outW ==> out[p] == g.sentinel
        invariant forall p :: maskBase + ph * g.outW + pw <= p < maskBase + g.outH * g.outW ==> mask[p] == start[p]
        invariant forall p :: 0 <= p < out.Length && !(outBase <= p < outBase + g.outH * g.outW) ==> out[p] == old(out[p])
        invariant forall p :: 0 <= p < mask.Length && !(maskBase <= p < maskBase + g.outH * g.outW) ==> mask[p] == old(mask[p])
      {
        var poolIndex := ph * g.outW + pw;
        CellIndex(ph, pw, g.outH, g.outW);
        ghost var out0, mask0 := out[..], mask[..];
        ScanWindow(out, mask, input, inBase, outBase + poolIndex, maskBase + poolIndex, g, ph, pw);
        forall q | 0 <= q < poolIndex
          ensures PlaneCell(g, input, inBase, out[..], outBase, mask[..], maskBase, start, q)
        {
          assert PlaneCell(g, input, inBase, out0, outBase, mask0, maskBase, start, q);
        }
        assert PlaneCell(g, input, inBase, out[..], outBase, mask[..], maskBase, start, poolIndex);
      }
      assert ph * g.outW + g.outW == (ph + 1) * g.outW;
    }
  }

  /** The kernel `f32s` / `f64s`: fills the whole output with the sentinel and
      the mask, over the output's length, with -1; then pools every
      (batch, channel) plane, advancing the input, output and mask slices by
      their plane strides after each plane. Plane `k` is `b * channels + c`. */
  method PoolPlanes(batches: nat, channels: nat, outH: nat, outW: nat, inH: nat, inW: nat,
                    outStride: nat, inStride: nat, maskStride: nat,
                    out: array<int>, input: seq<int>, mask: array<int>,
                    win: Window, sentinel: int)
    requires out != mask
    requires mask.Length >= out.Length
    requires inH * inW <= inStride && outH * outW <= outStride && outH * outW <= maskStride
    requires batches * channels * inStride <= |input|
    requires batches * channels * outStride <= out.Length
    requires batches * channels * maskStride <= mask.Length
    modifies out, mask
    ensures KernelDone(Geometry(outH, outW, inH, inW, win, sentinel), Strides(inStride, outStride, maskStride),
                       batches * channels, input, out[..], mask[..], old(mask[..]))
  {
    // set values
    for i := 0 to out.Length
      invariant forall p :: 0 <= p < i ==> out[p] == sentinel && mask[p] == -1
      invariant forall p :: i <= p < mask.Length ==> mask[p] == old(mask[p])
    {
      out[i] := sentinel;
      mask[i] := -1;
    }
    ghost var start := ResetMask(old(mask[..]), out.Length);
    assert mask[..] == start;

    var g := Geometry(outH, outW, inH, inW, win, sentinel);
    ghost var st := Strides(inStride, outStride, maskStride);
    var inOff, outOff, maskOff := 0, 0, 0;
    ghost var k := 0;
    for b := 0 to batches
      invariant k == b * channels
      invariant inOff == k * inStride && outOff == k * outStride && maskOff == k * maskStride
      invariant KernelDone(g, st, k, input, out[..], mask[..], old(mask[..]))
    {
      for c := 0 to channels
        invariant k == b * channels + c
        invariant inOff == k * inStride && outOff == k * outStride && maskOff == k * maskStride
        invariant KernelDone(g, st, k, input, out[..], mask[..], old(mask[..]))
      {
        assert k < batches * channels by { MulMono(b + 1, batches, channels); }
        PlaneFits(k, batches * channels, inStride, |input|);
        PlaneFits(k, batches * channels, outStride, out.Length);
        PlaneFits(k, batches * channels, maskStride, mask.Length);
        FreshPlane(g, st, k, input, out[..], mask[..], old(mask[..]));
        ghost var out0, mask0 := out[..], mask[..];
        PoolPlane(out, mask, input, inOff, outOff, maskOff, g, start);
        NextPlane(g, st, k, input, out0, mask0, out[..], mask[..], old(mask[..]));
        // skip by strides
        NextOffsets(k, inStride, outStride, maskStride);
        inOff := inOff + inStride;
        outOff := outOff + outStride;
        maskOff := maskOff + maskStride;
        k := k + 1;
      }
      assert b * channels + channels == (b + 1) * channels;
    }
  }

  lemma NextOffsets(k: int, inStride: int, outStride: int, maskStride: int)
    ensures (k + 1) * inStride == k * inStride + inStride
    ensures (k + 1) * outStride == k * outStride + outStride
    ensures (k + 1) * maskStride == k * maskStride + maskStride
  {
  }

  /** Plane `k` of `planes` fits inside a buffer holding `planes` plane strides. */
  lemma PlaneFits(k: int, planes: int, stride: nat, len: int)
    requires 0 <= k < planes && planes * stride <= len
    ensures 0 <= k * stride && k * stride + stride <= len
  {
    MulMono(k + 1, planes, stride);
    MulMono(0, k, stride);
  }

  /** Before plane `k` is pooled, its output cells still hold the sentinel and
      its mask cells what the first loop left there. */
  lemma FreshPlane(g: Geometry, st: Strides, k: int, input: seq<int>,
                   out: seq<int>, mask: seq<int>, oldMask: seq<int>)
    requires 0 <= k
    requires g.outH * g.outW <= st.output && g.outH * g.outW <= st.mask
    requires k * st.output + st.output <= |out|
    requires k * st.mask + st.mask <= |mask|
    requires KernelDone(g, st, k, input, out, mask, oldMask)
    ensures forall p :: k * st.output <= p < k * st.output + g.outH * g.outW ==> out[p] == g.sentinel
    ensures forall p :: k * st.mask <= p < k * st.mask + g.outH * g.outW ==> mask[p] == ResetMask(oldMask, |out|)[p]
  {
    var size := g.outH * g.outW;
    MulMono(0, k, st.output);
    MulMono(0, k, st.mask);
    forall p | k * st.output <= p < k * st.output + size
      ensures out[p] == g.sentinel
    {
      PlaneOfPosition(p, k, st.output);
      assert !Covered(p, st.output, k, size);
    }
    forall p | k * st.mask <= p < k * st.mask + size
      ensures mask[p] == ResetMask(oldMask, |out|)[p]
    {
      PlaneOfPosition(p, k, st.mask);
      assert !Covered(p, st.mask, k, size);
    }
  }

  /** Pooling plane `k` (changing only its own cells) extends the kernel's
      postcondition from `k` planes to `k + 1`. */
  lemma NextPlane(g: Geometry, st: Strides, k: int, input: seq<int>,
                  out0: seq<int>, mask0: seq<int>, out: seq<int>, mask: seq<int>, oldMask: seq<int>)
    requires 0 <= k
    requires g.outH * g.outW <= st.output && g.outH * g.outW <= st.mask
    requires |out| == |out0| && |mask| == |mask0|
    requires KernelDone(g, st, k, input, out0, mask0, oldMask)
    requires forall q :: 0 <= q < g.outH * g.outW ==>
               PlaneCell(g, input, k * st.input, out, k * st.output, mask, k * st.mask, ResetMask(oldMask, |out|), q)
    requires forall p :: 0 <= p < |out| && !(k * st.output <= p < k * st.output + g.outH * g.outW) ==> out[p] == out0[p]
    requires forall p :: 0 <= p < |mask| && !(k * st.mask <= p < k * st.mask + g.outH * g.outW) ==> mask[p] == mask0[p]
    ensures KernelDone(g, st, k + 1, input, out, mask, oldMask)
  {
    var size := g.outH * g.outW;
    var start := ResetMask(oldMask, |out|);
    forall j, q | 0 <= j < k + 1 && 0 <= q < size
      ensures Pooled(g, st, input, out, mask, start, j, q)
    {
      if j < k {
        assert Pooled(g, st, input, out0, mask0, start, j, q);
        EarlierPlane(j, k, st.output);
        EarlierPlane(j, k, st.mask);
        assert out[j * st.output + q] == out0[j * st.output + q];
        assert mask[j * st.mask + q] == mask0[j * st.mask + q];
      } else {
        assert PlaneCell(g, input, k * st.input, out, k * st.output, mask, k * st.mask, start, q);
      }
    }
    forall p | 0 <= p < |out| && !Covered(p, st.output, k + 1, size)
      ensures out[p] == g.sentinel
    {
      if k * st.output <= p < k * st.output + size {
        PlaneOfPosition(p, k, st.output);
        assert false;
      }
    }
    forall p | 0 <= p < |mask| && !Covered(p, st.mask, k + 1, size)
      ensures mask[p] == start[p]
    {
      if k * st.mask <= p < k * st.mask + size {
        PlaneOfPosition(p, k, st.mask);
        assert false;
      }
    }
  }

  // ---------------------------------------------------------------------------
  // What the kernel leaves behind.

  /** After the kernel, a pooled cell whose mask entry lies within the output's
      length (the whole mask when mask and output have the same shape) reads as
      follows: the mask entry is -1 exactly when the output cell still holds the
      sentinel; otherwise it is the in-plane index `hi * inW + wi` of an input
      cell of the plane, and the output cell holds that input value. */
  lemma KernelCell(g: Geometry, st: Strides, planes: int, input: seq<int>,
                   out: seq<int>, mask: seq<int>, oldMask: seq<int>, k: int, q: int)
    requires KernelDone(g, st, planes, input, out, mask, oldMask)
    requires 0 <= k < planes && 0 <= q < g.outH * g.outW
    requires 0 <= k * st.output + q < |out| && 0 <= k * st.mask + q < |mask|
    requires k * st.mask + q < |out|
    ensures var m := mask[k * st.mask + q];
            var v := out[k * st.output + q];
            && (m == -1 <==> v == g.sentinel)
            && (m != -1 ==> g.inW > 0 && 0 <= m / g.inW < g.inH && 0 <= m % g.inW < g.inW
                            && m == m / g.inW * g.inW + m % g.inW
                            && 0 <= k * st.input + m < |input| && v == input[k * st.input + m])
  {
    var start := ResetMask(oldMask, |out|);
    assert Pooled(g, st, input, out, mask, start, k, q);
    assert start[k * st.mask + q] == -1;
    MaskIsPlaneIndex(g, input, k * st.input, q / g.outW, q % g.outW,
                     out[k * st.output + q], mask[k * st.mask + q]);
  }
}
