# Neocognitron shape helpers, modelled in Dafny

The neocognitron layers of this repository share two small helpers in
`models/neocognitron/ops/utils.py`:

- `as_batch` turns the input of a layer into a batch. A single feature map
  (rank 3) gets a leading axis of extent 1 and the flag `True`. A batch
  (rank 4) is returned as it is, with `False`. Any other rank makes the
  function fall off its end and return `None`.
- `compute_same_padding` computes the padding that keeps a strided
  convolution's output at `ceil(H/stride)` by `ceil(W/stride)`, the
  convention TensorFlow calls "SAME". The total padding of an axis is
  `(ceil(n/stride) - 1) * stride + k - n`. The top or left side gets its
  floored half, and the bottom or right side gets the rest.

The model is pure: `wrappers.dfy` holds the `Option` type used for the
`None` result, and `ops_utils.dfy` (module `OpsUtils`) holds the model and its lemmas.

A tensor is modelled as its shape (`seq<nat>`) and its elements, stored
flat in row-major order. `Offset` and `At` give element access, so the model can
state that the batch made from a single map holds the same elements.
`ceil(n/stride)` is exact integer ceiling division, `(n + stride - 1) / stride`,
and `//` by 2 is Dafny's `/`. With a positive divisor both floor, for
negative totals too.

The model works on the raw total-padding expression, with no clamp at zero.
At lines 30-31 the `0` in `np.max(x, 0)` is NumPy's axis argument, not a
lower bound, so the code does not clamp. A kernel narrower than the stride
can therefore give negative pads (`SamePaddingUnclamped`). The totals are
nonnegative whenever the kernel spans at least one stride; a narrower kernel
can give a negative total.

OutputSize, `(n + total - k) / stride + 1`, is the usual output extent of a
strided convolution. It is the reference definition that the padding is
proved against. The total from the source turns out to be the least total
that gives the "same" size.

## Model

| member | source | states |
|---|---|---|
| OpsUtils.AsBatch | models/neocognitron/ops/utils.py:12-16 | A result exists exactly for ranks 3 and 4. The result always has rank 4 and the same elements. The flag is true exactly for rank 3, and then the shape is `[1]` followed by the input shape. A rank-4 input comes back unchanged. A well-formed tensor stays well-formed. |
| OpsUtils.AsBatchElements | models/neocognitron/ops/utils.py:13-14 | For a single map, element `[0] + idx` of the batch is element `idx` of the map, for every in-bounds `idx`. |
| OpsUtils.AsBatchRoundTrip | models/neocognitron/ops/utils.py:12-16 | Dropping the leading axis when the flag says it was added gives back the input. |
| OpsUtils.AsBatchIdempotent | models/neocognitron/ops/utils.py:12-16 | Passing a result of `AsBatch` through `AsBatch` again returns it unchanged, with flag false. |
| OpsUtils.CeilDiv | models/neocognitron/ops/utils.py:27-28 | The output extent `q` is the ceiling of `n / stride`: `n <= stride*q < n + stride`. |
| OpsUtils.TotalPadding | models/neocognitron/ops/utils.py:30-31 | The unclamped total of one axis lies between `k - stride` and `k - 1`. |
| OpsUtils.SplitPad | models/neocognitron/ops/utils.py:33-37 | The two sides sum to the total. The second side equals the first or exceeds it by one. |
| OpsUtils.SplitPadUnique | models/neocognitron/ops/utils.py:33-37 | Any balanced pair is the split of its own sum, so the split is determined by the total. |
| OpsUtils.AxisPadding | models/neocognitron/ops/utils.py:30-37 | The pair sums to the axis's total and is balanced. With that total the strided output extent is `ceil(n/stride)`, and no smaller total reaches it. |
| OpsUtils.Unbatch | models/neocognitron/ops/utils.py:13-16 | Inverse of `AsBatch`: keeps the elements, drops the leading axis when the flag says it was added, and otherwise returns the tensor unchanged. |
| OpsUtils.SamePadding | models/neocognitron/ops/utils.py:25-39 | Both pairs are balanced. With each pair's total, the strided output extent is `ceil(H/stride)` (respectively `ceil(W/stride)`). No smaller total reaches that extent. |
| OpsUtils.SameOutputSizeRange | models/neocognitron/ops/utils.py:20-31 | A total gives output extent `ceil(n/stride)` if and only if it lies in `[TotalPadding, TotalPadding + stride)`. |
| OpsUtils.SameOutputSize | models/neocognitron/ops/utils.py:20-31 | The source's total reaches the "same" output extent, and it is the least total that does. |
| OpsUtils.SamePaddingStrideOne | models/neocognitron/ops/utils.py:27-31 | At stride 1 the totals are `kH - 1` and `kW - 1`, and the output extents are exactly `H` and `W`. |
| OpsUtils.SamePaddingBounds | models/neocognitron/ops/utils.py:27-37 | Each total lies in `[k - stride, k - 1]`. All four pads are nonnegative on an axis whose kernel is at least the stride. |
| OpsUtils.SamePaddingUnclamped | models/neocognitron/ops/utils.py:30-31 | For a 3x3 input, a 1x1 kernel and stride 3, every pad is -1, because nothing clamps the total at zero. |
| OpsUtils.SamePaddingAxesIndependent | models/neocognitron/ops/utils.py:27-39 | The vertical pair depends only on `(H, kH, stride)`, and the horizontal pair only on `(W, kW, stride)`. |
| OpsUtils.SamePaddingSwap | models/neocognitron/ops/utils.py:27-39 | Swapping height and width (and the kernel extents) swaps the two pairs. |

## Left out

- `apply_padding` (models/neocognitron/ops/utils.py:42-43) only prints a line. It has no behaviour to model.
- NumPy floating point: `np.ceil(H/stride)` and the float-typed pads are modelled as exact integer arithmetic, without rounding.
- The runtime behaviour of `np.max(x, 0)` on a scalar (whether NumPy passes the value through or raises an axis error) is not modelled. The model uses the raw expression, which is what the call computes when it returns.
- SamePadding: the model requires `stride > 0` and `H, W >= 0`. The source does not check these; with `stride == 0` it would divide by zero.
- Tensors are modelled by shape and flat contents. NumPy's view sharing (the batch made by `input[None, ...]` aliases the input's memory) is not modelled.
- agent_realtime_vision.py and agent_voice.py only configure a third-party agent SDK (sessions, models, plugins, MCP servers) and run async network calls. They hold no logic of their own and are not part of this model.
