/**
 * Shape arithmetic helpers of the neocognitron layers
 * (models/neocognitron/ops/utils.py): normalising a feature map into a
 * batch, and the "same" padding of a strided convolution.
 */
module OpsUtils {

  import opened Wrappers

  // ---------------------------------------------------------------------------
  // Feature maps
  // ---------------------------------------------------------------------------

  /** The extent of each axis of a tensor, outermost first. */
  type Shape = seq<nat>

  /** A tensor: its shape and its elements, stored flat in row-major order. */
  datatype Tensor<T> = Tensor(shape: Shape, data: seq<T>)

  /** Number of elements a tensor of shape `s` holds. */
  function Size(s: Shape): nat
  {
    if |s| == 0 then 1 else s[0] * Size(s[1..])
  }

  predicate Valid<T>(t: Tensor<T>)
  {
    |t.data| == Size(t.shape)
  }

  /** `idx` names one element of a tensor of shape `s`. */
  predicate InBounds(s: Shape, idx: seq<nat>)
  {
    |idx| == |s| && forall i :: 0 <= i < |idx| ==> idx[i] < s[i]
  }

  /** Row-major position of the element at `idx`. */
  function Offset(s: Shape, idx: seq<nat>): (o: nat)
    requires InBounds(s, idx)
    ensures o < Size(s)
  {
    if |s| == 0 then 0
    else
      var inner := Offset(s[1..], idx[1..]);
      MulMonotone(idx[0] + 1, s[0], Size(s[1..]));
      idx[0] * Size(s[1..]) + inner
  }

  /** The element of `t` at `idx`. */
  function At<T>(t: Tensor<T>, idx: seq<nat>): T
    requires Valid(t) && InBounds(t.shape, idx)
  {
    t.data[Offset(t.shape, idx)]
  }

  /**
   * Layers take either a single feature map (rank 3) or a batch of them
   * (rank 4). A single map gains a leading axis of extent 1 and the flag
   * `true`; a batch is returned as it is with `false`. Any other rank
   * yields `None`, as the Python function returns nothing for it.
   */
  function AsBatch<T>(t: Tensor<T>): (r: Option<(Tensor<T>, bool)>)
    ensures r.Some? <==> |t.shape| == 3 || |t.shape| == 4
    ensures r.Some? ==> |r.value.0.shape| == 4 && r.value.0.data == t.data
    ensures r.Some? ==> (r.value.1 <==> |t.shape| == 3)
    ensures r.Some? && r.value.1 ==> r.value.0.shape[0] == 1 && r.value.0.shape[1..] == t.shape
    ensures r.Some? && !r.value.1 ==> r.value.0 == t
    ensures r.Some? && Valid(t) ==> Valid(r.value.0)
  {
    if |t.shape| == 3 then
      assert ([1] + t.shape)[1..] == t.shape;
      Some((Tensor([1] + t.shape, t.data), true))
    else if |t.shape| == 4 then Some((t, false))
    else None
  }

  /** Undoes `AsBatch`: drops the leading axis when `added` says it was added. */
  function Unbatch<T>(t: Tensor<T>, added: bool): (r: Tensor<T>)
    requires added ==> |t.shape| > 0
    ensures r.data == t.data
    ensures added ==> r.shape == t.shape[1..]
    ensures !added ==> r == t
  {
    if added then Tensor(t.shape[1..], t.data) else t
  }

  /** Element `[0] + idx` of the batch made from a single map is element `idx` of that map. */
  lemma AsBatchElements<T>(t: Tensor<T>, idx: seq<nat>)
    requires Valid(t) && |t.shape| == 3 && InBounds(t.shape, idx)
    ensures InBounds(AsBatch(t).value.0.shape, [0] + idx)
    ensures At(AsBatch(t).value.0, [0] + idx) == At(t, idx)
  {
  }

  /** Dropping the axis `AsBatch` reports as added gives back the input. */
  lemma AsBatchRoundTrip<T>(t: Tensor<T>)
    requires AsBatch(t).Some?
    ensures Unbatch(AsBatch(t).value.0, AsBatch(t).value.1) == t
  {
  }

  /** A batch passes through `AsBatch` unchanged: the normalisation is idempotent. */
  lemma AsBatchIdempotent<T>(t: Tensor<T>)
    requires AsBatch(t).Some?
    ensures AsBatch(AsBatch(t).value.0) == Some((AsBatch(t).value.0, false))
  {
  }

  // ---------------------------------------------------------------------------
  // "Same" padding
  // ---------------------------------------------------------------------------

  /** Padding of one axis: (before, after), i.e. (top, bottom) or (left, right). */
  type Pad = (int, int)

  function Sum(p: Pad): int
  {
    p.0 + p.1
  }

  /** The two sides differ by at most one, the odd unit going to the second side. */
  predicate Balanced(p: Pad)
  {
    p.0 <= p.1 <= p.0 + 1
  }

  /** Ceiling of `n / d`, the number of filter positions at stride `d` over `n` cells. */
  function CeilDiv(n: nat, d: nat): (q: nat)
    requires d > 0
    ensures n <= d * q < n + d
  {
    DivBounds(n + d - 1, d);
    (n + d - 1) / d
  }

  /** Output extent of a convolution with kernel `k` and stride `s` over `n` cells padded by `total`. */
  function OutputSize(n: int, k: int, total: int, s: nat): int
    requires s > 0
  {
    (n + total - k) / s + 1
  }

  /** Total padding of one axis, with no clamp at zero. */
  function TotalPadding(n: nat, k: int, s: nat): (t: int)
    requires s > 0
    ensures k - s <= t <= k - 1
  {
    (CeilDiv(n, s) - 1) * s + k - n
  }

  /** Splits a total into (before, after): before gets the floor of half, after the rest. */
  function SplitPad(total: int): (p: Pad)
    ensures Sum(p) == total && Balanced(p)
  {
    (total / 2, total - total / 2)
  }

  /**
   * Padding of one axis of extent `n` for kernel extent `k` at stride `s`:
   * the least total that keeps the output at ceil(n/s), split evenly.
   */
  function AxisPadding(n: nat, k: int, s: nat): (p: Pad)
    requires s > 0
    ensures Sum(p) == TotalPadding(n, k, s) && Balanced(p)
    ensures OutputSize(n, k, Sum(p), s) == CeilDiv(n, s)
    ensures forall t :: OutputSize(n, k, t, s) == CeilDiv(n, s) ==> Sum(p) <= t
  {
    SameOutputSize(n, k, s);
    SplitPad(TotalPadding(n, k, s))
  }

  /**
   * Padding that keeps the output of a stride-`s` convolution at
   * ceil(H/s) x ceil(W/s): ((top, bottom), (left, right)). Each axis
   * gets the least total padding that reaches that size, split as evenly
   * as possible with the odd unit at the bottom or right.
   */
  function SamePadding(h: nat, w: nat, kh: int, kw: int, s: nat): (r: (Pad, Pad))
    requires s > 0
    ensures Balanced(r.0) && Balanced(r.1)
    ensures OutputSize(h, kh, Sum(r.0), s) == CeilDiv(h, s)
    ensures OutputSize(w, kw, Sum(r.1), s) == CeilDiv(w, s)
    ensures forall t :: OutputSize(h, kh, t, s) == CeilDiv(h, s) ==> Sum(r.0) <= t
    ensures forall t :: OutputSize(w, kw, t, s) == CeilDiv(w, s) ==> Sum(r.1) <= t
  {
    (AxisPadding(h, kh, s), AxisPadding(w, kw, s))
  }

  /**
   * A total padding gives the "same" output size exactly when it lies in the
   * window of `s` values starting at `TotalPadding`: so `TotalPadding` is
   * the least such total.
   */
  lemma SameOutputSizeRange(n: nat, k: int, s: nat, t: int)
    requires s > 0
    ensures OutputSize(n, k, t, s) == CeilDiv(n, s)
        <==> TotalPadding(n, k, s) <= t < TotalPadding(n, k, s) + s
  {
    var m := CeilDiv(n, s) - 1;
    var a := n + t - k;
    assert m * s + k - n == TotalPadding(n, k, s);
    assert s * m == m * s;
    if OutputSize(n, k, t, s) == CeilDiv(n, s) {
      assert a / s == m;
      DivBounds(a, s);
    } else if TotalPadding(n, k, s) <= t < TotalPadding(n, k, s) + s {
      DivUnique(a, s, m);
      assert false;
    }
  }

  /** The total from the source reaches the "same" output size, and no smaller total does. */
  lemma SameOutputSize(n: nat, k: int, s: nat)
    requires s > 0
    ensures OutputSize(n, k, TotalPadding(n, k, s), s) == CeilDiv(n, s)
    ensures forall t :: OutputSize(n, k, t, s) == CeilDiv(n, s) ==> TotalPadding(n, k, s) <= t
  {
    SameOutputSizeRange(n, k, s, TotalPadding(n, k, s));
    forall t | OutputSize(n, k, t, s) == CeilDiv(n, s)
      ensures TotalPadding(n, k, s) <= t
    {
      SameOutputSizeRange(n, k, s, t);
    }
  }

  /** Any balanced split of a total is the one `SplitPad` makes. */
  lemma SplitPadUnique(p: Pad)
    requires Balanced(p)
    ensures SplitPad(Sum(p)) == p
  {
  }

  /** At stride 1 the output keeps the input's extent and the totals are `k - 1`. */
  lemma SamePaddingStrideOne(h: nat, w: nat, kh: int, kw: int)
    ensures Sum(SamePadding(h, w, kh, kw, 1).0) == kh - 1
    ensures Sum(SamePadding(h, w, kh, kw, 1).1) == kw - 1
    ensures OutputSize(h, kh, Sum(SamePadding(h, w, kh, kw, 1).0), 1) == h
    ensures OutputSize(w, kw, Sum(SamePadding(h, w, kh, kw, 1).1), 1) == w
  {
  }

  /** Each total lies in [k - s, k - 1]; no pad is negative once the kernel spans the stride. */
  lemma SamePaddingBounds(h: nat, w: nat, kh: int, kw: int, s: nat)
    requires s > 0
    ensures kh - s <= Sum(SamePadding(h, w, kh, kw, s).0) <= kh - 1
    ensures kw - s <= Sum(SamePadding(h, w, kh, kw, s).1) <= kw - 1
    ensures kh >= s ==> SamePadding(h, w, kh, kw, s).0.0 >= 0 && SamePadding(h, w, kh, kw, s).0.1 >= 0
    ensures kw >= s ==> SamePadding(h, w, kh, kw, s).1.0 >= 0 && SamePadding(h, w, kh, kw, s).1.1 >= 0
  {
  }

  /** With a kernel narrower than the stride the total can be negative: nothing clamps it. */
  lemma SamePaddingUnclamped()
    ensures SamePadding(3, 3, 1, 1, 3) == ((-1, -1), (-1, -1))
  {
    DivUnique(5, 3, 1);
    assert TotalPadding(3, 1, 3) == -2;
    DivUnique(-2, 2, -1);
  }

  /** The vertical pair depends only on (h, kh, s), the horizontal one only on (w, kw, s). */
  lemma SamePaddingAxesIndependent(h: nat, w: nat, kh: int, kw: int, h': nat, w': nat, kh': int, kw': int, s: nat)
    requires s > 0
    ensures SamePadding(h, w, kh, kw, s).0 == SamePadding(h, w', kh, kw', s).0
    ensures SamePadding(h, w, kh, kw, s).1 == SamePadding(h', w, kh', kw, s).1
  {
  }

  /** Exchanging the roles of height and width exchanges the two pairs. */
  lemma SamePaddingSwap(h: nat, w: nat, kh: int, kw: int, s: nat)
    requires s > 0
    ensures SamePadding(w, h, kw, kh, s) == (SamePadding(h, w, kh, kw, s).1, SamePadding(h, w, kh, kw, s).0)
  {
  }

  // ---------------------------------------------------------------------------
  // Arithmetic helpers
  // ---------------------------------------------------------------------------

  lemma DivBounds(a: int, d: nat)
    requires d > 0
    ensures d * (a / d) <= a < d * (a / d) + d
  {
  }

  lemma DivUnique(a: int, d: nat, m: int)
    requires d > 0 && d * m <= a < d * m + d
    ensures a / d == m
  {
    DivBounds(a, d);
    if a / d < m {
      MulMonotone(a / d + 1, m, d);
    } else if a / d > m {
      MulMonotone(m + 1, a / d, d);
    }
  }

  lemma MulMonotone(a: int, b: int, c: nat)
    requires a <= b
    ensures a * c <= b * c
  {
  }
}
