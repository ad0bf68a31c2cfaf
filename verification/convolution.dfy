/** The sequential reference convolution `calc_on_cpu` of lab1/main.cpp over the extended matrix
    `read_input` builds, and the rounding of the global work size in `calc_on_gpu`. */
module Convolution {

  import opened Arith
  import opened ConvLayout

  /** The window sum over the first `t` kernel positions, row-major: position `u` is kernel row
      `u / k` and column `u % k`, and weighs the extended-matrix cell at that offset from
      `(i, j)`, the top-left corner of the window of output cell `(i, j)`. */
  function ExtWindow(ext: seq<int>, w: seq<int>, side: nat, k: nat, i: nat, j: nat, t: nat): int
    requires k >= 1 && t <= k * k == |w| && |ext| == side * side
    requires i + k <= side && j + k <= side
  {
    if t == 0 then 0
    else
      CellInWindow(side, k, i, j, t - 1);
      ExtWindow(ext, w, side, k, i, j, t - 1) + ext[(i + (t - 1) / k) * side + j + (t - 1) % k] * w[t - 1]
  }

  /** The same sum over the input matrix itself, with every neighbour outside the matrix counting
      as 0: the window of output cell `(i, j)` is centred on input cell `(i, j)`. */
  function PaddedWindow(values: seq<int>, m: nat, w: seq<int>, k: nat, i: int, j: int, t: nat): int
    requires k >= 1 && t <= k * k == |w|
  {
    if t == 0 then 0
    else
      PaddedWindow(values, m, w, k, i, j, t - 1)
      + ZeroPadded(values, m, i + (t - 1) / k - k / 2, j + (t - 1) % k - k / 2) * w[t - 1]
  }

  /** Kernel position `u` of the window at `(i, j)` lies inside the extended matrix. */
  lemma CellInWindow(side: nat, k: nat, i: nat, j: nat, u: nat)
    requires k >= 1 && u < k * k && i + k <= side && j + k <= side
    ensures u / k < k && (i + u / k) * side + j + u % k < side * side
  {
    QuotientBelow(u, k);
    RowMajorBound(i + u / k, j + u % k, side, side);
  }

  /** Cell `(i, j)` of an `m x m` matrix stored row-major: element `i * m + j`. */
  function OutputCell(res: seq<int>, m: nat, i: nat, j: nat): int
    requires |res| == m * m && i < m && j < m
  {
    RowMajorBound(i, j, m, m);
    res[i * m + j]
  }

  /** Output position `p` of `calc_on_cpu` holds `v`, the window sum of output cell
      `(p / m, p % m)`. */
  ghost predicate OutputAt(ext: seq<int>, w: seq<int>, m: nat, k: nat, p: nat, v: int)
    requires k % 2 == 1 && |w| == k * k && |ext| == Side(m, k) * Side(m, k)
  {
    && p < m * m
    && (QuotientBelow(p, m);
        v == ExtWindow(ext, w, Side(m, k), k, p / m, p % m, k * k))
  }

  /** One step of the two inner loops of `calc_on_cpu`: with `ii` and `jj` in `-k/2..k/2` and
      `idx` the row-major kernel position `(ii + k/2, jj + k/2)`, the read index
      `matrix_offset + (i + ii) * E + j + jj` lies in `[0, E * E)`, `idx` in `[0, k * k)`, and
      adding the product extends the window sum by one position. */
  lemma WindowStep(ext: seq<int>, w: seq<int>, side: nat, k: nat, i: nat, j: nat,
                   ii: int, jj: int, idx: int, at: int)
    requires k % 2 == 1 && |w| == k * k && |ext| == side * side && i + k <= side && j + k <= side
    requires -(k / 2) <= ii <= k / 2 && -(k / 2) <= jj <= k / 2
    requires idx == (ii + k / 2) * k + (jj + k / 2)
    requires at == side * (k / 2) + k / 2 + (i + ii) * side + j + jj
    ensures 0 <= idx < k * k && 0 <= at < |ext|
    ensures ExtWindow(ext, w, side, k, i, j, idx + 1) == ExtWindow(ext, w, side, k, i, j, idx) + ext[at] * w[idx]
  {
    var h := k / 2;
    var a, b := ii + h, jj + h;
    RowMajorBound(a, b, k, k);
    ReadIndex(side, h, i + ii, j + jj, at);
    ExtWindowStep(ext, w, side, k, i, j, idx, a, b);
  }

  /** `matrix_offset + r * E + c`, with `matrix_offset = E * h + h`, is row `r + h`, column
      `c + h` of the extended matrix. */
  lemma ReadIndex(side: int, h: int, r: int, c: int, at: int)
    requires at == side * h + h + r * side + c
    ensures at == (r + h) * side + (c + h)
  {
    assert (r + h) * side == r * side + side * h;
  }

  /** Kernel position `idx = a * k + b` adds the product of weight `idx` and the extended-matrix
      cell `(i + a, j + b)`. */
  lemma ExtWindowStep(ext: seq<int>, w: seq<int>, side: nat, k: nat, i: nat, j: nat,
                      idx: nat, a: nat, b: nat)
    requires k >= 1 && |w| == k * k && |ext| == side * side && i + k <= side && j + k <= side
    requires a < k && b < k && idx == a * k + b && idx < k * k
    ensures (i + a) * side + (j + b) < |ext|
    ensures ExtWindow(ext, w, side, k, i, j, idx + 1)
         == ExtWindow(ext, w, side, k, i, j, idx) + ext[(i + a) * side + (j + b)] * w[idx]
  {
    DivModUnique(idx, k, a, b);
    CellInWindow(side, k, i, j, idx);
  }

  /** The two inner loops of `calc_on_cpu` for output cell `(i, j)`: `ii` and `jj` run from
      `-k/2` to `k/2` while `idx` runs over the kernel positions `0..k*k-1` in row-major order. */
  method Window(ext: seq<int>, w: seq<int>, m: nat, k: nat, i: nat, j: nat) returns (result: int)
    requires k % 2 == 1 && |w| == k * k && |ext| == Side(m, k) * Side(m, k) && i < m && j < m
    ensures result == ExtWindow(ext, w, Side(m, k), k, i, j, k * k)
  {
    var side := m + k - 1;
    var h := k / 2;
    result := 0;
    var ii: int := -h;
    var idx: int := 0;
    while ii <= h
      invariant -h <= ii <= h + 1 && idx == (ii + h) * k && 0 <= idx <= k * k
      invariant result == ExtWindow(ext, w, side, k, i, j, idx)
    {
      var jj: int := -h;
      while jj <= h
        invariant -h <= jj <= h + 1 && idx == (ii + h) * k + (jj + h) && 0 <= idx <= k * k
        invariant result == ExtWindow(ext, w, side, k, i, j, idx)
      {
        WindowStep(ext, w, side, k, i, j, ii, jj, idx, side * h + h + (i + ii) * side + j + jj);
        result := result + ext[side * h + h + (i + ii) * side + j + jj] * w[idx];
        jj := jj + 1;
        idx := idx + 1;
      }
      assert (ii + h) * k + k == (ii + 1 + h) * k;
      ii := ii + 1;
    }
  }

  /** `calc_on_cpu(matrix, kernel, m, k)` over the extended matrix: `m * m` outputs, the one at
      `i * m + j` being the weighted sum of the `k x k` window of the extended matrix whose
      top-left corner is `(i, j)`, i.e. whose centre is input cell `(i, j)`. */
  method CalcOnCpu(ext: seq<int>, w: seq<int>, m: nat, k: nat) returns (res: seq<int>)
    requires k % 2 == 1 && |w| == k * k && |ext| == Side(m, k) * Side(m, k)
    ensures |res| == m * m
    ensures forall i, j :: 0 <= i < m && 0 <= j < m ==>
      OutputCell(res, m, i, j) == ExtWindow(ext, w, Side(m, k), k, i, j, k * k)
  {
    var out := new int[m * m];
    var i := 0;
    while i < m
      invariant 0 <= i <= m && i * m <= m * m
      invariant forall p :: 0 <= p < i * m ==> OutputAt(ext, w, m, k, p, out[p])
    {
      var j := 0;
      while j < m
        invariant 0 <= j <= m && i * m + j <= m * m
        invariant forall p :: 0 <= p < i * m + j ==> OutputAt(ext, w, m, k, p, out[p])
      {
        var result := Window(ext, w, m, k, i, j);
        RowMajorBound(i, j, m, m);
        DivModUnique(i * m + j, m, i, j);
        out[i * m + j] := result;
        j := j + 1;
      }
      assert i * m + m == (i + 1) * m;
      i := i + 1;
    }
    res := out[..];
    OutputsByCell(ext, w, m, k, res);
  }

  /** Reading the flat output positions back as cells: position `i * m + j` is cell `(i, j)`. */
  lemma OutputsByCell(ext: seq<int>, w: seq<int>, m: nat, k: nat, res: seq<int>)
    requires k % 2 == 1 && |w| == k * k && |ext| == Side(m, k) * Side(m, k) && |res| == m * m
    requires forall p :: 0 <= p < m * m ==> OutputAt(ext, w, m, k, p, res[p])
    ensures forall i, j :: 0 <= i < m && 0 <= j < m ==>
      OutputCell(res, m, i, j) == ExtWindow(ext, w, Side(m, k), k, i, j, k * k)
  {
    forall i, j | 0 <= i < m && 0 <= j < m
      ensures OutputCell(res, m, i, j) == ExtWindow(ext, w, Side(m, k), k, i, j, k * k)
    {
      RowMajorBound(i, j, m, m);
      DivModUnique(i * m + j, m, i, j);
      assert OutputAt(ext, w, m, k, i * m + j, res[i * m + j]);
    }
  }

  /** On the extended matrix `read_input` builds, the window sum of output cell `(i, j)` is the
      convolution of the input matrix at `(i, j)` with every neighbour outside the matrix
      counting as 0. */
  lemma {:induction false} ConvolutionOfInput(m: nat, k: nat, values: seq<int>, w: seq<int>,
                                               i: nat, j: nat, t: nat)
    requires k % 2 == 1 && |w| == k * k && i < m && j < m && t <= k * k
    ensures ExtWindow(Extended(m, k, values), w, Side(m, k), k, i, j, t)
         == PaddedWindow(values, m, w, k, i, j, t)
  {
    if t > 0 {
      var u := t - 1;
      ConvolutionOfInput(m, k, values, w, i, j, u);
      QuotientBelow(u, k);
      ExtendedAt(m, k, values, i + u / k, j + u % k);
    }
  }

  // ---------------------------------------------------------------------------------------------
  // calc_on_gpu: the NDRange size

  /** `global_ws` in `calc_on_gpu`: the number of elements rounded down to a multiple of the local
      work size, plus one more local work size when there is a remainder. */
  method GlobalWorkSize(elements: nat, localWs: nat) returns (globalWs: nat)
    requires localWs >= 1
    ensures globalWs % localWs == 0 && elements <= globalWs < elements + localWs
  {
    globalWs := (elements / localWs) * localWs;
    globalWs := globalWs + localWs * (if elements % localWs != 0 then 1 else 0);
    var q := elements / localWs + (if elements % localWs != 0 then 1 else 0);
    assert globalWs == q * localWs;
    DivModUnique(globalWs, localWs, q, 0);
  }

  /** A multiple of `localWs` that is at least `elements` and below `elements + localWs` is the
      least such multiple: no work-group lies wholly past the last element. */
  lemma GlobalWorkSizeLeast(elements: nat, localWs: nat, globalWs: nat, q: nat)
    requires localWs >= 1 && globalWs % localWs == 0 && elements <= globalWs < elements + localWs
    requires q * localWs >= elements
    ensures q * localWs >= globalWs
  {
    var g := globalWs / localWs;
    assert globalWs == g * localWs;
    if q < g {
      MulAtLeast(g - q, localWs);
    }
  }
}
