/** `read_input` of the convolution program in lab1/main.cpp: the size checks, and the extended
    matrix in which the `m x m` input sits surrounded by a border of zeros `k / 2` cells wide, so
    that every neighbour the convolution reads exists. The numbers after the two sizes in the
    input file are the sequence `values`: first the `m * m` matrix cells row by row, then the
    `k * k` kernel weights row by row. */
module ConvLayout {

  import opened Arith
  import opened Results

  /** MAX_MATRIX_SIZE */
  const MaxMatrixSize: nat := 1024
  /** MAX_KERNEL_SZIE */
  const MaxKernelSize: nat := 9

  /** The two `logic_error`s `read_input` throws. */
  datatype InputError = BadMatrixSize | BadKernelSize

  /** The extended matrix and the kernel weights `read_input` hands to the convolution. */
  datatype Padded = Padded(extended: seq<int>, weights: seq<int>)

  /** The number at position `p` of the input after the sizes; a read past the end leaves the
      zero the cell already holds. */
  function Next(values: seq<int>, p: nat): int
  {
    if p < |values| then values[p] else 0
  }

  /** Cell `(r, c)` of the input matrix, or 0 for a position outside it: the matrix extended by
      zeros in every direction. */
  function ZeroPadded(values: seq<int>, m: nat, r: int, c: int): int
  {
    if 0 <= r < m && 0 <= c < m then Next(values, r * m + c) else 0
  }

  /** The side of the extended matrix, `m + k - 1`. */
  function Side(m: nat, k: nat): nat
    requires k >= 1
  {
    m + k - 1
  }

  /** The extended matrix, row-major: cell `(R, C)` is input cell `(R - k / 2, C - k / 2)`, or 0
      where that lies outside the input. */
  function Extended(m: nat, k: nat, values: seq<int>): (e: seq<int>)
    requires k >= 1
    ensures |e| == Side(m, k) * Side(m, k)
  {
    var w, h := Side(m, k), k / 2;
    seq(w * w, p requires 0 <= p < w * w => ZeroPadded(values, m, p / w - h, p % w - h))
  }

  /** The `k * k` kernel weights that follow the matrix in the input, row-major. */
  function Weights(m: nat, k: nat, values: seq<int>): (w: seq<int>)
    ensures |w| == k * k
  {
    seq(k * k, t requires 0 <= t < k * k => Next(values, m * m + t))
  }

  /** The sizes `read_input` accepts. */
  predicate ValidSizes(m: nat, k: nat)
  {
    1 <= m <= MaxMatrixSize && k % 2 == 1 && k <= MaxKernelSize
  }

  /** Cell `(R, C)` of the extended matrix, for `R` and `C` below its side, is the zero-padded
      input cell `(R - k / 2, C - k / 2)`. */
  lemma ExtendedAt(m: nat, k: nat, values: seq<int>, r: nat, c: nat)
    requires k >= 1 && r < Side(m, k) && c < Side(m, k)
    ensures r * Side(m, k) + c < |Extended(m, k, values)|
    ensures Extended(m, k, values)[r * Side(m, k) + c] == ZeroPadded(values, m, r - k / 2, c - k / 2)
  {
    var w := Side(m, k);
    RowMajorBound(r, c, w, w);
    DivModUnique(r * w + c, w, r, c);
  }

  /** Input cell `(i, j)` is stored at `i * E + (k / 2) * E + k / 2 + j` of the extended matrix,
      that is at row `i + k / 2` and column `j + k / 2`. */
  lemma ExtendedStoresInput(m: nat, k: nat, values: seq<int>, i: nat, j: nat)
    requires k >= 1 && i < m && j < m
    ensures var w, h := Side(m, k), k / 2;
      && i * w + (h * w + h) + j == (i + h) * w + (j + h) < |Extended(m, k, values)|
      && Extended(m, k, values)[i * w + (h * w + h) + j] == Next(values, i * m + j)
  {
    var w, h := Side(m, k), k / 2;
    assert (i + h) * w == i * w + h * w;
    ExtendedAt(m, k, values, i + h, j + h);
  }

  /** Every cell of the extended matrix outside the embedded `m x m` block is 0. */
  lemma ExtendedZeroOutside(m: nat, k: nat, values: seq<int>, r: nat, c: nat)
    requires k >= 1 && r < Side(m, k) && c < Side(m, k)
    requires !(k / 2 <= r < k / 2 + m && k / 2 <= c < k / 2 + m)
    ensures r * Side(m, k) + c < |Extended(m, k, values)|
    ensures Extended(m, k, values)[r * Side(m, k) + c] == 0
  {
    ExtendedAt(m, k, values, r, c);
  }

  // ---------------------------------------------------------------------------------------------
  // read_input

  /** Position `p` of the zeroed extended array after the first `f` input cells, in reading
      order, have been stored. */
  ghost function FilledCell(m: nat, k: nat, values: seq<int>, f: nat, p: nat): int
    requires k >= 1 && p < Side(m, k) * Side(m, k)
  {
    var w, h := Side(m, k), k / 2;
    var r, c := p / w - h, p % w - h;
    if 0 <= r < m && 0 <= c < m && r * m + c < f then Next(values, r * m + c) else 0
  }

  /** The whole extended array after the first `f` input cells have been stored. */
  ghost function PartlyFilled(m: nat, k: nat, values: seq<int>, f: nat): (e: seq<int>)
    requires k >= 1
    ensures |e| == Side(m, k) * Side(m, k)
  {
    var w := Side(m, k);
    seq(w * w, p requires 0 <= p < w * w => FilledCell(m, k, values, f, p))
  }

  /** Before any cell is read the array is all zeros. */
  lemma PartlyFilledNone(m: nat, k: nat, values: seq<int>)
    requires k >= 1
    ensures PartlyFilled(m, k, values, 0) == seq(Side(m, k) * Side(m, k), _ => 0)
  {
    var w, h := Side(m, k), k / 2;
    forall p | 0 <= p < w * w
      ensures FilledCell(m, k, values, 0, p) == 0
    {
      var r, c := p / w - h, p % w - h;
      if 0 <= r < m && 0 <= c < m {
        RowMajorBound(r, c, m, m);
      }
    }
  }

  /** After all `m * m` cells are read the array is the extended matrix. */
  lemma PartlyFilledAll(m: nat, k: nat, values: seq<int>)
    requires k >= 1
    ensures PartlyFilled(m, k, values, m * m) == Extended(m, k, values)
  {
    var w, h := Side(m, k), k / 2;
    forall p | 0 <= p < w * w
      ensures FilledCell(m, k, values, m * m, p) == ZeroPadded(values, m, p / w - h, p % w - h)
    {
      var r, c := p / w - h, p % w - h;
      if 0 <= r < m && 0 <= c < m {
        RowMajorBound(r, c, m, m);
      }
    }
  }

  /** Storing input cell `(i, j)`, the `f = i * m + j`-th one read, at its place `at` in the
      extended array takes `PartlyFilled(f)` to `PartlyFilled(f + 1)`. */
  lemma FillStep(m: nat, k: nat, values: seq<int>, i: nat, j: nat, f: nat, at: int)
    requires k >= 1 && i < m && j < m && f == i * m + j
    requires at == i * Side(m, k) + ((k / 2) * Side(m, k) + k / 2) + j
    ensures 0 <= at < |PartlyFilled(m, k, values, f)|
    ensures PartlyFilled(m, k, values, f)[at := Next(values, f)] == PartlyFilled(m, k, values, f + 1)
  {
    var w, h := Side(m, k), k / 2;
    assert at == (i + h) * w + (j + h);
    RowMajorBound(i + h, j + h, w, w);
    DivModUnique(at, w, i + h, j + h);
    var next := f + 1;
    forall p | 0 <= p < w * w
      ensures PartlyFilled(m, k, values, f)[at := Next(values, f)][p] == FilledCell(m, k, values, next, p)
    {
      FillStepAt(m, k, values, i, j, f, at, p);
    }
  }

  /** The one position whose value the store changes is `at`, which now holds cell `f`. */
  lemma FillStepAt(m: nat, k: nat, values: seq<int>, i: nat, j: nat, f: nat, at: nat, p: nat)
    requires k >= 1 && i < m && j < m && f == i * m + j && p < Side(m, k) * Side(m, k)
    requires at / Side(m, k) == i + k / 2 && at % Side(m, k) == j + k / 2
    ensures p == at ==> FilledCell(m, k, values, f + 1, p) == Next(values, f)
    ensures p != at ==> FilledCell(m, k, values, f + 1, p) == FilledCell(m, k, values, f, p)
  {
    var w, h := Side(m, k), k / 2;
    var r, c := p / w - h, p % w - h;
    if p != at && 0 <= r < m && 0 <= c < m && r * m + c == f {
      RowMajorInjective(r, c, i, j, m);
      assert false;
    }
  }

  /** `read_input(matrix, kernel, m, k)`: rejects a matrix size outside `1..1024`, then a kernel
      size that is not odd or outside `1..9`; otherwise zeroes an `E x E` array, `E = m + k - 1`,
      stores the `m * m` matrix cells at `i * E + (k / 2) * E + k / 2 + j` in reading order, and
      reads the `k * k` kernel weights that follow. */
  method ReadInput(m: nat, k: nat, values: seq<int>) returns (r: Result<Padded, InputError>)
    ensures r.Success? <==> ValidSizes(m, k)
    ensures m == 0 || m > MaxMatrixSize ==> r == Failure(BadMatrixSize)
    ensures 1 <= m <= MaxMatrixSize && (k == 0 || k % 2 == 0 || k > MaxKernelSize) ==>
      r == Failure(BadKernelSize)
    ensures ValidSizes(m, k) ==> r == Success(Padded(Extended(m, k, values), Weights(m, k, values)))
  {
    if m == 0 || m > MaxMatrixSize {
      return Failure(BadMatrixSize);
    }
    if k == 0 || k % 2 == 0 || k > MaxKernelSize {
      return Failure(BadKernelSize);
    }
    var w := m + k - 1;
    var matrix := new int[w * w](_ => 0);
    StoreMatrix(matrix, m, k, values);
    var weights := ReadWeights(m, k, values);
    r := Success(Padded(matrix[..], weights));
  }

  /** The nested loop of `read_input`: the `m * m` cells read in order, cell `(i, j)` stored at
      `i * E + matrix_offset + j` of the zeroed extended array. */
  method StoreMatrix(matrix: array<int>, m: nat, k: nat, values: seq<int>)
    requires k >= 1 && matrix.Length == Side(m, k) * Side(m, k)
    requires forall p :: 0 <= p < matrix.Length ==> matrix[p] == 0
    modifies matrix
    ensures matrix[..] == Extended(m, k, values)
  {
    var w := m + k - 1;
    var offset := (k / 2) * w + k / 2;
    PartlyFilledNone(m, k, values);
    assert matrix[..] == PartlyFilled(m, k, values, 0);
    var pos := 0;
    var i := 0;
    while i < m
      invariant 0 <= i <= m && pos == i * m
      invariant matrix[..] == PartlyFilled(m, k, values, pos)
    {
      var j := 0;
      while j < m
        invariant 0 <= j <= m && pos == i * m + j
        invariant matrix[..] == PartlyFilled(m, k, values, pos)
      {
        FillStep(m, k, values, i, j, pos, i * w + offset + j);
        matrix[i * w + offset + j] := Next(values, pos);
        pos := pos + 1;
        j := j + 1;
      }
      assert pos == (i + 1) * m;
      i := i + 1;
    }
    PartlyFilledAll(m, k, values);
  }

  /** The last loop of `read_input`: the `k * k` kernel weights that follow the `m * m` matrix
      cells. */
  method ReadWeights(m: nat, k: nat, values: seq<int>) returns (weights: seq<int>)
    ensures weights == Weights(m, k, values)
  {
    var kernel := new int[k * k];
    var pos := m * m;
    var t := 0;
    while t < k * k
      invariant 0 <= t <= k * k && pos == m * m + t
      invariant forall u :: 0 <= u < t ==> kernel[u] == Next(values, m * m + u)
    {
      kernel[t] := Next(values, pos);
      pos := pos + 1;
      t := t + 1;
    }
    weights := kernel[..];
  }
}
