# OpenCL labs: recursive block scan and padded-matrix convolution

This project models the host-side logic of two OpenCL laboratory programs and proves what
they compute.

**lab2 — prefix sum (scan).** `recursive_scan` splits a device buffer of `n` elements into
work-groups of `WORKGROUP_SIZE = 256` elements.
- When one group suffices (`k = ceil(n / 256) == 1`), it enqueues a single `scan_pad_to_pow2`.
- Otherwise it allocates a partial buffer of `k` slots and enqueues `scan_subarrays`. That
  kernel scans each group in place and stores each group's total.
- It then scans the partial buffer recursively, enqueues `scan_inc_subarrays` to add each
  group's offset to its elements, and releases the partial buffer.

`calc_on_gpu` does the following:
- answers an empty input with an empty result;
- fails when the device does not admit work-groups of 256;
- otherwise uploads the input, runs the recursion, reads the buffer back and appends
  `result[n-1] + input[n-1]`.

`calc_on_cpu` is the sequential reference the host compares against, and `write_result` drops
index 0.

**lab1 — 2-D convolution.** `read_input` validates the matrix size `m` and the odd kernel size
`k`. It then embeds the `m x m` matrix in a zeroed `E x E` array, `E = m + k - 1`, so that no
neighbour read needs a bounds check. `calc_on_cpu` convolves over that layout. The NDRange
size `global_ws` is `m * m` rounded up to a multiple of the local work size.

Modules:
- `Results` (results.dfy) — the `Result` datatype for error paths.
- `Arith` (arith.dfy) — row-major index arithmetic: unique quotient and remainder, bounds,
  injectivity.
- `ScanSpec` (scan_spec.dfy):
  - `Sum`, `ExclusiveScan`, `InclusiveScan`;
  - the group partition (`GroupCount`, `GroupTotals`, `LocalScan`, `AddGroupOffsets`);
  - the decomposition theorem `ScanComposition`;
  - the group count as the source computes it through `float`.
- `ScanTrace` (scan_trace.dfy) — the log of buffer and kernel requests one `recursive_scan`
  call issues (`Trace(n)`). Lemmas cover buffer balance, nesting depth, kernel counts and
  dispatch coverage.
- `BlockScan` (block_scan.dfy) — the OpenCL session as a class:
  - ghost state: the set of live device buffers and the request log;
  - device buffers as `array<int>`;
  - each kernel as a sequential method with the effect of one NDRange;
  - `RecursiveScan`, `CalcOnGpu`, `CalcOnCpu` and `WriteResult`.
- `ConvLayout` (conv_layout.dfy) — `read_input`: the size checks, the extended matrix and the
  kernel weights.
- `Convolution` (convolution.dfy) — `calc_on_cpu` of lab1 and the `global_ws` rounding.

Elements are `int`, where the source uses `float`. Sums are therefore exact, and the
GPU/CPU comparison with a tolerance becomes an equality.

## Model

| member | source | states |
|---|---|---|
| ScanSpec.ExclusiveScanRecurrence | lab2/main.cpp:270-271 | the exclusive scan starts at 0; each next element adds the input element before it; element `i` plus `s[i]` is the sum of the first `i + 1` elements |
| ScanSpec.GroupCountCovers | lab2/main.cpp:196 | the global work size `k * 256` is at least `n` and below `n + 256`: every element lies in a group, and no group lies wholly past the end |
| ScanSpec.GroupCountShrinks | lab2/main.cpp:186-190 | `k == 1` exactly when `n <= 256`; for `n > 256`, `1 < k < n`, which makes the recursion terminate |
| ScanSpec.GroupOfIndex | lab2/main.cpp:196-202 | element `i < n` lies in group `i / 256`, one of the `k` groups, inside `[g * 256, g * 256 + 256)` |
| ScanSpec.PrefixByGroups | lab2/main.cpp:198-205 | the sum of the elements of the first `g` groups equals the sum of the first `g` group totals |
| ScanSpec.GroupOffset | lab2/main.cpp:205-208 | the sum of everything before group `g` is element `g` of the exclusive scan of the group totals |
| ScanSpec.ScanCompositionAt | lab2/main.cpp:200-208 | element `i` of the per-group scan plus the scanned total of its group is element `i` of the whole exclusive scan |
| ScanSpec.ScanComposition | lab2/main.cpp:200-208 | adding the exclusive scan of the group totals to the per-group exclusive scan yields the exclusive scan of the whole sequence |
| ScanSpec.LocalScanOfGroup | lab2/main.cpp:200-202 | inside group `g` the per-group scan is the exclusive scan of the group's slice, and the group total is the sum of that slice |
| ScanSpec.LocalScanByGroup | lab2/main.cpp:200-202 | scanning group `g` extends the per-group scan of the groups before it by the exclusive scan of group `g`'s slice |
| ScanSpec.GroupCountAsWrittenAgrees | lab2/main.cpp:186 | below 2^24 elements the `float` ceiling equals the integer ceiling `(n + 255) / 256` |
| ScanSpec.FloatGroupCountMissesElement | lab2/main.cpp:186 | with `n = 2^24 + 1` the `float` ceiling gives 65536 groups, whose 2^24 work-items leave the last element outside every group; the integer ceiling covers it |
| ScanTrace.TraceLevel | lab2/main.cpp:195-212 | above one group a call's log is: create the partial buffer, `scan_subarrays`, the recursive call's log, `scan_inc_subarrays`, release; `1 < k < n` |
| ScanTrace.TraceCounts | lab2/main.cpp:185-213 | a call creates and releases exactly `Depth(n)` buffers and enqueues `2 * Depth(n) + 1` kernels; none is created exactly when `n <= 256` |
| ScanTrace.PrefixOutstanding | lab2/main.cpp:198-211 | at every point of a level's log, its own buffer is live exactly between its creation and its release, on top of those of the recursive call |
| ScanTrace.TraceNesting | lab2/main.cpp:198-211 | at every prefix of a call's log, between 0 and `Depth(n)` auxiliary buffers are live |
| ScanTrace.TraceDispatchesCover | lab2/main.cpp:192-208 | every kernel enqueued covers its `n` elements: `n <= globalSize < n + 256`, and `globalSize` is a multiple of 256 |
| ScanTrace.DepthBounds | lab2/main.cpp:186-205 | the recursion depth is the least `d` with `n <= 256^(d+1)` |
| BlockScan.Session.constructor | lab2/main.cpp:239-247 | a fresh context has no buffers and has issued no requests, so every live buffer is one the log created and has not released (`Tracked`) |
| BlockScan.Session.CreateBufferFrom | lab2/main.cpp:249-251 | a new buffer holding the host data; it becomes live and the creation is logged, keeping the live count in step with the log's outstanding count |
| BlockScan.Session.CreateBuffer | lab2/main.cpp:198-199 | a new buffer of `k` elements; it becomes live and the creation is logged, keeping the live count in step with the log's outstanding count |
| BlockScan.Session.ReleaseMemObject | lab2/main.cpp:211 | the buffer is no longer live and the release is logged, keeping the live count in step with the log's outstanding count |
| BlockScan.ScanGroup | lab2/main.cpp:200-202 | one work-group's effect: slice `[lo, hi)` becomes its exclusive scan, the rest of the buffer is unchanged, and the slice's total is returned |
| BlockScan.Session.EnqueueScanPadToPow2 | lab2/main.cpp:190-194 | with one group, the first `n` elements become their exclusive scan; the rest is untouched; one dispatch of 256 work-items is logged |
| BlockScan.Session.EnqueueScanSubarrays | lab2/main.cpp:196-203 | each group of the first `n` elements is scanned in place and the partial buffer receives the group totals; the dispatch of `k * 256` work-items is logged |
| BlockScan.ScanAllGroups | lab2/main.cpp:200-202 | after every group: the per-group exclusive scan in the buffer, the group totals in the partial buffer, the tail untouched |
| BlockScan.SubarraysGroup | lab2/main.cpp:200-202 | group `g` extends the scanned prefix by one group, and `partial[g]` becomes its total while the other slots keep their values |
| BlockScan.Session.EnqueueScanIncSubarrays | lab2/main.cpp:206-209 | each element `i < n` gains `partial[i / 256]`, the elements from `n` on are untouched, and the dispatch is logged |
| BlockScan.Session.RecursiveScan | lab2/main.cpp:185-213 | the first `n` elements become the exclusive scan of their old values; the rest is untouched; the live buffers are as before; the requests issued are exactly `Trace(n)`; the live buffers stay in step with the log, so `TraceNesting`'s bound on the log bounds the buffers allocated at once |
| BlockScan.Session.ScanLevel | lab2/main.cpp:195-212 | above one group, `scan_subarrays`, the recursive scan of the totals and `scan_inc_subarrays` together leave the exclusive scan, in that dispatch order |
| BlockScan.GroupStep | lab2/main.cpp:200-202 | group `g`'s slice still holds the input when it is scanned; its sum is the group total; scanning it gives the state after `g + 1` groups |
| BlockScan.AllGroupsScanned | lab2/main.cpp:200-202 | before the first group the buffer is the input; after the last it is the per-group scan |
| BlockScan.LevelResult | lab2/main.cpp:200-208 | per-group scan, recursive scan of the totals, then adding the offsets gives the exclusive scan of the input |
| BlockScan.LevelEvents | lab2/main.cpp:196-211 | create, the level's kernels and recursive call, then release: the log of the level is `Trace(n)` |
| BlockScan.CalcOnGpu | lab2/main.cpp:224-264 | empty input gives an empty result with no request; a device below 256 fails with no request; otherwise the result is the exclusive scan plus the total; the log is upload, `Trace(n)`, release |
| BlockScan.LevelChecksAsWritten | lab2/main.cpp:198-203 | as written, the status of the partial buffer's allocation is overwritten by the enqueue's before the `assert`: the level goes on exactly when the enqueue succeeds, whatever the allocation reported |
| BlockScan.AllocationFailureIgnored | lab2/main.cpp:198-203 | a failed allocation (`-4`) followed by an accepted enqueue gets past the `assert` |
| BlockScan.LevelChecks | lab2/main.cpp:198-203 | with the allocation checked like every other call, the level goes on exactly when both the allocation and the enqueue succeed |
| BlockScan.AppendTotal | lab2/main.cpp:262 | the appended `result[n-1] + input[n-1]` is the sum of the whole input |
| BlockScan.CalcOnCpu | lab2/main.cpp:267-275 | `n + 1` values with `r[0] == 0` and `r[i] == r[i-1] + input[i-1]`, which is the exclusive scan plus the total |
| BlockScan.CalcOnCpuAsWritten | lab2/main.cpp:270-272 | the loop as written: the in-range iterations compute the reference result, and iteration `n + 1` is the one out-of-range iteration, for every input |
| BlockScan.ReferenceRecurrenceDeterminesScan | lab2/main.cpp:287-295 | any `n + 1` values following the reference recurrence equal the exclusive scan plus the total; for `n >= 1` the GPU and CPU results are therefore equal at every compared position `0..n` (the empty input is the third finding) |
| BlockScan.CompareResults | lab2/main.cpp:288-295 | the comparison loop over positions `0..n`: `passed` exactly when every position present in both results agrees; the positions missing from either result are listed, and none is when both have more than `n` values |
| BlockScan.EmptyInputCheckAsWritten | lab2/main.cpp:225 | on the empty input the GPU result is empty, the CPU result is `[0]`, and position 0 of the comparison lies outside the GPU result |
| BlockScan.HostCheck | lab2/main.cpp:282-295 | with the comparison skipped for the empty input: the check passes whenever the device admits work-groups of 256 (and for the empty input), and no position outside either result is compared |
| BlockScan.RecurrenceIsPrefixSum | lab2/main.cpp:270-271 | position `i` of a sequence following the recurrence is the sum of the first `i` input elements |
| BlockScan.WriteResult | lab2/main.cpp:92-98 | the values written are `result[1..]` |
| BlockScan.WrittenIsInclusiveScan | lab2/main.cpp:94-96 | dropping index 0 of the exclusive scan plus the total leaves the inclusive scan |
| ConvLayout.Extended | lab1/main.cpp:80-81 | the extended matrix has `E * E` cells, `E = m + k - 1` |
| ConvLayout.Weights | lab1/main.cpp:90-92 | the kernel has `k * k` weights |
| ConvLayout.ExtendedAt | lab1/main.cpp:56-67 | cell `(R, C)` of the extended matrix is input cell `(R - k/2, C - k/2)`, or 0 outside the input |
| ConvLayout.ExtendedStoresInput | lab1/main.cpp:84-88 | input cell `(i, j)` sits at `i * E + (k/2) * E + k/2 + j`, that is row `i + k/2` and column `j + k/2`, inside the array |
| ConvLayout.ExtendedZeroOutside | lab1/main.cpp:80-83 | every cell outside the embedded `m x m` block is 0 |
| ConvLayout.PartlyFilledNone | lab1/main.cpp:83 | before any cell is read, the array is all zeros |
| ConvLayout.PartlyFilledAll | lab1/main.cpp:85-89 | once all `m * m` cells are read, the array is the extended matrix |
| ConvLayout.FillStep | lab1/main.cpp:84-88 | storing cell number `f = i * m + j` at `i * E + matrix_offset + j` writes inside the array and advances the fill by one cell |
| ConvLayout.FillStepAt | lab1/main.cpp:87 | the store changes only position `i * E + matrix_offset + j`, which then holds cell `f` |
| ConvLayout.ReadInput | lab1/main.cpp:68-93 | `m` outside `1..1024` fails with the matrix error; otherwise `k` even or outside `1..9` fails with the kernel error; otherwise the result is the extended matrix and the weights; success exactly for valid sizes |
| ConvLayout.StoreMatrix | lab1/main.cpp:83-89 | the nested loop over a zeroed array leaves exactly the extended matrix |
| ConvLayout.ReadWeights | lab1/main.cpp:90-92 | the `k * k` weights are the numbers after the `m * m` matrix cells, in order |
| Convolution.CellInWindow | lab1/main.cpp:133-136 | kernel position `u < k * k` is row `u / k < k`, and its extended-matrix cell lies inside the array |
| Convolution.WindowStep | lab1/main.cpp:127-136 | for `abs(ii), abs(jj) <= k/2`, the read index `matrix_offset + (i+ii) * E + j + jj` lies in `[0, E*E)`, `idx` lies in `[0, k*k)`, and the product extends the window sum by one position |
| Convolution.ExtWindowStep | lab1/main.cpp:133-136 | kernel position `a * k + b` adds weight `idx` times extended cell `(i + a, j + b)` |
| Convolution.Window | lab1/main.cpp:132-138 | the two inner loops visit `idx = 0..k*k-1` row-major and return the window sum of output cell `(i, j)` |
| Convolution.CalcOnCpu | lab1/main.cpp:123-145 | `m * m` outputs, the one at `i * m + j` being the weighted sum of the `k x k` window centred on input cell `(i, j)` |
| Convolution.OutputsByCell | lab1/main.cpp:140 | flat output position `i * m + j` is output cell `(i, j)` |
| Convolution.ConvolutionOfInput | lab1/main.cpp:130-140 | over the array `read_input` builds, the window sum is the convolution of the input matrix with out-of-range neighbours counting as 0 |
| Convolution.GlobalWorkSize | lab1/main.cpp:222-223 | `global_ws` is a multiple of `local_ws`, at least `m * m` and below `m * m + local_ws` |
| Convolution.GlobalWorkSizeLeast | lab1/main.cpp:222-223 | no smaller multiple of `local_ws` reaches `m * m`: `global_ws` is the least one |

## Left out

- OpenCL plumbing is left out: platform and device selection, context, queue and program
  creation, the build log, `create_kernels`, `cleanup` and `set_kernel_args`. These are foreign
  calls. The session keeps only the live buffers and the ordered log of buffer and kernel
  requests.
- The kernel sources (`kernels/scan.cl`, `convolute.cl`) are not part of this model. Each scan
  kernel is modelled by its per-group sequential effect, read off the kernel names and the
  host's comparison with the reference. The in-group tree scan, barriers, local memory
  (`buf_size`) and the GPU convolution kernel are not modelled.
- Elements are `int`, not `float`. Rounding and the `1e-6` / `0.001` tolerances of the
  comparisons are not modelled.
- `size_t`/`int` widths are not modelled: the `(int) array.size()` cast and overflow of
  `m * m` or `k * 256` are out of scope. Sizes are unbounded naturals.
- `ScanSpec.FloatOfCount` models the `float` conversion only for counts below 2^25, enough to
  exhibit the rounding at 2^24 + 1.
- `BlockScan.Session.RecursiveScan` requires `n >= 1`. With `n == 0` the source computes
  `k == 0`, asks for a buffer of 0 bytes and enqueues `scan_subarrays` with a global size of 0
  (lab2/main.cpp:196-203). An OpenCL 1.x runtime rejects that, and the `assert` aborts. Only
  a build without assertions on a runtime that accepts empty ranges would call itself on 0
  again, without end. No caller passes 0: `calc_on_gpu` returns early on the empty input, and
  the recursive call at line 205 passes `k >= 2`.
- `BlockScan.Session.CreateBufferFrom`, `BlockScan.Session.CreateBuffer`, the three `Enqueue`
  methods, `BlockScan.Session.RecursiveScan` and `BlockScan.CalcOnGpu` model only successful
  backend calls: every `clCreateBuffer`, `clEnqueueNDRangeKernel` and `clEnqueueReadBuffer` is
  taken to succeed. The source aborts through `assert` when an enqueue or the read-back fails
  (lab2/main.cpp:194, 203, 209, 251, 257). The partial buffer's allocation at lines 198-199 is
  never checked. Its error flow is modelled on its own by `BlockScan.LevelChecksAsWritten` and
  `BlockScan.LevelChecks` (fourth finding), not inside the session.
- `check_work_group` aborts through `assert`. The model returns `Failure(WorkGroupTooLarge)`
  before any buffer exists, and takes the device's maximum work-group size as a parameter.
  Builds that compile `assert` away are not modelled.
- `BlockScan.CalcOnCpu` states the corrected loop bound. The out-of-range iteration of the loop
  as written is undefined behaviour in C++, so `BlockScan.CalcOnCpuAsWritten` reports it
  instead of modelling what it would write.
- File I/O is left out. In lab1 the numbers after the two sizes are a sequence `values`. A read
  past its end yields 0: for matrix cells this is the zero already stored, but the source's
  kernel weights are uninitialised there. Lab1's `print_matrix` debug output, lab2's file
  reading and formatting, and both `main` functions apart from the comparison loop are left
  out.
- The global work size of lab1 is modelled as a computation on `m * m` and `local_ws`. The
  device query that yields `local_ws` is left out: `local_ws` is a parameter. Lab1's
  `write_result` only formats output and is left out.

## Findings

| source | as written | input that shows it | evidently intended | confidence | as-written member | corrected member |
|---|---|---|---|---|---|---|
| lab2/main.cpp:270 | `for (i = 1; i < result.size() + 1; i++)` runs `i == n + 1`, writing `result[n+1]` and reading `input[n]`, both past the end | any input, e.g. the empty input: the loop writes `result[1]` of a 1-element vector | `i < result.size()`: `r[i] = r[i-1] + input[i-1]` for `1 <= i <= n` | high (not executed) | BlockScan.CalcOnCpuAsWritten | BlockScan.CalcOnCpu |
| lab2/main.cpp:186 | `k = (int) ceil((float)n / (float)WORKGROUP_SIZE)` rounds `n` to a `float` first | `n = 16777217`: `(float)n == 16777216`, so `k == 65536` and `k * 256 == 16777216 < n`, leaving the last element unscanned | the integer ceiling `(n + 255) / 256` | medium (not executed) | ScanSpec.FloatGroupCountMissesElement | ScanSpec.GroupCountCovers |
| lab2/main.cpp:289 | the comparison runs `i` over `0..input.size()`, reading `gpu_result[i]`, while `calc_on_gpu` returns an empty vector for an empty input (line 225) | the empty input: `gpu_result` is empty, `cpu_result` is `[0]`, and `gpu_result[0]` is read past the end | skip the comparison, or compare only positions present in both, when the input is empty | high (not executed) | BlockScan.EmptyInputCheckAsWritten | BlockScan.HostCheck |
| lab2/main.cpp:198-203 | `clCreateBuffer` for the partial buffer stores its status in `error`, and line 201 overwrites `error` with the enqueue's status before the `assert` at 203 reads it | the `k`-slot allocation fails with `CL_MEM_OBJECT_ALLOCATION_FAILURE` (-4) and the runtime accepts the enqueue with a null `d_partial`: the level goes on with no partial buffer | check the allocation's status, as the other calls are checked, before using `d_partial` | medium (not executed) | BlockScan.LevelChecksAsWritten | BlockScan.LevelChecks |
