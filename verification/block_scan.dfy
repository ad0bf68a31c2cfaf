/** The host side of the scan program in lab2/main.cpp. The OpenCL session is a class whose ghost
    state records which device buffers are allocated and which requests were issued; device
    buffers are arrays of `int`; each kernel is a sequential method with the effect one NDRange
    of it has on the buffers. `RecursiveScan` leaves the exclusive scan in the buffer, and
    `CalcOnGpu` turns it into the `n + 1` values the host compares with `CalcOnCpu`. */
module BlockScan {

  import opened Results
  import opened ScanSpec
  import opened ScanTrace

  /** The device's maximum work-group size is below WORKGROUP_SIZE: `check_work_group` fails. */
  datatype GpuError = WorkGroupTooLarge

  /** The device, context, queue and kernels of one `calc_on_gpu` call. Only what the scan does
      with them is kept: the device buffers currently allocated and the log of buffer and kernel
      requests, in the order the in-order queue runs them. */
  class Session {
    ghost var live: set<array<int>>
    ghost var events: seq<Event>

    /** Every allocated device buffer is one the log created and has not yet released, so the
        bounds `TraceNesting` proves about the log bound the buffers allocated at once. */
    ghost predicate Tracked()
      reads this
    {
      |live| == Outstanding(events)
    }

    constructor ()
      ensures live == {} && events == []
      ensures Tracked()
    {
      live := {};
      events := [];
    }

    /** `clCreateBuffer` with `CL_MEM_COPY_HOST_PTR`: a new buffer holding `contents`. */
    method CreateBufferFrom(contents: seq<int>) returns (b: array<int>)
      modifies this
      ensures fresh(b) && b[..] == contents
      ensures live == old(live) + {b} && events == old(events) + [BufferCreated(|contents|)]
      ensures |live| - Outstanding(events) == old(|live| - Outstanding(events))
    {
      b := new int[|contents|](i requires 0 <= i < |contents| => contents[i]);
      live := live + {b};
      CountsConcat(old(events), [BufferCreated(|contents|)]);
      CountsOne(BufferCreated(|contents|));
      events := events + [BufferCreated(|contents|)];
    }

    /** `clCreateBuffer` without host data: a new buffer of `size` elements whose contents
        are unspecified. */
    method CreateBuffer(size: nat) returns (b: array<int>)
      modifies this
      ensures fresh(b) && b.Length == size
      ensures live == old(live) + {b} && events == old(events) + [BufferCreated(size)]
      ensures |live| - Outstanding(events) == old(|live| - Outstanding(events))
    {
      b := new int[size];
      live := live + {b};
      CountsConcat(old(events), [BufferCreated(size)]);
      CountsOne(BufferCreated(size));
      events := events + [BufferCreated(size)];
    }

    /** `clReleaseMemObject`. */
    method ReleaseMemObject(b: array<int>)
      requires b in live
      modifies this
      ensures live == old(live) - {b} && events == old(events) + [BufferReleased(b.Length)]
      ensures |live| - Outstanding(events) == old(|live| - Outstanding(events))
    {
      live := live - {b};
      CountsConcat(old(events), [BufferReleased(b.Length)]);
      CountsOne(BufferReleased(b.Length));
      events := events + [BufferReleased(b.Length)];
    }

    /** `scan_pad_to_pow2` enqueued with one work-group of `G` work-items, at the bottom of the
        recursion: the first `n` elements become their exclusive scan. */
    method EnqueueScanPadToPow2(d: array<int>, n: nat)
      requires d in live && 1 <= n <= G && n <= d.Length
      modifies this, d
      ensures d[..] == ExclusiveScan(old(d[..n])) + old(d[n..])
      ensures live == old(live) && events == old(events) + [KernelEnqueued(ScanPadToPow2, G, n)]
    {
      assert d[..0] == [] && d[0..n] == d[..n];
      var _ := ScanGroup(d, 0, n);
      events := events + [KernelEnqueued(ScanPadToPow2, G, n)];
    }

    /** `scan_subarrays` enqueued with `k * G` work-items: every group scans its slice of the
        first `n` elements in place and stores the slice's total in `partial[g]`. */
    method EnqueueScanSubarrays(d: array<int>, partial: array<int>, n: nat)
      requires d in live && partial in live && d != partial
      requires 1 <= n <= d.Length && partial.Length == GroupCount(n)
      modifies this, d, partial
      ensures d[..] == LocalScan(old(d[..n])) + old(d[n..])
      ensures partial[..] == GroupTotals(old(d[..n]))
      ensures live == old(live)
      ensures events == old(events) + [KernelEnqueued(ScanSubarrays, partial.Length * G, n)]
    {
      ScanAllGroups(d, partial, n);
      events := events + [KernelEnqueued(ScanSubarrays, partial.Length * G, n)];
    }

    /** `scan_inc_subarrays` enqueued with `k * G` work-items: every work-item with id below `n`
        adds the offset of its group, `partial[id / G]`, to its element. */
    method EnqueueScanIncSubarrays(d: array<int>, partial: array<int>, n: nat)
      requires d in live && partial in live && d != partial
      requires 1 <= n <= d.Length && partial.Length == GroupCount(n)
      modifies this, d
      ensures d[..] == AddGroupOffsets(old(d[..n]), partial[..]) + old(d[n..])
      ensures live == old(live)
      ensures events == old(events) + [KernelEnqueued(ScanIncSubarrays, partial.Length * G, n)]
    {
      var globalSize := partial.Length * G;
      var id := 0;
      while id < globalSize
        modifies d
        invariant 0 <= id <= globalSize
        invariant forall p :: 0 <= p < n && p < id ==> d[p] == old(d[p]) + partial[p / G]
        invariant forall p :: 0 <= p < d.Length && (id <= p || n <= p) ==> d[p] == old(d[p])
      {
        if id < n {
          GroupOfIndex(id, n);
          d[id] := d[id] + partial[id / G];
        }
        id := id + 1;
      }
      GroupCountCovers(n);
      assert d[..] == AddGroupOffsets(old(d[..n]), partial[..]) + old(d[n..]) by {
        forall p | 0 <= p < d.Length
          ensures d[p] == (AddGroupOffsets(old(d[..n]), partial[..]) + old(d[n..]))[p]
        {
        }
      }
      events := events + [KernelEnqueued(ScanIncSubarrays, globalSize, n)];
    }

    /** `recursive_scan(d_data, n)`: the first `n` elements of `d` become their exclusive scan,
        the rest of `d` is untouched, every auxiliary buffer is released again, and the requests
        issued are exactly `Trace(n)`. */
    method RecursiveScan(d: array<int>, n: nat)
      requires d in live && 1 <= n <= d.Length
      modifies this, d
      ensures d[..] == ExclusiveScan(old(d[..n])) + old(d[n..])
      ensures live == old(live) && events == old(events) + Trace(n)
      ensures old(Tracked()) ==> Tracked()
      decreases n, 1
    {
      TraceCounts(n);
      CountsConcat(old(events), Trace(n));
      var k := GroupCount(n);
      GroupCountShrinks(n);
      if k == 1 {
        EnqueueScanPadToPow2(d, n);
      } else {
        ghost var e0 := events;
        var partial := CreateBuffer(k);
        ghost var e1 := events;
        ScanLevel(d, partial, n);
        ghost var e2 := events;
        ReleaseMemObject(partial);
        LevelEvents(n, e0, e1, e2, events);
      }
    }

    /** The body of `recursive_scan` above the bottom level, between the creation and the release
        of the partial buffer of `k = GroupCount(n)` slots: scan every group and collect the group
        totals, scan the totals recursively, and add each group's offset to its elements. */
    method ScanLevel(d: array<int>, partial: array<int>, n: nat)
      requires d in live && partial in live && d != partial
      requires G < n <= d.Length && partial.Length == GroupCount(n)
      modifies this, d, partial
      ensures d[..] == ExclusiveScan(old(d[..n])) + old(d[n..])
      ensures live == old(live)
      ensures events == old(events) + [KernelEnqueued(ScanSubarrays, GroupCount(n) * G, n)]
                        + Trace(GroupCount(n)) + [KernelEnqueued(ScanIncSubarrays, GroupCount(n) * G, n)]
      decreases n, 0
    {
      var k := partial.Length;
      GroupCountShrinks(n);
      ghost var s, rest, e0 := d[..n], d[n..], events;
      EnqueueScanSubarrays(d, partial, n);
      ghost var totals, e1 := partial[..], events;
      assert partial[..k] == totals && partial[k..] == [];
      RecursiveScan(partial, k);
      ghost var offsets, e2 := partial[..], events;
      EnqueueScanIncSubarrays(d, partial, n);
      LevelResult(s, rest, totals, offsets, d[..]);
      assert events == e0 + [KernelEnqueued(ScanSubarrays, k * G, n)] + Trace(k)
                       + [KernelEnqueued(ScanIncSubarrays, k * G, n)];
    }
  }

  /** What one work-group of the scan kernels does to its slice `d[lo..hi]`: replaces it by
      its exclusive scan, leaves the rest of `d` alone and yields the slice's total. */
  method ScanGroup(d: array<int>, lo: nat, hi: nat) returns (total: int)
    requires lo <= hi <= d.Length
    modifies d
    ensures d[..] == old(d[..lo]) + ExclusiveScan(old(d[lo..hi])) + old(d[hi..])
    ensures total == Sum(old(d[lo..hi]))
  {
    ghost var before, s := d[..], d[lo..hi];
    var acc := 0;
    var i := lo;
    while i < hi
      invariant lo <= i <= hi
      invariant acc == Sum(s[..i - lo])
      invariant forall p :: lo <= p < i ==> d[p] == Sum(s[..p - lo])
      invariant forall p :: 0 <= p < d.Length && !(lo <= p < i) ==> d[p] == before[p]
    {
      var x := d[i];
      d[i] := acc;
      assert s[..i + 1 - lo][..i - lo] == s[..i - lo];
      acc := acc + x;
      i := i + 1;
    }
    assert s[..hi - lo] == s;
    total := acc;
    ScannedSlice(before, d[..], lo, hi);
  }

  /** The work-groups of one `scan_subarrays` NDRange, one after the other. */
  method ScanAllGroups(d: array<int>, partial: array<int>, n: nat)
    requires d != partial && n <= d.Length && partial.Length == GroupCount(n)
    modifies d, partial
    ensures d[..] == LocalScan(old(d[..n])) + old(d[n..])
    ensures partial[..] == GroupTotals(old(d[..n]))
  {
    ghost var s, rest := d[..n], d[n..];
    var k := partial.Length;
    assert d[..] == ScannedGroups(s, 0) + rest by {
      assert d[..] == d[..n] + d[n..];
      AllGroupsScanned(s);
    }
    var g := 0;
    while g < k
      invariant 0 <= g <= k
      invariant d[..] == ScannedGroups(s, g) + rest
      invariant forall j :: 0 <= j < g ==> partial[j] == GroupTotals(s)[j]
    {
      SubarraysGroup(d, partial, n, g, s, rest);
      g := g + 1;
    }
    AllGroupsScanned(s);
  }

  /** Work-group `g` of `scan_subarrays`: scans its slice of the first `n` elements in place
      and stores the slice's total in `partial[g]`. */
  method SubarraysGroup(d: array<int>, partial: array<int>, n: nat, g: nat,
                               ghost s: seq<int>, ghost rest: seq<int>)
    requires d != partial && |s| == n <= d.Length && g < partial.Length == GroupCount(n)
    requires d[..] == ScannedGroups(s, g) + rest
    modifies d, partial
    ensures d[..] == ScannedGroups(s, g + 1) + rest
    ensures |GroupTotals(s)| == partial.Length
    ensures partial[..] == old(partial[..])[g := GroupTotals(s)[g]]
  {
    var lo := g * G;
    var hi := if (g + 1) * G < n then (g + 1) * G else n;
    GroupStep(s, g, rest, d[..], lo, hi);
    var total := ScanGroup(d, lo, hi);
    partial[g] := total;
  }

  /** A buffer that holds, inside `[lo, hi)`, the prefix sums of what `before` held there, and
      `before` everywhere else, is `before` with that slice replaced by its exclusive scan. */
  lemma ScannedSlice(before: seq<int>, after: seq<int>, lo: nat, hi: nat)
    requires lo <= hi <= |before| == |after|
    requires forall p :: lo <= p < hi ==> after[p] == Sum(before[lo..hi][..p - lo])
    requires forall p :: 0 <= p < |before| && !(lo <= p < hi) ==> after[p] == before[p]
    ensures after == before[..lo] + ExclusiveScan(before[lo..hi]) + before[hi..]
  {
    var spliced := before[..lo] + ExclusiveScan(before[lo..hi]) + before[hi..];
    forall p | 0 <= p < |after| ensures after[p] == spliced[p] {
      if lo <= p < hi {
        assert spliced[p] == ExclusiveScan(before[lo..hi])[p - lo];
      }
    }
  }

  /** The events of one level above the bottom, as `RecursiveScan` issues them, are `Trace(n)`. */
  lemma LevelEvents(n: nat, e0: seq<Event>, e1: seq<Event>, e2: seq<Event>, e3: seq<Event>)
    requires n > G
    requires e1 == e0 + [BufferCreated(GroupCount(n))]
    requires e2 == e1 + [KernelEnqueued(ScanSubarrays, GroupCount(n) * G, n)]
                   + Trace(GroupCount(n)) + [KernelEnqueued(ScanIncSubarrays, GroupCount(n) * G, n)]
    requires e3 == e2 + [BufferReleased(GroupCount(n))]
    ensures e3 == e0 + Trace(n)
  {
    TraceLevel(n);
  }

  /** The first `n` elements of a buffer once `scan_subarrays` has scanned the groups before
      `g`: the local scan up to the end of group `g - 1`, the input after it. */
  ghost function ScannedGroups(s: seq<int>, g: nat): seq<int>
  {
    LocalScan(s)[..PrefixEnd(g, |s|)] + s[PrefixEnd(g, |s|)..]
  }

  /** Scanning group `g` in place takes the buffer from `ScannedGroups(s, g)` to
      `ScannedGroups(s, g + 1)`; the group's slice is still the input there, so its total is the
      group total. */
  lemma GroupStep(s: seq<int>, g: nat, rest: seq<int>, b: seq<int>, lo: nat, hi: nat)
    requires g < GroupCount(|s|) && b == ScannedGroups(s, g) + rest
    requires lo == g * G && hi == if (g + 1) * G < |s| then (g + 1) * G else |s|
    ensures lo < hi <= |s| <= |b|
    ensures b[lo..hi] == s[lo..hi] && Sum(b[lo..hi]) == GroupTotals(s)[g]
    ensures b[..lo] + ExclusiveScan(b[lo..hi]) + b[hi..] == ScannedGroups(s, g + 1) + rest
  {
    LocalScanByGroup(s, g);
    SpliceStep(LocalScan(s), s, rest, lo, hi);
  }

  /** Replacing the slice `[lo, hi)` of a buffer that holds `l` before `lo` and `s` from `lo` on
      by its exclusive scan extends the `l` part to `hi`, when `l` continues that way. */
  lemma SpliceStep(l: seq<int>, s: seq<int>, rest: seq<int>, lo: nat, hi: nat)
    requires lo <= hi <= |s| == |l|
    requires l[..hi] == l[..lo] + ExclusiveScan(s[lo..hi])
    ensures var b := l[..lo] + s[lo..] + rest;
      && |b| == |s| + |rest| && b[lo..hi] == s[lo..hi]
      && b[..lo] + ExclusiveScan(b[lo..hi]) + b[hi..] == l[..hi] + s[hi..] + rest
  {
    var x, y, z := l[..lo], s[lo..hi], s[hi..] + rest;
    assert s[lo..] == y + s[hi..];
    assert l[..lo] + s[lo..] + rest == x + y + z;
    assert (x + y + z)[..|x|] == x && (x + y + z)[|x|..|x| + |y|] == y;
    assert (x + y + z)[|x| + |y|..] == z;
  }

  /** Before the first group the buffer is the input; after the last it is the local scan. */
  lemma AllGroupsScanned(s: seq<int>)
    ensures ScannedGroups(s, 0) == s
    ensures ScannedGroups(s, GroupCount(|s|)) == LocalScan(s)
  {
    GroupCountCovers(|s|);
    assert LocalScan(s)[..|s|] == LocalScan(s);
  }

  /** One level of the recursion: `scan_subarrays` leaves the local scan in the buffer and the
      group totals in the partial buffer, the recursive call scans the totals, and
      `scan_inc_subarrays` adds them back: the buffer holds the exclusive scan of the input. */
  lemma LevelResult(s: seq<int>, rest: seq<int>, totals: seq<int>, offsets: seq<int>, b: seq<int>)
    requires totals == GroupTotals(s)
    requires offsets == ExclusiveScan(totals[..GroupCount(|s|)]) + totals[GroupCount(|s|)..]
    requires b == AddGroupOffsets((LocalScan(s) + rest)[..|s|], offsets) + (LocalScan(s) + rest)[|s|..]
    ensures b == ExclusiveScan(s) + rest
  {
    assert (LocalScan(s) + rest)[..|s|] == LocalScan(s);
    assert (LocalScan(s) + rest)[|s|..] == rest;
    assert totals[..GroupCount(|s|)] == totals && offsets == ExclusiveScan(totals);
    ScanComposition(s);
  }

  /** The status an OpenCL call reports, through its return value or its `errcode_ret`
      argument; `CL_MEM_OBJECT_ALLOCATION_FAILURE` is `ClError(-4)`. */
  datatype ClStatus = ClSuccess | ClError(code: int)

  /** The error handling of a level above the bottom one up to its first `assert`, as written:
      `clCreateBuffer` stores the status of the partial buffer's allocation in `error`, and the
      status of the `scan_subarrays` enqueue overwrites it before the `assert` reads it. Returns
      whether the level gets past the `assert` and goes on to the recursive call. */
  method LevelChecksAsWritten(allocation: ClStatus, enqueue: ClStatus) returns (proceeds: bool)
    ensures proceeds <==> enqueue == ClSuccess
  {
    var error := allocation;
    error := enqueue;
    proceeds := error == ClSuccess;
  }

  /** A failed allocation of the partial buffer followed by an enqueue the runtime accepts:
      the level as written goes on without a partial buffer. */
  method AllocationFailureIgnored() returns (proceeds: bool)
    ensures proceeds
  {
    proceeds := LevelChecksAsWritten(ClError(-4), ClSuccess);
  }

  /** The same error handling with the allocation checked as every other call is: the level
      goes on only when the partial buffer exists and `scan_subarrays` was enqueued. */
  method LevelChecks(allocation: ClStatus, enqueue: ClStatus) returns (proceeds: bool)
    ensures proceeds <==> allocation == ClSuccess && enqueue == ClSuccess
  {
    var error := allocation;
    if error != ClSuccess {
      return false;
    }
    error := enqueue;
    proceeds := error == ClSuccess;
  }

  /** `calc_on_gpu`: an empty input is answered at once; otherwise, if the device admits
      work-groups of `G`, the input is uploaded, scanned, read back and released, and the total
      `result[n - 1] + input[n - 1]` is appended. */
  method CalcOnGpu(input: seq<int>, maxWorkGroupSize: nat)
    returns (r: Result<seq<int>, GpuError>, ghost events: seq<Event>)
    ensures input == [] ==> r == Success([])
    ensures input != [] && G > maxWorkGroupSize ==> r == Failure(WorkGroupTooLarge)
    ensures input != [] && G <= maxWorkGroupSize ==> r == Success(ExclusiveScan(input) + [Sum(input)])
    ensures input == [] || G > maxWorkGroupSize ==> events == []
    ensures input != [] && G <= maxWorkGroupSize ==>
      events == [BufferCreated(|input|)] + Trace(|input|) + [BufferReleased(|input|)]
  {
    if input == [] {
      return Success([]), [];
    }
    if G > maxWorkGroupSize {
      return Failure(WorkGroupTooLarge), [];
    }
    var session := new Session();
    var data := session.CreateBufferFrom(input);
    var n := |input|;
    assert data[..n] == input && data[n..] == [];
    session.RecursiveScan(data, n);
    var result := data[..];
    session.ReleaseMemObject(data);
    AppendTotal(input, result);
    result := result + [result[n - 1] + input[n - 1]];
    r := Success(result);
    events := session.events;
  }

  /** The host appends `result[n - 1] + input[n - 1]` to the scan read back: the total. */
  lemma AppendTotal(input: seq<int>, result: seq<int>)
    requires input != [] && result == ExclusiveScan(input)
    ensures |result| == |input|
    ensures result[|input| - 1] + input[|input| - 1] == Sum(input)
  {
    var n := |input|;
    ExclusiveScanRecurrence(input, n - 1);
    assert input[..n] == input;
  }

  /** `calc_on_cpu`, the sequential reference: `result[0] == 0` and each further element adds the
      input element before it, with the loop stopping at `i == n` (see `CalcOnCpuAsWritten`). */
  method CalcOnCpu(input: seq<int>) returns (result: seq<int>)
    ensures |result| == |input| + 1 && result[0] == 0
    ensures forall i :: 1 <= i <= |input| ==> result[i] == result[i - 1] + input[i - 1]
    ensures result == ExclusiveScan(input) + [Sum(input)]
  {
    var r := new int[|input| + 1](_ => 0);
    var i := 1;
    while i < r.Length
      invariant 1 <= i <= r.Length && r[0] == 0
      invariant forall j :: 1 <= j < i ==> r[j] == r[j - 1] + input[j - 1]
    {
      r[i] := r[i - 1] + input[i - 1];
      i := i + 1;
    }
    result := r[..];
    ReferenceRecurrenceDeterminesScan(input, result);
  }

  /** `calc_on_cpu` exactly as written: the loop runs while `i < result.size() + 1`, so its last
      iteration, `i == n + 1`, writes `result[n + 1]` and reads `input[n]`, both one past the end.
      The in-range iterations are run; `outOfRange` lists the iterations that are not. */
  method CalcOnCpuAsWritten(input: seq<int>) returns (result: seq<int>, outOfRange: seq<nat>)
    ensures result == ExclusiveScan(input) + [Sum(input)]
    ensures outOfRange == [|input| + 1]
  {
    var r := new int[|input| + 1](_ => 0);
    outOfRange := [];
    var i := 1;
    while i < r.Length + 1
      invariant 1 <= i <= r.Length + 1 && r[0] == 0
      invariant forall j :: 1 <= j < i && j < r.Length ==> r[j] == r[j - 1] + input[j - 1]
      invariant outOfRange == if i == r.Length + 1 then [r.Length] else []
    {
      if i < r.Length {
        r[i] := r[i - 1] + input[i - 1];
      } else {
        outOfRange := outOfRange + [i];
      }
      i := i + 1;
    }
    result := r[..];
    ReferenceRecurrenceDeterminesScan(input, result);
  }

  /** Any sequence that follows the reference recurrence equals the exclusive scan with the total
      appended. For a non-empty input the `n + 1` values `CalcOnGpu` returns are therefore the
      ones `CalcOnCpu` returns, at every position `0..n` the host compares; for the empty input
      see `EmptyInputCheckAsWritten`. */
  lemma ReferenceRecurrenceDeterminesScan(input: seq<int>, r: seq<int>)
    requires |r| == |input| + 1 && r[0] == 0
    requires forall i :: 1 <= i <= |input| ==> r[i] == r[i - 1] + input[i - 1]
    ensures r == ExclusiveScan(input) + [Sum(input)]
  {
    var n := |input|;
    forall i | 0 <= i <= n ensures r[i] == (ExclusiveScan(input) + [Sum(input)])[i] {
      RecurrenceIsPrefixSum(input, r, i);
      if i == n {
        assert input[..i] == input;
      }
    }
  }

  /** Position `i` of a sequence that follows the reference recurrence is the sum of the first
      `i` input elements. */
  lemma {:induction false} RecurrenceIsPrefixSum(input: seq<int>, r: seq<int>, i: nat)
    requires |r| == |input| + 1 && r[0] == 0
    requires forall i :: 1 <= i <= |input| ==> r[i] == r[i - 1] + input[i - 1]
    requires i <= |input|
    ensures r[i] == Sum(input[..i])
  {
    if i > 0 {
      RecurrenceIsPrefixSum(input, r, i - 1);
      assert input[..i][..i - 1] == input[..i - 1];
    }
  }

  /** The host's comparison loop: positions `0..n` of the GPU and the CPU result are compared.
      A position that one of the two results lacks is not read here but listed in `outOfRange`;
      `passed` says whether every position present in both agrees. */
  method CompareResults(gpu: seq<int>, cpu: seq<int>, n: nat) returns (passed: bool, outOfRange: seq<nat>)
    ensures passed <==> forall i :: 0 <= i <= n && i < |gpu| && i < |cpu| ==> gpu[i] == cpu[i]
    ensures forall i :: i in outOfRange <==> i <= n && (|gpu| <= i || |cpu| <= i)
    ensures n < |gpu| && n < |cpu| ==> outOfRange == []
  {
    passed := true;
    outOfRange := [];
    var i := 0;
    while i < n + 1
      invariant 0 <= i <= n + 1
      invariant passed <==> forall j :: 0 <= j < i && j < |gpu| && j < |cpu| ==> gpu[j] == cpu[j]
      invariant forall j :: j in outOfRange <==> j < i && (|gpu| <= j || |cpu| <= j)
      invariant n < |gpu| && n < |cpu| ==> outOfRange == []
    {
      if i < |gpu| && i < |cpu| {
        if gpu[i] != cpu[i] {
          passed := false;
        }
      } else {
        outOfRange := outOfRange + [i];
      }
      i := i + 1;
    }
  }

  /** The host's check as written, on the empty input: `calc_on_gpu` returns no values while
      `calc_on_cpu` returns one, and the loop over positions `0..n` reads `gpu_result[0]`, past
      the end of the GPU result. */
  method EmptyInputCheckAsWritten(maxWorkGroupSize: nat) returns (gpu: seq<int>, cpu: seq<int>, outOfRange: seq<nat>)
    ensures gpu == [] && cpu == [0]
    ensures forall i :: i in outOfRange <==> i == 0
  {
    var r: Result<seq<int>, GpuError>;
    ghost var events: seq<Event>;
    r, events := CalcOnGpu([], maxWorkGroupSize);
    gpu := r.value;
    cpu := CalcOnCpu([]);
    var _, o := CompareResults(gpu, cpu, 0);
    outOfRange := o;
  }

  /** The host's check with the comparison skipped for the empty input, which has no GPU result
      to compare: on a device that admits work-groups of `G`, the check passes and reads no
      position outside either result. */
  method HostCheck(input: seq<int>, maxWorkGroupSize: nat)
    returns (r: Result<bool, GpuError>, outOfRange: seq<nat>)
    ensures G <= maxWorkGroupSize || input == [] ==> r == Success(true)
    ensures G > maxWorkGroupSize && input != [] ==> r == Failure(WorkGroupTooLarge)
    ensures outOfRange == []
  {
    var gpu: Result<seq<int>, GpuError>;
    ghost var events: seq<Event>;
    gpu, events := CalcOnGpu(input, maxWorkGroupSize);
    if gpu.Failure? {
      return Failure(gpu.error), [];
    }
    var cpu := CalcOnCpu(input);
    if input == [] {
      return Success(true), [];
    }
    var passed;
    passed, outOfRange := CompareResults(gpu.value, cpu, |input|);
    r := Success(passed);
  }

  /** `write_result`: the values written are the elements of `result` from index 1 on. */
  method WriteResult(result: seq<int>) returns (written: seq<int>)
    ensures written == if result == [] then [] else result[1..]
  {
    written := [];
    var i := 1;
    while i < |result|
      invariant 1 <= i && (result != [] ==> i <= |result|)
      invariant written == if result == [] then [] else result[1..i]
    {
      written := written + [result[i]];
      i := i + 1;
    }
  }

  /** Dropping the leading zero of the exclusive scan with the total appended leaves the
      inclusive scan: what `write_result` emits for the result of `calc_on_gpu`. */
  lemma WrittenIsInclusiveScan(s: seq<int>)
    ensures (ExclusiveScan(s) + [Sum(s)])[1..] == InclusiveScan(s)
  {
    var e := ExclusiveScan(s) + [Sum(s)];
    forall i | 0 <= i < |s| ensures e[1..][i] == InclusiveScan(s)[i] {
      if i + 1 == |s| {
        assert s[..i + 1] == s;
      }
    }
  }
}
