/** What the recursive scan in lab2/main.cpp asks of the OpenCL runtime, as a log of events:
    buffers created and released and kernels enqueued, in order. `Trace(n)` is the log of one
    call on `n` elements; the lemmas say how many auxiliary buffers it holds at once, that it
    releases every one of them, how many kernels it enqueues and how deep the recursion goes. */
module ScanTrace {

  import opened Arith
  import opened ScanSpec

  /** The three kernels of the scan program. */
  datatype Kernel = ScanPadToPow2 | ScanSubarrays | ScanIncSubarrays

  datatype Event =
    | BufferCreated(size: nat)
    | BufferReleased(size: nat)
      /** A one-dimensional NDRange of `globalSize` work-items in groups of `G`, over `n` elements. */
    | KernelEnqueued(kernel: Kernel, globalSize: nat, n: nat)

  /** The events of one `recursive_scan` call on `n >= 1` elements. */
  function Trace(n: nat): seq<Event>
    requires n >= 1
    decreases n
  {
    if n <= G then
      [KernelEnqueued(ScanPadToPow2, G, n)]
    else
      Enter(n) + Trace(GroupCount(n)) + Leave(n)
  }

  /** A level's events before its recursive call: create the partial buffer of `k` slots, then
      scan every group and store the group totals in it. */
  function Enter(n: nat): seq<Event>
  {
    var k := GroupCount(n);
    [BufferCreated(k), KernelEnqueued(ScanSubarrays, k * G, n)]
  }

  /** A level's events after its recursive call: add each group's offset, then release the
      partial buffer. */
  function Leave(n: nat): seq<Event>
  {
    var k := GroupCount(n);
    [KernelEnqueued(ScanIncSubarrays, k * G, n), BufferReleased(k)]
  }

  /** The number of recursion levels below the top one: how often `ceil(n / G)` must be taken
      to reach a single group. */
  function Depth(n: nat): nat
    requires n >= 1
    decreases n
  {
    if n <= G then 0 else 1 + Depth(GroupCount(n))
  }

  /** How many buffers a log creates. */
  function Created(t: seq<Event>): nat
  {
    if t == [] then 0 else (if t[0].BufferCreated? then 1 else 0) + Created(t[1..])
  }

  /** How many buffers a log releases. */
  function Released(t: seq<Event>): nat
  {
    if t == [] then 0 else (if t[0].BufferReleased? then 1 else 0) + Released(t[1..])
  }

  /** How many kernels a log enqueues. */
  function Enqueued(t: seq<Event>): nat
  {
    if t == [] then 0 else (if t[0].KernelEnqueued? then 1 else 0) + Enqueued(t[1..])
  }

  /** Buffers created and not yet released after the log `t`. */
  function Outstanding(t: seq<Event>): int
  {
    Created(t) - Released(t)
  }

  lemma {:induction false} CountsConcat(a: seq<Event>, b: seq<Event>)
    ensures Created(a + b) == Created(a) + Created(b)
    ensures Released(a + b) == Released(a) + Released(b)
    ensures Enqueued(a + b) == Enqueued(a) + Enqueued(b)
  {
    if a == [] {
      assert a + b == b;
    } else {
      assert (a + b)[1..] == a[1..] + b;
      CountsConcat(a[1..], b);
    }
  }

  lemma CountsOne(e: Event)
    ensures Created([e]) == (if e.BufferCreated? then 1 else 0)
    ensures Released([e]) == (if e.BufferReleased? then 1 else 0)
    ensures Enqueued([e]) == (if e.KernelEnqueued? then 1 else 0)
  {
    assert [e][1..] == [];
  }

  lemma CountsPair(e: Event, f: Event)
    ensures Created([e, f]) == Created([e]) + Created([f])
    ensures Released([e, f]) == Released([e]) + Released([f])
    ensures Enqueued([e, f]) == Enqueued([e]) + Enqueued([f])
  {
    assert [e, f] == [e] + [f];
    CountsConcat([e], [f]);
  }

  /** The log of a level above the bottom one: its own buffer and first kernel, the log of the
      recursive call, its last kernel and the release of its buffer. */
  lemma TraceLevel(n: nat)
    requires n > G
    ensures var k := GroupCount(n); 1 < k < n && Trace(n) == Enter(n) + Trace(k) + Leave(n)
    ensures Created(Enter(n)) == 1 && Released(Enter(n)) == 0 && Enqueued(Enter(n)) == 1
    ensures Created(Leave(n)) == 0 && Released(Leave(n)) == 1 && Enqueued(Leave(n)) == 1
  {
    GroupCountShrinks(n);
    var k := GroupCount(n);
    CountsPair(BufferCreated(k), KernelEnqueued(ScanSubarrays, k * G, n));
    CountsOne(BufferCreated(k));
    CountsOne(KernelEnqueued(ScanSubarrays, k * G, n));
    CountsPair(KernelEnqueued(ScanIncSubarrays, k * G, n), BufferReleased(k));
    CountsOne(KernelEnqueued(ScanIncSubarrays, k * G, n));
    CountsOne(BufferReleased(k));
  }

  /** One call creates and releases exactly `Depth(n)` auxiliary buffers (none when the buffer
      fits in one group) and enqueues `2 * Depth(n) + 1` kernels. */
  lemma {:induction false} TraceCounts(n: nat)
    requires n >= 1
    ensures Created(Trace(n)) == Depth(n) == Released(Trace(n))
    ensures Enqueued(Trace(n)) == 2 * Depth(n) + 1
    ensures Depth(n) == 0 <==> n <= G
  {
    if n <= G {
      CountsOne(Trace(n)[0]);
    } else {
      var k := GroupCount(n);
      TraceLevel(n);
      TraceCounts(k);
      CountsConcat(Enter(n), Trace(k));
      CountsConcat(Enter(n) + Trace(k), Leave(n));
    }
  }

  /** Outstanding buffers after a prefix of a level's log: one for the level's own buffer plus
      those of the recursive call, and back to none once the level has released its buffer. */
  lemma PrefixOutstanding(n: nat, j: nat)
    requires n > G && j <= |Trace(n)|
    requires GroupCount(n) >= 1 && Created(Trace(GroupCount(n))) == Released(Trace(GroupCount(n)))
    ensures var inner := Trace(GroupCount(n));
      if j == 0 || j == |Trace(n)| then Outstanding(Trace(n)[..j]) == 0
      else if 2 <= j <= 2 + |inner| then Outstanding(Trace(n)[..j]) == 1 + Outstanding(inner[..j - 2])
      else Outstanding(Trace(n)[..j]) == 1
  {
    var k := GroupCount(n);
    TraceLevel(n);
    var t, inner, head, tail := Trace(n), Trace(k), Enter(n), Leave(n);
    if j == 0 {
      assert t[..j] == [];
    } else if j == |t| {
      assert t[..j] == (head + inner) + tail;
      CountsConcat(head, inner);
      CountsConcat(head + inner, tail);
    } else if j == 1 {
      assert t[..j] == [head[0]];
      CountsOne(head[0]);
    } else if j <= 2 + |inner| {
      assert t[..j] == head + inner[..j - 2];
      CountsConcat(head, inner[..j - 2]);
    } else {
      assert t[..j] == (head + inner) + [tail[0]];
      assert inner[..|inner|] == inner;
      CountsConcat(head, inner);
      CountsConcat(head + inner, [tail[0]]);
      CountsOne(tail[0]);
    }
  }

  /** At every point of one call's log between none and `Depth(n)` auxiliary buffers are alive:
      each buffer is released after it is created and before the level that created it returns,
      and the chain of live buffers is never longer than the recursion is deep. */
  lemma {:induction false} TraceNesting(n: nat)
    requires n >= 1
    ensures forall j :: 0 <= j <= |Trace(n)| ==> 0 <= Outstanding(Trace(n)[..j]) <= Depth(n)
  {
    var t := Trace(n);
    if n <= G {
      forall j | 0 <= j <= |t| ensures Outstanding(t[..j]) == 0 {
        if j == 1 {
          assert t[..j] == [t[0]];
          CountsOne(t[0]);
        } else {
          assert t[..j] == [];
        }
      }
    } else {
      var k := GroupCount(n);
      TraceLevel(n);
      TraceCounts(k);
      TraceNesting(k);
      forall j | 0 <= j <= |t| ensures 0 <= Outstanding(t[..j]) <= Depth(n) {
        PrefixOutstanding(n, j);
      }
    }
  }

  /** Every kernel the call enqueues covers its `n` elements with at most one partial group:
      `n <= globalSize < n + G`. */
  lemma {:induction false} TraceDispatchesCover(n: nat)
    requires n >= 1
    ensures forall e :: e in Trace(n) && e.KernelEnqueued? ==>
      e.n >= 1 && e.n <= e.globalSize < e.n + G && e.globalSize % G == 0
  {
    if n > G {
      var k := GroupCount(n);
      TraceLevel(n);
      GroupCountCovers(n);
      TraceDispatchesCover(k);
    }
  }

  /** The depth is the least `d` with `n <= G^(d+1)`: it is `ceil(log_G(n)) - 1` for `n > 1`,
      the number of auxiliary buffers in the chain below the top-level buffer. */
  lemma {:induction false} DepthBounds(n: nat)
    requires n >= 1
    ensures n <= Pow(G, Depth(n) + 1)
    ensures Depth(n) > 0 ==> Pow(G, Depth(n)) < n
  {
    if n > G {
      var k := GroupCount(n);
      GroupCountShrinks(n);
      GroupCountCovers(n);
      DepthBounds(k);
      assert Pow(G, Depth(n) + 1) == G * Pow(G, Depth(k) + 1);
      assert Pow(G, Depth(n)) == G * Pow(G, Depth(k));
    }
  }
}
