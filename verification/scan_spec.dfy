/** The mathematics of the block scan in lab2/main.cpp: sums, exclusive and inclusive scans, the
    partition of a buffer of `n` elements into work-groups of `G` elements, and the decomposition
    theorem the recursive scan relies on: the exclusive scan of the whole buffer is the exclusive
    scan inside each group plus the exclusive scan of the group totals. */
module ScanSpec {

  /** WORKGROUP_SIZE: the number of work-items in one work-group, and so the number of buffer
      elements one group scans. */
  const G: nat := 256

  function Sum(s: seq<int>): int
  {
    if s == [] then 0 else Sum(s[..|s| - 1]) + s[|s| - 1]
  }

  lemma {:induction false} SumConcat(a: seq<int>, b: seq<int>)
    ensures Sum(a + b) == Sum(a) + Sum(b)
  {
    if b == [] {
      assert a + b == a;
    } else {
      assert (a + b)[..|a + b| - 1] == a + b[..|b| - 1];
      SumConcat(a, b[..|b| - 1]);
    }
  }

  /** Element `i` is the sum of the elements strictly before position `i`. */
  function ExclusiveScan(s: seq<int>): seq<int>
  {
    seq(|s|, i requires 0 <= i < |s| => Sum(s[..i]))
  }

  /** Element `i` is the sum of the elements up to and including position `i`. */
  function InclusiveScan(s: seq<int>): seq<int>
  {
    seq(|s|, i requires 0 <= i < |s| => Sum(s[..i + 1]))
  }

  /** The exclusive scan starts at 0 and each element adds the input element before it: the
      recurrence the sequential reference scan runs. */
  lemma ExclusiveScanRecurrence(s: seq<int>, i: nat)
    requires i < |s|
    ensures |ExclusiveScan(s)| == |s| && ExclusiveScan(s)[0] == 0
    ensures i + 1 < |s| ==> ExclusiveScan(s)[i + 1] == ExclusiveScan(s)[i] + s[i]
    ensures ExclusiveScan(s)[i] + s[i] == Sum(s[..i + 1])
  {
    assert s[..i + 1][..i] == s[..i];
  }

  // ---------------------------------------------------------------------------------------------
  // Work-groups

  /** The number of work-groups, `ceil(n / G)`, computed on integers. */
  function GroupCount(n: nat): nat
  {
    (n + G - 1) / G
  }

  /** The global work size `GroupCount(n) * G` covers every element, and falls short of `n + G`:
      every element lies in exactly one group and no group is entirely past the end. */
  lemma GroupCountCovers(n: nat)
    ensures n <= GroupCount(n) * G < n + G
  {
  }

  /** One group exactly when the buffer fits into a single group; otherwise the number of groups is
      strictly smaller than the number of elements, which makes the recursion terminate. */
  lemma GroupCountShrinks(n: nat)
    requires n >= 1
    ensures GroupCount(n) == 1 <==> n <= G
    ensures n > G ==> 1 < GroupCount(n) < n
  {
  }

  /** The group of element `i` is `i / G`; it is one of the `GroupCount(n)` groups. */
  lemma GroupOfIndex(i: nat, n: nat)
    requires i < n
    ensures i / G < GroupCount(n) && (i / G) * G <= i < (i / G) * G + G
  {
  }

  /** The end of the first `g` groups: `min(g * G, n)`. */
  function PrefixEnd(g: nat, n: nat): nat
  {
    if g * G < n then g * G else n
  }

  /** Group `g` covers `[g * G, GroupEnd(g, n))`; the last group may be partial. */
  function GroupEnd(g: nat, n: nat): nat
  {
    PrefixEnd(g + 1, n)
  }

  /** Element `g` is the sum of the input elements of group `g`. */
  function GroupTotals(s: seq<int>): seq<int>
  {
    seq(GroupCount(|s|), g requires 0 <= g < GroupCount(|s|) => Sum(s[g * G .. GroupEnd(g, |s|)]))
  }

  /** Element `i` is the exclusive scan of `s` restricted to the group of `i`. */
  function LocalScan(s: seq<int>): seq<int>
  {
    seq(|s|, i requires 0 <= i < |s| => Sum(s[(i / G) * G .. i]))
  }

  /** Element `i` is `s[i]` plus the offset of its group. */
  function AddGroupOffsets(s: seq<int>, offsets: seq<int>): seq<int>
    requires |offsets| == GroupCount(|s|)
  {
    seq(|s|, i requires 0 <= i < |s| => s[i] + offsets[i / G])
  }

  /** The sum of the first `g` groups is the sum of the first `g` group totals. */
  lemma {:induction false} PrefixByGroups(s: seq<int>, g: nat)
    requires g <= GroupCount(|s|)
    ensures Sum(s[..PrefixEnd(g, |s|)]) == Sum(GroupTotals(s)[..g])
  {
    var n, t := |s|, GroupTotals(s);
    if g == 0 {
      assert t[..0] == [];
    } else {
      PrefixByGroups(s, g - 1);
      var lo, hi := (g - 1) * G, GroupEnd(g - 1, n);
      assert PrefixEnd(g - 1, n) == lo && PrefixEnd(g, n) == hi;
      assert s[..hi] == s[..lo] + s[lo..hi];
      SumConcat(s[..lo], s[lo..hi]);
      assert t[..g][..g - 1] == t[..g - 1];
      assert Sum(t[..g]) == Sum(t[..g - 1]) + Sum(s[lo..hi]);
    }
  }

  /** The sum of everything before group `g` is the exclusive scan of the group totals at `g`. */
  lemma GroupOffset(s: seq<int>, g: nat)
    requires g < GroupCount(|s|)
    ensures Sum(s[..g * G]) == ExclusiveScan(GroupTotals(s))[g]
  {
    PrefixByGroups(s, g);
  }

  /** Element-wise form of the decomposition below. */
  lemma ScanCompositionAt(s: seq<int>, i: nat)
    requires i < |s|
    ensures LocalScan(s)[i] + ExclusiveScan(GroupTotals(s))[i / G] == ExclusiveScan(s)[i]
  {
    var g := i / G;
    GroupOfIndex(i, |s|);
    GroupOffset(s, g);
    assert s[..i] == s[..g * G] + s[g * G .. i];
    SumConcat(s[..g * G], s[g * G .. i]);
  }

  /** The decomposition the recursive scan rests on: adding to each element of a per-group
      exclusive scan the exclusive scan of the group totals, at its group, yields the exclusive
      scan of the whole sequence. */
  lemma ScanComposition(s: seq<int>)
    ensures AddGroupOffsets(LocalScan(s), ExclusiveScan(GroupTotals(s))) == ExclusiveScan(s)
  {
    var lhs := AddGroupOffsets(LocalScan(s), ExclusiveScan(GroupTotals(s)));
    forall i | 0 <= i < |s|
      ensures lhs[i] == ExclusiveScan(s)[i]
    {
      ScanCompositionAt(s, i);
    }
  }

  /** Inside group `g` the local scan is the exclusive scan of the group's own slice, and the
      group's total is the sum of that slice. */
  lemma LocalScanOfGroup(s: seq<int>, g: nat, p: nat)
    requires g < GroupCount(|s|) && g * G <= p < GroupEnd(g, |s|)
    ensures g * G < GroupEnd(g, |s|) <= |s|
    ensures LocalScan(s)[p] == ExclusiveScan(s[g * G .. GroupEnd(g, |s|)])[p - g * G]
    ensures GroupTotals(s)[g] == Sum(s[g * G .. GroupEnd(g, |s|)])
  {
    assert p / G == g;
    assert s[g * G .. GroupEnd(g, |s|)][..p - g * G] == s[g * G .. p];
  }

  /** Scanning group `g` extends the local scan of the groups before it. */
  lemma LocalScanByGroup(s: seq<int>, g: nat)
    requires g < GroupCount(|s|)
    ensures g * G == PrefixEnd(g, |s|) < GroupEnd(g, |s|) == PrefixEnd(g + 1, |s|) <= |s|
    ensures LocalScan(s)[..GroupEnd(g, |s|)]
         == LocalScan(s)[..g * G] + ExclusiveScan(s[g * G .. GroupEnd(g, |s|)])
    ensures GroupTotals(s)[g] == Sum(s[g * G .. GroupEnd(g, |s|)])
  {
    var lo, hi := g * G, GroupEnd(g, |s|);
    forall p | lo <= p < hi
      ensures LocalScan(s)[p] == ExclusiveScan(s[lo..hi])[p - lo]
    {
      LocalScanOfGroup(s, g, p);
    }
  }

  // ---------------------------------------------------------------------------------------------
  // The group count as the source computes it, through single-precision floats

  /** The single-precision value of a non-negative integer below 2^25, rounded to nearest with
      ties to even (IEEE 754): exact below 2^24; from 2^24 on only even integers are
      representable, and an odd one goes to the neighbour that is a multiple of 4. */
  function FloatOfCount(n: nat): nat
    requires n < 0x200_0000
  {
    if n < 0x100_0000 || n % 2 == 0 then n
    else if (n - 1) % 4 == 0 then n - 1
    else n + 1
  }

  /** `(int) ceil((float)n / (float)WORKGROUP_SIZE)`: dividing by 256 is exact in floating
      point, so only the conversion of `n` rounds. */
  function GroupCountAsWritten(n: nat): nat
    requires n < 0x200_0000
  {
    GroupCount(FloatOfCount(n))
  }

  /** Below 2^24 the float computation agrees with the integer ceiling. */
  lemma GroupCountAsWrittenAgrees(n: nat)
    requires n < 0x100_0000
    ensures GroupCountAsWritten(n) == GroupCount(n)
  {
  }

  /** With 2^24 + 1 elements the float computation yields 65536 groups, whose 16777216 work-items
      leave the last element outside every group. */
  lemma FloatGroupCountMissesElement()
    ensures GroupCountAsWritten(0x100_0001) == 0x1_0000
    ensures GroupCountAsWritten(0x100_0001) * G < 0x100_0001
    ensures GroupCount(0x100_0001) * G >= 0x100_0001
  {
  }
}
