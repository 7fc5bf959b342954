/** The kernel's check that a slice lies in boot memory, which adds up overlaps instead of looking at addresses. */
module BootMemory {
  import opened Bytes

  datatype MemoryType = Usable | Loaded | Reserved | AcpiReclaimable | Persistent

  lemma WrapAdd(a: int, b: int)
    ensures Wrap64(Wrap64(a) + b) == Wrap64(a + b)
  {
  }

  datatype Region = Region(base: u64, size: u64, kind: MemoryType) {
    predicate Boot() { kind.Usable? || kind.Loaded? }

    /** One past the last address, as the `u64` addition computes it. */
    function End(): u64 { Wrap64(base + size) }

    predicate Wraps() { base + size >= TWO64 }
  }

  /** Bytes of the slice `[lo, hi)` inside one region, zero for a region that is not boot memory. */
  function Overlap(r: Region, lo: u64, hi: u64): nat {
    var start, end := Max(r.base, lo), Min(r.End(), hi);
    if r.Boot() && end > start then end - start else 0
  }

  function OverlapSum(regions: seq<Region>, lo: u64, hi: u64): nat {
    if regions == [] then 0
    else OverlapSum(regions[..|regions| - 1], lo, hi) + Overlap(regions[|regions| - 1], lo, hi)
  }

  /** What the check computes: the overlaps, added up in a `u64`, reach the length of the slice. */
  predicate SumTest(regions: seq<Region>, lo: u64, hi: u64) {
    lo >= hi || Wrap64(OverlapSum(regions, lo, hi)) >= hi - lo
  }

  method SliceInBootMemory(lo: u64, hi: u64, regions: seq<Region>) returns (ok: bool)
    ensures ok <==> SumTest(regions, lo, hi)
  {
    hide Wrap64;
    hide Region.End;
    Wrap64Same(0);
    if lo >= hi {
      return true;
    }
    var needed := hi - lo;
    var covered: u64 := 0;
    for i := 0 to |regions|
      invariant covered == Wrap64(OverlapSum(regions[..i], lo, hi))
    {
      assert regions[..i + 1][..i] == regions[..i];
      var r := regions[i];
      if r.Boot() {
        var start, end := Max(r.base, lo), Min(r.End(), hi);
        if end > start {
          WrapAdd(OverlapSum(regions[..i], lo, hi), end - start);
          covered := Wrap64(covered + (end - start));
        }
      }
    }
    assert regions[..|regions|] == regions;
    ok := covered >= needed;
  }

  // ── Against the addresses themselves ──────────────────────────────────────

  predicate Contains(r: Region, a: nat) { r.base <= a < r.base + r.size }

  /** The address is in a region of usable memory or of memory the bootloader has loaded something into. */
  predicate InBootMemory(regions: seq<Region>, a: nat) {
    exists i :: 0 <= i < |regions| && regions[i].kind in [Usable, Loaded] && Contains(regions[i], a)
  }

  predicate Covered(regions: seq<Region>, lo: u64, hi: u64) {
    forall a: nat :: lo <= a < hi ==> InBootMemory(regions, a)
  }

  predicate NoWrap(regions: seq<Region>) { forall i :: 0 <= i < |regions| ==> !regions[i].Wraps() }

  /** No address lies in two boot regions. */
  ghost predicate BootDisjoint(regions: seq<Region>) {
    forall i, j, a: nat :: 0 <= i < j < |regions| && regions[i].Boot() && regions[j].Boot() ==>
      !(Contains(regions[i], a) && Contains(regions[j], a))
  }

  /** One past the last address a slice can hold. */
  const TOP: u64 := TWO64 - 1

  /** How often an address is counted: once for every boot region it lies in whose end does not wrap round. */
  function Times(regions: seq<Region>, a: nat): (n: nat)
    ensures n <= |regions|
  {
    if regions == [] then 0
    else
      var last := regions[|regions| - 1];
      Times(regions[..|regions| - 1], a) + if last.Boot() && !last.Wraps() && Contains(last, a) then 1 else 0
  }

  /** Every address of boot memory is counted exactly once. */
  ghost predicate CountedOnce(regions: seq<Region>) {
    forall a: nat :: a < TOP && InBootMemory(regions, a) ==> Times(regions, a) == 1
  }

  lemma EndIs(r: Region)
    ensures r.Wraps() ==> r.End() < r.base
    ensures !r.Wraps() ==> r.End() == r.base + r.size
  {
  }

  lemma OverlapSplits(r: Region, lo: u64, mid: u64, hi: u64)
    requires lo <= mid <= hi
    ensures Overlap(r, lo, hi) == Overlap(r, lo, mid) + Overlap(r, mid, hi)
  {
    hide Region.End;
    EndIs(r);
  }

  lemma {:induction false} SumSplits(regions: seq<Region>, lo: u64, mid: u64, hi: u64)
    requires lo <= mid <= hi
    ensures OverlapSum(regions, lo, hi) == OverlapSum(regions, lo, mid) + OverlapSum(regions, mid, hi)
    decreases |regions|
  {
    hide Overlap;
    if regions != [] {
      var n := |regions| - 1;
      SumSplits(regions[..n], lo, mid, hi);
      OverlapSplits(regions[n], lo, mid, hi);
    }
  }

  lemma {:induction false} SumOfNone(regions: seq<Region>, lo: u64)
    ensures OverlapSum(regions, lo, lo) == 0
    decreases |regions|
  {
    if regions != [] {
      SumOfNone(regions[..|regions| - 1], lo);
    }
  }

  lemma OverlapOfOne(r: Region, a: nat)
    requires a < TOP
    ensures Overlap(r, a, a + 1) == if r.Boot() && !r.Wraps() && Contains(r, a) then 1 else 0
  {
    hide Region.End;
    EndIs(r);
  }

  lemma {:induction false} SumOfOne(regions: seq<Region>, a: nat)
    requires a < TOP
    ensures OverlapSum(regions, a, a + 1) == Times(regions, a)
    decreases |regions|
  {
    hide Overlap;
    if regions != [] {
      var n := |regions| - 1;
      SumOfOne(regions[..n], a);
      OverlapOfOne(regions[n], a);
    }
  }

  lemma SumStep(regions: seq<Region>, lo: u64, a: nat)
    requires lo <= a < TOP
    ensures OverlapSum(regions, lo, a + 1) == OverlapSum(regions, lo, a) + Times(regions, a)
  {
    SumSplits(regions, lo, a, a + 1);
    SumOfOne(regions, a);
  }

  lemma {:induction false} UncoveredUncounted(regions: seq<Region>, a: nat)
    requires !InBootMemory(regions, a)
    ensures Times(regions, a) == 0
    decreases |regions|
  {
    if regions != [] {
      var n := |regions| - 1;
      assert !InBootMemory(regions[..n], a) by {
        assert forall i :: 0 <= i < n ==> regions[..n][i] == regions[i];
      }
      UncoveredUncounted(regions[..n], a);
    }
  }

  // ── Counted once, the test is right ───────────────────────────────────────

  lemma {:induction false} SumCounts(regions: seq<Region>, lo: u64, hi: u64)
    requires CountedOnce(regions) && lo <= hi
    ensures OverlapSum(regions, lo, hi) <= hi - lo
    ensures OverlapSum(regions, lo, hi) == hi - lo <==> Covered(regions, lo, hi)
    decreases hi
  {
    hide OverlapSum;
    hide Times;
    hide InBootMemory;
    SumOfNone(regions, lo);
    if lo < hi {
      var a := hi - 1;
      SumCounts(regions, lo, a);
      SumStep(regions, lo, a);
      if !InBootMemory(regions, a) {
        UncoveredUncounted(regions, a);
      }
    }
  }

  lemma OnceDecides(regions: seq<Region>, lo: u64, hi: u64)
    requires CountedOnce(regions)
    ensures SumTest(regions, lo, hi) <==> Covered(regions, lo, hi)
  {
    hide Wrap64;
    hide OverlapSum;
    hide InBootMemory;
    if lo < hi {
      SumCounts(regions, lo, hi);
      Wrap64Same(OverlapSum(regions, lo, hi));
    }
  }

  /** An address is counted at least once for one region, and twice for two. */
  lemma {:induction false} CountsEach(regions: seq<Region>, a: nat, i: nat)
    requires NoWrap(regions) && i < |regions| && regions[i].Boot() && Contains(regions[i], a)
    ensures Times(regions, a) >= 1
    ensures forall j :: i < j < |regions| && regions[j].Boot() && Contains(regions[j], a) ==> Times(regions, a) >= 2
    decreases |regions|
  {
    var n := |regions| - 1;
    if i < n {
      CountsEach(regions[..n], a, i);
      assert forall j :: i < j < n ==> regions[..n][j] == regions[j];
    }
  }

  lemma {:induction false} DisjointCounts(regions: seq<Region>, a: nat)
    requires NoWrap(regions) && BootDisjoint(regions)
    ensures Times(regions, a) <= 1
    decreases |regions|
  {
    if regions != [] {
      var n := |regions| - 1;
      DisjointCounts(regions[..n], a);
      if regions[n].Boot() && Contains(regions[n], a) {
        assert !InBootMemory(regions[..n], a);
        UncoveredUncounted(regions[..n], a);
      }
    }
  }

  lemma DisjointIffOnce(regions: seq<Region>)
    requires NoWrap(regions)
    ensures BootDisjoint(regions) <==> CountedOnce(regions)
  {
    hide Times;
    if BootDisjoint(regions) {
      forall a: nat | a < TOP && InBootMemory(regions, a) ensures Times(regions, a) == 1 {
        var i :| 0 <= i < |regions| && regions[i].Boot() && Contains(regions[i], a);
        CountsEach(regions, a, i);
        DisjointCounts(regions, a);
      }
    } else {
      var i, j, a: nat :| 0 <= i < j < |regions| && regions[i].Boot() && regions[j].Boot()
                       && Contains(regions[i], a) && Contains(regions[j], a);
      CountsEach(regions, a, i);
      assert !regions[i].Wraps() && InBootMemory(regions, a);
    }
  }

  /** The running sum never exceeds the slice, whatever prefix of the map has been seen. */
  lemma SumBounded(regions: seq<Region>, lo: u64, hi: u64)
    requires NoWrap(regions) && BootDisjoint(regions) && lo <= hi
    ensures OverlapSum(regions, lo, hi) <= hi - lo
  {
    DisjointIffOnce(regions);
    SumCounts(regions, lo, hi);
  }

  /** On disjoint boot regions the summing test is true exactly when every address of the slice is boot memory. */
  lemma SumDecidesCoverage(regions: seq<Region>, lo: u64, hi: u64)
    requires NoWrap(regions) && BootDisjoint(regions)
    ensures SumTest(regions, lo, hi) <==> Covered(regions, lo, hi)
  {
    DisjointIffOnce(regions);
    OnceDecides(regions, lo, hi);
  }

  // ── The test is right only then ───────────────────────────────────────────

  /** The test and the addresses agree on every slice. */
  ghost predicate Decides(regions: seq<Region>) {
    forall lo: u64, hi: u64 :: SumTest(regions, lo, hi) <==> Covered(regions, lo, hi)
  }

  /** The sum over a slice, as the test sees it, is exactly the length of the slice. */
  predicate Exact(regions: seq<Region>, lo: u64, hi: u64)
    requires lo <= hi
  {
    Wrap64(OverlapSum(regions, lo, hi)) == hi - lo
  }

  /** The sum over a covered slice in front of a gap is exact: less is too little, and more would cover the gap. */
  lemma ExactBeforeGap(regions: seq<Region>, lo: u64, gap: u64)
    requires Decides(regions) && lo <= gap < TOP && Covered(regions, lo, gap) && !InBootMemory(regions, gap)
    ensures Exact(regions, lo, gap)
  {
    hide OverlapSum;
    hide Wrap64;
    hide InBootMemory;
    SumOfNone(regions, lo);
    Wrap64Same(0);
    SumStep(regions, lo, gap);
    UncoveredUncounted(regions, gap);
    assert SumTest(regions, lo, gap) && !Covered(regions, lo, gap + 1);
    assert !SumTest(regions, lo, gap + 1);
  }

  lemma ExactAfterGap(regions: seq<Region>, gap: u64, hi: u64)
    requires Decides(regions) && gap < hi <= TOP && Covered(regions, gap + 1, hi) && !InBootMemory(regions, gap)
    ensures Exact(regions, gap + 1, hi)
  {
    hide OverlapSum;
    hide Wrap64;
    hide InBootMemory;
    SumOfNone(regions, hi);
    Wrap64Same(0);
    SumSplits(regions, gap, gap + 1, hi);
    SumOfOne(regions, gap);
    UncoveredUncounted(regions, gap);
    assert SumTest(regions, gap + 1, hi) && !Covered(regions, gap, hi);
    assert !SumTest(regions, gap, hi);
  }

  /** Without any gap the sums below and above an address leave each other no room. */
  lemma ExactWithoutGap(regions: seq<Region>, x: u64)
    requires Decides(regions) && Covered(regions, 0, TOP)
    ensures Exact(regions, 0, x)
  {
    hide OverlapSum;
    hide InBootMemory;
    SumSplits(regions, 0, x, TOP);
    SumOfNone(regions, x);
    assert SumTest(regions, 0, x) && SumTest(regions, x, TOP) && SumTest(regions, 0, TOP);
    WrapsTogether(OverlapSum(regions, 0, x), OverlapSum(regions, x, TOP), x);
  }

  lemma WrapsTogether(below: nat, above: nat, x: nat)
    requires x <= TOP && Wrap64(below) >= x && Wrap64(above) >= TOP - x && Wrap64(below + above) >= TOP
    ensures Wrap64(below) == x
  {
    WrapAdd(below, above);
    WrapAdd(above, Wrap64(below));
  }

  /** Two exact sums one address apart: the address is counted once. */
  lemma ExactStep(sum: nat, n: nat, times: nat)
    requires Wrap64(sum) == n && Wrap64(sum + times) == n + 1 && times < TWO64
    ensures times == 1
  {
    WrapAdd(sum, times);
  }

  lemma {:induction false} GapAfter(regions: seq<Region>, a: u64) returns (gap: u64)
    ensures a <= gap <= TOP && Covered(regions, a, gap) && (gap < TOP ==> !InBootMemory(regions, gap))
    decreases TOP - a
  {
    gap := a;
    if a < TOP && InBootMemory(regions, a) {
      gap := GapAfter(regions, a + 1);
    }
  }

  /** The covered stretch in front of `a` starts at `start`, behind a gap unless that is address 0. */
  lemma {:induction false} GapBefore(regions: seq<Region>, a: u64) returns (start: u64)
    ensures start <= a && Covered(regions, start, a) && (start > 0 ==> !InBootMemory(regions, start - 1))
    decreases a
  {
    start := a;
    if a > 0 && InBootMemory(regions, a - 1) {
      start := GapBefore(regions, a - 1);
    }
  }

  lemma DecidedOnce(regions: seq<Region>, a: nat)
    requires |regions| < TWO64 && Decides(regions) && a < TOP && InBootMemory(regions, a)
    ensures Times(regions, a) == 1
  {
    hide OverlapSum;
    hide Times;
    hide Decides;
    hide InBootMemory;
    hide Wrap64;
    var start := GapBefore(regions, a);
    var gap := GapAfter(regions, a);
    if gap < TOP {
      ExactBeforeGap(regions, a, gap);
      ExactBeforeGap(regions, a + 1, gap);
      SumSplits(regions, a, a + 1, gap);
      SumOfOne(regions, a);
      ExactStep(OverlapSum(regions, a + 1, gap), gap - a - 1, Times(regions, a));
    } else {
      if start > 0 {
        ExactAfterGap(regions, start - 1, a);
        ExactAfterGap(regions, start - 1, a + 1);
      } else {
        ExactWithoutGap(regions, a);
        ExactWithoutGap(regions, a + 1);
      }
      SumStep(regions, start, a);
      ExactStep(OverlapSum(regions, start, a), a - start, Times(regions, a));
    }
  }

  /** On any map the test decides coverage of every slice exactly when it counts every covered address once. */
  lemma DecidesIffOnce(regions: seq<Region>)
    requires |regions| < TWO64
    ensures Decides(regions) <==> CountedOnce(regions)
  {
    hide Times;
    if CountedOnce(regions) {
      forall lo: u64, hi: u64 ensures SumTest(regions, lo, hi) <==> Covered(regions, lo, hi) {
        OnceDecides(regions, lo, hi);
      }
    } else if Decides(regions) {
      var a: nat :| a < TOP && InBootMemory(regions, a) && Times(regions, a) != 1;
      DecidedOnce(regions, a);
    }
  }

  /** Without regions that wrap round, that is when no two boot regions share an address. */
  lemma DecidesIffDisjoint(regions: seq<Region>)
    requires NoWrap(regions) && |regions| < TWO64
    ensures Decides(regions) <==> BootDisjoint(regions)
  {
    DecidesIffOnce(regions);
    DisjointIffOnce(regions);
  }

  /** For example, a slice whose upper half is in neither of two equal regions is accepted. */
  lemma OverlapMiscounts(base: u64, half: u64)
    requires half > 0 && base + 2 * half < TWO64
    ensures var twice := [Region(base, half, Usable), Region(base, half, Usable)];
            SumTest(twice, base, base + 2 * half) && !InBootMemory(twice, base + half)
  {
    var r := Region(base, half, Usable);
    var twice := [r, r];
    assert twice[..1] == [r] && [r][..0] == [];
    assert OverlapSum([r], base, base + 2 * half) == half;
  }
}
