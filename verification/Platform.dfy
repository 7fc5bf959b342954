/** Platform resources: the bootloader sorts them, the kernel filters them and removes overlapping windows. */
module Platform {
  import opened Bytes

  const MMIO_RANGE: u32 := 0
  const IRQ_LINE: u32 := 1
  const PCI_ECAM: u32 := 2
  const PLATFORM_TABLE: u32 := 3
  const IO_PORT_RANGE: u32 := 4
  const IOMMU_UNIT: u32 := 5

  datatype Resource = Resource(kind: u32, flags: u32, base: u64, size: u64, id: u64)

  /** The processor facts the validation depends on. */
  datatype Arch = Arch(hasPorts: bool, minIrq: u32, maxIrq: u32)

  // ── The bootloader's insertion sort ───────────────────────────────────────

  /** Sort key order: resource type, then base address. */
  predicate Before(a: Resource, b: Resource) { a.kind < b.kind || (a.kind == b.kind && a.base <= b.base) }

  predicate Sorted(s: seq<Resource>) { forall i, j :: 0 <= i < j < |s| ==> Before(s[i], s[j]) }

  /** Places `x` behind the last element that may come before it. */
  function Insert(s: seq<Resource>, x: Resource): (r: seq<Resource>)
    ensures |r| == |s| + 1
  {
    if s == [] || Before(s[|s| - 1], x) then s + [x] else Insert(s[..|s| - 1], x) + [s[|s| - 1]]
  }

  function Sort(s: seq<Resource>): (r: seq<Resource>)
    ensures |r| == |s|
  {
    if s == [] then [] else Insert(Sort(s[..|s| - 1]), s[|s| - 1])
  }

  method SortResources(a: array<Resource>)
    modifies a
    ensures a[..] == Sort(old(a[..]))
  {
    ghost var was := a[..];
    if a.Length == 0 {
      return;
    }
    SortOne(was);
    for i := 1 to a.Length
      invariant a[..i] == Sort(was[..i]) && a[i..] == was[i..]
    {
      InsertLast(a, i);
      assert was[..i + 1][..i] == was[..i];
    }
    assert a[..] == a[..a.Length] && was[..a.Length] == was;
  }

  lemma SortOne(s: seq<Resource>)
    requires s != []
    ensures Sort(s[..1]) == s[..1]
  {
    assert s[..1][..0] == [];
  }

  lemma InsertStep(s: seq<Resource>, x: Resource)
    ensures s == [] || Before(s[|s| - 1], x) ==> Insert(s, x) == s + [x]
    ensures s != [] && !Before(s[|s| - 1], x) ==> Insert(s, x) == Insert(s[..|s| - 1], x) + [s[|s| - 1]]
  {
  }

  /** The inner loop: swaps the element at `i` down to its place. */
  method InsertLast(a: array<Resource>, i: nat)
    requires i < a.Length
    modifies a
    ensures a[..i + 1] == Insert(old(a[..i]), old(a[i])) && a[i + 1..] == old(a[i + 1..])
  {
    hide Insert;
    hide Before;
    ghost var x, goal := a[i], Insert(a[..i], a[i]);
    var j := i;
    assert a[..i] == a[..j];
    while j > 0 && !Before(a[j - 1], a[j])
      invariant 0 <= j <= i && a[j] == x && a[i + 1..] == old(a[i + 1..])
      invariant Insert(a[..j], x) + a[j + 1..i + 1] == goal
    {
      ghost var below, above, y := a[..j], a[j + 1..i + 1], a[j - 1];
      assert below[..j - 1] == a[..j - 1];
      a[j - 1], a[j] := a[j], a[j - 1];
      assert a[..j - 1] == below[..j - 1] && a[j..i + 1] == [y] + above;
      InsertStep(below, x);
      assert Insert(below, x) == Insert(a[..j - 1], x) + [y];
      assert Insert(below, x) + above == Insert(a[..j - 1], x) + ([y] + above);
      j := j - 1;
    }
    InsertStep(a[..j], x);
    assert a[..i + 1] == a[..j] + [x] + a[j + 1..i + 1];
  }

  lemma {:induction false} InsertKeeps(s: seq<Resource>, x: Resource)
    requires Sorted(s)
    ensures Sorted(Insert(s, x)) && multiset(Insert(s, x)) == multiset(s) + multiset{x}
    decreases |s|
  {
    if s != [] && !Before(s[|s| - 1], x) {
      var front, last := s[..|s| - 1], s[|s| - 1];
      InsertKeeps(front, x);
      var r := Insert(front, x);
      assert s == front + [last];
      forall i | 0 <= i < |r| ensures Before(r[i], last) {
        assert r[i] in multiset(r);
        assert r[i] in front || r[i] == x;
      }
    }
  }

  /** The sorted list is a permutation of the input in key order. */
  lemma {:induction false} SortIsSorted(s: seq<Resource>)
    ensures Sorted(Sort(s)) && multiset(Sort(s)) == multiset(s)
    decreases |s|
  {
    if s != [] {
      SortIsSorted(s[..|s| - 1]);
      InsertKeeps(Sort(s[..|s| - 1]), s[|s| - 1]);
      assert s == s[..|s| - 1] + [s[|s| - 1]];
    }
  }

  /** The entries with one key, in order. */
  function WithKey(s: seq<Resource>, kind: u32, base: u64): seq<Resource> {
    if s == [] then []
    else
      var last := s[|s| - 1];
      WithKey(s[..|s| - 1], kind, base) + if last.kind == kind && last.base == base then [last] else []
  }

  lemma {:induction false} InsertStable(s: seq<Resource>, x: Resource, kind: u32, base: u64)
    ensures WithKey(Insert(s, x), kind, base) == WithKey(s + [x], kind, base)
    decreases |s|
  {
    if s != [] && !Before(s[|s| - 1], x) {
      var front, last := s[..|s| - 1], s[|s| - 1];
      InsertStable(front, x, kind, base);
      var r := Insert(front, x);
      assert (r + [last])[..|r|] == r && (s + [x])[..|s|] == s && (front + [x])[..|front|] == front;
    }
  }

  /** Entries with equal keys keep their order. */
  lemma {:induction false} SortIsStable(s: seq<Resource>, kind: u32, base: u64)
    ensures WithKey(Sort(s), kind, base) == WithKey(s, kind, base)
    decreases |s|
  {
    if s != [] {
      var front, last := s[..|s| - 1], s[|s| - 1];
      SortIsStable(front, kind, base);
      InsertStable(Sort(front), last, kind, base);
      assert (Sort(front) + [last])[..|front|] == Sort(front);
    }
  }

  // ── The kernel's filter ───────────────────────────────────────────────────

  predicate ValidWindow(r: Resource) {
    r.base % 0x1000 == 0 && r.size != 0 && r.size % 0x1000 == 0 && r.base + r.size < TWO64
  }

  predicate Valid(r: Resource, arch: Arch) {
    if r.kind == MMIO_RANGE || r.kind == PCI_ECAM || r.kind == IOMMU_UNIT then ValidWindow(r)
    else if r.kind == PLATFORM_TABLE then r.base != 0 && r.size != 0 && r.base + r.size < TWO64
    else if r.kind == IRQ_LINE then arch.minIrq <= r.id <= arch.maxIrq
    else if r.kind == IO_PORT_RANGE then arch.hasPorts && r.base <= 0xFFFF && r.base + r.size <= 0x1_0000
    else false
  }

  /** Some whole pages, at least one, that end below 2^64. */
  ghost predicate WholePages(r: Resource) {
    exists first: nat, n: nat :: n > 0 && Paged(r, first, n)
  }

  predicate Paged(r: Resource, first: nat, n: nat) {
    r.base == 4096 * first && r.size == 4096 * n && r.base + r.size < TWO64
  }

  predicate Within(r: Resource, a: nat) { r.base <= a < r.base + r.size }

  /** What is kept of each type, by its number in the boot protocol. */
  lemma ValidMeans(r: Resource, arch: Arch)
    ensures r.kind in [0, 2, 5] ==> (Valid(r, arch) <==> WholePages(r))
    ensures r.kind == 1 ==> (Valid(r, arch) <==> arch.minIrq <= r.id <= arch.maxIrq)
    ensures r.kind == 3 ==> (Valid(r, arch) <==> 0 < r.base < r.base + r.size < TWO64)
    ensures r.kind == 4 ==>
              (Valid(r, arch) <==> arch.hasPorts && r.base < 65536 && forall p: nat :: Within(r, p) ==> p < 65536)
    ensures r.kind > 5 ==> !Valid(r, arch)
  {
    if r.kind in [0, 2, 5] && Valid(r, arch) {
      assert Paged(r, r.base / 4096, r.size / 4096);
    }
    if r.kind == 4 && r.base + r.size > 65536 && r.base < 65536 {
      assert Within(r, 65536);
    }
  }

  function Keep(s: seq<Resource>, arch: Arch): (r: seq<Resource>) {
    if s == [] then []
    else Keep(s[..|s| - 1], arch) + if Valid(s[|s| - 1], arch) then [s[|s| - 1]] else []
  }

  /** Entries the summary counts as skipped: all refused ones but port ranges on a machine without ports. */
  function Skipped(s: seq<Resource>, arch: Arch): nat {
    if s == [] then 0
    else
      var last := s[|s| - 1];
      Skipped(s[..|s| - 1], arch) + if Valid(last, arch) || (last.kind == IO_PORT_RANGE && !arch.hasPorts) then 0 else 1
  }

  method FilterResources(raw: seq<Resource>, arch: Arch) returns (kept: seq<Resource>, skipped: nat)
    ensures kept == Keep(raw, arch) && skipped == Skipped(raw, arch)
  {
    kept, skipped := [], 0;
    for i := 0 to |raw|
      invariant kept == Keep(raw[..i], arch) && skipped == Skipped(raw[..i], arch)
    {
      assert raw[..i + 1][..i] == raw[..i];
      var r := raw[i];
      if r.kind > IOMMU_UNIT {
        skipped := skipped + 1;
      } else if r.kind == IO_PORT_RANGE && !arch.hasPorts {
      } else if Valid(r, arch) {
        kept := kept + [r];
      } else {
        skipped := skipped + 1;
      }
    }
    assert raw[..|raw|] == raw;
  }

  /** Every entry is kept, counted as skipped, or a port range on a machine without ports. */
  lemma {:induction false} CountsAddUp(s: seq<Resource>, arch: Arch)
    ensures |s| == |Keep(s, arch)| + Skipped(s, arch) + Portless(s, arch)
    decreases |s|
  {
    hide ValidWindow;
    if s != [] {
      CountsAddUp(s[..|s| - 1], arch);
    }
  }

  function Portless(s: seq<Resource>, arch: Arch): nat {
    if s == [] then 0 else Portless(s[..|s| - 1], arch) + if s[|s| - 1].kind == 4 && !arch.hasPorts then 1 else 0
  }

  lemma {:induction false} KeepIsFilter(s: seq<Resource>, arch: Arch)
    ensures forall r :: r in Keep(s, arch) <==> r in s && Valid(r, arch)
    ensures forall r :: Valid(r, arch) ==> multiset(Keep(s, arch))[r] == multiset(s)[r]
    decreases |s|
  {
    hide Valid;
    if s != [] {
      KeepIsFilter(s[..|s| - 1], arch);
      assert s == s[..|s| - 1] + [s[|s| - 1]];
    }
  }

  lemma {:induction false} KeepSorted(s: seq<Resource>, arch: Arch)
    requires Sorted(s)
    ensures Sorted(Keep(s, arch))
    decreases |s|
  {
    hide Valid;
    if s != [] {
      var front, last := s[..|s| - 1], s[|s| - 1];
      KeepSorted(front, arch);
      KeepIsFilter(front, arch);
      forall i | 0 <= i < |Keep(front, arch)| ensures Before(Keep(front, arch)[i], last) {
        assert Keep(front, arch)[i] in front;
      }
    }
  }

  lemma KeptWindows(s: seq<Resource>, arch: Arch)
    ensures Windows(Keep(s, arch))
  {
    KeepIsFilter(s, arch);
    forall i | 0 <= i < |Keep(s, arch)| ensures Valid(Keep(s, arch)[i], arch) {
      assert Keep(s, arch)[i] in Keep(s, arch);
    }
  }

  // ── The kernel's overlap removal ──────────────────────────────────────────

  predicate Checked(r: Resource) { r.kind == MMIO_RANGE || r.kind == PCI_ECAM }

  function SatEnd(r: Resource): u64 { Min(r.base + r.size, TWO64 - 1) }

  /** `b` starts inside the window of its neighbour `a`. */
  predicate Clash(a: Resource, b: Resource) { Checked(a) && a.kind == b.kind && SatEnd(a) > b.base }

  function Clean(s: seq<Resource>): (r: seq<Resource>)
    decreases |s|
  {
    if |s| < 2 then s
    else if Clash(s[0], s[1]) then Clean([s[0]] + s[2..])
    else [s[0]] + Clean(s[1..])
  }

  /** What `Clean` takes out, in order. */
  function Dropped(s: seq<Resource>): (r: seq<Resource>)
    decreases |s|
  {
    if |s| < 2 then []
    else if Clash(s[0], s[1]) then [s[1]] + Dropped([s[0]] + s[2..])
    else Dropped(s[1..])
  }

  method RemoveOverlaps(list: seq<Resource>) returns (entries: seq<Resource>, removed: nat)
    ensures entries == Clean(list) && removed + |entries| == |list|
  {
    entries, removed := list, 0;
    var i := 0;
    while i + 1 < |entries|
      invariant i <= |entries| && removed + |entries| == |list|
      invariant entries[..i] + Clean(entries[i..]) == Clean(list)
      decreases |entries| - i
    {
      ghost var rest := entries[i..];
      if !Clash(entries[i], entries[i + 1]) {
        assert rest[1..] == entries[i + 1..];
        assert entries[..i + 1] == entries[..i] + [rest[0]];
        i := i + 1;
      } else {
        ghost var next := entries[..i + 1] + entries[i + 2..];
        assert next[i..] == [rest[0]] + rest[2..] && next[..i] == entries[..i];
        entries := entries[..i + 1] + entries[i + 2..];
        removed := removed + 1;
      }
    }
    assert entries == entries[..i] + entries[i..];
  }

  /** Kept and dropped entries together are the input. */
  lemma {:induction false} NothingLost(s: seq<Resource>)
    ensures multiset(Clean(s)) + multiset(Dropped(s)) == multiset(s)
    decreases |s|
  {
    if |s| >= 2 {
      hide Clash;
      assert s == [s[0]] + s[1..] && s[1..] == [s[1]] + s[2..];
      if Clash(s[0], s[1]) {
        var t := [s[0]] + s[2..];
        NothingLost(t);
        assert multiset(s) == multiset(t) + multiset{s[1]};
        assert multiset(Dropped(s)) == multiset{s[1]} + multiset(Dropped(t));
      } else {
        NothingLost(s[1..]);
      }
    }
  }

  lemma {:induction false} CleanStarts(s: seq<Resource>)
    requires s != []
    ensures Clean(s) != [] && Clean(s)[0] == s[0]
    decreases |s|
  {
    if |s| >= 2 && Clash(s[0], s[1]) {
      CleanStarts([s[0]] + s[2..]);
    }
  }

  function Unchecked(s: seq<Resource>): seq<Resource> {
    if s == [] then [] else (if Checked(s[0]) then [] else [s[0]]) + Unchecked(s[1..])
  }

  /** Entries of the other types survive, in order. */
  lemma {:induction false} OthersSurvive(s: seq<Resource>)
    ensures Unchecked(Clean(s)) == Unchecked(s)
    decreases |s|
  {
    if |s| >= 2 {
      if Clash(s[0], s[1]) {
        OthersSurvive([s[0]] + s[2..]);
        assert ([s[0]] + s[2..])[1..] == s[2..] && s[1..][1..] == s[2..];
      } else {
        OthersSurvive(s[1..]);
        assert ([s[0]] + Clean(s[1..]))[1..] == Clean(s[1..]);
      }
    }
  }

  predicate Windows(s: seq<Resource>) {
    forall i :: 0 <= i < |s| && Checked(s[i]) ==> s[i].base + s[i].size < TWO64 && s[i].size > 0
  }

  /** Every later entry of the same checked type starts behind the window. */
  predicate Apart(s: seq<Resource>) {
    forall i, j :: 0 <= i < j < |s| && Checked(s[i]) && s[i].kind == s[j].kind ==> s[i].base + s[i].size <= s[j].base
  }

  lemma ApartCons(x: Resource, rest: seq<Resource>)
    requires Sorted(rest) && Windows(rest) && Apart(rest) && rest != []
    requires Windows([x]) && Before(x, rest[0]) && !Clash(x, rest[0])
    ensures Sorted([x] + rest) && Windows([x] + rest) && Apart([x] + rest)
  {
    assert Checked(x) ==> [x][0].base + x.size < TWO64;
    forall j | 0 <= j < |rest|
      ensures Before(x, rest[j])
      ensures Checked(x) && x.kind == rest[j].kind ==> x.base + x.size <= rest[j].base
    {
      assert j > 0 ==> Before(rest[0], rest[j]);
    }
  }

  /** All pairs of kept windows of one type are apart, not only neighbours, and the list stays sorted. */
  lemma {:induction false} CleanIsApart(s: seq<Resource>)
    requires Sorted(s) && Windows(s)
    ensures Sorted(Clean(s)) && Windows(Clean(s)) && Apart(Clean(s))
    decreases |s|
  {
    hide Clash;
    hide Apart;
    if |s| < 2 {
      ShortApart(s);
    } else if Clash(s[0], s[1]) {
      CleanIsApart([s[0]] + s[2..]);
    } else {
      CleanIsApart(s[1..]);
      CleanStarts(s[1..]);
      ApartCons(s[0], Clean(s[1..]));
    }
  }

  lemma ShortApart(s: seq<Resource>)
    requires |s| < 2
    ensures Apart(s)
  {
  }

  predicate Overlaps(a: Resource, b: Resource) { a.kind == b.kind && a.base <= b.base < a.base + a.size }

  ghost predicate ClashesWithKept(kept: seq<Resource>, r: Resource) {
    exists k :: 0 <= k < |kept| && Checked(kept[k]) && Overlaps(kept[k], r)
  }

  /** Every dropped entry starts inside the window of a kept one of its type. */
  lemma {:induction false} DroppedOverlapsKept(s: seq<Resource>, d: nat)
    requires Sorted(s) && Windows(s) && d < |Dropped(s)|
    ensures ClashesWithKept(Clean(s), Dropped(s)[d])
    decreases |s|
  {
    if Clash(s[0], s[1]) {
      var t := [s[0]] + s[2..];
      if d > 0 {
        DroppedOverlapsKept(t, d - 1);
      } else {
        CleanStarts(t);
        assert Checked(Clean(s)[0]) && Overlaps(Clean(s)[0], s[1]);
      }
    } else {
      DroppedOverlapsKept(s[1..], d);
      var kept := Clean(s[1..]);
      var k :| 0 <= k < |kept| && Checked(kept[k]) && Overlaps(kept[k], Dropped(s[1..])[d]);
      assert Clean(s)[k + 1] == kept[k];
    }
  }

  // ── The whole pipeline ────────────────────────────────────────────────────

  function Pipeline(raw: seq<Resource>, arch: Arch): (r: seq<Resource>) { Clean(Keep(Sort(raw), arch)) }

  /** From any raw list the result is in order of type and base, and no two MMIO windows and no two ECAMs overlap. */
  lemma PipelineApart(raw: seq<Resource>, arch: Arch)
    ensures var r := Pipeline(raw, arch);
            && (forall i, j :: 0 <= i < j < |r| ==>
                  r[i].kind < r[j].kind || (r[i].kind == r[j].kind && r[i].base <= r[j].base))
            && (forall i, j :: 0 <= i < j < |r| && r[i].kind == r[j].kind && r[i].kind in [0, 2] ==>
                  r[i].base + r[i].size <= r[j].base)
  {
    PipelineKeeps(raw, arch);
    var r := Pipeline(raw, arch);
    assert forall i, j :: 0 <= i < j < |r| ==> Before(r[i], r[j]);
  }

  lemma PipelineKeeps(raw: seq<Resource>, arch: Arch)
    ensures Sorted(Pipeline(raw, arch)) && Apart(Pipeline(raw, arch))
  {
    hide Sorted;
    hide Apart;
    hide Windows;
    SortIsSorted(raw);
    KeepSorted(Sort(raw), arch);
    KeptWindows(Sort(raw), arch);
    CleanIsApart(Keep(Sort(raw), arch));
  }

  /** Kept plus dropped entries are exactly the valid entries of the raw list, and unchecked types lose nothing. */
  lemma PipelineConserves(raw: seq<Resource>, arch: Arch, r: Resource)
    ensures var kept, dropped := Pipeline(raw, arch), Dropped(Keep(Sort(raw), arch));
            && multiset(kept)[r] + multiset(dropped)[r] == (if Valid(r, arch) then multiset(raw)[r] else 0)
            && (r in dropped ==> r.kind in [0, 2] && ClashesWithKept(kept, r))
            && Unchecked(kept) == Unchecked(Keep(Sort(raw), arch))
  {
    hide Valid;
    hide Sorted;
    hide Windows;
    hide ClashesWithKept;
    var valid := Keep(Sort(raw), arch);
    SortIsSorted(raw);
    KeepSorted(Sort(raw), arch);
    KeptWindows(Sort(raw), arch);
    KeepIsFilter(Sort(raw), arch);
    NothingLost(valid);
    OthersSurvive(valid);
    assert multiset(valid)[r] == multiset(Clean(valid))[r] + multiset(Dropped(valid))[r];
    assert r in valid <==> multiset(valid)[r] > 0;
    if r in Dropped(valid) {
      var d :| 0 <= d < |Dropped(valid)| && Dropped(valid)[d] == r;
      DroppedOverlapsKept(valid, d);
      ClashesAreChecked(Clean(valid), r);
    }
  }

  lemma ClashesAreChecked(kept: seq<Resource>, r: Resource)
    requires ClashesWithKept(kept, r)
    ensures r.kind in [0, 2]
  {
  }
}
