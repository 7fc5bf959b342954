/** The bootloader's ELF loaders: header checks, write-xor-execute and the memory image of the kernel and of init. */
module BootElf {
  import opened Bytes

  const PAGE: nat := 4096
  const EHDR_SIZE: nat := 64
  const PHDR_SIZE: nat := 56
  const MAX_SEGMENTS: nat := 8
  const PT_LOAD: nat := 1
  const U64_MAX: nat := TWO64 - 1

  datatype Reason =
    | TooSmall | BadMagic | NotClass64 | NotLittleEndian | BadVersion | NotExecutable | WrongMachine | BadPhentsize
    | NoHeaders | TableOverflow | TableTruncated | EntryOutside | MemoryBelowFile | TooManySegments | FileOverflow
    | FileTruncated | NoSegments | EntryNotCovered

  /** The two defensive errors raised after all segments are loaded. */
  predicate Unreachable(reason: Reason) { reason == NoSegments || reason == EntryNotCovered }

  datatype BootError = InvalidElf(reason: Reason) | WxViolation | OutOfMemory

  datatype Result<+T> = Ok(value: T) | Err(error: BootError)

  datatype Ehdr = Ehdr(entry: nat, phoff: nat, phnum: nat)

  datatype Phdr = Phdr(kind: nat, flags: nat, offset: nat, vaddr: nat, paddr: nat, filesz: nat, memsz: nat) {
    predicate Loaded() { kind == PT_LOAD && memsz > 0 }

    predicate Writable() { flags / 2 % 2 == 1 }

    predicate Executable() { flags % 2 == 1 }

    /** Virtual addresses of the segment, with the end saturated. */
    predicate Covers(a: nat) { vaddr <= a < Min(vaddr + memsz, U64_MAX) }

    /** The file bytes of the segment lie in the file and in its memory. */
    predicate Fits(data: seq<byte>) { filesz <= memsz && (filesz > 0 ==> offset + filesz <= |data|) }
  }

  // ── Headers ───────────────────────────────────────────────────────────────

  function Field(data: seq<byte>, at: nat, n: nat): nat
    requires at + n <= |data|
  {
    LeValue(data[at..at + n])
  }

  function ParsePhdr(data: seq<byte>, at: nat): Phdr
    requires at + PHDR_SIZE <= |data|
  {
    Phdr(Field(data, at, 4), Field(data, at + 4, 4), Field(data, at + 8, 8), Field(data, at + 16, 8),
         Field(data, at + 24, 8), Field(data, at + 32, 8), Field(data, at + 40, 8))
  }

  function Phdrs(data: seq<byte>, at: nat, n: nat): (phs: seq<Phdr>)
    requires at + n * PHDR_SIZE <= |data|
    ensures |phs| == n
  {
    if n == 0 then [] else Phdrs(data, at, n - 1) + [ParsePhdr(data, at + (n - 1) * PHDR_SIZE)]
  }

  /** The ten header checks in their order. */
  function ValidateHeader(data: seq<byte>, machine: u16): (r: Result<Ehdr>)
    ensures r.Ok? ==> r.value.phoff + r.value.phnum * PHDR_SIZE <= |data|
    ensures r.Ok? ==>
              exists i :: 0 <= i < r.value.phnum
                       && Phdrs(data, r.value.phoff, r.value.phnum)[i].Loaded()
                       && Phdrs(data, r.value.phoff, r.value.phnum)[i].Covers(r.value.entry)
    ensures r.Err? ==> r.error.InvalidElf? && !Unreachable(r.error.reason)
  {
    if |data| < EHDR_SIZE then Err(InvalidElf(TooSmall))
    else if data[..4] != [0x7F, 0x45, 0x4C, 0x46] then Err(InvalidElf(BadMagic))
    else if data[4] != 2 then Err(InvalidElf(NotClass64))
    else if data[5] != 1 then Err(InvalidElf(NotLittleEndian))
    else if data[6] != 1 then Err(InvalidElf(BadVersion))
    else if Field(data, 16, 2) != 2 then Err(InvalidElf(NotExecutable))
    else if Field(data, 18, 2) != machine then Err(InvalidElf(WrongMachine))
    else if Field(data, 54, 2) != PHDR_SIZE then Err(InvalidElf(BadPhentsize))
    else if Field(data, 56, 2) == 0 then Err(InvalidElf(NoHeaders))
    else
      var entry, phoff, phnum := Field(data, 24, 8), Field(data, 32, 8), Field(data, 56, 2);
      if phoff + phnum * PHDR_SIZE > U64_MAX then Err(InvalidElf(TableOverflow))
      else if phoff + phnum * PHDR_SIZE > |data| then Err(InvalidElf(TableTruncated))
      else
        var phdrs := Phdrs(data, phoff, phnum);
        if exists i :: 0 <= i < phnum && phdrs[i].Loaded() && phdrs[i].Covers(entry) then Ok(Ehdr(entry, phoff, phnum))
        else Err(InvalidElf(EntryOutside))
  }

  predicate NoWriteExecute(phdrs: seq<Phdr>) {
    forall i :: 0 <= i < |phdrs| && phdrs[i].kind == PT_LOAD ==> !(phdrs[i].Writable() && phdrs[i].Executable())
  }

  method CheckWx(phdrs: seq<Phdr>) returns (ok: bool)
    ensures ok == NoWriteExecute(phdrs)
  {
    for i := 0 to |phdrs|
      invariant NoWriteExecute(phdrs[..i])
    {
      var ph := phdrs[i];
      if ph.kind == PT_LOAD && ph.Writable() && ph.Executable() {
        return false;
      }
      assert forall k :: 0 <= k < i ==> phdrs[..i + 1][k] == phdrs[..i][k];
    }
    assert phdrs[..|phdrs|] == phdrs;
    ok := true;
  }

  // ── Physical memory ───────────────────────────────────────────────────────

  function SegByte(data: seq<byte>, ph: Phdr, i: nat): byte
    requires ph.Fits(data)
  {
    if i < ph.filesz then data[ph.offset + i] else 0
  }

  /** `mem` holds the whole segment at `at`: its file bytes, then zeros. */
  ghost predicate Holds(mem: nat -> byte, at: nat, data: seq<byte>, ph: Phdr)
    requires ph.Fits(data)
  {
    forall a: nat :: at <= a < at + ph.memsz ==> mem(a) == SegByte(data, ph, a - at)
  }

  /** Memory and the firmware's record of the addresses in use; `refusals` counts the allocations it has refused. */
  class Machine {
    var mem: nat -> byte
    var used: nat -> bool
    var refusals: nat

    constructor (m: nat -> byte, u: nat -> bool)
      ensures mem == m && used == u && refusals == 0
    {
      mem, used, refusals := m, u, 0;
    }

    ghost predicate Free(base: nat, len: nat)
      reads this
    {
      base + len <= TWO64 && forall a: nat :: base <= a < base + len ==> !used(a)
    }

    /** AllocateAddress: exactly these pages, if they are free; it may fail for other reasons. */
    method AllocateAddress(base: nat, pages: nat) returns (ok: bool)
      requires base % PAGE == 0
      modifies this`used, this`refusals
      ensures ok ==> old(Free(base, pages * PAGE))
      ensures ok ==> forall a: nat :: used(a) == (old(used(a)) || base <= a < base + pages * PAGE)
      ensures !ok ==> used == old(used)
      ensures refusals == old(refusals) + if ok then 0 else 1
    {
      var refused := *;
      var was, len := used, pages * PAGE;
      ok := !refused && base + len <= TWO64 && forall a: nat | base <= a < base + len :: !was(a);
      if ok {
        used := (a: nat) => was(a) || base <= a < base + len;
      } else {
        refusals := refusals + 1;
      }
    }

    /** AllocateAnyPages: some free pages, if any. */
    method AllocatePages(pages: nat) returns (r: Option<nat>)
      modifies this`used, this`refusals
      ensures r.Some? ==> r.value % PAGE == 0 && old(Free(r.value, pages * PAGE))
      ensures r.Some? ==> forall a: nat :: used(a) == (old(used(a)) || r.value <= a < r.value + pages * PAGE)
      ensures r.None? ==> used == old(used)
      ensures refusals == old(refusals) + if r.Some? then 0 else 1
    {
      var base: nat := *;
      if base % PAGE != 0 {
        refusals := refusals + 1;
        return None;
      }
      var ok := AllocateAddress(base, pages);
      r := if ok then Some(base) else None;
    }

    /** Copies the file bytes of a segment to `at` and zeroes the rest of it. */
    method PlaceSegment(at: nat, data: seq<byte>, ph: Phdr)
      requires ph.Fits(data)
      modifies this`mem
      ensures Holds(mem, at, data, ph)
      ensures forall a: nat :: !(at <= a < at + ph.memsz) ==> mem(a) == old(mem(a))
    {
      var was := mem;
      if ph.filesz > 0 {
        mem := (a: nat) => if at <= a < at + ph.filesz then data[ph.offset + (a - at)] else was(a);
      }
      var copied := mem;
      if ph.memsz - ph.filesz > 0 {
        mem := (a: nat) => if at + ph.filesz <= a < at + ph.memsz then 0 else copied(a);
      }
    }
  }

  // ── Loaded segments ───────────────────────────────────────────────────────

  datatype Segment = Segment(phys: nat, virt: nat, size: nat, writable: bool, executable: bool) {
    predicate Has(a: nat) { phys <= a < phys + size }

    predicate Covers(a: nat) { virt <= a < Min(virt + size, U64_MAX) }
  }

  function Loads(phdrs: seq<Phdr>): (r: seq<Phdr>)
    ensures forall k :: 0 <= k < |r| ==> r[k].Loaded()
  {
    if phdrs == [] then []
    else
      var rest, last := Loads(phdrs[..|phdrs| - 1]), phdrs[|phdrs| - 1];
      if last.Loaded() then rest + [last] else rest
  }

  lemma {:induction false} LoadsHas(phdrs: seq<Phdr>, i: nat)
    requires i < |phdrs| && phdrs[i].Loaded()
    ensures phdrs[i] in Loads(phdrs)
    decreases |phdrs|
  {
    if i < |phdrs| - 1 {
      LoadsHas(phdrs[..|phdrs| - 1], i);
    }
  }

  lemma {:induction false} LoadsFrom(phdrs: seq<Phdr>, k: nat) returns (i: nat)
    requires k < |Loads(phdrs)|
    ensures i < |phdrs| && phdrs[i] == Loads(phdrs)[k]
    decreases |phdrs|
  {
    var n := |phdrs| - 1;
    if k < |Loads(phdrs[..n])| {
      i := LoadsFrom(phdrs[..n], k);
    } else {
      i := n;
    }
  }

  /** Segment `k` describes header `k` and memory holds that header's image. */
  ghost predicate Image(mem: nat -> byte, segs: seq<Segment>, loads: seq<Phdr>, data: seq<byte>) {
    && |segs| == |loads|
    && forall k :: 0 <= k < |segs| ==>
         && loads[k].Fits(data)
         && segs[k].virt == loads[k].vaddr && segs[k].size == loads[k].memsz
         && Holds(mem, segs[k].phys, data, loads[k])
  }

  /** No two segments share memory, none lies in memory that was in use before, and that memory is unchanged. */
  ghost predicate Apart(mem0: nat -> byte, used0: nat -> bool, mem: nat -> byte, used: nat -> bool,
                        segs: seq<Segment>)
  {
    && (forall j, k, a: nat :: 0 <= j < k < |segs| && segs[j].Has(a) ==> !segs[k].Has(a))
    && (forall k, a: nat :: 0 <= k < |segs| && segs[k].Has(a) ==> used(a) && !used0(a))
    && (forall a: nat :: used0(a) ==> used(a) && mem(a) == mem0(a))
  }

  lemma ImageGrows(mem: nat -> byte, used: nat -> bool, mem': nat -> byte, segs: seq<Segment>, loads: seq<Phdr>,
                   data: seq<byte>, seg: Segment, ph: Phdr)
    requires Image(mem, segs, loads, data) && (forall k, a: nat :: 0 <= k < |segs| && segs[k].Has(a) ==> used(a))
    requires ph.Fits(data) && seg.virt == ph.vaddr && seg.size == ph.memsz && Holds(mem', seg.phys, data, ph)
    requires forall a: nat :: seg.Has(a) ==> !used(a)
    requires forall a: nat :: !seg.Has(a) ==> mem'(a) == mem(a)
    ensures Image(mem', segs + [seg], loads + [ph], data)
  {
    forall k | 0 <= k < |segs| ensures Holds(mem', segs[k].phys, data, loads[k]) {
      forall a: nat | segs[k].phys <= a < segs[k].phys + loads[k].memsz
        ensures mem'(a) == SegByte(data, loads[k], a - segs[k].phys)
      {
        assert segs[k].Has(a) && !seg.Has(a);
        assert Holds(mem, segs[k].phys, data, loads[k]);
      }
    }
  }

  lemma ApartGrows(mem0: nat -> byte, used0: nat -> bool, mem: nat -> byte, used: nat -> bool,
                   mem': nat -> byte, used': nat -> bool, segs: seq<Segment>, seg: Segment)
    requires Apart(mem0, used0, mem, used, segs)
    requires forall a: nat :: seg.Has(a) ==> !used(a) && used'(a)
    requires forall a: nat :: !seg.Has(a) ==> mem'(a) == mem(a)
    requires forall a: nat :: used(a) ==> used'(a)
    ensures Apart(mem0, used0, mem', used', segs + [seg])
  {
  }

  // ── The kernel ────────────────────────────────────────────────────────────

  datatype KernelInfo = KernelInfo(physicalBase: nat, virtualBase: nat, size: nat, entry: nat, segments: seq<Segment>)

  /** The program headers of an accepted file. */
  function Headers(data: seq<byte>, machine: u16): seq<Phdr>
    requires ValidateHeader(data, machine).Ok?
  {
    var e := ValidateHeader(data, machine).value;
    Phdrs(data, e.phoff, e.phnum)
  }

  /** The linker's promise about the kernel file: segments are placed on page boundaries. */
  predicate PageAligned(data: seq<byte>, machine: u16) {
    ValidateHeader(data, machine).Ok? ==>
      forall i :: 0 <= i < |Headers(data, machine)| && Headers(data, machine)[i].Loaded() ==>
                    Headers(data, machine)[i].paddr % PAGE == 0
  }

  function PagesFor(len: nat): nat { DivCeil(len, PAGE) }

  lemma PagesCover(len: nat)
    ensures len <= PagesFor(len) * PAGE
  {
  }

  /** What both loaders check of a LOAD header before they allocate for it. */
  function CheckSegment(data: seq<byte>, ph: Phdr, count: nat): (r: Option<BootError>)
    ensures r.None? ==> ph.Fits(data) && count < MAX_SEGMENTS
    ensures r.Some? ==> r.value.InvalidElf? && !Unreachable(r.value.reason)
  {
    if ph.memsz < ph.filesz then Some(InvalidElf(MemoryBelowFile))
    else if count >= MAX_SEGMENTS then Some(InvalidElf(TooManySegments))
    else if ph.filesz > 0 && ph.offset + ph.filesz > U64_MAX then Some(InvalidElf(FileOverflow))
    else if ph.filesz > 0 && ph.offset + ph.filesz > |data| then Some(InvalidElf(FileTruncated))
    else None
  }

  /** What makes the LOAD headers of a file loadable: at most eight, each with its file bytes inside file and memory. */
  predicate SegmentsGood(data: seq<byte>, loads: seq<Phdr>) {
    && |loads| <= 8
    && forall k :: 0 <= k < |loads| ==>
         && loads[k].filesz <= loads[k].memsz
         && (loads[k].filesz > 0 ==> loads[k].offset + loads[k].filesz <= Min(|data|, TWO64 - 1))
  }

  lemma GoodMore(data: seq<byte>, loads: seq<Phdr>, ph: Phdr)
    requires SegmentsGood(data, loads)
    ensures SegmentsGood(data, loads + [ph]) <==> CheckSegment(data, ph, |loads|).None?
  {
    var more := loads + [ph];
    assert forall k :: 0 <= k < |loads| ==> more[k] == loads[k];
    assert more[|loads|] == ph;
  }

  lemma {:induction false} BadStays(data: seq<byte>, phdrs: seq<Phdr>, n: nat)
    requires n <= |phdrs| && !SegmentsGood(data, Loads(phdrs[..n]))
    ensures !SegmentsGood(data, Loads(phdrs))
    decreases |phdrs|
  {
    if n == |phdrs| {
      assert phdrs[..n] == phdrs;
    } else {
      var front := phdrs[..|phdrs| - 1];
      assert front[..n] == phdrs[..n];
      BadStays(data, front, n);
      var loads := Loads(front);
      assert forall k :: 0 <= k < |loads| ==> Loads(phdrs)[k] == loads[k];
    }
  }

  function KernelSegment(ph: Phdr): Segment { Segment(ph.paddr, ph.vaddr, ph.memsz, ph.Writable(), ph.Executable()) }

  method LoadKernelSegments(m: Machine, data: seq<byte>, phdrs: seq<Phdr>) returns (r: Result<seq<Segment>>)
    requires forall i :: 0 <= i < |phdrs| && phdrs[i].Loaded() ==> phdrs[i].paddr % PAGE == 0
    modifies m
    ensures r.Ok? ==> Image(m.mem, r.value, Loads(phdrs), data)
    ensures r.Ok? ==> Apart(old(m.mem), old(m.used), m.mem, m.used, r.value)
    ensures r.Ok? ==> forall k :: 0 <= k < |r.value| ==> r.value[k] == KernelSegment(Loads(phdrs)[k])
    ensures r.Ok? ==> |r.value| <= MAX_SEGMENTS
    ensures r.Ok? ==> forall k :: 0 <= k < |r.value| ==> r.value[k].phys + r.value[k].size <= TWO64
    ensures r.Err? ==> r.error == OutOfMemory || (r.error.InvalidElf? && !Unreachable(r.error.reason))
    ensures r.Ok? <==> SegmentsGood(data, Loads(phdrs)) && m.refusals == old(m.refusals)
    ensures r == Err(OutOfMemory) <==> m.refusals > old(m.refusals)
    ensures m.refusals >= old(m.refusals)
    ensures forall a: nat :: old(m.used(a)) ==> m.used(a) && m.mem(a) == old(m.mem(a))
  {
    hide PagesFor;
    hide SegmentsGood;
    NoneBad(data);
    var segs: seq<Segment> := [];
    for i := 0 to |phdrs|
      invariant m.refusals == old(m.refusals) && |segs| == |Loads(phdrs[..i])|
      invariant SegmentsGood(data, Loads(phdrs[..i]))
      invariant Image(m.mem, segs, Loads(phdrs[..i]), data) && Apart(old(m.mem), old(m.used), m.mem, m.used, segs)
      invariant |segs| <= MAX_SEGMENTS
      invariant forall k :: 0 <= k < |segs| ==>
                  segs[k] == KernelSegment(Loads(phdrs[..i])[k]) && segs[k].phys + segs[k].size <= TWO64
    {
      assert phdrs[..i + 1][..i] == phdrs[..i];
      var ph := phdrs[i];
      if ph.Loaded() {
        var bad := CheckSegment(data, ph, |segs|);
        GoodMore(data, Loads(phdrs[..i]), ph);
        if bad.Some? {
          BadStays(data, phdrs, i + 1);
          return Err(bad.value);
        }
        ghost var mem, used := m.mem, m.used;
        PagesCover(ph.memsz);
        var ok := m.AllocateAddress(ph.paddr, PagesFor(ph.memsz));
        if !ok {
          return Err(OutOfMemory);
        }
        m.PlaceSegment(ph.paddr, data, ph);
        ImageGrows(mem, used, m.mem, segs, Loads(phdrs[..i]), data, KernelSegment(ph), ph);
        ApartGrows(old(m.mem), old(m.used), mem, used, m.mem, m.used, segs, KernelSegment(ph));
        segs := segs + [KernelSegment(ph)];
      }
    }
    assert phdrs[..|phdrs|] == phdrs;
    r := Ok(segs);
  }

  lemma EntryLoaded(data: seq<byte>, machine: u16) returns (k: nat)
    requires ValidateHeader(data, machine).Ok?
    ensures k < |Loads(Headers(data, machine))|
    ensures Loads(Headers(data, machine))[k].Covers(ValidateHeader(data, machine).value.entry)
  {
    hide ValidateHeader;
    var e := ValidateHeader(data, machine).value;
    var phdrs := Phdrs(data, e.phoff, e.phnum);
    var i :| 0 <= i < e.phnum && phdrs[i].Loaded() && phdrs[i].Covers(e.entry);
    LoadsHas(phdrs, i);
    k :| 0 <= k < |Loads(phdrs)| && Loads(phdrs)[k] == phdrs[i];
  }

  lemma LoadsNeverBoth(phdrs: seq<Phdr>, k: nat)
    requires NoWriteExecute(phdrs) && k < |Loads(phdrs)|
    ensures !(Loads(phdrs)[k].Writable() && Loads(phdrs)[k].Executable())
  {
    var i := LoadsFrom(phdrs, k);
  }

  /** Lowest physical and virtual address and highest physical end over the loaded segments. */
  method Extent(segs: seq<Segment>) returns (phys: nat, virt: nat, end: nat)
    requires segs != []
    ensures forall k :: 0 <= k < |segs| ==>
              && phys <= segs[k].phys && virt <= segs[k].virt
              && Min(segs[k].phys + segs[k].size, U64_MAX) <= end
    ensures exists k :: 0 <= k < |segs| && phys == segs[k].phys
    ensures exists k :: 0 <= k < |segs| && virt == segs[k].virt
    ensures exists k :: 0 <= k < |segs| && end == Min(segs[k].phys + segs[k].size, U64_MAX)
  {
    phys, virt, end := segs[0].phys, segs[0].virt, Min(segs[0].phys + segs[0].size, U64_MAX);
    for i := 1 to |segs|
      invariant forall k :: 0 <= k < i ==>
                  && phys <= segs[k].phys && virt <= segs[k].virt
                  && Min(segs[k].phys + segs[k].size, U64_MAX) <= end
      invariant exists k :: 0 <= k < i && phys == segs[k].phys
      invariant exists k :: 0 <= k < i && virt == segs[k].virt
      invariant exists k :: 0 <= k < i && end == Min(segs[k].phys + segs[k].size, U64_MAX)
    {
      phys, virt := Min(phys, segs[i].phys), Min(virt, segs[i].virt);
      end := Max(end, Min(segs[i].phys + segs[i].size, U64_MAX));
    }
  }

  /** The info describes exactly the file's LOAD segments, and memory holds all of them at once. */
  ghost predicate KernelLoaded(mem: nat -> byte, data: seq<byte>, machine: u16, info: KernelInfo)
    requires ValidateHeader(data, machine).Ok?
  {
    var loads, segs := Loads(Headers(data, machine)), info.segments;
    && 0 < |segs| <= MAX_SEGMENTS
    && Image(mem, segs, loads, data)
    && (forall k :: 0 <= k < |segs| ==> segs[k] == KernelSegment(loads[k]) && !(segs[k].writable && segs[k].executable))
    && info.entry == ValidateHeader(data, machine).value.entry
    && (exists k :: 0 <= k < |segs| && segs[k].Covers(info.entry))
  }

  /** The reported span is the smallest that contains every segment. */
  ghost predicate Spans(info: KernelInfo) {
    && (forall k :: 0 <= k < |info.segments| ==>
          && info.physicalBase <= info.segments[k].phys && info.virtualBase <= info.segments[k].virt
          && Min(info.segments[k].phys + info.segments[k].size, U64_MAX) <= info.physicalBase + info.size)
    && (exists k :: 0 <= k < |info.segments| && info.physicalBase == info.segments[k].phys)
    && (exists k :: 0 <= k < |info.segments| && info.virtualBase == info.segments[k].virt)
    && (exists k :: 0 <= k < |info.segments|
                 && info.physicalBase + info.size == Min(info.segments[k].phys + info.segments[k].size, U64_MAX))
  }

  method LoadKernel(m: Machine, data: seq<byte>, machine: u16) returns (r: Result<KernelInfo>)
    requires PageAligned(data, machine)
    modifies m
    ensures r.Ok? ==> ValidateHeader(data, machine).Ok? && KernelLoaded(m.mem, data, machine, r.value) && Spans(r.value)
    ensures r.Ok? ==> Apart(old(m.mem), old(m.used), m.mem, m.used, r.value.segments)
    ensures r == Err(WxViolation) <==> ValidateHeader(data, machine).Ok? && !NoWriteExecute(Headers(data, machine))
    ensures r == Err(WxViolation) || ValidateHeader(data, machine).Err? ==> m.mem == old(m.mem) && m.used == old(m.used)
    ensures r.Ok? <==>
              && ValidateHeader(data, machine).Ok? && NoWriteExecute(Headers(data, machine))
              && SegmentsGood(data, Loads(Headers(data, machine))) && m.refusals == old(m.refusals)
    ensures r.Err? && r.error.InvalidElf? ==> !Unreachable(r.error.reason)
    ensures forall a: nat :: old(m.used(a)) ==> m.used(a) && m.mem(a) == old(m.mem(a))
  {
    hide ValidateHeader;
    hide Image;
    hide Apart;
    var ehdr := ValidateHeader(data, machine);
    if ehdr.Err? {
      return Err(ehdr.error);
    }
    var phdrs := Headers(data, machine);
    var clean := CheckWx(phdrs);
    if !clean {
      return Err(WxViolation);
    }
    var loaded := LoadKernelSegments(m, data, phdrs);
    if loaded.Err? {
      return Err(loaded.error);
    }
    var segs := loaded.value;
    ImageCount(m.mem, segs, Loads(phdrs), data);
    ghost var home := EntryLoaded(data, machine);
    if segs == [] {
      return Err(InvalidElf(NoSegments));
    }
    var found := FindEntry(segs, ehdr.value.entry);
    assert segs[home].Covers(ehdr.value.entry);
    if !found {
      return Err(InvalidElf(EntryNotCovered));
    }
    forall k | 0 <= k < |segs| ensures !(segs[k].writable && segs[k].executable) {
      LoadsNeverBoth(phdrs, k);
    }
    hide Spans;
    var info := DescribeKernel(segs, ehdr.value.entry);
    r := Ok(info);
  }

  method DescribeKernel(segs: seq<Segment>, entry: nat) returns (info: KernelInfo)
    requires segs != [] && forall k :: 0 <= k < |segs| ==> segs[k].phys + segs[k].size <= TWO64 && segs[k].size > 0
    ensures info.segments == segs && info.entry == entry && Spans(info)
  {
    var phys, virt, end := Extent(segs);
    info := KernelInfo(phys, virt, if end > phys then end - phys else 0, entry, segs);
  }

  lemma ImageCount(mem: nat -> byte, segs: seq<Segment>, loads: seq<Phdr>, data: seq<byte>)
    requires Image(mem, segs, loads, data)
    ensures |segs| == |loads|
  {
  }

  method FindEntry(segs: seq<Segment>, entry: nat) returns (found: bool)
    ensures found <==> exists k :: 0 <= k < |segs| && segs[k].Covers(entry)
  {
    for i := 0 to |segs|
      invariant forall k :: 0 <= k < i ==> !segs[k].Covers(entry)
    {
      if segs[i].Covers(entry) {
        return true;
      }
    }
    found := false;
  }

  // ── init ──────────────────────────────────────────────────────────────────

  /** Executable wins over writable; segments that are both were refused before. */
  function InitSegment(ph: Phdr, phys: nat): Segment {
    Segment(phys, ph.vaddr, ph.memsz, ph.Writable() && !ph.Executable(), ph.Executable())
  }

  datatype InitImage = InitImage(entry: nat, segments: seq<Segment>)

  /** The page counts of all init segments are computed without overflow. */
  predicate SpansFit(phdrs: seq<Phdr>) {
    forall i :: 0 <= i < |phdrs| && phdrs[i].Loaded() ==> phdrs[i].vaddr % PAGE + phdrs[i].memsz < TWO64
  }

  /** The pages requested for an init segment hold it exactly when its page count does not overflow. */
  lemma SpanAllocatedIff(ph: Phdr)
    requires ph.memsz < TWO64
    ensures var need := ph.vaddr % PAGE + ph.memsz;
            need <= PagesFor(need % TWO64) * PAGE <==> need < TWO64
  {
    var need := ph.vaddr % PAGE + ph.memsz;
    PagesCover(need);
    if need >= TWO64 {
      assert need % TWO64 == need - TWO64;
    }
  }

  /** One segment at pages the firmware chose. A page count that wraps leaves the segment more memory than it got. */
  method LoadInitSegment(m: Machine, data: seq<byte>, ph: Phdr) returns (seg: Option<Segment>)
    requires ph.Fits(data)
    modifies m
    ensures seg.None? ==> m.mem == old(m.mem) && m.used == old(m.used)
    ensures m.refusals == old(m.refusals) + if seg.Some? then 0 else 1
    ensures seg.Some? ==>
              && seg.value == InitSegment(ph, seg.value.phys) && seg.value.phys % PAGE == ph.vaddr % PAGE
              && Holds(m.mem, seg.value.phys, data, ph)
              && (forall a: nat :: old(m.used(a)) ==> m.used(a))
              && (forall a: nat :: !seg.value.Has(a) ==> m.mem(a) == old(m.mem(a)))
    ensures seg.Some? && ph.vaddr % PAGE + ph.memsz < TWO64 ==>
              forall a: nat :: seg.value.Has(a) ==> !old(m.used(a)) && m.used(a)
  {
    hide PagesFor;
    hide Holds;
    var inPage := ph.vaddr % PAGE;
    PagesCover(inPage + ph.memsz);
    var base := m.AllocatePages(PagesFor((inPage + ph.memsz) % TWO64));
    if base.None? {
      return None;
    }
    seg := Some(InitSegment(ph, base.value + inPage));
    m.PlaceSegment(seg.value.phys, data, ph);
  }

  method LoadInitSegments(m: Machine, data: seq<byte>, phdrs: seq<Phdr>) returns (r: Result<seq<Segment>>)
    modifies m
    ensures r.Ok? && SpansFit(phdrs) ==> Image(m.mem, r.value, Loads(phdrs), data)
    ensures r.Ok? && SpansFit(phdrs) ==> Apart(old(m.mem), old(m.used), m.mem, m.used, r.value)
    ensures r.Ok? ==> |r.value| <= MAX_SEGMENTS && |r.value| == |Loads(phdrs)|
    ensures r.Ok? ==> forall k :: 0 <= k < |r.value| ==>
              && r.value[k] == InitSegment(Loads(phdrs)[k], r.value[k].phys)
              && r.value[k].phys % PAGE == r.value[k].virt % PAGE
    ensures r.Err? ==> r.error == OutOfMemory || (r.error.InvalidElf? && !Unreachable(r.error.reason))
    ensures r.Ok? <==> SegmentsGood(data, Loads(phdrs)) && m.refusals == old(m.refusals)
    ensures r == Err(OutOfMemory) <==> m.refusals > old(m.refusals)
    ensures m.refusals >= old(m.refusals)
    ensures SpansFit(phdrs) ==> forall a: nat :: old(m.used(a)) ==> m.used(a) && m.mem(a) == old(m.mem(a))
  {
    hide Holds;
    hide Image;
    var segs: seq<Segment> := [];
    ghost var fits := SpansFit(phdrs);
    hide SegmentsGood;
    NoneBad(data);
    NoImage(m.mem, data);
    for i := 0 to |phdrs|
      invariant m.refusals == old(m.refusals) && SegmentsGood(data, Loads(phdrs[..i]))
      invariant fits ==> Image(m.mem, segs, Loads(phdrs[..i]), data)
      invariant fits ==> Apart(old(m.mem), old(m.used), m.mem, m.used, segs)
      invariant |segs| <= MAX_SEGMENTS && |segs| == |Loads(phdrs[..i])| && forall k :: 0 <= k < |segs| ==>
                  && segs[k] == InitSegment(Loads(phdrs[..i])[k], segs[k].phys)
                  && segs[k].phys % PAGE == segs[k].virt % PAGE
    {
      assert phdrs[..i + 1][..i] == phdrs[..i];
      var ph := phdrs[i];
      if ph.Loaded() {
        var bad := CheckSegment(data, ph, |segs|);
        GoodMore(data, Loads(phdrs[..i]), ph);
        if bad.Some? {
          BadStays(data, phdrs, i + 1);
          return Err(bad.value);
        }
        ghost var mem, used := m.mem, m.used;
        var seg := LoadInitSegment(m, data, ph);
        if seg.None? {
          return Err(OutOfMemory);
        }
        if fits {
          ImageGrows(mem, used, m.mem, segs, Loads(phdrs[..i]), data, seg.value, ph);
          ApartGrows(old(m.mem), old(m.used), mem, used, m.mem, m.used, segs, seg.value);
        }
        segs := segs + [seg.value];
      }
    }
    assert phdrs[..|phdrs|] == phdrs;
    r := Ok(segs);
  }

  lemma NoneBad(data: seq<byte>)
    ensures SegmentsGood(data, [])
  {
  }

  lemma NoImage(mem: nat -> byte, data: seq<byte>)
    ensures Image(mem, [], [], data)
  {
  }

  /** The image names all LOAD segments, at addresses that agree with the virtual ones within a page. */
  ghost predicate InitDescribed(data: seq<byte>, machine: u16, image: InitImage)
    requires ValidateHeader(data, machine).Ok?
  {
    var loads, segs := Loads(Headers(data, machine)), image.segments;
    && 0 < |segs| <= MAX_SEGMENTS && |segs| == |loads|
    && (forall k :: 0 <= k < |segs| ==>
          && segs[k].virt == loads[k].vaddr && segs[k].size == loads[k].memsz
          && segs[k].phys % PAGE == segs[k].virt % PAGE
          && segs[k].writable == loads[k].Writable() && segs[k].executable == loads[k].Executable()
          && !(segs[k].writable && segs[k].executable))
    && image.entry == ValidateHeader(data, machine).value.entry
    && (exists k :: 0 <= k < |segs| && segs[k].Covers(image.entry))
  }

  /** The error cases hold for every file; memory is as described whenever no page count overflows. */
  method LoadInit(m: Machine, data: seq<byte>, machine: u16) returns (r: Result<InitImage>)
    modifies m
    ensures r.Ok? ==> ValidateHeader(data, machine).Ok? && InitDescribed(data, machine, r.value)
    ensures r.Ok? && SpansFit(Headers(data, machine)) ==>
              && Image(m.mem, r.value.segments, Loads(Headers(data, machine)), data)
              && Apart(old(m.mem), old(m.used), m.mem, m.used, r.value.segments)
    ensures r == Err(WxViolation) <==> ValidateHeader(data, machine).Ok? && !NoWriteExecute(Headers(data, machine))
    ensures r == Err(WxViolation) || ValidateHeader(data, machine).Err? ==> m.mem == old(m.mem) && m.used == old(m.used)
    ensures r.Ok? <==>
              && ValidateHeader(data, machine).Ok? && NoWriteExecute(Headers(data, machine))
              && SegmentsGood(data, Loads(Headers(data, machine))) && m.refusals == old(m.refusals)
    ensures r.Err? && r.error.InvalidElf? ==> !Unreachable(r.error.reason)
    ensures (ValidateHeader(data, machine).Ok? ==> SpansFit(Headers(data, machine))) ==>
              forall a: nat :: old(m.used(a)) ==> m.used(a) && m.mem(a) == old(m.mem(a))
  {
    hide ValidateHeader;
    hide Image;
    hide Apart;
    var ehdr := ValidateHeader(data, machine);
    if ehdr.Err? {
      return Err(ehdr.error);
    }
    var phdrs := Headers(data, machine);
    var clean := CheckWx(phdrs);
    if !clean {
      return Err(WxViolation);
    }
    var loaded := LoadInitSegments(m, data, phdrs);
    if loaded.Err? {
      return Err(loaded.error);
    }
    var segs := loaded.value;
    ghost var home := EntryLoaded(data, machine);
    if segs == [] {
      return Err(InvalidElf(NoSegments));
    }
    assert segs[home].Covers(ehdr.value.entry);
    forall k | 0 <= k < |segs| ensures !(Loads(phdrs)[k].Writable() && Loads(phdrs)[k].Executable()) {
      LoadsNeverBoth(phdrs, k);
    }
    r := Ok(InitImage(ehdr.value.entry, segs));
  }
}
