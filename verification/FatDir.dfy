/** Directory search and enumeration over sectors and cluster chains (fs/fat/src/dir.rs). */
module FatDir {
  import opened Bytes
  import opened Fat
  import opened FatDriver
  import opened FatNames

  const SLOTS_PER_SECTOR: nat := 16

  datatype DirEntry = DirEntry(name: ShortName, attr: byte, cluster: u32, size: u32)

  predicate EndMark(raw: Slot) { raw[0] == 0 }

  predicate DeletedSlot(raw: Slot) { raw[0] == 0xE5 }

  /** A slot holding an 8.3 entry. */
  predicate ShortSlot(raw: Slot) { !EndMark(raw) && !DeletedSlot(raw) && raw[11] != 0x0F }

  function Le(raw: Slot, at: nat, n: nat): nat
    requires at + n <= 32
  {
    LeValue(raw[at..at + n])
  }

  lemma FieldBound(bs: seq<byte>)
    ensures |bs| == 2 ==> LeValue(bs) < TWO16
    ensures |bs| == 4 ==> LeValue(bs) < TWO32
  {
    LeBound(bs);
    FieldSizes();
  }

  function ParseDirEntry(raw: Slot): (e: Option<DirEntry>)
    ensures e.Some? <==> ShortSlot(raw)
  {
    if EndMark(raw) || DeletedSlot(raw) || raw[11] == 0x0F then None else
      FieldBound(raw[20..22]); FieldBound(raw[26..28]); FieldBound(raw[28..32]);
      Some(DirEntry(raw[..11], raw[11], Le(raw, 20, 2) * TWO16 + Le(raw, 26, 2), Le(raw, 28, 4)))
  }

  /** The slot stores the entry: its fields as little-endian bytes, the cluster's high half apart from its low half. */
  predicate Stores(raw: Slot, e: DirEntry) {
    && raw[..11] == e.name
    && raw[11] == e.attr
    && raw[20..22] == LeBytes(e.cluster / TWO16, 2)
    && raw[26..28] == LeBytes(e.cluster % TWO16, 2)
    && raw[28..32] == LeBytes(e.size, 4)
  }

  /** Parsing inverts storing: an entry is read from a live 8.3 slot exactly when the slot stores it. */
  lemma ParseInvertsStore(raw: Slot, e: DirEntry)
    ensures ParseDirEntry(raw) == Some(e) <==>
              raw[0] != 0 && raw[0] != 0xE5 && raw[11] != 0x0F && Stores(raw, e)
  {
    var hi, lo, size := raw[20..22], raw[26..28], raw[28..32];
    FieldSizes();
    LeField(hi, e.cluster / TWO16);
    LeField(lo, e.cluster % TWO16);
    LeField(size, e.size);
    FieldBound(lo);
  }

  // ── Slots of sectors ──────────────────────────────────────────────────────

  function SlotAt(s: Sector, i: nat): Slot
    requires i < SLOTS_PER_SECTOR
  {
    s[32 * i..32 * i + 32]
  }

  function SlotsFrom(s: Sector, i: nat): (slots: seq<Slot>)
    requires i <= SLOTS_PER_SECTOR
    ensures |slots| == SLOTS_PER_SECTOR - i
    decreases SLOTS_PER_SECTOR - i
  {
    if i == SLOTS_PER_SECTOR then [] else [SlotAt(s, i)] + SlotsFrom(s, i + 1)
  }

  function AllSlots(ss: seq<Sector>): seq<Slot> {
    if ss == [] then [] else SlotsFrom(ss[0], 0) + AllSlots(ss[1..])
  }

  /** The `n` sectors from `first` on, in wrapping sector arithmetic. */
  function RunSectors(img: Image, first: nat, n: nat): seq<Sector>
    decreases n
  {
    if n == 0 then [] else [SectorAt(img, Wrap32(first))] + RunSectors(img, first + 1, n - 1)
  }

  function ChainSectors(img: Image, g: Geometry, chain: seq<u32>): seq<Sector> {
    if chain == [] then [] else
      RunSectors(img, g.ClusterToSector(chain[0]), g.sectorsPerCluster) + ChainSectors(img, g, chain[1..])
  }

  /** First sector and length of the fixed FAT16 root directory area. */
  function RootArea(g: Geometry): (u32, nat) {
    (Wrap32(g.reservedSectors + Wrap32(g.numFats * g.fatSize)), DivCeil(g.rootEntryCount * 32, 512))
  }

  function RootSectors(img: Image, g: Geometry): seq<Sector> {
    RunSectors(img, RootArea(g).0, RootArea(g).1)
  }

  /** `chain` is the beginning of what the FAT links from `first` on, or all of it. */
  ghost predicate StartsChain(img: Image, g: Geometry, first: u32, chain: seq<u32>)
    requires g.Usable()
  {
    chain != [] && chain[0] == first && IsChain(img, g, chain)
  }

  ghost predicate ChainEnds(img: Image, g: Geometry, chain: seq<u32>)
    requires g.Usable() && chain != []
  {
    NextInChain(img, g, chain[|chain| - 1]) == None
  }

  lemma ChainLink(img: Image, g: Geometry, chain: seq<u32>, k: nat)
    requires g.Usable() && IsChain(img, g, chain) && k < |chain|
    ensures k + 1 < |chain| ==> NextInChain(img, g, chain[k]) == Some(chain[k + 1])
  {
  }

  /** A directory's sectors: cluster 0 stands for the fixed FAT16 root area. */
  function DirSectors(img: Image, g: Geometry, first: u32, chain: seq<u32>): seq<Sector> {
    if first == 0 then RootSectors(img, g) else ChainSectors(img, g, chain)
  }

  // ── Name search ───────────────────────────────────────────────────────────

  type ScanState = (Option<DirEntry>, Lfn)

  /** The slot-by-slot search: stops at a match or an end mark, carries the long-name accumulator along. */
  function Scan(slots: seq<Slot>, name: seq<byte>, l: Lfn): (r: ScanState)
    requires l.Wf()
    ensures r.1.Wf()
    decreases |slots|
  {
    if slots == [] || EndMark(slots[0]) then (None, l)
    else if DeletedSlot(slots[0]) then Scan(slots[1..], name, l.Reset())
    else if slots[0][11] == 0x0F then Scan(slots[1..], name, AddEntry(l, slots[0]))
    else if LfnMatches(l, name) || slots[0][..11] == Padded(name) then (ParseDirEntry(slots[0]), l)
    else Scan(slots[1..], name, l.Reset())
  }

  /** Sector after sector; an end mark only ends the sector it lies in. */
  function ScanSectors(ss: seq<Sector>, name: seq<byte>, l: Lfn): (r: ScanState)
    requires l.Wf()
    ensures r.1.Wf()
    decreases |ss|
  {
    if ss == [] then (None, l) else
      var (hit, l') := Scan(SlotsFrom(ss[0], 0), name, l);
      if hit.Some? then (hit, l') else ScanSectors(ss[1..], name, l')
  }

  lemma {:induction false} ScanSectorsConcat(a: seq<Sector>, b: seq<Sector>, name: seq<byte>, l: Lfn)
    requires l.Wf()
    ensures ScanSectors(a + b, name, l)
         == (var (hit, l') := ScanSectors(a, name, l); if hit.Some? then (hit, l') else ScanSectors(b, name, l'))
    decreases |a|
  {
    if a == [] {
      assert a + b == b;
    } else {
      assert (a + b)[1..] == a[1..] + b;
      ScanSectorsConcat(a[1..], b, name, Scan(SlotsFrom(a[0], 0), name, l).1);
    }
  }

  method ScanSectorForName(s: Sector, name: seq<byte>, lfn: LfnAccum) returns (hit: Option<DirEntry>)
    requires lfn.Valid()
    modifies lfn, lfn.buf
    ensures lfn.Valid()
    ensures (hit, lfn.Value()) == Scan(SlotsFrom(s, 0), name, old(lfn.Value()))
  {
    for i := 0 to SLOTS_PER_SECTOR
      invariant lfn.Valid()
      invariant Scan(SlotsFrom(s, i), name, lfn.Value()) == Scan(SlotsFrom(s, 0), name, old(lfn.Value()))
    {
      var raw := SlotAt(s, i);
      assert SlotsFrom(s, i)[1..] == SlotsFrom(s, i + 1);
      if EndMark(raw) {
        return None;
      }
      if DeletedSlot(raw) {
        lfn.Reset();
        continue;
      }
      if raw[11] == 0x0F {
        lfn.AddLfnEntry(raw);
        continue;
      }
      var entry := ParseDirEntry(raw);
      var byLong := lfn.Matches(name);
      var byShort := NameMatches(entry.value.name, name);
      if byLong || byShort {
        return entry;
      }
      lfn.Reset();
    }
    hit := None;
  }

  /** What the first of `n > 0` sectors contributes. */
  lemma RunStep(img: Image, first: nat, n: nat, s: Sector, name: seq<byte>, l: Lfn)
    requires l.Wf() && n > 0 && s == SectorAt(img, Wrap32(first))
    ensures ScanSectors(RunSectors(img, first, n), name, l)
         == (var (hit, l') := Scan(SlotsFrom(s, 0), name, l);
             if hit.Some? then (hit, l') else ScanSectors(RunSectors(img, first + 1, n - 1), name, l'))
  {
    assert RunSectors(img, first, n)[1..] == RunSectors(img, first + 1, n - 1);
  }

  /** Searches `n` consecutive sectors. */
  method SearchRun(dev: BlockDevice, first: u32, n: nat, name: seq<byte>, lfn: LfnAccum)
    returns (ok: bool, hit: Option<DirEntry>)
    requires lfn.Valid()
    modifies dev`failures, lfn, lfn.buf
    ensures lfn.Valid()
    ensures ok ==> dev.failures == old(dev.failures)
    ensures ok ==> (hit, lfn.Value()) == ScanSectors(RunSectors(dev.image, first, n), name, old(lfn.Value()))
    ensures !ok ==> hit == None && dev.failures > old(dev.failures)
  {
    hide Scan;
    hide SlotsFrom;
    ghost var img, l := dev.image, lfn.Value();
    ghost var goal := ScanSectors(RunSectors(img, first, n), name, l);
    var buf := new byte[SECTOR_SIZE];
    var sector, left := first, n;
    while left > 0
      invariant lfn.Valid() && lfn.Value() == l && dev.failures == old(dev.failures)
      invariant first <= sector && left == n - (sector - first)
      invariant ScanSectors(RunSectors(img, sector, left), name, l) == goal
    {
      ok := dev.ReadSector(Wrap32(sector), buf);
      if !ok {
        return false, None;
      }
      RunStep(img, sector, left, buf[..], name, l);
      hit := ScanSectorForName(buf[..], name, lfn);
      l := lfn.Value();
      if hit.Some? {
        return;
      }
      sector, left := sector + 1, left - 1;
    }
    ok, hit := true, None;
  }

  method FindInFat16Root(fs: FatState, dev: BlockDevice, name: seq<byte>) returns (hit: Option<DirEntry>)
    modifies dev`failures
    ensures old(dev.failures) <= dev.failures
    ensures dev.failures == old(dev.failures) ==>
              hit == ScanSectors(RootSectors(dev.image, fs.Geo()), name, EMPTY_LFN).0
    ensures dev.failures != old(dev.failures) ==> hit == None
  {
    hide Scan;
    hide SlotsFrom;
    var lfn := new LfnAccum();
    var (rootStart, rootSectors) := RootArea(fs.Geo());
    var ok: bool;
    ok, hit := SearchRun(dev, rootStart, rootSectors, name, lfn);
  }

  /** The sectors of a chain from its cluster number k on. */
  ghost function SectorsOnward(img: Image, g: Geometry, chain: seq<u32>, k: nat): seq<Sector>
    requires k <= |chain|
  {
    ChainSectors(img, g, chain[k..])
  }

  lemma SectorsAtEnds(img: Image, g: Geometry, chain: seq<u32>)
    ensures SectorsOnward(img, g, chain, 0) == ChainSectors(img, g, chain)
    ensures SectorsOnward(img, g, chain, |chain|) == []
  {
    assert chain[0..] == chain;
  }

  lemma SectorsStep(img: Image, g: Geometry, chain: seq<u32>, k: nat)
    requires k < |chain|
    ensures SectorsOnward(img, g, chain, k)
         == RunSectors(img, g.ClusterToSector(chain[k]), g.sectorsPerCluster) + SectorsOnward(img, g, chain, k + 1)
  {
    assert chain[k..][1..] == chain[k + 1..];
  }

  /** What one cluster of a chain contributes to the search. */
  lemma ScanClusterStep(img: Image, g: Geometry, chain: seq<u32>, k: nat, name: seq<byte>, l: Lfn)
    requires k < |chain| && l.Wf()
    ensures ScanSectors(SectorsOnward(img, g, chain, k), name, l)
         == (var (hit, l') := ScanSectors(RunSectors(img, g.ClusterToSector(chain[k]), g.sectorsPerCluster), name, l);
             if hit.Some? then (hit, l') else ScanSectors(SectorsOnward(img, g, chain, k + 1), name, l'))
  {
    hide ScanSectors;
    hide RunSectors;
    hide SectorsOnward;
    SectorsStep(img, g, chain, k);
    ScanSectorsConcat(RunSectors(img, g.ClusterToSector(chain[k]), g.sectorsPerCluster),
                      SectorsOnward(img, g, chain, k + 1), name, l);
  }

  lemma ScanNothing(name: seq<byte>, l: Lfn)
    requires l.Wf()
    ensures ScanSectors([], name, l) == (None, l)
  {
  }

  /** The search through the clusters of `chain` is over: the name is found in them or no cluster follows. */
  ghost predicate SearchEnds(img: Image, g: Geometry, first: u32, name: seq<byte>, chain: seq<u32>)
    requires g.Usable()
  {
    && StartsChain(img, g, first, chain)
    && (ChainEnds(img, g, chain) || ScanSectors(ChainSectors(img, g, chain), name, EMPTY_LFN).0.Some?)
  }

  /** Finds a name in the fixed root area or along a cluster chain, cyclic ones included if the search ends on them. */
  method FindInDirectory(fs: FatState, dev: BlockDevice, dirCluster: u32, name: seq<byte>, ghost chain: seq<u32>)
    returns (hit: Option<DirEntry>)
    requires fs.Geo().Usable() && fs.Coherent(dev.image)
    requires dirCluster != 0 ==> SearchEnds(dev.image, fs.Geo(), dirCluster, name, chain)
    modifies fs`cachedFatSector, fs.cachedFatData, dev`failures
    ensures fs.Coherent(dev.image) && old(dev.failures) <= dev.failures
    ensures dev.failures == old(dev.failures) ==>
              hit == ScanSectors(DirSectors(dev.image, fs.Geo(), dirCluster, chain), name, EMPTY_LFN).0
    ensures dev.failures != old(dev.failures) ==> hit == None
  {
    hide ScanSectors;
    hide RunSectors;
    hide ChainSectors;
    hide SectorsOnward;
    hide NextInChain;
    hide IsChain;
    if dirCluster == 0 {
      hit := FindInFat16Root(fs, dev, name);
      return;
    }
    ghost var img, g, k := dev.image, fs.Geo(), 0;
    SectorsAtEnds(img, g, chain);
    ghost var goal := ScanSectors(SectorsOnward(img, g, chain, 0), name, EMPTY_LFN).0;
    var ok: bool;
    var lfn := new LfnAccum();
    var cluster := dirCluster;
    while true
      invariant fs.Coherent(img) && fs.Geo() == g && dev.failures == old(dev.failures)
      invariant fresh(lfn) && fresh(lfn.buf) && lfn.Valid()
      invariant k < |chain| && cluster == chain[k]
      invariant ScanSectors(SectorsOnward(img, g, chain, k), name, lfn.Value()).0 == goal
      decreases |chain| - k
    {
      var base := fs.Geo().ClusterToSector(cluster);
      ScanClusterStep(img, g, chain, k, name, lfn.Value());
      ChainLink(img, g, chain, k);
      ok, hit := SearchRun(dev, base, fs.sectorsPerCluster, name, lfn);
      if !ok || hit.Some? {
        return;
      }
      var next := fs.NextCluster(dev, cluster);
      ScanNothing(name, lfn.Value());
      if next == None {
        return None;
      }
      cluster := next.value;
      k := k + 1;
    }
  }

  // ── Enumeration by index ──────────────────────────────────────────────────

  /** Outcome of counting entries: found, stopped by an end mark, or `index` entries still to skip. */
  datatype Pick = Hit(entry: DirEntry) | End | More(index: nat)

  function PickSlot(slots: seq<Slot>, index: nat): Pick
    decreases |slots|
  {
    if slots == [] then More(index)
    else if EndMark(slots[0]) then End
    else if ShortSlot(slots[0]) then
      if index == 0 then Hit(ParseDirEntry(slots[0]).value) else PickSlot(slots[1..], index - 1)
    else PickSlot(slots[1..], index)
  }

  function Continue(p: Pick, slots: seq<Slot>): Pick {
    match p
    case More(index) => PickSlot(slots, index)
    case _ => p
  }

  lemma {:induction false} PickConcat(a: seq<Slot>, b: seq<Slot>, index: nat)
    ensures PickSlot(a + b, index) == Continue(PickSlot(a, index), b)
    decreases |a|
  {
    if a == [] {
      assert a + b == b;
    } else {
      assert (a + b)[1..] == a[1..] + b;
      PickConcat(a[1..], b, index);
      if index > 0 {
        PickConcat(a[1..], b, index - 1);
      }
    }
  }

  lemma {:induction false} AllSlotsConcat(a: seq<Sector>, b: seq<Sector>)
    ensures AllSlots(a + b) == AllSlots(a) + AllSlots(b)
    decreases |a|
  {
    if a == [] {
      assert a + b == b;
    } else {
      assert (a + b)[1..] == a[1..] + b;
      AllSlotsConcat(a[1..], b);
    }
  }

  method PickInSector(s: Sector, index: nat) returns (p: Pick)
    ensures p == PickSlot(SlotsFrom(s, 0), index)
  {
    var left := index;
    for e := 0 to SLOTS_PER_SECTOR
      invariant PickSlot(SlotsFrom(s, e), left) == PickSlot(SlotsFrom(s, 0), index)
    {
      var raw := SlotAt(s, e);
      assert SlotsFrom(s, e)[1..] == SlotsFrom(s, e + 1);
      if EndMark(raw) {
        return End;
      }
      var entry := ParseDirEntry(raw);
      if entry.Some? {
        if left == 0 {
          return Hit(entry.value);
        }
        left := left - 1;
      }
    }
    p := More(left);
  }

  lemma PickRunStep(img: Image, first: nat, n: nat, s: Sector, index: nat)
    requires n > 0 && s == SectorAt(img, Wrap32(first))
    ensures PickSlot(AllSlots(RunSectors(img, first, n)), index)
         == Continue(PickSlot(SlotsFrom(s, 0), index), AllSlots(RunSectors(img, first + 1, n - 1)))
  {
    assert RunSectors(img, first, n)[1..] == RunSectors(img, first + 1, n - 1);
    PickConcat(SlotsFrom(s, 0), AllSlots(RunSectors(img, first + 1, n - 1)), index);
  }

  method PickRun(dev: BlockDevice, first: u32, n: nat, index: nat) returns (ok: bool, p: Pick)
    modifies dev`failures
    ensures ok ==> dev.failures == old(dev.failures) && p == PickSlot(AllSlots(RunSectors(dev.image, first, n)), index)
    ensures !ok ==> dev.failures > old(dev.failures)
  {
    hide PickSlot;
    hide SlotsFrom;
    ghost var img := dev.image;
    ghost var goal := PickSlot(AllSlots(RunSectors(img, first, n)), index);
    var buf := new byte[SECTOR_SIZE];
    var sector, left := first, n;
    p := More(index);
    while left > 0
      invariant dev.failures == old(dev.failures)
      invariant first <= sector && left == n - (sector - first)
      invariant p.More? && Continue(p, AllSlots(RunSectors(img, sector, left))) == goal
    {
      ok := dev.ReadSector(Wrap32(sector), buf);
      if !ok {
        return;
      }
      PickRunStep(img, sector, left, buf[..], p.index);
      p := PickInSector(buf[..], p.index);
      if !p.More? {
        return;
      }
      sector, left := sector + 1, left - 1;
    }
    PickNothing(p.index);
    ok := true;
  }

  lemma PickNothing(index: nat)
    ensures PickSlot([], index) == More(index)
  {
  }

  function Picked(p: Pick): Option<DirEntry> {
    match p
    case Hit(e) => Some(e)
    case _ => None
  }

  /** What one cluster of a chain contributes to the count. */
  lemma PickClusterStep(img: Image, g: Geometry, chain: seq<u32>, k: nat, index: nat)
    requires k < |chain|
    ensures var here := RunSectors(img, g.ClusterToSector(chain[k]), g.sectorsPerCluster);
            PickSlot(AllSlots(SectorsOnward(img, g, chain, k)), index)
            == Continue(PickSlot(AllSlots(here), index), AllSlots(SectorsOnward(img, g, chain, k + 1)))
  {
    var here := RunSectors(img, g.ClusterToSector(chain[k]), g.sectorsPerCluster);
    var rest := SectorsOnward(img, g, chain, k + 1);
    SectorsStep(img, g, chain, k);
    AllSlotsConcat(here, rest);
    PickConcat(AllSlots(here), AllSlots(rest), index);
  }

  ghost predicate CountEnds(img: Image, g: Geometry, first: u32, index: nat, chain: seq<u32>)
    requires g.Usable()
  {
    && StartsChain(img, g, first, chain)
    && (ChainEnds(img, g, chain) || !PickSlot(AllSlots(ChainSectors(img, g, chain)), index).More?)
  }

  /** The entry at a position of the directory, counting 8.3 entries only. */
  method ReadDirEntryAtIndex(fs: FatState, dev: BlockDevice, dirCluster: u32, index: nat, ghost chain: seq<u32>)
    returns (entry: Option<DirEntry>)
    requires fs.Geo().Usable() && fs.Coherent(dev.image)
    requires dirCluster != 0 ==> CountEnds(dev.image, fs.Geo(), dirCluster, index, chain)
    modifies fs`cachedFatSector, fs.cachedFatData, dev`failures
    ensures fs.Coherent(dev.image) && old(dev.failures) <= dev.failures
    ensures dev.failures == old(dev.failures) ==>
              entry == Picked(PickSlot(AllSlots(DirSectors(dev.image, fs.Geo(), dirCluster, chain)), index))
    ensures dev.failures != old(dev.failures) ==> entry == None
  {
    hide PickSlot;
    hide RunSectors;
    hide ChainSectors;
    hide SectorsOnward;
    hide NextInChain;
    hide IsChain;
    ghost var img, g := dev.image, fs.Geo();
    var ok: bool;
    var p := More(index);
    if dirCluster == 0 {
      var (rootStart, rootSectors) := RootArea(fs.Geo());
      ok, p := PickRun(dev, rootStart, rootSectors, index);
      return if ok then Picked(p) else None;
    }
    var cluster := dirCluster;
    ghost var k := 0;
    SectorsAtEnds(img, g, chain);
    ghost var goal := PickSlot(AllSlots(SectorsOnward(img, g, chain, 0)), index);
    while true
      invariant fs.Coherent(img) && fs.Geo() == g && dev.failures == old(dev.failures)
      invariant k < |chain| && cluster == chain[k]
      invariant p.More? && PickSlot(AllSlots(SectorsOnward(img, g, chain, k)), p.index) == goal
      decreases |chain| - k
    {
      var base := fs.Geo().ClusterToSector(cluster);
      PickClusterStep(img, g, chain, k, p.index);
      ChainLink(img, g, chain, k);
      ok, p := PickRun(dev, base, fs.sectorsPerCluster, p.index);
      if !ok {
        return None;
      }
      if !p.More? {
        return Picked(p);
      }
      var next := fs.NextCluster(dev, cluster);
      PickNothing(p.index);
      if next == None {
        return None;
      }
      cluster := next.value;
      k := k + 1;
    }
  }
}
