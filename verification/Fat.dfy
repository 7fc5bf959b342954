/** The FAT driver's geometry, cached FAT lookup and file reads (fs/fat/src/{bpb,fat}.rs). */
module Fat {
  import Arith
  import opened Bytes

  const SECTOR_SIZE: nat := 512

  type Sector = s: seq<byte> | |s| == SECTOR_SIZE witness Zeros(SECTOR_SIZE)

  /** Contents of the partition: sector number to 512 bytes. */
  type Image = nat -> Sector

  function SectorAt(img: Image, n: nat): (s: seq<byte>)
    ensures |s| == SECTOR_SIZE
  {
    img(n)
  }

  /** Value of `cached_fat_sector` while nothing is cached; no FAT entry lies in that sector. */
  const NO_SECTOR: u32 := 0xFFFF_FFFF

  datatype FatType = Fat16 | Fat32

  /** The mounted volume's layout: every field of the source's `FatState` but its cache. */
  datatype Geometry = Geometry(
    fatType: FatType,
    bytesPerSector: u16,
    sectorsPerCluster: byte,
    reservedSectors: u16,
    numFats: byte,
    rootEntryCount: u16,
    fatSize: u32,
    rootCluster: u32,
    dataStartSector: u32)
  {
    /** Layouts the driver can read: its block device has 512-byte sectors. */
    predicate Usable() {
      bytesPerSector == SECTOR_SIZE && sectorsPerCluster > 0
    }

    function ClusterSize(): nat { sectorsPerCluster * bytesPerSector }

    function ClusterToSector(cluster: u32): u32 {
      Wrap32(dataStartSector + Wrap32(Wrap32(cluster - 2) * sectorsPerCluster))
    }

    function SectorInCluster(cluster: u32, s: nat): u32 { Wrap32(ClusterToSector(cluster) + s) }
  }

  // ── What the FAT on disk says ─────────────────────────────────────────────

  function EntryWidth(t: FatType): nat {
    match t case Fat16 => 2 case Fat32 => 4
  }

  /** Byte offset of a cluster's entry from the start of the first FAT. */
  function EntryOffset(t: FatType, cluster: u32): (off: u32)
    ensures off % EntryWidth(t) == 0
  {
    match t
    case Fat16 => Wrap32(cluster * 2)
    case Fat32 => Wrap32(cluster * 4)
  }

  function DecodeEntry(t: FatType, data: Sector, at: nat): (next: Option<u32>)
    requires at + EntryWidth(t) <= SECTOR_SIZE
  {
    match t
    case Fat16 =>
      var raw := LeValue(data[at..at + 2]);
      if raw >= 0xFFF7 then None else Some(raw)
    case Fat32 =>
      var raw := LeValue(data[at..at + 4]) % 0x1000_0000;
      if raw >= 0x0FFF_FFF7 then None else Some(raw)
  }

  lemma EntryInSector(off: u32, width: nat)
    requires (width == 2 || width == 4) && off % width == 0
    ensures off / SECTOR_SIZE < 0x80_0000 && off % SECTOR_SIZE + width <= SECTOR_SIZE
  {
    var q, r := off / SECTOR_SIZE, off % SECTOR_SIZE;
    if width == 2 {
      assert r == 2 * (off / 2 - 256 * q);
    } else {
      assert r == 4 * (off / 4 - 128 * q);
    }
  }

  /** Sector of the FAT and offset in it where a cluster's entry lies. */
  function EntryPlace(g: Geometry, cluster: u32): (p: (u32, nat))
    requires g.Usable()
    ensures p.0 < NO_SECTOR && p.1 + EntryWidth(g.fatType) <= SECTOR_SIZE
  {
    var off := EntryOffset(g.fatType, cluster);
    EntryInSector(off, EntryWidth(g.fatType));
    (g.reservedSectors + off / SECTOR_SIZE, off % SECTOR_SIZE)
  }

  /** The successor of `cluster`, decoded straight from the disk image: the reference for the cached lookup. */
  function NextInChain(img: Image, g: Geometry, cluster: u32): (next: Option<u32>)
    requires g.Usable()
  {
    var (sector, at) := EntryPlace(g, cluster);
    DecodeEntry(g.fatType, SectorAt(img, sector), at)
  }

  /** The cluster `k` links after `start`. */
  function ClusterAt(img: Image, g: Geometry, start: u32, k: nat): Option<u32>
    requires g.Usable()
    decreases k
  {
    if k == 0 then Some(start) else
      match NextInChain(img, g, start)
      case None => None
      case Some(c) => ClusterAt(img, g, c, k - 1)
  }

  // ── What a file is ────────────────────────────────────────────────────────

  ghost predicate IsChain(img: Image, g: Geometry, chain: seq<u32>)
    requires g.Usable()
  {
    forall i :: 0 <= i < |chain| - 1 ==> NextInChain(img, g, chain[i]) == Some(chain[i + 1])
  }

  /** A data cluster whose sectors all have 32-bit numbers. */
  predicate DataCluster(g: Geometry, c: u32) {
    2 <= c && g.dataStartSector + (c - 1) * g.sectorsPerCluster <= TWO32
  }

  ghost predicate DataClusters(g: Geometry, chain: seq<u32>) {
    forall i :: 0 <= i < |chain| ==> DataCluster(g, chain[i])
  }

  function FirstSector(g: Geometry, c: u32): nat
    requires DataCluster(g, c)
  {
    Arith.MulMono(0, c - 2, g.sectorsPerCluster);
    g.dataStartSector + (c - 2) * g.sectorsPerCluster
  }

  /** The `n` sectors from `first` on. */
  function SectorRun(img: Image, first: nat, n: nat): (ss: seq<seq<byte>>)
    ensures |ss| == n
    ensures forall s :: 0 <= s < n ==> ss[s] == SectorAt(img, first + s)
    decreases n
  {
    if n == 0 then [] else [SectorAt(img, first)] + SectorRun(img, first + 1, n - 1)
  }

  function ClusterSectors(img: Image, g: Geometry, c: u32): (ss: seq<seq<byte>>)
    requires DataCluster(g, c)
  {
    SectorRun(img, FirstSector(g, c), g.sectorsPerCluster)
  }

  function ClusterBytes(img: Image, g: Geometry, c: u32): seq<byte>
    requires DataCluster(g, c)
  {
    Flatten(ClusterSectors(img, g, c))
  }

  function ChainBlocks(img: Image, g: Geometry, chain: seq<u32>): seq<seq<byte>>
    requires DataClusters(g, chain)
  {
    seq(|chain|, i requires 0 <= i < |chain| => ClusterBytes(img, g, chain[i]))
  }

  function ChainBytes(img: Image, g: Geometry, chain: seq<u32>): seq<byte>
    requires DataClusters(g, chain)
  {
    Flatten(ChainBlocks(img, g, chain))
  }

  /** `chain` starts at `start`, follows the FAT, stays inside the data region and is long enough for `size` bytes. */
  ghost predicate HoldsFile(img: Image, g: Geometry, start: u32, size: u32, chain: seq<u32>) {
    && g.Usable()
    && (size > 0 ==> chain != [] && chain[0] == start)
    && IsChain(img, g, chain)
    && DataClusters(g, chain)
    && size <= |chain| * g.ClusterSize()
  }

  /** A file is the concatenation of its clusters cut to its size. */
  ghost function FileBytes(img: Image, g: Geometry, start: u32, size: u32, chain: seq<u32>): (bs: seq<byte>)
    requires HoldsFile(img, g, start, size, chain)
    ensures |bs| == size
  {
    BlocksAligned(img, g, chain);
    ChainBytes(img, g, chain)[..size]
  }

  lemma BlocksAligned(img: Image, g: Geometry, chain: seq<u32>)
    requires g.Usable() && DataClusters(g, chain)
    ensures forall i :: 0 <= i < |chain| ==> |ChainBlocks(img, g, chain)[i]| == g.ClusterSize()
    ensures |ChainBytes(img, g, chain)| == |chain| * g.ClusterSize()
  {
    forall i | 0 <= i < |chain| ensures |ChainBlocks(img, g, chain)[i]| == g.ClusterSize() {
      FlattenLength(ClusterSectors(img, g, chain[i]), SECTOR_SIZE);
    }
    FlattenLength(ChainBlocks(img, g, chain), g.ClusterSize());
  }

  // ── One read ──────────────────────────────────────────────────────────────

  datatype FileRead = FileRead(startCluster: u32, fileSize: u32, offset: u64, maxLen: u64)

  /** Bytes one read can deliver: up to the end of the request, of the file and of the sector. */
  function ReadLength(req: FileRead): nat
    requires req.offset < req.fileSize
  {
    Min(Min(req.maxLen, req.fileSize - req.offset), SECTOR_SIZE - req.offset % SECTOR_SIZE)
  }

  /** Position of a file offset: links to follow, sector within the cluster, byte within the sector. */
  function Locate(g: Geometry, offset: nat): (p: (nat, nat, nat))
    requires g.Usable()
    ensures p.1 < g.sectorsPerCluster && p.2 == offset % SECTOR_SIZE
    ensures offset == p.0 * g.ClusterSize() + p.1 * SECTOR_SIZE + p.2
  {
    Arith.NestedMod(offset, g.sectorsPerCluster, SECTOR_SIZE);
    var (q, r) := SplitAt(offset, g.ClusterSize());
    (q, r / SECTOR_SIZE, r % SECTOR_SIZE)
  }

  function SplitAt(x: nat, d: nat): (p: (nat, nat))
    requires d > 0
    ensures p.0 == x / d && p.1 == x % d && x == p.0 * d + p.1
  {
    (x / d, x % d)
  }

  /** What the chain walk and the sector fetch deliver on any volume, broken chains included. */
  function ReadOutcome(img: Image, g: Geometry, req: FileRead): (bs: seq<byte>)
    requires g.Usable()
    ensures |bs| <= SECTOR_SIZE
  {
    if req.offset >= req.fileSize then [] else
      var (links, s, at) := Locate(g, req.offset);
      match ClusterAt(img, g, req.startCluster, links)
      case None => []
      case Some(c) => SectorAt(img, g.SectorInCluster(c, s))[at..at + ReadLength(req)]
  }

  lemma {:induction false} ChainWalk(img: Image, g: Geometry, chain: seq<u32>, k: nat)
    requires g.Usable() && IsChain(img, g, chain) && k < |chain|
    ensures ClusterAt(img, g, chain[0], k) == Some(chain[k])
    decreases k
  {
    if k > 0 {
      ChainWalk(img, g, chain[1..], k - 1);
    }
  }

  lemma ClusterFits(g: Geometry, c: u32, s: nat)
    requires DataCluster(g, c) && s < g.sectorsPerCluster
    ensures g.SectorInCluster(c, s) == FirstSector(g, c) + s
  {
    var before := (c - 2) * g.sectorsPerCluster;
    assert (c - 1) * g.sectorsPerCluster == before + g.sectorsPerCluster;
    Arith.MulMono(0, c - 2, g.sectorsPerCluster);
    Wrap32Same(before);
    Wrap32Same(c - 2);
    Wrap32Same(g.dataStartSector + before);
    Wrap32Same(g.dataStartSector + before + s);
  }

  /** Sector `s` of the chain's `k`-th cluster, seen as bytes of the concatenated clusters. */
  lemma ChainSector(img: Image, g: Geometry, chain: seq<u32>, k: nat, s: nat)
    requires g.Usable() && k < |chain| && s < g.sectorsPerCluster
    requires DataClusters(g, chain)
    ensures var at := k * g.ClusterSize() + s * SECTOR_SIZE;
            && 0 <= at <= at + SECTOR_SIZE <= |ChainBytes(img, g, chain)|
            && ChainBytes(img, g, chain)[at..at + SECTOR_SIZE]
               == SectorAt(img, g.SectorInCluster(chain[k], s))
  {
    BlocksAligned(img, g, chain);
    FlattenBlock(ChainBlocks(img, g, chain), g.ClusterSize(), k);
    FlattenBlock(ClusterSectors(img, g, chain[k]), SECTOR_SIZE, s);
    Subslice(ChainBytes(img, g, chain), k * g.ClusterSize(), (k + 1) * g.ClusterSize(),
             s * SECTOR_SIZE, (s + 1) * SECTOR_SIZE);
    ClusterFits(g, chain[k], s);
  }

  lemma Subslice<T>(xs: seq<T>, lo: nat, hi: nat, from: nat, to: nat)
    requires lo <= hi <= |xs| && from <= to <= hi - lo
    ensures xs[lo..hi][from..to] == xs[lo + from..lo + to]
  {
    var inner, outer := xs[lo..hi][from..to], xs[lo + from..lo + to];
    forall i | 0 <= i < |inner| ensures inner[i] == outer[i] {
    }
  }

  lemma SliceOfPrefix<T>(xs: seq<T>, base: nat, at: nat, len: nat, size: nat)
    requires base + SECTOR_SIZE <= |xs| && at + len <= SECTOR_SIZE && base + at + len <= size <= |xs|
    ensures xs[base..base + SECTOR_SIZE][at..at + len] == xs[..size][base + at..base + at + len]
  {
    Subslice(xs, base, base + SECTOR_SIZE, at, at + len);
    Subslice(xs, 0, size, base + at, base + at + len);
  }

  lemma LinksWithinChain(g: Geometry, offset: nat, size: nat, n: nat)
    requires g.Usable() && offset < size <= n * g.ClusterSize()
    ensures Locate(g, offset).0 < n
  {
    var k := Locate(g, offset).0;
    if n <= k {
      Arith.MulMono(n, k, g.ClusterSize());
    }
  }

  /** On a well-formed file every read returns exactly bytes `[offset, offset + n)` of the file. */
  lemma ReadsAreFileSlices(img: Image, g: Geometry, req: FileRead, chain: seq<u32>)
    requires HoldsFile(img, g, req.startCluster, req.fileSize, chain)
    ensures req.offset >= req.fileSize ==> ReadOutcome(img, g, req) == []
    ensures req.offset < req.fileSize ==>
              && req.offset + ReadLength(req) <= req.fileSize
              && ReadOutcome(img, g, req)
                 == FileBytes(img, g, req.startCluster, req.fileSize, chain)[req.offset..req.offset + ReadLength(req)]
  {
    hide ChainBytes;
    hide NextInChain;
    hide DataClusters;
    if req.offset < req.fileSize {
      var (links, s, at) := Locate(g, req.offset);
      var cs := g.ClusterSize();
      LinksWithinChain(g, req.offset, req.fileSize, |chain|);
      ChainWalk(img, g, chain, links);
      ChainSector(img, g, chain, links, s);
      BlocksAligned(img, g, chain);
      SliceOfPrefix(ChainBytes(img, g, chain), links * cs + s * SECTOR_SIZE, at, ReadLength(req), req.fileSize);
    }
  }
}
