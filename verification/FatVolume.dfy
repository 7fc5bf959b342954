/** Formatted volumes: what the bytes of boot sector, FAT and data area say, and that the driver reads just that. */
module FatVolume {
  import Arith
  import opened Bytes
  import opened Fat
  import opened FatDriver
  import opened FatDir
  import opened FatPath

  /** What `mkfs` decides; sectors have 512 bytes. */
  datatype Format = Format(
    sectorsPerCluster: byte, reserved: u16, fats: byte, rootEntries: u16, total: u32, fatSize: u32, rootCluster: u32)
  {
    /** The regions follow each other: reserved sectors, FATs, fixed root directory, clusters. */
    function RootStart(): nat { reserved + fats * fatSize }

    /** Sixteen 32-byte entries to a sector. */
    function RootSectors(): nat { DivCeil(rootEntries, 16) }

    function DataStart(): nat { RootStart() + RootSectors() }

    predicate Fits() { sectorsPerCluster > 0 && DataStart() <= total }

    function Clusters(): nat
      requires Fits()
    {
      (total - DataStart()) / sectorsPerCluster
    }

    /** Section 3.5 of the Microsoft FAT specification: the number of clusters decides the type. */
    function Type(): FatType
      requires Fits()
    {
      if Clusters() < 65525 then Fat16 else Fat32
    }

    function Layout(): Geometry
      requires Fits()
    {
      Geometry(Type(), 512, sectorsPerCluster, reserved, fats, rootEntries, fatSize, rootCluster, DataStart())
    }
  }

  // ── The boot sector ───────────────────────────────────────────────────────

  /** A number in its 16-bit field, or in its 32-bit field with zero in the other. */
  predicate Either(s: Sector, small: nat, large: nat, v: u32)
    requires small + 2 <= SECTOR_SIZE && large + 4 <= SECTOR_SIZE
  {
    || (0 < v < TWO16 && s[small..small + 2] == LeBytes(v, 2))
    || (s[small..small + 2] == LeBytes(0, 2) && s[large..large + 4] == LeBytes(v, 4))
  }

  /** The boot sector of a volume of this format. */
  predicate Says(s: Sector, f: Format) {
    && s[11..13] == LeBytes(512, 2) && s[13] == f.sectorsPerCluster
    && s[14..16] == LeBytes(f.reserved, 2) && s[16] == f.fats && s[17..19] == LeBytes(f.rootEntries, 2)
    && Either(s, 19, 32, f.total) && Either(s, 22, 36, f.fatSize)
    && s[44..48] == LeBytes(f.rootCluster, 4)
    && s[510] == 0x55 && s[511] == 0xAA
  }

  lemma Le16Is(s: Sector, at: nat, v: nat)
    requires at + 2 <= SECTOR_SIZE && v < TWO16
    ensures Le16(s, at) == v <==> s[at..at + 2] == LeBytes(v, 2)
  {
    var bs := s[at..at + 2];
    FieldSizes();
    ByteOrder(bs[0], bs[1], 0, 0);
    assert bs == [bs[0], bs[1]];
    LeField(bs, v);
  }

  lemma Le32Is(s: Sector, at: nat, v: nat)
    requires at + 4 <= SECTOR_SIZE && v < TWO32
    ensures Le32(s, at) == v <==> s[at..at + 4] == LeBytes(v, 4)
  {
    var bs := s[at..at + 4];
    FieldSizes();
    ByteOrder(bs[0], bs[1], bs[2], bs[3]);
    assert bs == [bs[0], bs[1], bs[2], bs[3]];
    LeField(bs, v);
  }

  lemma EitherIs(s: Sector, small: nat, large: nat, v: u32)
    requires small + 2 <= SECTOR_SIZE && large + 4 <= SECTOR_SIZE && Either(s, small, large, v)
    ensures v == if Le16(s, small) != 0 then Le16(s, small) else Le32(s, large)
  {
    hide LeBytes;
    hide Le16;
    hide Le32;
    Le16Is(s, small, 0);
    Le32Is(s, large, v);
    if v < TWO16 {
      Le16Is(s, small, v);
    }
  }

  lemma RootDirectory(entries: u16)
    ensures DivCeil(entries * 32, 512) == DivCeil(entries, 16)
  {
  }

  lemma FieldsRead(s: Sector, f: Format)
    requires Says(s, f)
    ensures Le16(s, 11) == 512 && s[13] == f.sectorsPerCluster && Le16(s, 14) == f.reserved && s[16] == f.fats
    ensures Le16(s, 17) == f.rootEntries && Le32(s, 44) == f.rootCluster && BootSignature(s)
    ensures f.total == if Le16(s, 19) != 0 then Le16(s, 19) else Le32(s, 32)
    ensures f.fatSize == if Le16(s, 22) != 0 then Le16(s, 22) else Le32(s, 36)
  {
    hide LeBytes;
    hide Le16;
    hide Le32;
    hide Either;
    Le16Is(s, 11, 512);
    Le16Is(s, 14, f.reserved);
    Le16Is(s, 17, f.rootEntries);
    Le32Is(s, 44, f.rootCluster);
    EitherIs(s, 19, 32, f.total);
    EitherIs(s, 22, 36, f.fatSize);
  }

  /** Mounting a formatted volume gives its layout. */
  lemma MountsAsFormatted(s: Sector, f: Format)
    requires f.Fits() && Says(s, f)
    ensures BootSignature(s) && Divisors(s) && BootSectorGeometry(s) == f.Layout()
  {
    hide Le16;
    hide Le32;
    hide Wrap32;
    hide Says;
    hide DivCeil;
    FieldsRead(s, f);
    RootDirectory(f.rootEntries);
    Wrap32Same(f.fats * f.fatSize);
    Wrap32Same(f.DataStart());
  }

  // ── The FAT ───────────────────────────────────────────────────────────────

  /** Two bytes to an entry on FAT16, four on FAT32. */
  function TableBytes(t: FatType, table: seq<nat>): seq<byte> {
    Flatten(TableBlocks(t, table))
  }

  function TableBlocks(t: FatType, table: seq<nat>): seq<seq<byte>> {
    seq(|table|, i requires 0 <= i < |table| => LeBytes(table[i], if t.Fat16? then 2 else 4))
  }

  /** The bytes lie on the disk from the start of a sector on. */
  ghost predicate Stored(img: Image, first: nat, bs: seq<byte>) {
    forall i :: 0 <= i < |bs| ==> SectorAt(img, first + i / 512)[i % 512] == bs[i]
  }

  /** What an entry says: the next cluster, or none for the reserved values at the top; FAT32 has 28-bit entries. */
  function Successor(t: FatType, entry: nat): Option<nat> {
    match t
    case Fat16 => if entry >= 0xFFF7 then None else Some(entry)
    case Fat32 => var v := entry % 0x1000_0000; if v >= 0x0FFF_FFF7 then None else Some(v)
  }

  predicate GoodTable(t: FatType, table: seq<nat>) {
    && |table| * (if t.Fat16? then 2 else 4) <= TWO32
    && forall i :: 0 <= i < |table| ==> table[i] < if t.Fat16? then TWO16 else TWO32
  }

  lemma InSector(off: nat, j: nat)
    requires off % 512 + j < 512
    ensures (off + j) / 512 == off / 512 && (off + j) % 512 == off % 512 + j
  {
  }

  lemma TableSlice(t: FatType, table: seq<nat>, c: nat)
    requires c < |table|
    ensures var w := if t.Fat16? then 2 else 4;
            && c * w + w <= |TableBytes(t, table)| == |table| * w
            && TableBytes(t, table)[c * w..c * w + w] == LeBytes(table[c], w)
  {
    hide LeBytes;
    hide Flatten;
    var w := if t.Fat16? then 2 else 4;
    FlattenBlock(TableBlocks(t, table), w, c);
    assert (c + 1) * w == c * w + w;
  }

  /** Stored bytes that do not cross a sector, found in their sector. */
  lemma StoredSlice(img: Image, first: nat, bs: seq<byte>, off: nat, w: nat)
    requires Stored(img, first, bs) && off + w <= |bs| && off % 512 + w <= 512
    ensures SectorAt(img, first + off / 512)[off % 512..off % 512 + w] == bs[off..off + w]
  {
    var s := SectorAt(img, first + off / 512);
    var here, there := s[off % 512..off % 512 + w], bs[off..off + w];
    forall j | 0 <= j < w ensures here[j] == there[j] {
      InSector(off, j);
      assert bs[off + j] == s[off % 512 + j];
    }
    assert here == there;
  }

  /** The bytes of entry `c`, found in the sector they lie in. */
  lemma EntryStored(img: Image, first: nat, t: FatType, table: seq<nat>, c: nat, w: nat, off: nat)
    requires GoodTable(t, table) && c < |table| && Stored(img, first, TableBytes(t, table))
    requires w == (if t.Fat16? then 2 else 4) && off == c * w
    ensures off < TWO32 && off % 512 + w <= 512
    ensures SectorAt(img, first + off / 512)[off % 512..off % 512 + w] == LeBytes(table[c], w)
  {
    hide LeBytes;
    hide TableBytes;
    hide Stored;
    TableSlice(t, table, c);
    EntryInSector(off, w);
    StoredSlice(img, first, TableBytes(t, table), off, w);
  }

  /** Following a link on disk is looking up the table. */
  lemma NextIsEntry(img: Image, g: Geometry, table: seq<nat>, c: u32)
    requires g.Usable() && GoodTable(g.fatType, table) && c < |table|
    requires Stored(img, g.reservedSectors, TableBytes(g.fatType, table))
    ensures NextInChain(img, g, c) == Successor(g.fatType, table[c])
  {
    hide LeBytes;
    hide LeValue;
    hide Pow256;
    hide Stored;
    hide TableBytes;
    FieldSizes();
    var w := if g.fatType.Fat16? then 2 else 4;
    var off := c * w;
    EntryStored(img, g.reservedSectors, g.fatType, table, c, w, off);
    Wrap32Same(off);
    assert EntryPlace(g, c) == (g.reservedSectors + off / 512, off % 512);
    LeField(LeBytes(table[c], w), table[c]);
  }

  // ── The data area ─────────────────────────────────────────────────────────

  /** The bytes fill `n` sectors from `first` on. */
  ghost predicate Fills(img: Image, first: nat, n: nat, bs: seq<byte>) {
    |bs| == n * 512 && forall s :: 0 <= s < n ==> SectorRun(img, first, n)[s] == bs[512 * s..512 * s + 512]
  }

  /** Clusters lie one behind the other from `first` on, `n` sectors each; the first of them has number 2. */
  ghost predicate DataStored(img: Image, first: nat, n: nat, clusters: seq<seq<byte>>) {
    forall k :: 0 <= k < |clusters| ==> Fills(img, first + k * n, n, clusters[k])
  }

  lemma {:induction false} FlattenIs(ss: seq<seq<byte>>, bs: seq<byte>)
    requires |bs| == |ss| * 512 && forall s :: 0 <= s < |ss| ==> ss[s] == bs[512 * s..512 * s + 512]
    ensures Flatten(ss) == bs
    decreases |ss|
  {
    if ss != [] {
      var rest := bs[512..];
      forall s | 0 <= s < |ss| - 1 ensures ss[1..][s] == rest[512 * s..512 * s + 512] {
        assert ss[1..][s] == ss[s + 1];
        assert rest[512 * s..512 * s + 512] == bs[512 * (s + 1)..512 * (s + 1) + 512];
      }
      FlattenIs(ss[1..], rest);
      assert ss[0] == bs[512 * 0..512 * 0 + 512] == bs[..512];
    }
  }

  lemma FillsIs(img: Image, first: nat, n: nat, bs: seq<byte>)
    requires Fills(img, first, n, bs)
    ensures Flatten(SectorRun(img, first, n)) == bs
  {
    hide Flatten;
    FlattenIs(SectorRun(img, first, n), bs);
  }

  lemma ClusterIs(img: Image, g: Geometry, clusters: seq<seq<byte>>, c: u32)
    requires g.Usable() && DataCluster(g, c) && c - 2 < |clusters|
    requires DataStored(img, g.dataStartSector, g.sectorsPerCluster, clusters)
    ensures ClusterBytes(img, g, c) == clusters[c - 2]
  {
    hide Flatten;
    hide SectorRun;
    hide Fills;
    var k := c - 2;
    Arith.MulMono(0, k, g.sectorsPerCluster);
    FillsIs(img, g.dataStartSector + k * g.sectorsPerCluster, g.sectorsPerCluster, clusters[k]);
  }

  // ── Volumes and files ─────────────────────────────────────────────────────

  /** The disk is a volume of this format with this FAT and these clusters. */
  ghost predicate Volume(img: Image, f: Format, table: seq<nat>, clusters: seq<seq<byte>>) {
    && f.Fits() && Says(SectorAt(img, 0), f)
    && GoodTable(f.Type(), table) && Stored(img, f.reserved, TableBytes(f.Type(), table))
    && |clusters| == f.Clusters() && |clusters| + 2 <= |table|
    && DataStored(img, f.DataStart(), f.sectorsPerCluster, clusters)
  }

  /** A file of the volume: the table links its clusters, and they have room for it. */
  ghost predicate FileIn(f: Format, table: seq<nat>, chain: seq<u32>, size: u32)
    requires f.Fits()
  {
    && size <= |chain| * (f.sectorsPerCluster * 512)
    && (forall i :: 0 <= i < |chain| ==> 2 <= chain[i] < f.Clusters() + 2 && chain[i] < |table|)
    && (forall i :: 0 <= i < |chain| - 1 ==> Successor(f.Type(), table[chain[i]]) == Some(chain[i + 1]))
  }

  /** The contents of the file's clusters, one after the other. */
  function Contents(clusters: seq<seq<byte>>, chain: seq<u32>): seq<byte>
    requires forall i :: 0 <= i < |chain| ==> 2 <= chain[i] < |clusters| + 2
  {
    Flatten(seq(|chain|, i requires 0 <= i < |chain| => clusters[chain[i] - 2]))
  }

  lemma ClusterInside(f: Format, c: u32)
    requires f.Fits() && 2 <= c < f.Clusters() + 2
    ensures DataCluster(f.Layout(), c)
  {
    var n, room := f.sectorsPerCluster, f.total - f.DataStart();
    Arith.MulMono(c - 1, f.Clusters(), n);
    assert room / n * n <= room;
  }

  /** Mounted, every file of the volume is there, and its bytes are those of its clusters in the order of the table. */
  lemma VolumeHoldsFile(img: Image, f: Format, table: seq<nat>, clusters: seq<seq<byte>>, chain: seq<u32>, size: u32)
    requires Volume(img, f, table, clusters) && FileIn(f, table, chain, size) && chain != []
    ensures BootSectorGeometry(SectorAt(img, 0)) == f.Layout()
    ensures HoldsFile(img, f.Layout(), chain[0], size, chain)
    ensures |Contents(clusters, chain)| >= size
    ensures FileBytes(img, f.Layout(), chain[0], size, chain) == Contents(clusters, chain)[..size]
  {
    hide NextInChain;
    hide Successor;
    hide TableBytes;
    hide Stored;
    hide ClusterBytes;
    hide DataCluster;
    hide DataStored;
    hide Says;
    hide BootSectorGeometry;
    hide GoodTable;
    hide BootSignature;
    hide Divisors;
    var g := f.Layout();
    MountsAsFormatted(SectorAt(img, 0), f);
    forall i | 0 <= i < |chain| - 1 ensures NextInChain(img, g, chain[i]) == Some(chain[i + 1]) {
      NextIsEntry(img, g, table, chain[i]);
    }
    forall i | 0 <= i < |chain|
      ensures DataCluster(g, chain[i]) && ClusterBytes(img, g, chain[i]) == clusters[chain[i] - 2]
    {
      ClusterInside(f, chain[i]);
      ClusterIs(img, g, clusters, chain[i]);
    }
    BlocksAligned(img, g, chain);
    assert ChainBlocks(img, g, chain) == seq(|chain|, i requires 0 <= i < |chain| => clusters[chain[i] - 2]);
  }

  /** And every read of it returns the bytes of its contents at that offset. */
  lemma VolumeReads(img: Image, f: Format, table: seq<nat>, clusters: seq<seq<byte>>, chain: seq<u32>, req: FileRead)
    requires Volume(img, f, table, clusters) && FileIn(f, table, chain, req.fileSize) && chain != []
    requires req.startCluster == chain[0] && req.offset < req.fileSize
    ensures var n := Min(Min(req.maxLen, req.fileSize - req.offset), 512 - req.offset % 512);
            && req.offset + n <= |Contents(clusters, chain)|
            && ReadOutcome(img, f.Layout(), req) == Contents(clusters, chain)[req.offset..req.offset + n]
  {
    hide Says;
    hide Stored;
    hide DataStored;
    hide Successor;
    hide GoodTable;
    hide HoldsFile;
    hide FileBytes;
    hide ReadOutcome;
    hide Contents;
    VolumeHoldsFile(img, f, table, clusters, chain, req.fileSize);
    ReadsAreFileSlices(img, f.Layout(), req, chain);
    var n := ReadLength(req);
    assert Contents(clusters, chain)[..req.fileSize][req.offset..req.offset + n]
        == Contents(clusters, chain)[req.offset..req.offset + n];
  }

  // ── Directories ───────────────────────────────────────────────────────────

  lemma {:induction false} RunIs(img: Image, first: nat, n: nat)
    requires first + n <= TWO32
    ensures RunSectors(img, first, n) == SectorRun(img, first, n)
    decreases n
  {
    if n > 0 {
      Wrap32Same(first);
      RunIs(img, first + 1, n - 1);
    }
  }

  lemma RootAreaIs(f: Format)
    requires f.Fits()
    ensures RootArea(f.Layout()) == (f.RootStart(), f.RootSectors()) && f.DataStart() <= f.total
  {
    hide Wrap32;
    hide DivCeil;
    hide Format.Type;
    RootDirectory(f.rootEntries);
    Wrap32Same(f.fats * f.fatSize);
    Wrap32Same(f.RootStart());
  }

  /** The root directory: on FAT16 the sectors between the FATs and the clusters, on FAT32 the chain of its cluster. */
  lemma RootIs(img: Image, f: Format)
    requires f.Fits()
    ensures f.Type().Fat16? ==> RootOf(f.Layout()) == 0
    ensures f.Type().Fat32? ==> RootOf(f.Layout()) == f.rootCluster
    ensures RootSectors(img, f.Layout()) == SectorRun(img, f.RootStart(), f.RootSectors())
  {
    hide RunSectors;
    hide SectorRun;
    hide RootArea;
    hide Format.Type;
    RootAreaIs(f);
    RunIs(img, f.RootStart(), f.RootSectors());
  }

  lemma {:induction false} FlattenConcat<T>(a: seq<seq<T>>, b: seq<seq<T>>)
    ensures Flatten(a + b) == Flatten(a) + Flatten(b)
    decreases |a|
  {
    if a == [] {
      assert a + b == b;
    } else {
      assert (a + b)[1..] == a[1..] + b;
      FlattenConcat(a[1..], b);
    }
  }

  /** The sectors a directory search goes through hold the bytes of the directory's clusters, as a file's would. */
  lemma {:induction false} DirectoryBytes(img: Image, g: Geometry, chain: seq<u32>)
    requires g.Usable() && DataClusters(g, chain)
    ensures Flatten(ChainSectors(img, g, chain)) == ChainBytes(img, g, chain)
    decreases |chain|
  {
    hide SectorRun;
    hide RunSectors;
    hide ClusterBytes;
    if chain != [] {
      var here, rest := RunSectors(img, g.ClusterToSector(chain[0]), g.sectorsPerCluster), chain[1..];
      DirectoryCluster(img, g, chain[0]);
      DirectoryBytes(img, g, rest);
      FlattenConcat(here, ChainSectors(img, g, rest));
      assert ChainBlocks(img, g, chain)[1..] == ChainBlocks(img, g, rest);
    }
  }

  lemma DirectoryCluster(img: Image, g: Geometry, c: u32)
    requires g.Usable() && DataCluster(g, c)
    ensures Flatten(RunSectors(img, g.ClusterToSector(c), g.sectorsPerCluster)) == ClusterBytes(img, g, c)
  {
    hide Flatten;
    hide RunSectors;
    hide SectorRun;
    hide Wrap32;
    ClusterFits(g, c, 0);
    Wrap32Same(g.ClusterToSector(c));
    var first := FirstSector(g, c);
    assert first + g.sectorsPerCluster == g.dataStartSector + (c - 1) * g.sectorsPerCluster;
    RunIs(img, first, g.sectorsPerCluster);
  }
}
