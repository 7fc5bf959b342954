/** The FAT driver as it runs: block reads that may fail, the one-sector FAT cache, mounting and reading. */
module FatDriver {
  import opened Bytes
  import opened Fat

  /** The partition-scoped block endpoint. A read either delivers the sector or fails and leaves the buffer alone. */
  class BlockDevice {
    const image: Image
    var failures: nat

    constructor (image: Image)
      ensures this.image == image && failures == 0
    {
      this.image := image;
      failures := 0;
    }

    method ReadSector(sector: nat, buf: array<byte>) returns (ok: bool)
      requires buf.Length == SECTOR_SIZE
      modifies this`failures, buf
      ensures ok ==> failures == old(failures) && buf[..] == SectorAt(image, sector)
      ensures !ok ==> failures == old(failures) + 1 && buf[..] == old(buf[..])
    {
      ok := *;
      if ok {
        var data := SectorAt(image, sector);
        forall i | 0 <= i < SECTOR_SIZE {
          buf[i] := data[i];
        }
      } else {
        failures := failures + 1;
      }
    }
  }

  /** Fetches a sector into a scratch buffer and copies `len` of its bytes out. */
  method CopyFromSector(dev: BlockDevice, sector: nat, at: nat, len: nat, out: array<byte>) returns (n: nat)
    requires out.Length == SECTOR_SIZE && at + len <= SECTOR_SIZE
    modifies dev`failures, out
    ensures n <= SECTOR_SIZE && out[n..] == old(out[n..])
    ensures dev.failures == old(dev.failures) ==> out[..n] == SectorAt(dev.image, sector)[at..at + len]
    ensures dev.failures != old(dev.failures) ==> n == 0 && dev.failures == old(dev.failures) + 1
  {
    var buf := new byte[SECTOR_SIZE];
    var ok := dev.ReadSector(sector, buf);
    if !ok {
      return 0;
    }
    n := len;
    forall i | 0 <= i < n {
      out[i] := buf[at + i];
    }
    assert out[..n] == buf[..][at..at + n];
  }

  datatype MountReply = Success | IoError | NotFound

  predicate BootSignature(s: Sector) { s[510] == 0x55 && s[511] == 0xAA }

  function Le16(s: Sector, at: nat): u16
    requires at + 2 <= SECTOR_SIZE
  {
    var low: int, high: int := s[at], s[at + 1];
    low + 0x100 * high
  }

  function Le32(s: Sector, at: nat): u32
    requires at + 4 <= SECTOR_SIZE
  {
    Le16(s, at) + 0x1_0000 * Le16(s, at + 2)
  }

  /** The divisor fields a boot sector must not leave at zero. */
  predicate Divisors(s: Sector) { Le16(s, 11) != 0 && s[13] != 0 }

  /** The layout section 3.1 of the Microsoft FAT specification gives to a boot sector, in `u32` arithmetic. */
  function BootSectorGeometry(s: Sector): Geometry
    requires Divisors(s)
  {
    var fatSize := if Le16(s, 22) != 0 then Le16(s, 22) else Le32(s, 36);
    var total := if Le16(s, 19) != 0 then Le16(s, 19) else Le32(s, 32);
    var rootSectors := DivCeil(Le16(s, 17) * 32, Le16(s, 11));
    var dataStart := Wrap32(Le16(s, 14) + Wrap32(s[16] * fatSize) + rootSectors);
    var clusters := Max(total - dataStart, 0) / s[13];
    Geometry(if clusters < 65525 then Fat16 else Fat32, Le16(s, 11), s[13], Le16(s, 14), s[16],
             Le16(s, 17), fatSize, Le32(s, 44), dataStart)
  }

  class FatState {
    var fatType: FatType
    var bytesPerSector: u16
    var sectorsPerCluster: byte
    var reservedSectors: u16
    var numFats: byte
    var rootEntryCount: u16
    var fatSize: u32
    var rootCluster: u32
    var dataStartSector: u32
    var cachedFatSector: u32
    const cachedFatData: array<byte>

    function Geo(): Geometry
      reads this
    {
      Geometry(fatType, bytesPerSector, sectorsPerCluster, reservedSectors, numFats, rootEntryCount,
               fatSize, rootCluster, dataStartSector)
    }

    /** The cache is empty or holds exactly the disk sector it claims to hold. */
    ghost predicate Coherent(img: Image)
      reads this, cachedFatData
    {
      && cachedFatData.Length == SECTOR_SIZE
      && (cachedFatSector == NO_SECTOR || cachedFatData[..] == SectorAt(img, cachedFatSector))
    }

    constructor ()
      ensures fresh(cachedFatData) && fatSize == 0 && Geo().Usable()
      ensures forall img: Image :: Coherent(img)
    {
      fatType, bytesPerSector, sectorsPerCluster, reservedSectors := Fat32, 512, 1, 0;
      numFats, rootEntryCount, fatSize, rootCluster, dataStartSector := 2, 0, 0, 2, 0;
      cachedFatSector := NO_SECTOR;
      cachedFatData := new byte[SECTOR_SIZE](_ => 0);
    }

    /** Cached lookup: whatever was looked up, read or mounted before, it agrees with the FAT on disk. */
    method NextCluster(dev: BlockDevice, cluster: u32) returns (next: Option<u32>)
      requires Geo().Usable() && Coherent(dev.image)
      modifies this`cachedFatSector, cachedFatData, dev`failures
      ensures Coherent(dev.image)
      ensures dev.failures == old(dev.failures) ==> next == NextInChain(dev.image, Geo(), cluster)
      ensures dev.failures != old(dev.failures) ==> next == None && dev.failures == old(dev.failures) + 1
      ensures dev.failures != old(dev.failures) ==>
                cachedFatSector == old(cachedFatSector) && cachedFatData[..] == old(cachedFatData[..])
    {
      var (fatSector, entryOffset) := EntryPlace(Geo(), cluster);
      if cachedFatSector != fatSector {
        var ok := dev.ReadSector(fatSector, cachedFatData);
        if !ok {
          return None;
        }
        cachedFatSector := fatSector;
      }
      next := DecodeEntry(fatType, cachedFatData[..], entryOffset);
    }

    /** Follows `links` FAT entries from `start`; `None` on a premature end of chain or a failed read. */
    method WalkChain(dev: BlockDevice, start: u32, links: nat) returns (cluster: Option<u32>)
      requires Geo().Usable() && Coherent(dev.image)
      modifies this`cachedFatSector, cachedFatData, dev`failures
      ensures Coherent(dev.image) && old(dev.failures) <= dev.failures
      ensures dev.failures == old(dev.failures) ==> cluster == ClusterAt(dev.image, Geo(), start, links)
      ensures dev.failures != old(dev.failures) ==> cluster == None
    {
      var current := start;
      for i := 0 to links
        invariant Coherent(dev.image) && dev.failures == old(dev.failures)
        invariant ClusterAt(dev.image, Geo(), current, links - i) == ClusterAt(dev.image, Geo(), start, links)
      {
        var next := NextCluster(dev, current);
        if next == None {
          return None;
        }
        current := next.value;
      }
      cluster := Some(current);
    }

    /** One read of at most a sector. Any failed block read makes it deliver nothing. */
    method ReadFileData(dev: BlockDevice, req: FileRead, out: array<byte>) returns (n: nat)
      requires Geo().Usable() && Coherent(dev.image)
      requires out.Length == SECTOR_SIZE && out != cachedFatData
      modifies this`cachedFatSector, cachedFatData, dev`failures, out
      ensures Coherent(dev.image)
      ensures old(dev.failures) <= dev.failures
      ensures n <= SECTOR_SIZE && out[n..] == old(out[n..])
      ensures dev.failures == old(dev.failures) ==> out[..n] == ReadOutcome(dev.image, Geo(), req)
      ensures dev.failures > old(dev.failures) ==> n == 0
    {
      if req.offset >= req.fileSize {
        return 0;
      }
      var toRead := Min(Min(req.maxLen, req.fileSize - req.offset), SECTOR_SIZE);
      var (clusterIdx, sectorInCluster, offsetInSector) := Locate(Geo(), req.offset);
      var cluster := WalkChain(dev, req.startCluster, clusterIdx);
      if cluster == None {
        return 0;
      }
      var copyLen := Min(toRead, SECTOR_SIZE - offsetInSector);
      n := CopyFromSector(dev, Geo().SectorInCluster(cluster.value, sectorInCluster), offsetInSector, copyLen, out);
    }

    /** Field-by-field decoding of sector 0; a rejected sector may already have replaced the first fields. */
    method ParseBpb(s: Sector) returns (ok: bool)
      modifies this`fatType, this`bytesPerSector, this`sectorsPerCluster, this`reservedSectors, this`numFats,
               this`rootEntryCount, this`fatSize, this`rootCluster, this`dataStartSector
      ensures ok <==> BootSignature(s) && Divisors(s)
      ensures ok ==> Geo() == BootSectorGeometry(s)
      ensures !ok ==> fatSize == old(fatSize)
      ensures !BootSignature(s) ==> Geo() == old(Geo())
    {
      if s[510] != 0x55 || s[511] != 0xAA {
        return false;
      }
      bytesPerSector := Le16(s, 11);
      sectorsPerCluster := s[13];
      reservedSectors := Le16(s, 14);
      numFats := s[16];
      rootEntryCount := Le16(s, 17);
      if bytesPerSector == 0 || sectorsPerCluster == 0 {
        return false;
      }
      var totalSectors16, fatSize16 := Le16(s, 19), Le16(s, 22);
      var totalSectors32, fatSize32 := Le32(s, 32), Le32(s, 36);
      rootCluster := Le32(s, 44);
      fatSize := if fatSize16 != 0 then fatSize16 else fatSize32;
      var totalSectors := if totalSectors16 != 0 then totalSectors16 else totalSectors32;
      var rootDirSectors := DivCeil(rootEntryCount * 32, bytesPerSector);
      dataStartSector := Wrap32(reservedSectors + Wrap32(numFats * fatSize) + rootDirSectors);
      var dataSectors := Max(totalSectors - dataStartSector, 0);
      var totalClusters := dataSectors / sectorsPerCluster;
      fatType := if totalClusters < 65525 then Fat16 else Fat32;
      ok := true;
    }

    /** FS_MOUNT: validates once; a mounted volume answers success without touching anything. */
    method Mount(dev: BlockDevice) returns (reply: MountReply)
      requires Coherent(dev.image)
      modifies this, dev`failures
      ensures Coherent(dev.image)
      ensures cachedFatSector == old(cachedFatSector)
      ensures old(fatSize) != 0 ==> reply == Success && Geo() == old(Geo()) && dev.failures == old(dev.failures)
      ensures old(fatSize) == 0 && dev.failures == old(dev.failures) ==>
                var s: Sector := SectorAt(dev.image, 0);
                && (reply == Success <==> BootSignature(s) && Divisors(s))
                && (reply == Success ==> Geo() == BootSectorGeometry(s))
      ensures dev.failures != old(dev.failures) ==> reply == IoError && Geo() == old(Geo())
    {
      if fatSize != 0 {
        return Success;
      }
      var buf := new byte[SECTOR_SIZE];
      var ok := dev.ReadSector(0, buf);
      if !ok {
        return IoError;
      }
      var parsed := ParseBpb(buf[..]);
      reply := if parsed then Success else NotFound;
    }
  }
}
