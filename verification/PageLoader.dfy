/** The three ELF page loaders: init's, procmgr's from memory and procmgr's streamed from the FAT driver. */
module PageLoader {
  import opened Bytes
  import opened Fat
  import opened FatDriver
  import opened IpcWords

  const PAGE_SIZE: nat := 4096
  const IPC_BUFFER_WORDS: nat := 512

  /** Largest read procmgr asks for: word 0 of the reply is the length, 63 words remain. */
  const VFS_CHUNK_SIZE: nat := 63 * 8

  // ── What a page must hold ─────────────────────────────────────────────────

  /** Byte at address `a` of a segment whose file data starts at `segVaddr`; everything else is zero. */
  function ImageByte(segVaddr: nat, data: seq<byte>, a: nat): byte {
    if segVaddr <= a < segVaddr + |data| then data[a - segVaddr] else 0
  }

  function PageImage(pageVaddr: nat, segVaddr: nat, data: seq<byte>): (page: seq<byte>)
    ensures |page| == PAGE_SIZE
    ensures forall i :: 0 <= i < PAGE_SIZE ==> page[i] == ImageByte(segVaddr, data, pageVaddr + i)
  {
    seq<byte>(PAGE_SIZE, i requires 0 <= i < PAGE_SIZE => ImageByte(segVaddr, data, pageVaddr + i))
  }

  method ZeroPage(page: array<byte>)
    requires page.Length == PAGE_SIZE
    modifies page
    ensures page[..] == Zeros(PAGE_SIZE)
  {
    forall i | 0 <= i < PAGE_SIZE {
      page[i] := 0;
    }
  }

  method CopyInto(page: array<byte>, at: nat, src: seq<byte>)
    requires at + |src| <= page.Length
    modifies page
    ensures page[..] == old(page[..at]) + src + old(page[at + |src|..])
  {
    forall i | 0 <= i < |src| {
      page[at + i] := src[i];
    }
  }

  // ── From memory ───────────────────────────────────────────────────────────

  /** procmgr's `load_elf_page` contents. The page must reach into the segment, as its callers' pages do. */
  method FillPageProcmgr(page: array<byte>, pageVaddr: nat, segVaddr: nat, data: seq<byte>)
    requires page.Length == PAGE_SIZE && segVaddr < pageVaddr + PAGE_SIZE
    modifies page
    ensures page[..] == PageImage(pageVaddr, segVaddr, data)
  {
    ZeroPage(page);
    var pageStartInSeg := Max(pageVaddr - segVaddr, 0);
    var pageEndInSeg := pageStartInSeg + PAGE_SIZE;
    var fileStart := Min(pageStartInSeg, |data|);
    var fileEnd := Min(pageEndInSeg, |data|);
    if fileStart < fileEnd {
      var destOffset := if pageVaddr < segVaddr then segVaddr - pageVaddr else 0;
      var copyLen := Min(fileEnd - fileStart, PAGE_SIZE - destOffset);
      CopyInto(page, destOffset, data[fileStart..fileStart + copyLen]);
    }
  }

  /** init's `load_elf_page` contents. */
  method FillPageInit(page: array<byte>, pageVaddr: nat, segVaddr: nat, data: seq<byte>)
    requires page.Length == PAGE_SIZE && segVaddr < pageVaddr + PAGE_SIZE
    modifies page
    ensures page[..] == PageImage(pageVaddr, segVaddr, data)
  {
    ZeroPage(page);
    var destOffset := if pageVaddr < segVaddr then segVaddr - pageVaddr else 0;
    var segOffset := Max(pageVaddr - segVaddr, 0);
    var availInPage := PAGE_SIZE - destOffset;
    var copyLen := Min(availInPage, Max(|data| - segOffset, 0));
    if copyLen > 0 {
      CopyInto(page, destOffset, data[segOffset..segOffset + copyLen]);
    }
  }

  /** First and one-past-last page of a segment, the source's `first_page` and `last_page_end`. */
  function FirstPage(vaddr: nat): nat { vaddr - vaddr % PAGE_SIZE }

  function NumPages(vaddr: nat, memsz: nat): nat { DivCeil(vaddr % PAGE_SIZE + memsz, PAGE_SIZE) }

  /** The page loop over one LOAD segment, which maps consecutive pages. */
  method LoadSegment(vaddr: nat, memsz: nat, data: seq<byte>) returns (pages: seq<seq<byte>>)
    ensures |pages| == if memsz == 0 then 0 else NumPages(vaddr, memsz)
    ensures forall k :: 0 <= k < |pages| ==> pages[k] == PageImage(FirstPage(vaddr) + k * PAGE_SIZE, vaddr, data)
  {
    pages := [];
    if memsz == 0 {
      return;
    }
    var firstPage := vaddr / PAGE_SIZE * PAGE_SIZE;
    var lastPageEnd := (vaddr + memsz + 0xFFF) / PAGE_SIZE * PAGE_SIZE;
    var numPages := (lastPageEnd - firstPage) / PAGE_SIZE;
    var page := new byte[PAGE_SIZE];
    for idx := 0 to numPages
      invariant |pages| == idx
      invariant forall k :: 0 <= k < idx ==> pages[k] == PageImage(firstPage + k * PAGE_SIZE, vaddr, data)
    {
      FillPageProcmgr(page, firstPage + idx * PAGE_SIZE, vaddr, data);
      pages := pages + [page[..]];
    }
  }

  /** Every address of the segment falls in one of its pages and finds its file byte there, or zero behind them. */
  lemma SegmentCovered(vaddr: nat, memsz: nat, data: seq<byte>, a: nat)
    requires vaddr <= a < vaddr + memsz
    ensures var k, at := (a - FirstPage(vaddr)) / PAGE_SIZE, (a - FirstPage(vaddr)) % PAGE_SIZE;
            && k < NumPages(vaddr, memsz)
            && PageImage(FirstPage(vaddr) + k * PAGE_SIZE, vaddr, data)[at] == ImageByte(vaddr, data, a)
  {
  }

  // ── Streamed from the file system ─────────────────────────────────────────

  /** An IPC path to the driver; a call may fail without reaching it. */
  class Channel {
    var drops: nat

    constructor ()
      ensures drops == 0
    {
      drops := 0;
    }

    method Call() returns (ok: bool)
      modifies this
      ensures drops == old(drops) + if ok then 0 else 1
    {
      ok := *;
      if !ok {
        drops := drops + 1;
      }
    }
  }

  datatype OpenFile = OpenFile(token: u64, startCluster: u32, fileSize: u32)

  /** The first table entry with the token. */
  function FileOf(files: seq<OpenFile>, token: u64): (r: Option<OpenFile>)
    ensures r.Some? ==> r.value in files && r.value.token == token
    ensures r.None? ==> forall i :: 0 <= i < |files| ==> files[i].token != token
  {
    if files == [] then None else if files[0].token == token then Some(files[0]) else FileOf(files[1..], token)
  }

  lemma {:induction false} FirstWithToken(files: seq<OpenFile>, token: u64, i: nat)
    requires i < |files| && files[i].token == token && forall j :: 0 <= j < i ==> files[j].token != token
    ensures FileOf(files, token) == Some(files[i])
    decreases |files|
  {
    if i > 0 {
      assert files[0].token != token;
      FirstWithToken(files[1..], token, i - 1);
    }
  }

  /** FS_READ on the driver side: the length in word 0, the bytes packed behind it; `false` replies INVALID_TOKEN. */
  method HandleRead(fs: FatState, dev: BlockDevice, files: seq<OpenFile>, token: u64, offset: u64, maxLen: u64,
                    ipc: array<u64>)
    returns (ok: bool, count: nat)
    requires fs.Geo().Usable() && fs.Coherent(dev.image) && ipc.Length == IPC_BUFFER_WORDS
    modifies fs`cachedFatSector, fs.cachedFatData, dev`failures, ipc
    ensures fs.Coherent(dev.image) && old(dev.failures) <= dev.failures
    ensures ok <==> FileOf(files, token).Some?
    ensures !ok ==> count == 0 && dev.failures == old(dev.failures) && ipc[..] == old(ipc[..])
    ensures ok ==> ipc[0] <= SECTOR_SIZE && count == 1 + DivCeil(ipc[0], 8)
    ensures ok && dev.failures == old(dev.failures) ==>
              var bs := Answer(dev.image, fs.Geo(), files, token, offset, maxLen);
              ipc[0] == |bs| && ipc[1..count] == Pack(bs)
    ensures ok && dev.failures > old(dev.failures) ==> ipc[0] == 0
  {
    var file := FileOf(files, token);
    if file.None? {
      return false, 0;
    }
    var out := new byte[SECTOR_SIZE];
    var n := fs.ReadFileData(dev, FileRead(file.value.startCluster, file.value.fileSize, offset, maxLen), out);
    ipc[0] := n;
    var words := WriteWords(out[..n], ipc, 1);
    ok, count := true, 1 + words;
    assert ipc[..1][0] == n;
  }

  /** The bytes a read of the disk as it is answers, none for an unknown token. */
  function Answer(img: Image, g: Geometry, files: seq<OpenFile>, token: u64, offset: u64, maxLen: u64): (bs: seq<byte>)
    requires g.Usable()
    ensures |bs| <= Min(SECTOR_SIZE, maxLen)
  {
    match FileOf(files, token)
    case None => []
    case Some(f) => ReadOutcome(img, g, FileRead(f.startCluster, f.fileSize, offset, maxLen))
  }

  /** Words of the reply that reach the client: the kernel cuts a message at 64 words. */
  function Delivered(count: nat): nat { Min(count, MSG_DATA_WORDS_MAX) }

  /** All of a reply reaches the client exactly when it carries at most 504 bytes; a whole sector does not. */
  lemma ReplyFits(n: nat)
    ensures Delivered(1 + DivCeil(n, 8)) == 1 + DivCeil(n, 8) <==> n <= 504
  {
  }

  /**
   * FS_READ from the client's side. `None` when the call failed or the token is unknown. A longer reply than 504 bytes
   * is announced in full, but only its first 504 bytes arrive: the words behind them are the client's own.
   */
  method VfsRead(fs: FatState, dev: BlockDevice, ch: Channel, files: seq<OpenFile>, token: u64, offset: u64,
                 maxLen: u64, client: array<u64>)
    returns (r: Option<nat>)
    requires fs.Geo().Usable() && fs.Coherent(dev.image) && client.Length == IPC_BUFFER_WORDS
    modifies fs`cachedFatSector, fs.cachedFatData, dev`failures, ch, client
    ensures fs.Coherent(dev.image) && old(dev.failures) <= dev.failures && old(ch.drops) <= ch.drops
    ensures r == None <==> ch.drops > old(ch.drops) || FileOf(files, token).None?
    ensures dev.failures > old(dev.failures) && r.Some? ==> r == Some(0)
    ensures client[MSG_DATA_WORDS_MAX..] == old(client[MSG_DATA_WORDS_MAX..])
    ensures r.Some? && dev.failures == old(dev.failures) ==>
              var bs := Answer(dev.image, fs.Geo(), files, token, offset, maxLen);
              r == Some(|bs|) && Arrived(client[1..], bs)
  {
    hide Answer;
    hide Arrived;
    hide Pack;
    hide FatState.Coherent;
    client[0], client[1] := offset, maxLen;
    var ok := ch.Call();
    if !ok {
      return None;
    }
    var server := new u64[IPC_BUFFER_WORDS];
    var count;
    ok, count := HandleRead(fs, dev, files, token, offset, maxLen, server);
    if !ok {
      return None;
    }
    var sent := Delivered(count);
    forall i | 0 <= i < sent {
      client[i] := server[i];
    }
    r := Some(client[0]);
    if dev.failures == old(dev.failures) {
      ghost var bs := Answer(dev.image, fs.Geo(), files, token, offset, maxLen);
      ghost var packed := Pack(bs);
      assert server[1..count] == packed && sent - 1 == Min(|packed|, MSG_DATA_WORDS_MAX - 1);
      assert forall i :: 1 <= i < sent ==> client[i] == server[1..count][i - 1];
      assert client[1..][..sent - 1] == packed[..sent - 1];
      WordsArrive(client[1..], bs);
    }
  }

  /** The first 504 bytes of the answer can be read from the data words. */
  predicate Arrived(words: seq<u64>, bs: seq<byte>) {
    var n := Min(|bs|, 504);
    n <= |Unpack(words)| && Unpack(words)[..n] == bs[..n]
  }

  lemma WordsArrive(words: seq<u64>, bs: seq<byte>)
    requires var n := Min(|Pack(bs)|, MSG_DATA_WORDS_MAX - 1); n <= |words| && words[..n] == Pack(bs)[..n]
    ensures Arrived(words, bs)
  {
    hide Pack;
    hide Unpack;
    var n := Min(|Pack(bs)|, MSG_DATA_WORDS_MAX - 1);
    assert words == words[..n] + words[n..] && Pack(bs) == Pack(bs)[..n] + Pack(bs)[n..];
    UnpackConcat(words[..n], words[n..]);
    UnpackConcat(Pack(bs)[..n], Pack(bs)[n..]);
    PackRoundTrip(bs);
    var k := Min(|bs|, VFS_CHUNK_SIZE);
    assert Unpack(words)[..k] == Unpack(words[..n])[..k] == Unpack(Pack(bs))[..k] == bs[..k];
  }

  datatype Segment = Segment(vaddr: u64, offset: u64, filesz: u64, memsz: u64)

  /** Who is read from: the driver's table of open files and the token of the one in question. */
  datatype Handle = Handle(files: seq<OpenFile>, token: u64)

  /** What the reads in chunks deliver together, up to the first that delivers nothing. */
  function Fetched(img: Image, g: Geometry, h: Handle, offset: nat, count: nat): (bs: seq<byte>)
    requires g.Usable() && offset + count < TWO64
    ensures |bs| <= count
    decreases count
  {
    var first := Answer(img, g, h.files, h.token, offset, Min(VFS_CHUNK_SIZE, count));
    if first == [] then [] else first + Fetched(img, g, h, offset + |first|, count - |first|)
  }

  /** On a well-formed file one answer is the next piece of the file, empty only at its end. */
  lemma AnswerIsSlice(img: Image, g: Geometry, h: Handle, offset: nat, maxLen: nat, chain: seq<u32>)
    requires FileOf(h.files, h.token).Some? && offset + maxLen < TWO64
    requires var f := FileOf(h.files, h.token).value; HoldsFile(img, g, f.startCluster, f.fileSize, chain)
    ensures var f := FileOf(h.files, h.token).value;
            var bs := Answer(img, g, h.files, h.token, offset, maxLen);
            && (offset < f.fileSize && maxLen > 0 ==> bs != [])
            && (bs != [] ==> offset + |bs| <= f.fileSize && |bs| <= maxLen)
            && (bs != [] ==> bs == FileBytes(img, g, f.startCluster, f.fileSize, chain)[offset..offset + |bs|])
  {
    hide FileBytes;
    hide ReadOutcome;
    var f := FileOf(h.files, h.token).value;
    ReadsAreFileSlices(img, g, FileRead(f.startCluster, f.fileSize, offset, maxLen), chain);
  }

  /** On a well-formed file that is the requested slice of the file, as far as the file goes. */
  lemma {:induction false} FetchedIsSlice(img: Image, g: Geometry, h: Handle, offset: nat, count: nat, chain: seq<u32>)
    requires FileOf(h.files, h.token).Some? && offset + count < TWO64
    requires var f := FileOf(h.files, h.token).value; HoldsFile(img, g, f.startCluster, f.fileSize, chain)
    ensures var f := FileOf(h.files, h.token).value;
            var lo, hi := Min(offset, f.fileSize), Min(offset + count, f.fileSize);
            Fetched(img, g, h, offset, count) == FileBytes(img, g, f.startCluster, f.fileSize, chain)[lo..hi]
    decreases count
  {
    hide FileBytes;
    hide FileOf;
    hide Answer;
    var f := FileOf(h.files, h.token).value;
    var first := Answer(img, g, h.files, h.token, offset, Min(VFS_CHUNK_SIZE, count));
    AnswerIsSlice(img, g, h, offset, Min(VFS_CHUNK_SIZE, count), chain);
    if first != [] {
      FetchedIsSlice(img, g, h, offset + |first|, count - |first|, chain);
    }
  }

  /** One turn of the streaming loop: reads at most `maxLen` bytes and places what it got at `at`. */
  method StreamChunk(page: array<byte>, at: nat, fs: FatState, dev: BlockDevice, ch: Channel, h: Handle, offset: u64,
                     maxLen: nat, ipc: array<u64>)
    returns (n: nat)
    requires fs.Geo().Usable() && fs.Coherent(dev.image) && ipc.Length == IPC_BUFFER_WORDS && page != fs.cachedFatData
    requires 0 < maxLen <= VFS_CHUNK_SIZE && at + maxLen <= page.Length
    modifies page, fs`cachedFatSector, fs.cachedFatData, dev`failures, ch, ipc
    ensures fs.Coherent(dev.image) && old(dev.failures) <= dev.failures && old(ch.drops) <= ch.drops && n <= maxLen
    ensures dev.failures > old(dev.failures) || ch.drops > old(ch.drops) ==> n == 0
    ensures dev.failures == old(dev.failures) && ch.drops == old(ch.drops) ==>
              n == |Answer(dev.image, fs.Geo(), h.files, h.token, offset, maxLen)|
    ensures n == 0 ==> page[..] == old(page[..])
    ensures n > 0 ==> Placed(old(page[..]), page[..], at, Answer(dev.image, fs.Geo(), h.files, h.token, offset, maxLen))
  {
    hide ReadOutcome;
    hide Pack;
    hide Unpack;
    hide FatState.Coherent;
    var got := VfsRead(fs, dev, ch, h.files, h.token, offset, maxLen, ipc);
    if got == None || got == Some(0) {
      return 0;
    }
    n := Min(got.value, maxLen);
    CopyInto(page, at, Unpack(ipc[1..])[..n]);
  }

  predicate Placed(before: seq<byte>, after: seq<byte>, dest: nat, bytes: seq<byte>) {
    dest + |bytes| <= |before| && after == before[..dest] + bytes + before[dest + |bytes|..]
  }

  lemma PlacedNone(s: seq<byte>, dest: nat)
    requires dest <= |s|
    ensures Placed(s, s, dest, [])
  {
  }

  lemma PlacedMore(a: seq<byte>, b: seq<byte>, c: seq<byte>, dest: nat, x: seq<byte>, y: seq<byte>)
    requires Placed(a, b, dest, x) && Placed(b, c, dest + |x|, y)
    ensures Placed(a, c, dest, x + y)
  {
    assert b[..dest + |x|] == a[..dest] + x;
    assert b[dest + |x| + |y|..] == a[dest + |x| + |y|..];
  }

  /** The streaming loop on any volume ends with all that the reads deliver in place, or its beginning if one failed. */
  method StreamBytes(page: array<byte>, dest: nat, fs: FatState, dev: BlockDevice, ch: Channel, h: Handle, offset: nat,
                     count: nat, ipc: array<u64>)
    returns (got: nat)
    requires fs.Geo().Usable() && fs.Coherent(dev.image) && ipc.Length == IPC_BUFFER_WORDS && page != fs.cachedFatData
    requires dest + count <= page.Length && offset + count < TWO64
    modifies page, fs`cachedFatSector, fs.cachedFatData, dev`failures, ch, ipc
    ensures fs.Coherent(dev.image)
    ensures var bs := Fetched(dev.image, fs.Geo(), h, offset, count);
            && got <= |bs| && Placed(old(page[..]), page[..], dest, bs[..got])
            && (dev.failures == old(dev.failures) && ch.drops == old(ch.drops) ==> got == |bs|)
  {
    hide Placed;
    hide Answer;
    hide Fetched;
    hide FatState.Coherent;
    ghost var start, bs := page[..], Fetched(dev.image, fs.Geo(), h, offset, count);
    PlacedNone(start, dest);
    assert bs[..0] == [];
    got := 0;
    while got < count
      invariant got <= |bs| && got <= count && fs.Coherent(dev.image)
      invariant dev.failures == old(dev.failures) && ch.drops == old(ch.drops)
      invariant bs[got..] == Fetched(dev.image, fs.Geo(), h, offset + got, count - got)
      invariant Placed(start, page[..], dest, bs[..got])
    {
      var chunk := Min(VFS_CHUNK_SIZE, count - got);
      ghost var before, next := page[..], Answer(dev.image, fs.Geo(), h.files, h.token, offset + got, chunk);
      FetchStep(dev.image, fs.Geo(), h, offset + got, count - got);
      var n := StreamChunk(page, dest + got, fs, dev, ch, h, offset + got, chunk, ipc);
      if n == 0 {
        break;
      }
      PlacedMore(start, before, page[..], dest, bs[..got], next);
      PrefixGrows(bs, got, next, Fetched(dev.image, fs.Geo(), h, offset + got + n, count - got - n));
      got := got + n;
    }
  }

  lemma FetchStep(img: Image, g: Geometry, h: Handle, offset: nat, count: nat)
    requires g.Usable() && offset + count < TWO64
    ensures var first := Answer(img, g, h.files, h.token, offset, Min(VFS_CHUNK_SIZE, count));
            && (first == [] ==> Fetched(img, g, h, offset, count) == [])
            && (first != [] ==>
                  Fetched(img, g, h, offset, count) == first + Fetched(img, g, h, offset + |first|, count - |first|))
  {
    hide Answer;
  }

  lemma PrefixGrows(s: seq<byte>, n: nat, next: seq<byte>, rest: seq<byte>)
    requires n <= |s| && s[n..] == next + rest
    ensures n + |next| <= |s| && s[..n + |next|] == s[..n] + next && s[n + |next|..] == rest
  {
    assert s == s[..n] + (next + rest);
  }

  /** The page the streaming loader builds when nothing fails: zero but for what the reads deliver. */
  function StreamPage(img: Image, g: Geometry, h: Handle, pageVaddr: nat, seg: Segment): (page: seq<byte>)
    requires g.Usable() && seg.offset + seg.filesz < TWO64
    ensures |page| == PAGE_SIZE
  {
    var start, end := Max(pageVaddr, seg.vaddr), Min(pageVaddr + PAGE_SIZE, seg.vaddr + seg.filesz);
    if start >= end then Zeros(PAGE_SIZE)
    else
      var bs := Fetched(img, g, h, seg.offset + (start - seg.vaddr), end - start);
      Zeros(start - pageVaddr) + bs + Zeros(pageVaddr + PAGE_SIZE - start - |bs|)
  }

  /** Streams a segment's bytes for one page out of a file. A failed read leaves zeros behind and is not reported. */
  method StreamSegmentToFrame(page: array<byte>, pageVaddr: nat, seg: Segment, fs: FatState, dev: BlockDevice,
                              ch: Channel, h: Handle, ipc: array<u64>)
    returns (ghost filled: nat)
    requires page.Length == PAGE_SIZE && ipc.Length == IPC_BUFFER_WORDS && page != fs.cachedFatData
    requires fs.Geo().Usable() && fs.Coherent(dev.image) && seg.offset + seg.filesz < TWO64
    modifies page, fs`cachedFatSector, fs.cachedFatData, dev`failures, ch, ipc
    ensures fs.Coherent(dev.image)
    ensures var want := StreamPage(dev.image, fs.Geo(), h, pageVaddr, seg);
            && filled <= PAGE_SIZE && page[..] == want[..filled] + Zeros(PAGE_SIZE - filled)
            && (dev.failures == old(dev.failures) && ch.drops == old(ch.drops) ==> page[..] == want)
  {
    hide Fetched;
    hide FatState.Coherent;
    ZeroPage(page);
    var copyStart := Max(pageVaddr, seg.vaddr);
    var copyEnd := Min(pageVaddr + PAGE_SIZE, seg.vaddr + seg.filesz);
    filled := 0;
    if copyStart >= copyEnd {
      return;
    }
    var destOffset := copyStart - pageVaddr;
    var fileOffset := seg.offset + (copyStart - seg.vaddr);
    var bytesToRead := copyEnd - copyStart;
    var got := StreamBytes(page, destOffset, fs, dev, ch, h, fileOffset, bytesToRead, ipc);
    filled := destOffset + got;
  }

  /** For a well-formed file that holds the segment this is the page the other two loaders build. */
  lemma StreamPageIsImage(img: Image, g: Geometry, h: Handle, pageVaddr: nat, seg: Segment, chain: seq<u32>)
    requires FileOf(h.files, h.token).Some?
    requires var f := FileOf(h.files, h.token).value;
             HoldsFile(img, g, f.startCluster, f.fileSize, chain) && seg.offset + seg.filesz <= f.fileSize
    ensures var f := FileOf(h.files, h.token).value;
            var file := FileBytes(img, g, f.startCluster, f.fileSize, chain);
            StreamPage(img, g, h, pageVaddr, seg)
            == PageImage(pageVaddr, seg.vaddr, file[seg.offset..seg.offset + seg.filesz])
  {
    hide Fetched;
    hide FileBytes;
    hide HoldsFile;
    var f := FileOf(h.files, h.token).value;
    var file := FileBytes(img, g, f.startCluster, f.fileSize, chain);
    var data := file[seg.offset..seg.offset + seg.filesz];
    var start, end := Max(pageVaddr, seg.vaddr), Min(pageVaddr + PAGE_SIZE, seg.vaddr + seg.filesz);
    if start < end {
      FetchedIsSlice(img, g, h, seg.offset + (start - seg.vaddr), end - start, chain);
      SlicePlaced(pageVaddr, seg, file);
    } else {
      assert PageImage(pageVaddr, seg.vaddr, data) == Zeros(PAGE_SIZE);
    }
  }

  lemma SlicePlaced(pageVaddr: nat, seg: Segment, file: seq<byte>)
    requires seg.offset + seg.filesz <= |file|
    requires Max(pageVaddr, seg.vaddr) < Min(pageVaddr + PAGE_SIZE, seg.vaddr + seg.filesz)
    ensures var start, end := Max(pageVaddr, seg.vaddr), Min(pageVaddr + PAGE_SIZE, seg.vaddr + seg.filesz);
            var from := seg.offset + (start - seg.vaddr);
            Zeros(start - pageVaddr) + file[from..from + (end - start)] + Zeros(pageVaddr + PAGE_SIZE - end)
            == PageImage(pageVaddr, seg.vaddr, file[seg.offset..seg.offset + seg.filesz])
  {
    var data := file[seg.offset..seg.offset + seg.filesz];
    var start, end := Max(pageVaddr, seg.vaddr), Min(pageVaddr + PAGE_SIZE, seg.vaddr + seg.filesz);
    var from := seg.offset + (start - seg.vaddr);
    var page := Zeros(start - pageVaddr) + file[from..from + (end - start)] + Zeros(pageVaddr + PAGE_SIZE - end);
    forall i | 0 <= i < PAGE_SIZE ensures page[i] == ImageByte(seg.vaddr, data, pageVaddr + i) {
    }
  }
}
