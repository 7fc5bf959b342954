/** What the bytes of an ELF file say, independently of the loaders: headers written field by field and read back. */
module ElfFormat {
  import opened Bytes
  import opened BootElf

  /** A program header; `other` are the flag bits above the three permissions. */
  datatype Header = Header(
    kind: u32, r: bool, w: bool, x: bool, other: nat, offset: u64, vaddr: u64, paddr: u64, filesz: u64, memsz: u64,
    align: u64)
  {
    predicate Fits() { other < 0x2000_0000 }

    /** Executable is 1, writable 2 and readable 4. */
    function Flags(): nat { (if x then 1 else 0) + (if w then 2 else 0) + (if r then 4 else 0) + 8 * other }

    predicate Loads() { kind == 1 && memsz > 0 }

    predicate Enters(entry: u64) { Loads() && vaddr <= entry < Min(vaddr + memsz, TWO64 - 1) }
  }

  /** An executable for a machine; `phoff` is where its table of program headers starts. */
  datatype Elf = Elf(machine: u16, entry: u64, phoff: u64, headers: seq<Header>)

  function EncodeHeader(h: Header): (bs: seq<byte>)
    ensures |bs| == 56
  {
    LeBytes(h.kind, 4) + LeBytes(h.Flags(), 4) + LeBytes(h.offset, 8) + LeBytes(h.vaddr, 8) + LeBytes(h.paddr, 8)
    + LeBytes(h.filesz, 8) + LeBytes(h.memsz, 8) + LeBytes(h.align, 8)
  }

  /** The bytes of the file at `at` are exactly `bs`. */
  predicate Has(data: seq<byte>, at: nat, bs: seq<byte>) { at + |bs| <= |data| && data[at..at + |bs|] == bs }

  /** The fields of the file header, each at its offset in the ELF-64 layout. */
  predicate HasFileHeader(data: seq<byte>, e: Elf) {
    && |data| >= 64
    && Has(data, 0, [0x7F, 0x45, 0x4C, 0x46, 2, 1, 1])
    && Has(data, 16, LeBytes(2, 2)) && Has(data, 18, LeBytes(e.machine, 2))
    && Has(data, 24, LeBytes(e.entry, 8)) && Has(data, 32, LeBytes(e.phoff, 8))
    && Has(data, 54, LeBytes(56, 2)) && Has(data, 56, LeBytes(|e.headers|, 2))
  }

  /** The file is the executable: its header and its table say so. */
  ghost predicate IsElf(data: seq<byte>, e: Elf) {
    && 0 < |e.headers| < TWO16
    && HasFileHeader(data, e)
    && e.phoff + 56 * |e.headers| < TWO64
    && (forall i :: 0 <= i < |e.headers| ==> e.headers[i].Fits())
    && (forall i :: 0 <= i < |e.headers| ==> Has(data, e.phoff + 56 * i, EncodeHeader(e.headers[i])))
  }

  predicate Enterable(e: Elf) { exists i :: 0 <= i < |e.headers| && e.headers[i].Enters(e.entry) }

  // ── Fields ────────────────────────────────────────────────────────────────

  lemma FieldIs(data: seq<byte>, at: nat, n: nat, v: nat)
    requires at + n <= |data| && v < Pow256(n)
    ensures Field(data, at, n) == v <==> Has(data, at, LeBytes(v, n))
  {
    LeField(data[at..at + n], v);
  }

  lemma FieldBounds(data: seq<byte>, at: nat, n: nat)
    requires at + n <= |data|
    ensures Field(data, at, n) < Pow256(n)
  {
    LeBound(data[at..at + n]);
  }

  lemma HasSplit(data: seq<byte>, at: nat, a: seq<byte>, b: seq<byte>)
    ensures Has(data, at, a + b) <==> Has(data, at, a) && Has(data, at + |a|, b)
  {
    if at + |a + b| <= |data| {
      var all := data[at..at + |a + b|];
      assert all == data[at..at + |a|] + data[at + |a|..at + |a| + |b|];
      assert (a + b)[..|a|] == a && (a + b)[|a|..] == b && all[..|a|] == data[at..at + |a|];
      assert all[|a|..] == data[at + |a|..at + |a| + |b|];
    }
  }

  /** A header is at a place exactly when each of its fields is at the field's offset. */
  lemma HeaderFields(data: seq<byte>, at: nat, h: Header)
    ensures Has(data, at, EncodeHeader(h)) <==>
              && Has(data, at, LeBytes(h.kind, 4)) && Has(data, at + 4, LeBytes(h.Flags(), 4))
              && Has(data, at + 8, LeBytes(h.offset, 8)) && Has(data, at + 16, LeBytes(h.vaddr, 8))
              && Has(data, at + 24, LeBytes(h.paddr, 8)) && Has(data, at + 32, LeBytes(h.filesz, 8))
              && Has(data, at + 40, LeBytes(h.memsz, 8)) && Has(data, at + 48, LeBytes(h.align, 8))
  {
    hide Has;
    hide LeBytes;
    var a := LeBytes(h.kind, 4);
    var b := a + LeBytes(h.Flags(), 4);
    var c := b + LeBytes(h.offset, 8);
    var d := c + LeBytes(h.vaddr, 8);
    var e := d + LeBytes(h.paddr, 8);
    var f := e + LeBytes(h.filesz, 8);
    var g := f + LeBytes(h.memsz, 8);
    HasSplit(data, at, a, LeBytes(h.Flags(), 4));
    HasSplit(data, at, b, LeBytes(h.offset, 8));
    HasSplit(data, at, c, LeBytes(h.vaddr, 8));
    HasSplit(data, at, d, LeBytes(h.paddr, 8));
    HasSplit(data, at, e, LeBytes(h.filesz, 8));
    HasSplit(data, at, f, LeBytes(h.memsz, 8));
    HasSplit(data, at, g, LeBytes(h.align, 8));
  }

  // ── Program headers ───────────────────────────────────────────────────────

  /** The loaders' view of a header is the header, its two permissions included. */
  predicate Reads(p: Phdr, h: Header) {
    && p.kind == h.kind && p.offset == h.offset && p.vaddr == h.vaddr && p.paddr == h.paddr
    && p.filesz == h.filesz && p.memsz == h.memsz
    && (p.Writable() <==> h.w) && (p.Executable() <==> h.x) && (p.Loaded() <==> h.Loads())
  }

  lemma BitsReadBack(p: Phdr, h: Header)
    requires p.flags == h.Flags()
    ensures (p.Writable() <==> h.w) && (p.Executable() <==> h.x)
  {
    var top := (if h.r then 1 else 0) + 2 * h.other;
    var mid := (if h.w then 1 else 0) + 2 * top;
    assert p.flags == (if h.x then 1 else 0) + 2 * mid;
    Halves(mid, if h.x then 1 else 0);
    Halves(top, if h.w then 1 else 0);
  }

  lemma Halves(q: nat, bit: nat)
    requires bit < 2
    ensures (bit + 2 * q) / 2 == q && (bit + 2 * q) % 2 == bit
  {
  }

  lemma HalvesAgain(n: nat)
    ensures n / 4 == n / 2 / 2 && n / 8 == n / 4 / 2
  {
  }

  /** Reading inverts writing. */
  lemma HeaderReadBack(data: seq<byte>, at: nat, h: Header)
    requires at + 56 <= |data| && h.Fits() && Has(data, at, EncodeHeader(h))
    ensures Reads(ParsePhdr(data, at), h)
  {
    hide Has;
    hide LeBytes;
    hide LeValue;
    hide Pow256;
    hide Phdr.Writable;
    hide Phdr.Executable;
    hide EncodeHeader;
    FieldSizes();
    HeaderFields(data, at, h);
    FieldIs(data, at, 4, h.kind);
    FieldIs(data, at + 4, 4, h.Flags());
    FieldIs(data, at + 8, 8, h.offset);
    FieldIs(data, at + 16, 8, h.vaddr);
    FieldIs(data, at + 24, 8, h.paddr);
    FieldIs(data, at + 32, 8, h.filesz);
    FieldIs(data, at + 40, 8, h.memsz);
    BitsReadBack(ParsePhdr(data, at), h);
  }

  /** Any 56 bytes are some header. */
  lemma HeaderExists(data: seq<byte>, at: nat) returns (h: Header)
    requires at + 56 <= |data|
    ensures h.Fits() && Has(data, at, EncodeHeader(h))
  {
    hide Has;
    hide LeBytes;
    hide Pow256;
    FieldSizes();
    FieldsBounded(data, at);
    var flags := Field(data, at + 4, 4);
    h := Header(Field(data, at, 4), flags / 4 % 2 == 1, flags / 2 % 2 == 1, flags % 2 == 1, flags / 8,
                Field(data, at + 8, 8), Field(data, at + 16, 8), Field(data, at + 24, 8), Field(data, at + 32, 8),
                Field(data, at + 40, 8), Field(data, at + 48, 8));
    BitsAddUp(flags);
    FieldIs(data, at, 4, h.kind);
    FieldIs(data, at + 4, 4, flags);
    FieldIs(data, at + 8, 8, h.offset);
    FieldIs(data, at + 16, 8, h.vaddr);
    FieldIs(data, at + 24, 8, h.paddr);
    FieldIs(data, at + 32, 8, h.filesz);
    FieldIs(data, at + 40, 8, h.memsz);
    FieldIs(data, at + 48, 8, h.align);
    HeaderFields(data, at, h);
  }

  lemma FieldsBounded(data: seq<byte>, at: nat)
    requires at + 56 <= |data|
    ensures Field(data, at, 4) < TWO32 && Field(data, at + 4, 4) < TWO32
    ensures Field(data, at + 8, 8) < TWO64 && Field(data, at + 16, 8) < TWO64 && Field(data, at + 24, 8) < TWO64
    ensures Field(data, at + 32, 8) < TWO64 && Field(data, at + 40, 8) < TWO64 && Field(data, at + 48, 8) < TWO64
  {
    hide LeValue;
    hide Pow256;
    FieldSizes();
    FieldBounds(data, at, 4);
    FieldBounds(data, at + 4, 4);
    FieldBounds(data, at + 8, 8);
    FieldBounds(data, at + 16, 8);
    FieldBounds(data, at + 24, 8);
    FieldBounds(data, at + 32, 8);
    FieldBounds(data, at + 40, 8);
    FieldBounds(data, at + 48, 8);
  }

  lemma BitsAddUp(flags: nat)
    ensures flags == flags % 2 + 2 * (flags / 2 % 2) + 4 * (flags / 4 % 2) + 8 * (flags / 8)
  {
    HalvesAgain(flags);
    var half, quarter := flags / 2, flags / 4;
    assert flags == flags % 2 + 2 * half;
    assert half == half % 2 + 2 * quarter;
    assert quarter == quarter % 2 + 2 * (flags / 8);
  }

  lemma {:induction false} TableAt(data: seq<byte>, at: nat, n: nat, i: nat)
    requires at + n * PHDR_SIZE <= |data| && i < n
    ensures Phdrs(data, at, n)[i] == ParsePhdr(data, at + i * PHDR_SIZE)
    decreases n
  {
    if i < n - 1 {
      TableAt(data, at, n - 1, i);
    }
  }

  lemma HeaderAt(data: seq<byte>, e: Elf, i: nat)
    requires IsElf(data, e) && i < |e.headers|
    ensures e.phoff + 56 * i + 56 <= |data| && e.headers[i].Fits()
    ensures Has(data, e.phoff + 56 * i, EncodeHeader(e.headers[i]))
  {
    hide EncodeHeader;
  }

  /** The table of an executable, read back header by header. */
  lemma TableReadBack(data: seq<byte>, e: Elf)
    requires IsElf(data, e)
    ensures e.phoff + |e.headers| * PHDR_SIZE <= |data|
    ensures forall i :: 0 <= i < |e.headers| ==> Reads(Phdrs(data, e.phoff, |e.headers|)[i], e.headers[i])
  {
    hide EncodeHeader;
    hide ParsePhdr;
    hide Phdrs;
    hide Reads;
    hide Has;
    hide IsElf;
    var n := |e.headers|;
    NotEmpty(data, e);
    HeaderAt(data, e, n - 1);
    forall i | 0 <= i < n ensures Reads(Phdrs(data, e.phoff, n)[i], e.headers[i]) {
      HeaderAt(data, e, i);
      TableAt(data, e.phoff, n, i);
      HeaderReadBack(data, e.phoff + 56 * i, e.headers[i]);
    }
  }

  lemma NotEmpty(data: seq<byte>, e: Elf)
    requires IsElf(data, e)
    ensures 0 < |e.headers| < TWO16 && HasFileHeader(data, e) && e.phoff + 56 * |e.headers| < TWO64
  {
  }

  // ── Files ─────────────────────────────────────────────────────────────────

  /** The first checks pass exactly for files that start like an ELF-64 executable for the machine. */
  lemma FileHeaderRead(data: seq<byte>, e: Elf)
    requires |data| >= 64 && |e.headers| < TWO16
    ensures HasFileHeader(data, e) <==>
              && data[..4] == [0x7F, 0x45, 0x4C, 0x46] && data[4] == 2 && data[5] == 1 && data[6] == 1
              && Field(data, 16, 2) == 2 && Field(data, 18, 2) == e.machine && Field(data, 54, 2) == 56
              && Field(data, 56, 2) == |e.headers| && Field(data, 24, 8) == e.entry && Field(data, 32, 8) == e.phoff
  {
    hide LeBytes;
    hide LeValue;
    hide Pow256;
    FieldSizes();
    FieldIs(data, 16, 2, 2);
    FieldIs(data, 18, 2, e.machine);
    FieldIs(data, 54, 2, 56);
    FieldIs(data, 56, 2, |e.headers|);
    FieldIs(data, 24, 8, e.entry);
    FieldIs(data, 32, 8, e.phoff);
    var head := data[0..7];
    assert head[..4] == data[..4] && head[4] == data[4] && head[5] == data[5] && head[6] == data[6];
    assert head == head[..4] + [head[4], head[5], head[6]];
  }

  /** What the header checks say about a well-formed file: accepted exactly if the entry point is loaded. */
  lemma ElfReadBack(data: seq<byte>, e: Elf)
    requires IsElf(data, e)
    ensures ValidateHeader(data, e.machine).Ok? <==> Enterable(e)
    ensures Enterable(e) ==> ValidateHeader(data, e.machine) == Ok(Ehdr(e.entry, e.phoff, |e.headers|))
    ensures forall m: u16 :: m != e.machine ==> ValidateHeader(data, m) == Err(InvalidElf(WrongMachine))
  {
    hide Has;
    hide LeBytes;
    hide Field;
    FileHeaderRead(data, e);
    TableReadBack(data, e);
    var phdrs := Phdrs(data, e.phoff, |e.headers|);
    if i :| 0 <= i < |e.headers| && e.headers[i].Enters(e.entry) {
      assert phdrs[i].Loaded() && phdrs[i].Covers(e.entry);
    }
  }

  /** Only well-formed files whose entry point is loaded are accepted. */
  lemma AcceptedIsElf(data: seq<byte>, machine: u16) returns (e: Elf)
    requires ValidateHeader(data, machine).Ok?
    ensures IsElf(data, e) && e.machine == machine && Enterable(e)
  {
    hide Has;
    hide LeBytes;
    hide LeValue;
    var h := ValidateHeader(data, machine).value;
    FieldSizes();
    FieldBounds(data, 24, 8);
    FieldBounds(data, 32, 8);
    FieldBounds(data, 56, 2);
    var headers := HeadersExist(data, h.phoff, h.phnum);
    e := Elf(machine, h.entry, h.phoff, headers);
    FileHeaderRead(data, e);
    ElfReadBack(data, e);
  }

  lemma {:induction false} HeadersExist(data: seq<byte>, at: nat, n: nat) returns (hs: seq<Header>)
    requires at + n * 56 <= |data|
    ensures |hs| == n && forall i :: 0 <= i < n ==> hs[i].Fits() && Has(data, at + 56 * i, EncodeHeader(hs[i]))
    decreases n
  {
    hs := [];
    if n > 0 {
      hide Has;
      var front := HeadersExist(data, at, n - 1);
      var last := HeaderExists(data, at + 56 * (n - 1));
      hs := front + [last];
    }
  }

  /** A file is accepted exactly when it is an executable for the machine whose entry point lies in a loaded segment. */
  lemma AcceptedIff(data: seq<byte>, machine: u16)
    ensures ValidateHeader(data, machine).Ok? <==> exists e :: IsElf(data, e) && e.machine == machine && Enterable(e)
  {
    hide IsElf;
    hide ValidateHeader;
    if ValidateHeader(data, machine).Ok? {
      var e := AcceptedIsElf(data, machine);
    } else if e :| IsElf(data, e) && e.machine == machine && Enterable(e) {
      ElfReadBack(data, e);
    }
  }

  /** The loaders' verdict on permissions: a violation exactly if some LOAD header allows both writing and executing. */
  lemma WxViolationIff(data: seq<byte>, e: Elf)
    requires IsElf(data, e)
    ensures ValidateHeader(data, e.machine).Ok? && !NoWriteExecute(Headers(data, e.machine))
       <==> Enterable(e)
            && exists i :: 0 <= i < |e.headers| && e.headers[i].kind == 1 && e.headers[i].w && e.headers[i].x
  {
    hide ValidateHeader;
    hide IsElf;
    ElfReadBack(data, e);
    TableReadBack(data, e);
    if Enterable(e) {
      var phdrs := Headers(data, e.machine);
      if i :| 0 <= i < |e.headers| && e.headers[i].kind == 1 && e.headers[i].w && e.headers[i].x {
        assert phdrs[i].kind == PT_LOAD && phdrs[i].Writable() && phdrs[i].Executable();
      }
    }
  }

  /** What a loaded segment allows is what its header allows. */
  lemma PermissionsKept(data: seq<byte>, e: Elf, i: nat, phys: nat)
    requires IsElf(data, e) && Enterable(e) && i < |e.headers|
    ensures ValidateHeader(data, e.machine).Ok? && i < |Headers(data, e.machine)|
    ensures var p, h := Headers(data, e.machine)[i], e.headers[i];
            && KernelSegment(p) == Segment(h.paddr, h.vaddr, h.memsz, h.w, h.x)
            && (!(h.w && h.x) ==> InitSegment(p, phys) == Segment(phys, h.vaddr, h.memsz, h.w, h.x))
  {
    hide ValidateHeader;
    hide IsElf;
    ElfReadBack(data, e);
    TableReadBack(data, e);
  }
}
