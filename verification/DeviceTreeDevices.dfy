/** Device trees described by what they say: compatible lists, windows, interrupts and ranges instead of bytes. */
module DeviceTreeDevices {
  import opened Bytes
  import opened DeviceTree
  import opened DeviceTreeTheorems

  /** A ranges entry with the child address the walker skips. */
  datatype RangeEntry = RangeEntry(flags: u32, child: seq<byte>, addr: u64, size: u64)

  /** The contents of a node: its properties and subnodes in order. */
  datatype Contents =
    | End
    | Compatibles(texts: seq<seq<byte>>, rest: Contents)
    | Windows(regs: seq<Reg>, rest: Contents)
    | Lines(irqs: seq<u32>, rest: Contents)
    | Spaces(ranges: seq<RangeEntry>, rest: Contents)
    | Unread(name: seq<byte>, data: seq<byte>, rest: Contents)
    | Subnode(name: seq<byte>, body: Contents, rest: Contents)

  // ── Bytes of lists ────────────────────────────────────────────────────────

  predicate Words(r: Reg) { r.addr < TWO64 && r.size < TWO64 }

  predicate AllWords(regs: seq<Reg>) { forall i :: 0 <= i < |regs| ==> Words(regs[i]) }

  predicate Skips(ranges: seq<RangeEntry>) { forall i :: 0 <= i < |ranges| ==> |ranges[i].child| == 8 }

  /** Two address and two size cells each. */
  function EncodeRegs(regs: seq<Reg>): seq<byte> {
    if regs == [] then [] else BeBytes(regs[0].addr, 8) + BeBytes(regs[0].size, 8) + EncodeRegs(regs[1..])
  }

  function EncodeIrqs(irqs: seq<u32>): seq<byte> {
    if irqs == [] then [] else BeBytes(irqs[0], 4) + EncodeIrqs(irqs[1..])
  }

  /** Three child address cells, of which the first holds flags, two parent address cells and two size cells. */
  function EncodeRanges(ranges: seq<RangeEntry>): seq<byte> {
    if ranges == [] then [] else
      var r := ranges[0];
      BeBytes(r.flags, 4) + r.child + BeBytes(r.addr, 8) + BeBytes(r.size, 8) + EncodeRanges(ranges[1..])
  }

  /** Texts with a zero behind each. */
  function EncodeTexts(texts: seq<seq<byte>>): seq<byte> {
    if texts == [] then [] else texts[0] + [0] + EncodeTexts(texts[1..])
  }

  predicate Texts(texts: seq<seq<byte>>) { forall i :: 0 <= i < |texts| ==> 0 !in texts[i] }

  function RangesOf(ranges: seq<RangeEntry>): seq<Range> {
    seq(|ranges|, i requires 0 <= i < |ranges| => Range(ranges[i].flags, ranges[i].addr, ranges[i].size))
  }

  // ── Decoding inverts encoding ─────────────────────────────────────────────

  lemma {:induction false} RegsReadBack(regs: seq<Reg>)
    requires AllWords(regs)
    ensures Regs(EncodeRegs(regs)) == regs
    decreases |regs|
  {
    if regs != [] {
      hide BeBytes;
      hide BeValue;
      hide Pow256;
      FieldSizes();
      var r, rest := regs[0], EncodeRegs(regs[1..]);
      var data := EncodeRegs(regs);
      assert Words(r);
      assert data[..8] == BeBytes(r.addr, 8) && data[8..16] == BeBytes(r.size, 8) && data[16..] == rest;
      BeReadsBack(r.addr, 8);
      BeReadsBack(r.size, 8);
      RegsReadBack(regs[1..]);
    }
  }

  lemma {:induction false} IrqsReadBack(irqs: seq<u32>)
    ensures Irqs(EncodeIrqs(irqs)) == irqs
    decreases |irqs|
  {
    if irqs != [] {
      hide BeBytes;
      hide BeValue;
      hide Pow256;
      FieldSizes();
      var data := EncodeIrqs(irqs);
      assert data[..4] == BeBytes(irqs[0], 4) && data[4..] == EncodeIrqs(irqs[1..]);
      BeReadsBack(irqs[0], 4);
      IrqsReadBack(irqs[1..]);
    }
  }

  lemma {:induction false} RangesReadBack(ranges: seq<RangeEntry>)
    requires Skips(ranges)
    ensures Ranges(EncodeRanges(ranges)) == RangesOf(ranges)
    decreases |ranges|
  {
    if ranges != [] {
      hide BeBytes;
      hide BeValue;
      hide Pow256;
      FieldSizes();
      var r, data := ranges[0], EncodeRanges(ranges);
      assert |r.child| == 8;
      assert data[..4] == BeBytes(r.flags, 4) && data[12..20] == BeBytes(r.addr, 8);
      assert data[20..28] == BeBytes(r.size, 8);
      assert data[28..] == EncodeRanges(ranges[1..]);
      BeReadsBack(r.flags, 4);
      BeReadsBack(r.addr, 8);
      BeReadsBack(r.size, 8);
      RangesReadBack(ranges[1..]);
      assert RangesOf(ranges) == [Range(r.flags, r.addr, r.size)] + RangesOf(ranges[1..]);
    }
  }

  /** A text is found exactly if it is one of the list; the empty text is found in every list, behind the last zero. */
  lemma {:induction false} TextsReadBack(texts: seq<seq<byte>>, target: seq<byte>)
    requires Texts(texts)
    ensures HasEntry(EncodeTexts(texts), target) <==> target in texts || target == []
    decreases |texts|
  {
    hide TextLength;
    var data := EncodeTexts(texts);
    if texts != [] {
      var n := |texts[0]|;
      assert 0 !in texts[0];
      assert data[..n] == texts[0] && data[n] == 0 && data[n + 1..] == EncodeTexts(texts[1..]);
      assert forall k :: 0 <= k < n ==> data[k] == texts[0][k];
      TextLengthIs(data, n);
      TextsReadBack(texts[1..], target);
      assert texts == [texts[0]] + texts[1..];
    }
  }

  // ── Names ─────────────────────────────────────────────────────────────────

  lemma NamesOfKinds()
    ensures KindOf(Text("compatible")) == Compatible && KindOf(Text("reg")) == RegList
    ensures KindOf(Text("interrupts")) == Interrupts && KindOf(Text("ranges")) == RangeList
    ensures forall name :: KindOf(name) != Other ==>
              name in [Text("compatible"), Text("reg"), Text("interrupts"), Text("ranges")]
  {
    assert Text("interrupts")[0] == 0x69;
    assert Text("ranges")[0] == 0x72 && Text("reg")[0] == 0x72;
  }

  /** The strings block holds the name at the offset, with a zero behind it. */
  predicate NameAt(f: Fdt, off: nat, name: seq<byte>) {
    0 !in name && off + |name| < |f.strings| && f.strings[off..off + |name| + 1] == name + [0]
  }

  lemma StringIs(f: Fdt, off: nat, name: seq<byte>)
    requires NameAt(f, off, name)
    ensures StringAt(f, off) == name
  {
    hide TextLength;
    var tail := f.strings[off..];
    assert tail[..|name| + 1] == name + [0];
    assert tail[|name|] == (name + [0])[|name|] == 0;
    assert forall k :: 0 <= k < |name| ==> tail[k] == (name + [0])[k] == name[k];
    TextLengthIs(tail, |name|);
  }

  // ── The tree as a struct block ────────────────────────────────────────────

  /** Where the strings block keeps the property names. */
  type Offsets = seq<byte> -> u32

  ghost predicate Writable(f: Fdt, at: Offsets, c: Contents) {
    match c
    case End => true
    case Compatibles(texts, rest) =>
      Texts(texts) && |EncodeTexts(texts)| < TWO32 && Named(f, at, Text("compatible")) && Writable(f, at, rest)
    case Windows(regs, rest) =>
      AllWords(regs) && |EncodeRegs(regs)| < TWO32 && Named(f, at, Text("reg")) && Writable(f, at, rest)
    case Lines(irqs, rest) =>
      |EncodeIrqs(irqs)| < TWO32 && Named(f, at, Text("interrupts")) && Writable(f, at, rest)
    case Spaces(ranges, rest) =>
      Skips(ranges) && |EncodeRanges(ranges)| < TWO32 && Named(f, at, Text("ranges")) && Writable(f, at, rest)
    case Unread(name, data, rest) =>
      && name !in [Text("compatible"), Text("reg"), Text("interrupts"), Text("ranges")]
      && |data| < TWO32 && Named(f, at, name) && Writable(f, at, rest)
    case Subnode(name, body, rest) => 0 !in name && Writable(f, at, body) && Writable(f, at, rest)
  }

  predicate Named(f: Fdt, at: Offsets, name: seq<byte>) { NameAt(f, at(name), name) }

  function ToItems(at: Offsets, c: Contents): Items {
    match c
    case End => Empty
    case Compatibles(texts, rest) => Prop(at(Text("compatible")), EncodeTexts(texts), ToItems(at, rest))
    case Windows(regs, rest) => Prop(at(Text("reg")), EncodeRegs(regs), ToItems(at, rest))
    case Lines(irqs, rest) => Prop(at(Text("interrupts")), EncodeIrqs(irqs), ToItems(at, rest))
    case Spaces(ranges, rest) => Prop(at(Text("ranges")), EncodeRanges(ranges), ToItems(at, rest))
    case Unread(name, data, rest) => Prop(at(name), data, ToItems(at, rest))
    case Subnode(name, body, rest) => Node(name, ToItems(at, body), ToItems(at, rest))
  }

  // ── What is to be found in it ─────────────────────────────────────────────

  /** Some compatible list of the node itself has the target; the empty target is in every list. */
  predicate Wanted(c: Contents, target: seq<byte>) {
    match c
    case End => false
    case Compatibles(texts, rest) => target in texts || target == [] || Wanted(rest, target)
    case Subnode(_, _, rest) => Wanted(rest, target)
    case _ => Wanted(c.rest, target)
  }

  /** All windows of the node itself, in order. */
  function OwnRegs(c: Contents): seq<Reg> {
    match c
    case End => []
    case Windows(regs, rest) => regs + OwnRegs(rest)
    case _ => OwnRegs(c.rest)
  }

  function OwnIrqs(c: Contents): seq<nat> {
    match c
    case End => []
    case Lines(irqs, rest) => irqs + OwnIrqs(rest)
    case _ => OwnIrqs(c.rest)
  }

  function OwnRanges(c: Contents): seq<Range> {
    match c
    case End => []
    case Spaces(ranges, rest) => RangesOf(ranges) + OwnRanges(rest)
    case _ => OwnRanges(c.rest)
  }

  /** The wanted nodes down to depth 8, children first, each with its first 8 windows, 4 interrupts and 4 ranges. */
  function Devices(c: Contents, target: seq<byte>, depth: nat): seq<NodeState> {
    match c
    case End => []
    case Subnode(_, body, rest) =>
      var own := NodeState(true, FirstOf(OwnRegs(body), 8), FirstOf(OwnIrqs(body), 4), FirstOf(OwnRanges(body), 4));
      Devices(body, target, depth + 1)
      + ((if depth < 8 && Wanted(body, target) then [own] else []) + Devices(rest, target, depth))
    case _ => Devices(c.rest, target, depth)
  }

  // ── The walk finds it ─────────────────────────────────────────────────────

  lemma NamedIs(f: Fdt, at: Offsets, name: seq<byte>)
    requires Named(f, at, name)
    ensures StringAt(f, at(name)) == name
  {
    StringIs(f, at(name), name);
  }

  lemma {:induction false} WritableEncodes(f: Fdt, at: Offsets, c: Contents)
    requires Writable(f, at, c)
    ensures Encodable(ToItems(at, c))
  {
    hide Text;
    match c
    case End =>
    case Subnode(_, body, rest) =>
      WritableEncodes(f, at, body);
      WritableEncodes(f, at, rest);
    case _ => WritableEncodes(f, at, c.rest);
  }

  /** What the walker collects from a node is what the node says. */
  lemma {:induction false} OwnIs(f: Fdt, at: Offsets, c: Contents, target: seq<byte>)
    requires Writable(f, at, c)
    ensures var items := ToItems(at, c);
            && OwnMatch(f, target, items) == Wanted(c, target)
            && OwnList(f, RegList, Regs, items) == OwnRegs(c)
            && OwnList(f, Interrupts, Irqs, items) == OwnIrqs(c)
            && OwnList(f, RangeList, Ranges, items) == OwnRanges(c)
  {
    hide KindOf;
    hide StringAt;
    hide Text;
    hide HasEntry;
    hide Regs;
    hide Irqs;
    hide Ranges;
    hide EncodeTexts;
    hide EncodeRegs;
    hide EncodeIrqs;
    hide EncodeRanges;
    hide Named;
    NamesOfKinds();
    match c
    case End =>
    case Compatibles(texts, rest) =>
      NamedIs(f, at, Text("compatible"));
      TextsReadBack(texts, target);
      OwnIs(f, at, rest, target);
    case Windows(regs, rest) =>
      NamedIs(f, at, Text("reg"));
      RegsReadBack(regs);
      OwnIs(f, at, rest, target);
    case Lines(irqs, rest) =>
      NamedIs(f, at, Text("interrupts"));
      IrqsReadBack(irqs);
      OwnIs(f, at, rest, target);
    case Spaces(ranges, rest) =>
      NamedIs(f, at, Text("ranges"));
      RangesReadBack(ranges);
      OwnIs(f, at, rest, target);
    case Unread(name, data, rest) =>
      NamedIs(f, at, name);
      OwnIs(f, at, rest, target);
    case Subnode(_, _, rest) => OwnIs(f, at, rest, target);
  }

  lemma {:induction false} MatchesAreDevices(f: Fdt, at: Offsets, c: Contents, target: seq<byte>, depth: nat)
    requires Writable(f, at, c)
    ensures Matches(f, target, ToItems(at, c), depth) == Devices(c, target, depth)
    decreases c
  {
    hide OwnMatch;
    hide OwnList;
    hide Text;
    hide Named;
    match c
    case End =>
    case Subnode(_, body, rest) =>
      OwnIs(f, at, body, target);
      MatchesAreDevices(f, at, body, target, depth + 1);
      MatchesAreDevices(f, at, rest, target, depth);
    case _ => MatchesAreDevices(f, at, c.rest, target, depth);
  }

  /**
   * On the struct block of any device tree the walk ends and hands over exactly the wanted devices, each with the
   * addresses and sizes, interrupt numbers and ranges its own properties list, up to the callback's refusal.
   */
  lemma WalkFindsDevices(f: Fdt, at: Offsets, target: seq<byte>, go: Callback, c: Contents, tail: seq<byte>)
    returns (turns: nat)
    requires f.Sized() && Writable(f, at, c) && Encodable(ToItems(at, c))
    requires f.block == Encode(ToItems(at, c)) + (Be32(9) + tail)
    ensures var found := Feed(go, [], Devices(c, target, 0)).calls;
            && RunFor(f, target, go, START, turns) == Some(found)
            && (forall n | RunFor(f, target, go, START, n).Some? :: RunFor(f, target, go, START, n) == Some(found))
  {
    hide Matches;
    hide Devices;
    hide Encode;
    hide RunFor;
    hide Feed;
    MatchesAreDevices(f, at, c, target, 0);
    turns := WalkFindsMatches(f, target, go, ToItems(at, c), tail);
  }
}
