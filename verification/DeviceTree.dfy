/** The bootloader's flattened device tree walker. */
module DeviceTree {
  import opened Bytes

  const MAX_DEPTH: nat := 8
  const MAX_REG_ENTRIES: nat := 8
  const MAX_IRQ_ENTRIES: nat := 4
  const MAX_RANGES_ENTRIES: nat := 4

  const BEGIN_NODE: u32 := 1
  const END_NODE: u32 := 2
  const PROP: u32 := 3
  const NOP: u32 := 4
  const END: u32 := 9

  /** The two blocks of a validated blob. */
  datatype Fdt = Fdt(block: seq<byte>, strings: seq<byte>) {
    ghost predicate Sized() { |block| < TWO32 && |strings| < TWO32 }
  }

  datatype Reg = Reg(addr: nat, size: nat)
  datatype Range = Range(flags: nat, addr: nat, size: nat)

  /** What the walker has collected of one open node; also what the callback receives. */
  datatype NodeState = NodeState(matched: bool, regs: seq<Reg>, irqs: seq<nat>, ranges: seq<Range>)

  const FRESH: NodeState := NodeState(false, [], [], [])

  /** A stateful callback: whether to go on, as a function of all nodes it has been given so far. */
  type Callback = seq<NodeState> -> bool

  // ── Strings and lists ─────────────────────────────────────────────────────

  /** Length of the text before the first zero byte. */
  function TextLength(s: seq<byte>): (n: nat)
    ensures n <= |s| && (forall k :: 0 <= k < n ==> s[k] != 0) && (n < |s| ==> s[n] == 0)
  {
    if s == [] || s[0] == 0 then 0 else 1 + TextLength(s[1..])
  }

  function StringAt(f: Fdt, nameoff: nat): seq<byte> {
    if nameoff >= |f.strings| then [] else f.strings[nameoff..][..TextLength(f.strings[nameoff..])]
  }

  method ReadString(f: Fdt, nameoff: nat) returns (s: seq<byte>)
    ensures s == StringAt(f, nameoff)
  {
    if nameoff >= |f.strings| {
      return [];
    }
    var tail := f.strings[nameoff..];
    var len := ScanText(tail);
    s := tail[..len];
  }

  method ScanText(s: seq<byte>) returns (len: nat)
    ensures len == TextLength(s)
  {
    len := 0;
    while len < |s| && s[len] != 0
      invariant len <= |s| && len + TextLength(s[len..]) == TextLength(s)
    {
      assert s[len..][1..] == s[len + 1..];
      len := len + 1;
    }
  }

  /** Some zero-separated entry of `data` is `target`. */
  predicate HasEntry(data: seq<byte>, target: seq<byte>) {
    var n := TextLength(data);
    data[..n] == target || (n < |data| && HasEntry(data[n + 1..], target))
  }

  method PropContains(data: seq<byte>, target: seq<byte>) returns (found: bool)
    ensures found == HasEntry(data, target)
  {
    hide TextLength;
    var at := 0;
    while true
      invariant at <= |data| && HasEntry(data, target) == HasEntry(data[at..], target)
      decreases |data| - at
    {
      var rest := data[at..];
      var n := ScanText(rest);
      if rest[..n] == target {
        return true;
      }
      if n == |rest| {
        return false;
      }
      assert rest[n + 1..] == data[at + n + 1..];
      at := at + n + 1;
    }
  }

  /** An entry is a stretch of `data` without zeros that zeros or the ends of `data` delimit. */
  predicate EntryAt(data: seq<byte>, target: seq<byte>, i: nat) {
    && i + |target| <= |data|
    && data[i..i + |target|] == target
    && (forall k :: 0 <= k < |target| ==> target[k] != 0)
    && (i == 0 || data[i - 1] == 0)
    && (i + |target| == |data| || data[i + |target|] == 0)
  }

  lemma {:induction false} EntryFound(data: seq<byte>, target: seq<byte>, i: nat)
    requires EntryAt(data, target, i)
    ensures HasEntry(data, target)
    decreases |data|
  {
    hide TextLength;
    var n := TextLength(data);
    EntryPlace(data, target, i);
    if i > n {
      var rest := data[n + 1..];
      var k := i - n - 1;
      assert rest[k..k + |target|] == data[i..i + |target|];
      assert k > 0 ==> rest[k - 1] == data[i - 1];
      assert k + |target| < |rest| ==> rest[k + |target|] == data[i + |target|];
      EntryFound(rest, target, i - n - 1);
    }
  }

  lemma {:induction false} FoundIsEntry(data: seq<byte>, target: seq<byte>) returns (i: nat)
    requires HasEntry(data, target)
    ensures EntryAt(data, target, i)
    decreases |data|
  {
    hide TextLength;
    var n := TextLength(data);
    if data[..n] == target {
      i := 0;
    } else {
      var rest := data[n + 1..];
      var k := FoundIsEntry(rest, target);
      i := n + 1 + k;
      assert rest[k..k + |target|] == data[i..i + |target|];
    }
  }

  lemma EntryPlace(data: seq<byte>, target: seq<byte>, i: nat)
    requires EntryAt(data, target, i)
    ensures i > TextLength(data) || (i == 0 && data[..TextLength(data)] == target)
  {
    if i == 0 {
      assert forall k :: 0 <= k < |target| ==> data[k] == target[k];
      assert TextLength(data) == |target|;
    }
  }

  function Regs(data: seq<byte>): seq<Reg> {
    if |data| < 16 then [] else [Reg(BeValue(data[..8]), BeValue(data[8..16]))] + Regs(data[16..])
  }

  function Irqs(data: seq<byte>): seq<nat> {
    if |data| < 4 then [] else [BeValue(data[..4])] + Irqs(data[4..])
  }

  function Ranges(data: seq<byte>): seq<Range> {
    if |data| < 28 then []
    else [Range(BeValue(data[..4]), BeValue(data[12..20]), BeValue(data[20..28]))] + Ranges(data[28..])
  }

  method CollectRegs(known: seq<Reg>, data: seq<byte>) returns (regs: seq<Reg>)
    requires |known| <= MAX_REG_ENTRIES
    ensures regs == FirstOf(known + Regs(data), MAX_REG_ENTRIES)
  {
    regs := known;
    var i := 0;
    while i + 16 <= |data| && |regs| < MAX_REG_ENTRIES
      invariant i <= |data| && |regs| <= MAX_REG_ENTRIES
      invariant regs + Regs(data[i..]) == known + Regs(data)
    {
      var entry := data[i..];
      assert entry[16..] == data[i + 16..];
      regs := regs + [Reg(BeValue(entry[..8]), BeValue(entry[8..16]))];
      i := i + 16;
    }
  }

  method CollectIrqs(known: seq<nat>, data: seq<byte>) returns (irqs: seq<nat>)
    requires |known| <= MAX_IRQ_ENTRIES
    ensures irqs == FirstOf(known + Irqs(data), MAX_IRQ_ENTRIES)
  {
    irqs := known;
    var i := 0;
    while i + 4 <= |data| && |irqs| < MAX_IRQ_ENTRIES
      invariant i <= |data| && |irqs| <= MAX_IRQ_ENTRIES
      invariant irqs + Irqs(data[i..]) == known + Irqs(data)
    {
      var entry := data[i..];
      assert entry[4..] == data[i + 4..];
      irqs := irqs + [BeValue(entry[..4])];
      i := i + 4;
    }
  }

  method CollectRanges(known: seq<Range>, data: seq<byte>) returns (ranges: seq<Range>)
    requires |known| <= MAX_RANGES_ENTRIES
    ensures ranges == FirstOf(known + Ranges(data), MAX_RANGES_ENTRIES)
  {
    ranges := known;
    var i := 0;
    while i + 28 <= |data| && |ranges| < MAX_RANGES_ENTRIES
      invariant i <= |data| && |ranges| <= MAX_RANGES_ENTRIES
      invariant ranges + Ranges(data[i..]) == known + Ranges(data)
    {
      var entry := data[i..];
      assert entry[28..] == data[i + 28..];
      ranges := ranges + [Range(BeValue(entry[..4]), BeValue(entry[12..20]), BeValue(entry[20..28]))];
      i := i + 28;
    }
  }

  // ── One property ──────────────────────────────────────────────────────────

  datatype Kind = Compatible | RegList | Interrupts | RangeList | Other

  function KindOf(name: seq<byte>): Kind {
    if name == [0x63, 0x6f, 0x6d, 0x70, 0x61, 0x74, 0x69, 0x62, 0x6c, 0x65] then Compatible
    else if name == [0x72, 0x65, 0x67] then RegList
    else if name == [0x69, 0x6e, 0x74, 0x65, 0x72, 0x72, 0x75, 0x70, 0x74, 0x73] then Interrupts
    else if name == [0x72, 0x61, 0x6e, 0x67, 0x65, 0x73] then RangeList
    else Other
  }

  predicate Bounded(s: NodeState) {
    |s.regs| <= MAX_REG_ENTRIES && |s.irqs| <= MAX_IRQ_ENTRIES && |s.ranges| <= MAX_RANGES_ENTRIES
  }

  function Collect(s: NodeState, kind: Kind, data: seq<byte>, target: seq<byte>): (r: NodeState)
    ensures Bounded(s) ==> Bounded(r)
  {
    match kind
    case Compatible => s.(matched := s.matched || HasEntry(data, target))
    case RegList => s.(regs := FirstOf(s.regs + Regs(data), MAX_REG_ENTRIES))
    case Interrupts => s.(irqs := FirstOf(s.irqs + Irqs(data), MAX_IRQ_ENTRIES))
    case RangeList => s.(ranges := FirstOf(s.ranges + Ranges(data), MAX_RANGES_ENTRIES))
    case Other => s
  }

  method CollectProperty(s: NodeState, name: seq<byte>, data: seq<byte>, target: seq<byte>) returns (r: NodeState)
    requires Bounded(s)
    ensures r == Collect(s, KindOf(name), data, target)
  {
    match KindOf(name)
    case Compatible =>
      var found := PropContains(data, target);
      r := if found then s.(matched := true) else s;
    case RegList =>
      var regs := CollectRegs(s.regs, data);
      r := s.(regs := regs);
    case Interrupts =>
      var irqs := CollectIrqs(s.irqs, data);
      r := s.(irqs := irqs);
    case RangeList =>
      var ranges := CollectRanges(s.ranges, data);
      r := s.(ranges := ranges);
    case Other =>
      r := s;
  }

  // ── The walk ──────────────────────────────────────────────────────────────

  function ReadU32(f: Fdt, off: nat): (r: Option<nat>)
  {
    if off + 4 > TWO32 - 1 || off + 4 > |f.block| then None else Some(BeValue(f.block[off..off + 4]))
  }

  /** Out-of-bounds slices read as empty. */
  function StructSlice(f: Fdt, off: nat, len: nat): seq<byte> {
    if off + len >= TWO32 || off + len > |f.block| then [] else f.block[off..off + len]
  }

  function Align4(x: int): int { x - x % 4 }

  /** Offset behind the zero-terminated node name at `start`. */
  function AfterName(f: Fdt, start: nat): u32 {
    var rest := if start <= |f.block| then f.block[start..] else [];
    Align4(Wrap32(start + Min(TextLength(rest) + 1, |rest|) + 3))
  }

  method SkipNodeName(f: Fdt, start: nat) returns (off: u32)
    ensures off == AfterName(f, start)
  {
    var rest := if start <= |f.block| then f.block[start..] else [];
    var max := |rest|;
    var len := 0;
    while len < max
      invariant len <= max && len + TextLength(rest[len..]) == TextLength(rest)
    {
      var b := rest[len];
      assert rest[len..][1..] == rest[len + 1..];
      len := len + 1;
      if b == 0 {
        break;
      }
    }
    off := Align4(Wrap32(start + len + 3));
  }

  datatype Walker = Walker(off: nat, depth: nat, states: seq<NodeState>, calls: seq<NodeState>) {
    ghost predicate Valid() {
      |states| == MAX_DEPTH && forall i :: 0 <= i < MAX_DEPTH ==> Bounded(states[i])
    }
  }

  datatype Progress = Halt(calls: seq<NodeState>) | Next(w: Walker)

  function StepBegin(f: Fdt, w: Walker): (r: Walker)
    requires w.Valid()
    ensures r.Valid()
  {
    var states := if w.depth < MAX_DEPTH then w.states[w.depth := FRESH] else w.states;
    Walker(AfterName(f, w.off + 4), w.depth + 1, states, w.calls)
  }

  function StepEnd(go: Callback, w: Walker): (r: Progress)
    requires w.Valid()
    ensures r.Next? ==> r.w.Valid()
  {
    if w.depth == 0 then
      Halt(w.calls)
    else
      var depth := w.depth - 1;
      if depth < MAX_DEPTH && w.states[depth].matched then
        var calls := w.calls + [w.states[depth]];
        if go(calls) then Next(Walker(w.off + 4, depth, w.states, calls)) else Halt(calls)
      else
        Next(Walker(w.off + 4, depth, w.states, w.calls))
  }

  function StepProp(f: Fdt, target: seq<byte>, w: Walker): (r: Progress)
    requires w.Valid()
    ensures r.Next? ==> r.w.Valid()
  {
    var len, nameoff := ReadU32(f, w.off + 4), ReadU32(f, w.off + 8);
    if len.None? || nameoff.None? then
      Halt(w.calls)
    else
      var off := Wrap32(w.off + 12 + Align4(Wrap32(len.value + 3)));
      if w.depth == 0 || w.depth > MAX_DEPTH then
        Next(w.(off := off))
      else
        var state := Collect(w.states[w.depth - 1], KindOf(StringAt(f, nameoff.value)),
                             StructSlice(f, w.off + 12, len.value), target);
        Next(Walker(off, w.depth, w.states[w.depth - 1 := state], w.calls))
  }

  /** One turn of the loop, token by token. */
  function Step(f: Fdt, target: seq<byte>, go: Callback, w: Walker): (r: Progress)
    requires w.Valid()
    ensures r.Next? ==> r.w.Valid()
  {
    match ReadU32(f, w.off)
    case None => Halt(w.calls)
    case Some(token) =>
      if token == BEGIN_NODE then Next(StepBegin(f, w))
      else if token == END_NODE then StepEnd(go, w)
      else if token == PROP then StepProp(f, target, w)
      else if token == NOP then Next(w.(off := w.off + 4))
      else Halt(w.calls)
  }

  /** The nodes handed to the callback. `None` when an offset wraps round, after which the walk need not end. */
  function Run(f: Fdt, target: seq<byte>, go: Callback, w: Walker): (r: Option<seq<NodeState>>)
    requires w.Valid()
    decreases |f.block| - w.off
  {
    match Step(f, target, go, w)
    case Halt(calls) => Some(calls)
    case Next(next) => if next.off <= w.off then None else Run(f, target, go, next)
  }

  const START: Walker := Walker(0, 0, seq(MAX_DEPTH, _ => FRESH), [])

  /** The same by turns: the nodes handed over if the walk ends within `turns` turns, however offsets move. */
  function RunFor(f: Fdt, target: seq<byte>, go: Callback, w: Walker, turns: nat): (r: Option<seq<NodeState>>)
    requires w.Valid()
    decreases turns
  {
    if turns == 0 then None else
    match Step(f, target, go, w)
    case Halt(calls) => Some(calls)
    case Next(next) => RunFor(f, target, go, next, turns - 1)
  }

  /** A walk on which no offset wraps round ends. */
  lemma {:induction false} RunEnds(f: Fdt, target: seq<byte>, go: Callback, w: Walker) returns (turns: nat)
    requires w.Valid() && Run(f, target, go, w).Some?
    ensures RunFor(f, target, go, w, turns) == Run(f, target, go, w)
    decreases |f.block| - w.off
  {
    hide StepBegin;
    hide StepEnd;
    hide StepProp;
    var step := Step(f, target, go, w);
    turns := 1;
    if step.Next? {
      var rest := RunEnds(f, target, go, step.w);
      turns := rest + 1;
    }
  }

  /** However many turns are allowed, a walk that ends ends with the same nodes. */
  lemma {:induction false} RunForUnique(f: Fdt, target: seq<byte>, go: Callback, w: Walker, m: nat, n: nat)
    requires w.Valid() && RunFor(f, target, go, w, m).Some? && RunFor(f, target, go, w, n).Some?
    ensures RunFor(f, target, go, w, m) == RunFor(f, target, go, w, n)
    decreases m
  {
    hide StepBegin;
    hide StepEnd;
    hide StepProp;
    var step := Step(f, target, go, w);
    if step.Next? {
      RunForUnique(f, target, go, step.w, m - 1, n - 1);
    }
  }

  lemma RunForStep(f: Fdt, target: seq<byte>, go: Callback, w: Walker, turns: nat)
    requires w.Valid() && RunFor(f, target, go, w, turns).Some?
    ensures var step := Step(f, target, go, w);
            && turns > 0
            && (step.Halt? ==> RunFor(f, target, go, w, turns) == Some(step.calls))
            && (step.Next? ==> RunFor(f, target, go, w, turns) == RunFor(f, target, go, step.w, turns - 1))
  {
  }

  method WalkCompatible(f: Fdt, target: seq<byte>, go: Callback, ghost turns: nat) returns (calls: seq<NodeState>)
    requires f.Sized() && RunFor(f, target, go, START, turns).Some?
    ensures RunFor(f, target, go, START, turns) == Some(calls)
  {
    hide RunFor;
    hide KindOf;
    hide Collect;
    hide StringAt;
    hide StructSlice;
    hide AfterName;
    hide ReadU32;
    hide Align4;
    var states := new NodeState[MAX_DEPTH](_ => FRESH);
    var depth: nat, off: nat := 0, 0;
    calls := [];
    assert states[..] == START.states;
    ghost var w, left := START, turns;
    while true
      invariant w == Walker(off, depth, states[..], calls) && w.Valid()
      invariant RunFor(f, target, go, w, left) == RunFor(f, target, go, START, turns)
      decreases left
    {
      RunForStep(f, target, go, w, left);
      var token := ReadU32(f, off);
      if token.None? {
        return;
      }
      ghost var step := Step(f, target, go, w);
      if token.value == BEGIN_NODE {
        if depth < MAX_DEPTH {
          states[depth] := FRESH;
        }
        depth := depth + 1;
        off := SkipNodeName(f, off + 4);
      } else if token.value == END_NODE {
        if depth == 0 {
          return;
        }
        depth := depth - 1;
        off := off + 4;
        if depth < MAX_DEPTH && states[depth].matched {
          calls := calls + [states[depth]];
          if !go(calls) {
            return;
          }
        }
      } else if token.value == PROP {
        var len, nameoff := ReadU32(f, off + 4), ReadU32(f, off + 8);
        if len.None? || nameoff.None? {
          return;
        }
        var dataOff := off + 12;
        off := Wrap32(dataOff + Align4(Wrap32(len.value + 3)));
        if 0 < depth <= MAX_DEPTH {
          var name := ReadString(f, nameoff.value);
          var state := CollectProperty(states[depth - 1], name, StructSlice(f, dataOff, len.value), target);
          states[depth - 1] := state;
        }
      } else if token.value == NOP {
        off := off + 4;
      } else {
        return;
      }
      assert step.Next? && states[..] == step.w.states;
      w, left := step.w, left - 1;
    }
  }
}
