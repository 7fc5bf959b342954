/** The hardware hand-over from init to devmgr: what init collects, the rounds it serves and what devmgr assembles. */
module Handover {
  import opened Bytes

  const MAX_WINDOWS: nat := 2
  const MAX_IRQS: nat := 64
  const MAX_MODULES: nat := 8
  const LARGE_WINDOW: nat := 0x1000_0000
  const MESSAGE_WORDS: nat := 64
  const MAX_CAPS: nat := 4

  // ── What init collects ────────────────────────────────────────────────────

  datatype CapType = PciEcam | MmioRegion | Interrupt | Other

  datatype Descriptor = Descriptor(kind: CapType, slot: u32, aux0: u64, aux1: u64)

  datatype Window = Window(slot: u32, base: nat, size: nat)
  datatype Irq = Irq(slot: u32, id: u32)

  datatype HwCaps = HwCaps(ecam: Window, windows: seq<Window>, irqs: seq<Irq>)

  function Ecam(ds: seq<Descriptor>): Window {
    if ds == [] then Window(0, 0, 0)
    else
      var d := ds[|ds| - 1];
      if d.kind.PciEcam? then Window(d.slot, d.aux0, d.aux1) else Ecam(ds[..|ds| - 1])
  }

  function LargeWindows(ds: seq<Descriptor>): seq<Window> {
    if ds == [] then []
    else
      var d := ds[|ds| - 1];
      LargeWindows(ds[..|ds| - 1]) +
      if d.kind.MmioRegion? && d.aux1 >= LARGE_WINDOW then [Window(d.slot, d.aux0, d.aux1)] else []
  }

  function Irqs(ds: seq<Descriptor>): seq<Irq> {
    if ds == [] then []
    else
      var d := ds[|ds| - 1];
      Irqs(ds[..|ds| - 1]) + if d.kind.Interrupt? then [Irq(d.slot, Wrap32(d.aux0))] else []
  }

  method CollectHwCaps(ds: seq<Descriptor>) returns (hw: HwCaps)
    ensures hw == HwCaps(Ecam(ds), FirstOf(LargeWindows(ds), 2), FirstOf(Irqs(ds), 64))
  {
    hw := HwCaps(Window(0, 0, 0), [], []);
    for i := 0 to |ds|
      invariant var seen := ds[..i];
                hw == HwCaps(Ecam(seen), FirstOf(LargeWindows(seen), MAX_WINDOWS), FirstOf(Irqs(seen), MAX_IRQS))
    {
      assert ds[..i + 1][..i] == ds[..i];
      var d := ds[i];
      if d.kind.PciEcam? {
        hw := hw.(ecam := Window(d.slot, d.aux0, d.aux1));
      } else if d.kind.MmioRegion? && d.aux1 >= LARGE_WINDOW && |hw.windows| < MAX_WINDOWS {
        hw := hw.(windows := hw.windows + [Window(d.slot, d.aux0, d.aux1)]);
      } else if d.kind.Interrupt? && |hw.irqs| < MAX_IRQS {
        hw := hw.(irqs := hw.irqs + [Irq(d.slot, Wrap32(d.aux0))]);
      }
    }
    assert ds[..|ds|] == ds;
  }

  /** What each descriptor adds: the type picks the list, the fields come from slot and the two words. */
  lemma CollectsEach(ds: seq<Descriptor>, d: Descriptor)
    ensures Ecam(ds + [d]) == if d.kind == PciEcam then Window(d.slot, d.aux0, d.aux1) else Ecam(ds)
    ensures LargeWindows(ds + [d]) == LargeWindows(ds) +
            if d.kind == MmioRegion && d.aux1 >= 256 * 1024 * 1024 then [Window(d.slot, d.aux0, d.aux1)] else []
    ensures Irqs(ds + [d]) == Irqs(ds) + if d.kind == Interrupt then [Irq(d.slot, d.aux0 % TWO32)] else []
  {
    assert (ds + [d])[..|ds|] == ds;
  }

  // ── What init serves ──────────────────────────────────────────────────────

  /** One reply: the final flag, the capabilities and the payload words. */
  datatype Round = Round(done: bool, caps: seq<u32>, data: seq<nat>)

  /** The endpoints of the first round and the driver module, if there is one. */
  datatype Extras = Extras(log: u32, registry: u32, procmgr: u32, driver: Option<u32>)

  function WindowSlots(ws: seq<Window>): (r: seq<u32>)
    ensures |r| == |ws| && forall i :: 0 <= i < |ws| ==> r[i] == ws[i].slot
  {
    if ws == [] then [] else WindowSlots(ws[..|ws| - 1]) + [ws[|ws| - 1].slot]
  }

  function WindowWords(ws: seq<Window>): (r: seq<nat>)
    ensures |r| == 2 * |ws|
  {
    if ws == [] then [] else WindowWords(ws[..|ws| - 1]) + [ws[|ws| - 1].base, ws[|ws| - 1].size]
  }

  lemma {:induction false} WindowWordsAt(ws: seq<Window>, i: nat)
    requires i < |ws|
    ensures WindowWords(ws)[2 * i] == ws[i].base && WindowWords(ws)[2 * i + 1] == ws[i].size
    decreases |ws|
  {
    if i < |ws| - 1 {
      WindowWordsAt(ws[..|ws| - 1], i);
    }
  }

  function IrqSlots(irqs: seq<Irq>): (r: seq<u32>)
    ensures |r| == |irqs| && forall i :: 0 <= i < |irqs| ==> r[i] == irqs[i].slot
  {
    if irqs == [] then [] else IrqSlots(irqs[..|irqs| - 1]) + [irqs[|irqs| - 1].slot]
  }

  function IrqIds(irqs: seq<Irq>): (r: seq<nat>)
    ensures |r| == |irqs| && forall i :: 0 <= i < |irqs| ==> r[i] == irqs[i].id
  {
    if irqs == [] then [] else IrqIds(irqs[..|irqs| - 1]) + [irqs[|irqs| - 1].id]
  }

  function EndpointRound(hw: HwCaps, x: Extras): Round {
    Round(false, [x.log, x.registry, x.procmgr, hw.ecam.slot], [hw.ecam.base, hw.ecam.size])
  }

  function WindowRound(hw: HwCaps, x: Extras): Round {
    Round(hw.irqs == [] && x.driver.None?, WindowSlots(hw.windows), [|hw.windows|] + WindowWords(hw.windows))
  }

  function IrqRound(batch: seq<Irq>, done: bool): Round { Round(done, IrqSlots(batch), [0] + IrqIds(batch)) }

  /** Interrupts from `at` on, four to a round, then the driver module. */
  function IrqRounds(hw: HwCaps, x: Extras, at: nat): (r: seq<Round>)
    requires at <= |hw.irqs|
    decreases |hw.irqs| - at
  {
    if at == |hw.irqs| then
      if x.driver.Some? then [Round(true, [x.driver.value], [1])] else []
    else
      var end := Min(at + 4, |hw.irqs|);
      [IrqRound(hw.irqs[at..end], end == |hw.irqs| && x.driver.None?)] + IrqRounds(hw, x, end)
  }

  function Rounds(hw: HwCaps, x: Extras): seq<Round> {
    [EndpointRound(hw, x), WindowRound(hw, x)] + IrqRounds(hw, x, 0)
  }

  /** init's system calls: each may fail, and no reply goes out with an empty slot in it. */
  class Creator {
    var served: seq<Round>
    var failures: nat

    constructor ()
      ensures served == [] && failures == 0
    {
      served, failures := [], 0;
    }

    /** A copy of the capability, named like the original; 0 when there is none. */
    method Derive(slot: u32) returns (copy: u32)
      modifies this`failures
      ensures copy != 0 ==> copy == slot && failures == old(failures)
      ensures copy == 0 ==> failures == old(failures) + 1
    {
      var ok: bool := *;
      copy := if ok then slot else 0;
      if copy == 0 {
        failures := failures + 1;
      }
    }

    method StartProcess() returns (ok: bool)
      modifies this`failures
      ensures failures == old(failures) + if ok then 0 else 1
    {
      ok := *;
      if !ok {
        failures := failures + 1;
      }
    }

    method Serve(r: Round) returns (ok: bool)
      modifies this
      ensures ok ==> 0 !in r.caps && served == old(served) + [r] && failures == old(failures)
      ensures !ok ==> served == old(served) && failures == old(failures) + 1
    {
      ok := *;
      ok := ok && 0 !in r.caps;
      if ok {
        served := served + [r];
      } else {
        failures := failures + 1;
      }
    }
  }

  /** Copies are the slots themselves, but for a 0 where a derive failed. */
  predicate Copies(copies: seq<u32>, slots: seq<u32>) {
    |copies| == |slots| && forall i :: 0 <= i < |slots| ==> copies[i] == slots[i] || copies[i] == 0
  }

  lemma AllCopied(copies: seq<u32>, slots: seq<u32>)
    requires Copies(copies, slots) && 0 !in copies
    ensures copies == slots
  {
  }

  method PackWindows(k: Creator, ws: seq<Window>) returns (copies: seq<u32>, words: seq<nat>)
    modifies k`failures
    ensures Copies(copies, WindowSlots(ws)) && words == WindowWords(ws)
    ensures k.failures >= old(k.failures) && (0 in copies <==> k.failures > old(k.failures))
  {
    copies, words := [], [];
    for i := 0 to |ws|
      invariant Copies(copies, WindowSlots(ws[..i])) && words == WindowWords(ws[..i])
      invariant k.failures >= old(k.failures) && (0 in copies <==> k.failures > old(k.failures))
    {
      assert ws[..i + 1][..i] == ws[..i];
      var copy := k.Derive(ws[i].slot);
      copies, words := copies + [copy], words + [ws[i].base, ws[i].size];
    }
    assert ws[..|ws|] == ws;
  }

  method PackIrqs(k: Creator, batch: seq<Irq>) returns (copies: seq<u32>, ids: seq<nat>)
    modifies k`failures
    ensures Copies(copies, IrqSlots(batch)) && ids == IrqIds(batch)
    ensures k.failures >= old(k.failures) && (0 in copies <==> k.failures > old(k.failures))
  {
    copies, ids := [], [];
    for i := 0 to |batch|
      invariant Copies(copies, IrqSlots(batch[..i])) && ids == IrqIds(batch[..i])
      invariant k.failures >= old(k.failures) && (0 in copies <==> k.failures > old(k.failures))
    {
      assert batch[..i + 1][..i] == batch[..i];
      var copy := k.Derive(batch[i].slot);
      copies, ids := copies + [copy], ids + [batch[i].id];
    }
    assert batch[..|batch|] == batch;
  }

  /** The copies of the first round's capabilities; none when a derive fails. */
  method DeriveEndpoints(k: Creator, hw: HwCaps, x: Extras) returns (copies: Option<seq<u32>>)
    modifies k`failures
    ensures copies.Some? ==> copies.value == EndpointRound(hw, x).caps && k.failures == old(k.failures)
    ensures copies.None? ==> k.failures > old(k.failures)
  {
    var log := k.Derive(x.log);
    if log == 0 {
      return None;
    }
    var registry := k.Derive(x.registry);
    if registry == 0 {
      return None;
    }
    var procmgr := k.Derive(x.procmgr);
    if procmgr == 0 {
      return None;
    }
    var ecam := k.Derive(hw.ecam.slot);
    if ecam == 0 {
      return None;
    }
    copies := Some([log, registry, procmgr, ecam]);
  }

  /** init's side: it stops at the first round it cannot serve. */
  method ServeDevmgr(k: Creator, hw: HwCaps, x: Extras)
    requires k.served == [] && k.failures == 0
    modifies k
    ensures k.served <= Rounds(hw, x)
    ensures k.served == Rounds(hw, x) <==> k.failures == 0
  {
    hide WindowSlots;
    hide WindowWords;
    hide IrqSlots;
    hide IrqIds;
    hide IrqRounds;
    RoundsUnfold(hw, x, 0);
    var first := DeriveEndpoints(k, hw, x);
    if first.None? {
      return;
    }
    var ok := k.StartProcess();
    if !ok {
      return;
    }
    ok := k.Serve(Round(false, first.value, [hw.ecam.base, hw.ecam.size]));
    if !ok {
      return;
    }
    var copies, words := PackWindows(k, hw.windows);
    var doneAfterMmio := hw.irqs == [] && x.driver.None?;
    ok := k.Serve(Round(doneAfterMmio, copies, [|hw.windows|] + words));
    if !ok {
      return;
    }
    AllCopied(copies, WindowSlots(hw.windows));
    if doneAfterMmio {
      return;
    }
    var irqIdx := 0;
    while irqIdx < |hw.irqs|
      invariant 0 <= irqIdx <= |hw.irqs| && (irqIdx == |hw.irqs| ==> x.driver.Some?)
      invariant k.failures == 0 && k.served + IrqRounds(hw, x, irqIdx) == Rounds(hw, x)
    {
      RoundsUnfold(hw, x, irqIdx);
      var batchEnd := Min(irqIdx + 4, |hw.irqs|);
      var doneHere := batchEnd == |hw.irqs| && x.driver.None?;
      var batch := hw.irqs[irqIdx..batchEnd];
      var caps, ids := PackIrqs(k, batch);
      ok := k.Serve(Round(doneHere, caps, [0] + ids));
      if !ok {
        return;
      }
      AllCopied(caps, IrqSlots(batch));
      RoundsUnfold(hw, x, batchEnd);
      if doneHere {
        return;
      }
      irqIdx := batchEnd;
    }
    RoundsUnfold(hw, x, irqIdx);
    var driver := k.Derive(x.driver.value);
    if driver == 0 {
      return;
    }
    ok := k.Serve(Round(true, [driver], [1]));
  }

  lemma RoundsUnfold(hw: HwCaps, x: Extras, at: nat)
    requires at <= |hw.irqs|
    ensures at == |hw.irqs| ==>
              IrqRounds(hw, x, at) == if x.driver.Some? then [Round(true, [x.driver.value], [1])] else []
    ensures at < |hw.irqs| ==>
              var end := Min(at + 4, |hw.irqs|);
              IrqRounds(hw, x, at)
              == [IrqRound(hw.irqs[at..end], end == |hw.irqs| && x.driver.None?)] + IrqRounds(hw, x, end)
  {
  }

  lemma {:induction false} IrqRoundCount(hw: HwCaps, x: Extras, at: nat)
    requires at <= |hw.irqs|
    ensures |IrqRounds(hw, x, at)| == DivCeil(|hw.irqs| - at, 4) + if x.driver.Some? then 1 else 0
    ensures forall i :: 0 <= i < |IrqRounds(hw, x, at)| ==>
              (IrqRounds(hw, x, at)[i].done <==> i == |IrqRounds(hw, x, at)| - 1)
    decreases |hw.irqs| - at
  {
    if at < |hw.irqs| {
      var end := Min(at + 4, |hw.irqs|);
      IrqRoundCount(hw, x, end);
      assert DivCeil(|hw.irqs| - at, 4) == 1 + DivCeil(|hw.irqs| - end, 4);
    }
  }

  /** Two rounds, one per four interrupts and one for a driver module; the last round and no other is final. */
  lemma RoundCount(hw: HwCaps, x: Extras)
    ensures |Rounds(hw, x)| == 2 + DivCeil(|hw.irqs|, 4) + if x.driver.Some? then 1 else 0
    ensures forall i :: 0 <= i < |Rounds(hw, x)| ==> (Rounds(hw, x)[i].done <==> i == |Rounds(hw, x)| - 1)
  {
    IrqRoundCount(hw, x, 0);
    var rest := IrqRounds(hw, x, 0);
    assert forall i :: 2 <= i < |Rounds(hw, x)| ==> Rounds(hw, x)[i] == rest[i - 2];
  }

  // ── What devmgr assembles ─────────────────────────────────────────────────

  datatype DevmgrCaps = DevmgrCaps(
    log: u32, registry: u32, procmgr: u32, ecam: Window, windows: seq<Window>, irqs: seq<Irq>, modules: seq<u32>)

  /** A client's message buffer: its data words and the capability slots the kernel noted behind them. */
  datatype Buffer = Buffer(words: seq<nat>, caps: seq<u32>) {
    predicate Valid() { |words| == MESSAGE_WORDS && |caps| <= MAX_CAPS }
  }

  /** A reply overwrites the words it has; the noted slots stay when it has no capabilities. */
  function Received(b: Buffer, r: Round): (now: Buffer)
    requires b.Valid()
    ensures now.Valid()
  {
    var data := FirstOf(r.data, MESSAGE_WORDS);
    Buffer(data + b.words[|data|..], if r.caps == [] then b.caps else FirstOf(r.caps, MAX_CAPS))
  }

  /** The rounds of one creator, taken one per request, and the client's message buffer. */
  class Session {
    const rounds: seq<Round>
    var next: nat
    var buffer: Buffer

    ghost predicate Valid()
      reads this
    {
      next <= |rounds| && buffer.Valid()
    }

    constructor (rs: seq<Round>, b: Buffer)
      requires b.Valid()
      ensures Valid() && rounds == rs && next == 0 && buffer == b
    {
      rounds, next, buffer := rs, 0, b;
    }

    /** `request_round`: gives the final flag; none when the creator has stopped serving and no reply will come. */
    method Request() returns (done: Option<bool>)
      requires Valid()
      modifies this
      ensures Valid()
      ensures old(next) == |rounds| ==> done == None && next == old(next) && buffer == old(buffer)
      ensures old(next) < |rounds| ==>
                && done == Some(rounds[old(next)].done)
                && next == old(next) + 1
                && buffer == Received(old(buffer), rounds[old(next)])
    {
      if next == |rounds| {
        return None;
      }
      done := Some(rounds[next].done);
      next, buffer := next + 1, Received(buffer, rounds[next]);
    }
  }

  /** The windows of a round: as many as it announces, has capabilities for, and fit. */
  function TakeWindows(b: Buffer, n: nat): (ws: seq<Window>)
    requires b.Valid() && n <= |b.caps| && n <= MAX_WINDOWS
  {
    if n == 0 then [] else TakeWindows(b, n - 1) + [Window(b.caps[n - 1], b.words[2 * n - 1], b.words[2 * n])]
  }

  function TakeIrqs(b: Buffer, n: nat): (irqs: seq<Irq>)
    requires b.Valid() && n <= |b.caps|
  {
    if n == 0 then [] else TakeIrqs(b, n - 1) + [Irq(b.caps[n - 1], Wrap32(b.words[n]))]
  }

  function WindowCount(b: Buffer): nat
    requires b.Valid()
  {
    Min(Min(b.words[0], |b.caps|), MAX_WINDOWS)
  }

  /** What one of the later rounds adds: interrupts for kind 0, driver modules otherwise. */
  function TakeRound(caps: DevmgrCaps, b: Buffer): DevmgrCaps
    requires b.Valid()
  {
    if b.words[0] == 0 then caps.(irqs := FirstOf(caps.irqs + TakeIrqs(b, |b.caps|), MAX_IRQS))
    else caps.(modules := FirstOf(caps.modules + b.caps, MAX_MODULES))
  }

  method TakeLaterRound(caps: DevmgrCaps, b: Buffer) returns (now: DevmgrCaps)
    requires b.Valid() && |caps.irqs| <= MAX_IRQS && |caps.modules| <= MAX_MODULES
    ensures now == TakeRound(caps, b) && |now.irqs| <= MAX_IRQS && |now.modules| <= MAX_MODULES
  {
    now := caps;
    if b.words[0] == 0 {
      for i := 0 to |b.caps|
        invariant now == caps.(irqs := FirstOf(caps.irqs + TakeIrqs(b, i), MAX_IRQS))
      {
        if |now.irqs| < MAX_IRQS {
          now := now.(irqs := now.irqs + [Irq(b.caps[i], Wrap32(b.words[1 + i]))]);
        }
      }
    } else {
      for i := 0 to |b.caps|
        invariant now == caps.(modules := FirstOf(caps.modules + b.caps[..i], MAX_MODULES))
      {
        assert b.caps[..i + 1] == b.caps[..i] + [b.caps[i]];
        if |now.modules| < MAX_MODULES {
          now := now.(modules := now.modules + [b.caps[i]]);
        }
      }
      assert b.caps[..|b.caps|] == b.caps;
    }
  }

  /** The capability set after the rounds from `at` to the final one, and the number of rounds requested. */
  function AssembleFrom(rounds: seq<Round>, at: nat, b: Buffer, caps: DevmgrCaps): Option<(DevmgrCaps, nat)>
    requires at <= |rounds| && b.Valid()
    decreases |rounds| - at
  {
    if at == |rounds| then None
    else
      var words := Received(b, rounds[at]);
      var now := TakeRound(caps, words);
      if rounds[at].done then Some((now, at + 1)) else AssembleFrom(rounds, at + 1, words, now)
  }

  function Assemble(rounds: seq<Round>, b: Buffer): Option<(DevmgrCaps, nat)>
    requires b.Valid()
  {
    if |rounds| < 2 || |Received(b, rounds[0]).caps| < 4 then None
    else
      var first := Received(b, rounds[0]);
      var ecam := Window(first.caps[3], first.words[0], first.words[1]);
      var second := Received(first, rounds[1]);
      var windows := TakeWindows(second, WindowCount(second));
      var caps := DevmgrCaps(first.caps[0], first.caps[1], first.caps[2], ecam, windows, [], []);
      if rounds[1].done then Some((caps, 2)) else AssembleFrom(rounds, 2, second, caps)
  }

  /** devmgr's side. `None` when a round is missing, even if it waits for it, or the first has too few capabilities. */
  method ReceiveCaps(s: Session) returns (r: Option<DevmgrCaps>)
    requires s.Valid() && s.next == 0
    modifies s
    ensures s.Valid()
    ensures r.Some? ==> Assemble(s.rounds, old(s.buffer)) == Some((r.value, s.next))
    ensures r.None? ==> Assemble(s.rounds, old(s.buffer)) == None
  {
    hide TakeRound;
    hide TakeWindows;
    hide WindowCount;
    hide Received;
    var first := s.Request();
    if first.None? || |s.buffer.caps| < 4 {
      return None;
    }
    var ecam := Window(s.buffer.caps[3], s.buffer.words[0], s.buffer.words[1]);
    var caps := DevmgrCaps(s.buffer.caps[0], s.buffer.caps[1], s.buffer.caps[2], ecam, [], [], []);
    var second := s.Request();
    if second.None? {
      return None;
    }
    var windows := ReadWindows(s.buffer);
    caps := caps.(windows := windows);
    var done := second.value;
    while !done
      invariant s.Valid() && |caps.irqs| <= MAX_IRQS && |caps.modules| <= MAX_MODULES
      invariant done ==> Assemble(s.rounds, old(s.buffer)) == Some((caps, s.next))
      invariant !done ==> Assemble(s.rounds, old(s.buffer)) == AssembleFrom(s.rounds, s.next, s.buffer, caps)
      decreases !done, |s.rounds| - s.next
    {
      var round := s.Request();
      if round.None? {
        return None;
      }
      done := round.value;
      caps := TakeLaterRound(caps, s.buffer);
    }
    r := Some(caps);
  }

  method ReadWindows(b: Buffer) returns (ws: seq<Window>)
    requires b.Valid()
    ensures ws == TakeWindows(b, WindowCount(b))
  {
    ws := [];
    for i := 0 to WindowCount(b)
      invariant ws == TakeWindows(b, i)
    {
      ws := ws + [Window(b.caps[i], b.words[1 + i * 2], b.words[2 + i * 2])];
    }
  }

  // ── Both sides together ───────────────────────────────────────────────────

  lemma ReceivedAt(b: Buffer, r: Round, i: nat)
    requires b.Valid() && i < |r.data| <= MESSAGE_WORDS
    ensures Received(b, r).words[i] == r.data[i]
  {
  }

  lemma ReceivedCaps(b: Buffer, r: Round)
    requires b.Valid() && 0 < |r.caps| <= MAX_CAPS
    ensures Received(b, r).caps == r.caps
  {
  }

  lemma ModuleTaken(caps: DevmgrCaps, driver: u32, b: Buffer)
    requires b.Valid() && caps.modules == []
    ensures TakeRound(caps, Received(b, Round(true, [driver], [1]))) == caps.(modules := [driver])
  {
    ReceivedAt(b, Round(true, [driver], [1]), 0);
  }

  lemma {:induction false} WindowsArrive(hw: HwCaps, x: Extras, b: Buffer, n: nat)
    requires b.Valid() && n <= |hw.windows| <= MAX_WINDOWS
    ensures n <= |Received(b, WindowRound(hw, x)).caps|
    ensures TakeWindows(Received(b, WindowRound(hw, x)), n) == hw.windows[..n]
  {
    if n > 0 {
      hide WindowWords;
      hide WindowSlots;
      hide Received;
      WindowsArrive(hw, x, b, n - 1);
      var r, i := WindowRound(hw, x), n - 1;
      ReceivedCaps(b, r);
      ReceivedAt(b, r, 2 * i + 1);
      ReceivedAt(b, r, 2 * i + 2);
      WindowWordsAt(hw.windows, i);
      assert hw.windows[..n] == hw.windows[..i] + [hw.windows[i]];
    }
  }

  lemma {:induction false} IrqsArrive(batch: seq<Irq>, done: bool, b: Buffer, n: nat)
    requires b.Valid() && n <= |batch| <= 4 && batch != []
    ensures Received(b, IrqRound(batch, done)).caps == IrqSlots(batch)
    ensures TakeIrqs(Received(b, IrqRound(batch, done)), n) == batch[..n]
  {
    if n > 0 {
      hide IrqIds;
      hide IrqSlots;
      hide Received;
      IrqsArrive(batch, done, b, n - 1);
      ReceivedCaps(b, IrqRound(batch, done));
      ReceivedAt(b, IrqRound(batch, done), n);
      assert batch[..n] == batch[..n - 1] + [batch[n - 1]];
    }
  }

  function Delivered(hw: HwCaps, x: Extras): DevmgrCaps {
    var modules := if x.driver.Some? then [x.driver.value] else [];
    DevmgrCaps(x.log, x.registry, x.procmgr, hw.ecam, hw.windows, hw.irqs, modules)
  }

  lemma IrqRoundTaken(hw: HwCaps, x: Extras, at: nat, caps: DevmgrCaps, b: Buffer)
    requires |hw.irqs| <= MAX_IRQS && at < |hw.irqs| && b.Valid() && caps.irqs == hw.irqs[..at]
    ensures var end := Min(at + 4, |hw.irqs|);
            var r := IrqRound(hw.irqs[at..end], end == |hw.irqs| && x.driver.None?);
            TakeRound(caps, Received(b, r)) == caps.(irqs := hw.irqs[..end])
  {
    hide TakeIrqs;
    var end := Min(at + 4, |hw.irqs|);
    var batch, done := hw.irqs[at..end], end == |hw.irqs| && x.driver.None?;
    IrqsArrive(batch, done, b, |batch|);
    ReceivedAt(b, IrqRound(batch, done), 0);
    assert batch[..|batch|] == batch && hw.irqs[..at] + batch == hw.irqs[..end];
  }

  /** The rounds from interrupt `at` on complete devmgr's set; any of them missing, devmgr ends with nothing. */
  lemma {:induction false} RestArrives(hw: HwCaps, x: Extras, rounds: seq<Round>, pos: nat, at: nat,
                                       caps: DevmgrCaps, b: Buffer)
    requires |hw.irqs| <= MAX_IRQS && at <= |hw.irqs| && b.Valid() && pos <= |rounds|
    requires rounds[pos..] <= IrqRounds(hw, x, at) && IrqRounds(hw, x, at) != []
    requires caps == Delivered(hw, x).(irqs := hw.irqs[..at], modules := [])
    ensures AssembleFrom(rounds, pos, b, caps)
         == if rounds[pos..] == IrqRounds(hw, x, at) then Some((Delivered(hw, x), |rounds|)) else None
    decreases |hw.irqs| - at
  {
    hide TakeRound;
    hide Received;
    if pos < |rounds| {
      var r := rounds[pos];
      assert r == rounds[pos..][0] && rounds[pos + 1..] == rounds[pos..][1..];
      if at == |hw.irqs| {
        assert hw.irqs[..at] == hw.irqs;
        ModuleTaken(caps, x.driver.value, b);
      } else {
        var end := Min(at + 4, |hw.irqs|);
        IrqRoundTaken(hw, x, at, caps, b);
        var now := caps.(irqs := hw.irqs[..end]);
        if r.done {
          assert hw.irqs[..end] == hw.irqs && rounds[pos + 1..] == [];
        } else {
          RestArrives(hw, x, rounds, pos + 1, end, now, Received(b, r));
        }
      }
    }
  }

  /**
   * All or nothing: with every round served devmgr ends with exactly the windows and interrupts init collected, in
   * order, after taking every round; with any round missing it ends with nothing.
   */
  lemma HandoverIsExact(hw: HwCaps, x: Extras, served: seq<Round>, b: Buffer)
    requires |hw.windows| <= MAX_WINDOWS && |hw.irqs| <= MAX_IRQS && b.Valid() && served <= Rounds(hw, x)
    ensures Assemble(served, b) == if served == Rounds(hw, x) then Some((Delivered(hw, x), |served|)) else None
  {
    if |served| >= 2 {
      assert served[0] == EndpointRound(hw, x) && served[1] == WindowRound(hw, x);
      var first := Received(b, served[0]);
      var second := Received(first, served[1]);
      assert first.words[0] == hw.ecam.base && first.words[1] == hw.ecam.size;
      assert second.words[0] == |hw.windows|;
      WindowsArrive(hw, x, first, |hw.windows|);
      assert hw.windows[..|hw.windows|] == hw.windows;
      assert served[2..] <= IrqRounds(hw, x, 0) by {
        assert IrqRounds(hw, x, 0) == Rounds(hw, x)[2..];
      }
      if served[1].done {
        assert IrqRounds(hw, x, 0) == [];
      } else {
        var caps := Delivered(hw, x).(irqs := hw.irqs[..0], modules := []);
        RestArrives(hw, x, served, 2, 0, caps, second);
      }
    }
  }
}
