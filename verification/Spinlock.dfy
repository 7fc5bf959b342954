/** The kernel's ticket spinlock as a machine of any number of CPUs and locks, one atomic access per step. */
module Spinlock {
  import opened Bytes

  // ── State ─────────────────────────────────────────────────────────────────

  /** `next` and `serving` are the counters; `issued`, `served` and `granted` count the same events without wrapping. */
  datatype Lock = Lock(next: u32, serving: u32, issued: nat, served: nat, granted: nat)

  /** Where a CPU is inside `lock_raw` or `unlock_raw`. `number` is the ticket before wrapping. */
  datatype Pc =
    | Idle
    | Entering(lock: nat, saved: bool)
    | Spinning(lock: nat, saved: bool, ticket: u32, number: nat)
    | Restoring(saved: bool)

  /** An acquisition whose interrupt flag is not restored yet; `release_lock_only` clears `locked`. */
  datatype Frame = Frame(lock: nat, saved: bool, locked: bool)

  /** `base` is the interrupt flag the CPU had outside all critical sections. */
  datatype Cpu = Cpu(irq: bool, base: bool, pc: Pc, frames: seq<Frame>)

  datatype State = State(cpus: seq<Cpu>, locks: seq<Lock>)

  // ── Steps ─────────────────────────────────────────────────────────────────

  datatype Step =
    | SetFlag(cpu: nat, on: bool)
    | Disable(cpu: nat, lock: nat)
    | TakeTicket(cpu: nat)
    | Poll(cpu: nat)
    | Unlock(cpu: nat)
    | Restore(cpu: nat)
    | ReleaseOnly(cpu: nat, frame: nat)
    | RestoreFrom(cpu: nat)

  function Top(frames: seq<Frame>): Frame
    requires frames != []
  {
    frames[|frames| - 1]
  }

  function Pop(frames: seq<Frame>): seq<Frame>
    requires frames != []
  {
    frames[..|frames| - 1]
  }

  predicate WellFormed(s: State) {
    forall c :: 0 <= c < |s.cpus| ==>
      && (s.cpus[c].pc.Entering? || s.cpus[c].pc.Spinning? ==> s.cpus[c].pc.lock < |s.locks|)
      && (forall i :: 0 <= i < |s.cpus[c].frames| ==> s.cpus[c].frames[i].lock < |s.locks|)
  }

  predicate Enabled(s: State, step: Step) {
    && step.cpu < |s.cpus|
    && var cpu := s.cpus[step.cpu];
    match step
    case SetFlag(_, _) => cpu.pc.Idle? && cpu.frames == []
    case Disable(_, l) => cpu.pc.Idle? && l < |s.locks|
    case TakeTicket(_) => cpu.pc.Entering?
    case Poll(_) => cpu.pc.Spinning?
    case Unlock(_) => cpu.pc.Idle? && cpu.frames != [] && Top(cpu.frames).locked
    case Restore(_) => cpu.pc.Restoring?
    case ReleaseOnly(_, i) => cpu.pc.Idle? && i < |cpu.frames| && cpu.frames[i].locked
    case RestoreFrom(_) => cpu.pc.Idle? && cpu.frames != [] && !Top(cpu.frames).locked
  }

  function Issue(k: Lock): Lock { k.(next := Wrap32(k.next + 1), issued := k.issued + 1) }

  function Serve(k: Lock): Lock { k.(serving := Wrap32(k.serving + 1), served := k.served + 1) }

  /** The new CPU and the lock the step touched with its new value, if any. */
  function Effect(s: State, step: Step): (r: (Cpu, Option<(nat, Lock)>))
    requires WellFormed(s) && Enabled(s, step)
  {
    var cpu := s.cpus[step.cpu];
    match step
    case SetFlag(_, on) => (cpu.(irq := on, base := on), None)
    case Disable(_, l) => (cpu.(irq := false, pc := Entering(l, cpu.irq)), None)
    case TakeTicket(_) =>
      var k := s.locks[cpu.pc.lock];
      (cpu.(pc := Spinning(cpu.pc.lock, cpu.pc.saved, k.next, k.issued)), Some((cpu.pc.lock, Issue(k))))
    case Poll(_) =>
      var k := s.locks[cpu.pc.lock];
      if k.serving == cpu.pc.ticket then
        (cpu.(pc := Idle, frames := cpu.frames + [Frame(cpu.pc.lock, cpu.pc.saved, true)]),
         Some((cpu.pc.lock, k.(granted := k.granted + 1))))
      else
        (cpu, None)
    case Unlock(_) =>
      var f := Top(cpu.frames);
      (cpu.(pc := Restoring(f.saved), frames := Pop(cpu.frames)), Some((f.lock, Serve(s.locks[f.lock]))))
    case Restore(_) => (cpu.(irq := cpu.pc.saved, pc := Idle), None)
    case ReleaseOnly(_, i) =>
      var f := cpu.frames[i];
      (cpu.(frames := cpu.frames[i := f.(locked := false)]), Some((f.lock, Serve(s.locks[f.lock]))))
    case RestoreFrom(_) => (cpu.(irq := Top(cpu.frames).saved, frames := Pop(cpu.frames)), None)
  }

  function Apply(s: State, step: Step): (r: State)
    requires WellFormed(s) && Enabled(s, step)
    ensures WellFormed(r) && |r.cpus| == |s.cpus| && |r.locks| == |s.locks|
  {
    var (cpu, touched) := Effect(s, step);
    State(s.cpus[step.cpu := cpu], if touched.None? then s.locks else s.locks[touched.value.0 := touched.value.1])
  }

  // ── Runs ──────────────────────────────────────────────────────────────────

  ghost predicate Init(s: State) {
    && (forall c :: 0 <= c < |s.cpus| ==>
          s.cpus[c].pc == Idle && s.cpus[c].frames == [] && s.cpus[c].irq == s.cpus[c].base)
    && (forall l :: 0 <= l < |s.locks| ==> s.locks[l] == Lock(0, 0, 0, 0, 0))
  }

  /** `trace` is a run: it starts in an initial state and every state follows from the one before by an enabled step. */
  ghost predicate IsRun(trace: seq<State>, steps: seq<Step>) {
    && |trace| == |steps| + 1
    && Init(trace[0])
    && forall i :: 0 <= i < |steps| ==>
         WellFormed(trace[i]) && Enabled(trace[i], steps[i]) && trace[i + 1] == Apply(trace[i], steps[i])
  }

  // ── The invariant ─────────────────────────────────────────────────────────

  predicate Waits(cpu: Cpu, l: nat) { cpu.pc.Spinning? && cpu.pc.lock == l }

  predicate Holds(cpu: Cpu, i: nat, l: nat) { i < |cpu.frames| && cpu.frames[i].locked && cpu.frames[i].lock == l }

  ghost predicate TicketOwned(s: State, l: nat, n: nat) {
    exists c :: 0 <= c < |s.cpus| && Waits(s.cpus[c], l) && s.cpus[c].pc.number == n
  }

  ghost predicate LockInv(s: State, l: nat)
    requires l < |s.locks|
  {
    var k := s.locks[l];
    && k.next == k.issued % TWO32 && k.serving == k.served % TWO32
    && k.served <= k.granted <= k.served + 1 && k.granted <= k.issued
    && (forall c :: 0 <= c < |s.cpus| && Waits(s.cpus[c], l) ==>
          k.granted <= s.cpus[c].pc.number < k.issued && s.cpus[c].pc.ticket == s.cpus[c].pc.number % TWO32)
    && (forall c, d :: 0 <= c < d < |s.cpus| && Waits(s.cpus[c], l) && Waits(s.cpus[d], l) ==>
          s.cpus[c].pc.number != s.cpus[d].pc.number)
    && (forall c, i: nat :: 0 <= c < |s.cpus| && Holds(s.cpus[c], i, l) ==> k.granted == k.served + 1)
    && (forall n :: k.granted <= n < k.issued ==> TicketOwned(s, l, n))
  }

  ghost predicate Held(s: State, l: nat) { exists c, i: nat :: 0 <= c < |s.cpus| && Holds(s.cpus[c], i, l) }

  /** A grant that has not been released yet belongs to a holder. */
  ghost predicate NoneLost(s: State, l: nat)
    requires l < |s.locks|
  {
    s.locks[l].granted > s.locks[l].served ==> Held(s, l)
  }

  /** At most one holder of each lock. */
  ghost predicate Exclusive(s: State) {
    forall c, d, i: nat, j: nat, l ::
      0 <= c < |s.cpus| && 0 <= d < |s.cpus| && Holds(s.cpus[c], i, l) && Holds(s.cpus[d], j, l) ==> c == d && i == j
  }

  /** The flag a CPU must find when it leaves its innermost acquisition. */
  function Outer(cpu: Cpu): bool { cpu.frames == [] && cpu.base }

  /** Interrupts are off inside every critical section and as they were outside all of them. */
  predicate FlagsKept(cpu: Cpu) {
    && cpu.irq == (cpu.pc.Idle? && Outer(cpu))
    && (!cpu.pc.Idle? ==> cpu.pc.saved == Outer(cpu))
    && (forall i :: 0 <= i < |cpu.frames| ==> cpu.frames[i].saved == (i == 0 && cpu.base))
  }

  ghost predicate Inv(s: State) {
    && WellFormed(s)
    && (forall l :: 0 <= l < |s.locks| ==> LockInv(s, l) && NoneLost(s, l))
    && Exclusive(s)
    && (forall c :: 0 <= c < |s.cpus| ==> FlagsKept(s.cpus[c]))
  }

  /** No more tickets are out than the counters can tell apart. */
  predicate Distinguishable(k: Lock) { k.issued - k.served <= TWO32 }
}
