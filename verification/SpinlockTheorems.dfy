/** Mutual exclusion, ticket order and interrupt state of the spinlock over every run. */
module SpinlockTheorems {
  import opened Bytes
  import opened Spinlock

  // ── What one step does to one lock ────────────────────────────────────────

  /** CPU `c` changes to `cpu` without touching lock `l`. */
  lemma LockUntouched(s: State, s': State, c: nat, l: nat)
    requires l < |s.locks| && LockInv(s, l) && c < |s.cpus| == |s'.cpus| && |s'.locks| == |s.locks|
    requires forall d :: 0 <= d < |s.cpus| && d != c ==> s'.cpus[d] == s.cpus[d]
    requires s'.locks[l] == s.locks[l]
    requires Waits(s'.cpus[c], l) == Waits(s.cpus[c], l) && (Waits(s.cpus[c], l) ==> s'.cpus[c].pc == s.cpus[c].pc)
    requires forall i: nat :: Holds(s'.cpus[c], i, l) ==> Holds(s.cpus[c], i, l)
    ensures LockInv(s', l)
  {
    forall n | s.locks[l].granted <= n < s.locks[l].issued ensures TicketOwned(s', l, n) {
      assert TicketOwned(s, l, n);
      var d :| 0 <= d < |s.cpus| && Waits(s.cpus[d], l) && s.cpus[d].pc.number == n;
      assert Waits(s'.cpus[d], l) && s'.cpus[d].pc.number == n;
    }
  }

  lemma LockIssued(s: State, c: nat)
    requires Inv(s) && Enabled(s, TakeTicket(c))
    ensures LockInv(Apply(s, TakeTicket(c)), s.cpus[c].pc.lock)
  {
    var s', l := Apply(s, TakeTicket(c)), s.cpus[c].pc.lock;
    var k := s.locks[l];
    assert LockInv(s, l);
    assert forall i: nat :: Holds(s'.cpus[c], i, l) ==> Holds(s.cpus[c], i, l);
    forall n | k.granted <= n < k.issued + 1 ensures TicketOwned(s', l, n) {
      if n < k.issued {
        assert TicketOwned(s, l, n);
        var d :| 0 <= d < |s.cpus| && Waits(s.cpus[d], l) && s.cpus[d].pc.number == n;
        assert Waits(s'.cpus[d], l) && s'.cpus[d].pc.number == n;
      } else {
        assert Waits(s'.cpus[c], l) && s'.cpus[c].pc.number == n;
      }
    }
  }

  lemma CongruentClose(n: nat, m: nat)
    requires m <= n < m + TWO32 && n % TWO32 == m % TWO32
    ensures n == m
  {
  }

  /** The lock is granted to the oldest ticket, which is the one due, and nobody holds the lock then. */
  lemma GrantInOrder(s: State, c: nat)
    requires Inv(s) && Enabled(s, Poll(c))
    requires var k := s.locks[s.cpus[c].pc.lock]; Distinguishable(k) && k.serving == s.cpus[c].pc.ticket
    ensures var k := s.locks[s.cpus[c].pc.lock]; s.cpus[c].pc.number == k.granted == k.served
    ensures forall d, i: nat :: 0 <= d < |s.cpus| ==> !Holds(s.cpus[d], i, s.cpus[c].pc.lock)
  {
    var l := s.cpus[c].pc.lock;
    assert LockInv(s, l) && Waits(s.cpus[c], l);
    CongruentClose(s.cpus[c].pc.number, s.locks[l].served);
  }

  lemma LockGranted(s: State, c: nat)
    requires Inv(s) && Enabled(s, Poll(c))
    requires var k := s.locks[s.cpus[c].pc.lock]; Distinguishable(k) && k.serving == s.cpus[c].pc.ticket
    ensures LockInv(Apply(s, Poll(c)), s.cpus[c].pc.lock)
  {
    var s', l := Apply(s, Poll(c)), s.cpus[c].pc.lock;
    var k := s.locks[l];
    assert LockInv(s, l) && Waits(s.cpus[c], l);
    GrantInOrder(s, c);
    forall n | k.granted + 1 <= n < k.issued ensures TicketOwned(s', l, n) {
      assert TicketOwned(s, l, n);
      var d :| 0 <= d < |s.cpus| && Waits(s.cpus[d], l) && s.cpus[d].pc.number == n;
      assert Waits(s'.cpus[d], l) && s'.cpus[d].pc.number == n;
    }
    forall d | 0 <= d < |s.cpus| && Waits(s'.cpus[d], l) ensures s'.cpus[d].pc.number >= k.granted + 1 {
      assert Waits(s.cpus[d], l) && d != c;
      assert s.cpus[d].pc.number != s.cpus[c].pc.number;
    }
  }

  /** Release: the frame at `i` was the lock's only holder. */
  lemma LockServed(s: State, s': State, c: nat, i: nat, l: nat)
    requires Inv(s) && c < |s.cpus| == |s'.cpus| && l < |s.locks| == |s'.locks| && Holds(s.cpus[c], i, l)
    requires forall d :: 0 <= d < |s.cpus| && d != c ==> s'.cpus[d] == s.cpus[d]
    requires s'.locks[l] == Serve(s.locks[l]) && !Waits(s.cpus[c], l) && !Waits(s'.cpus[c], l)
    requires forall j: nat :: Holds(s'.cpus[c], j, l) ==> Holds(s.cpus[c], j, l) && j != i
    ensures LockInv(s', l)
  {
    hide NoneLost;
    hide FlagsKept;
    var k := s.locks[l];
    assert LockInv(s, l);
    forall d, j: nat | 0 <= d < |s.cpus| ensures !Holds(s'.cpus[d], j, l) {
      if d != c {
        assert s'.cpus[d] == s.cpus[d];
      }
    }
    forall n | k.granted <= n < k.issued ensures TicketOwned(s', l, n) {
      assert TicketOwned(s, l, n);
      var d :| 0 <= d < |s.cpus| && Waits(s.cpus[d], l) && s.cpus[d].pc.number == n;
      assert Waits(s'.cpus[d], l) && s'.cpus[d].pc.number == n;
    }
  }

  // ── What one step does to everything ──────────────────────────────────────

  /** Properly nested use keeps every CPU's interrupt flag right, whichever step it takes. */
  lemma FlagsStep(s: State, step: Step)
    requires WellFormed(s) && Enabled(s, step) && FlagsKept(s.cpus[step.cpu])
    ensures FlagsKept(Effect(s, step).0)
  {
  }

  ghost predicate Granting(s: State, step: Step)
    requires WellFormed(s) && Enabled(s, step)
  {
    step.Poll? && s.locks[s.cpus[step.cpu].pc.lock].serving == s.cpus[step.cpu].pc.ticket
  }

  lemma HoldsShrink(s: State, step: Step, i: nat, l: nat)
    requires WellFormed(s) && Enabled(s, step)
    requires !(Granting(s, step) && l == s.cpus[step.cpu].pc.lock)
    ensures Holds(Effect(s, step).0, i, l) ==> Holds(s.cpus[step.cpu], i, l)
  {
  }

  lemma OtherLocks(s: State, step: Step, l: nat)
    requires Inv(s) && Enabled(s, step) && l < |s.locks|
    requires var touched := Effect(s, step).1; touched.None? || touched.value.0 != l
    ensures LockInv(Apply(s, step), l)
  {
    forall i: nat ensures Holds(Effect(s, step).0, i, l) ==> Holds(s.cpus[step.cpu], i, l) {
      HoldsShrink(s, step, i, l);
    }
    LockUntouched(s, Apply(s, step), step.cpu, l);
  }

  lemma TouchedLock(s: State, step: Step)
    requires Inv(s) && Enabled(s, step) && Effect(s, step).1.Some?
    requires step.Poll? ==> Distinguishable(s.locks[s.cpus[step.cpu].pc.lock])
    ensures LockInv(Apply(s, step), Effect(s, step).1.value.0)
  {
    var c := step.cpu;
    var cpu := s.cpus[c];
    match step
    case TakeTicket(_) => LockIssued(s, c);
    case Poll(_) => LockGranted(s, c);
    case Unlock(_) => LockServed(s, Apply(s, step), c, |cpu.frames| - 1, Top(cpu.frames).lock);
    case ReleaseOnly(_, i) => LockServed(s, Apply(s, step), c, i, cpu.frames[i].lock);
  }

  lemma ExclusiveStep(s: State, step: Step)
    requires Inv(s) && Enabled(s, step)
    requires step.Poll? ==> Distinguishable(s.locks[s.cpus[step.cpu].pc.lock])
    ensures Exclusive(Apply(s, step))
  {
    var s' := Apply(s, step);
    if Granting(s, step) {
      GrantInOrder(s, step.cpu);
    }
    forall c, d, i: nat, j: nat, l
      | 0 <= c < |s.cpus| && 0 <= d < |s.cpus| && Holds(s'.cpus[c], i, l) && Holds(s'.cpus[d], j, l)
      ensures c == d && i == j
    {
      if Granting(s, step) && l == s.cpus[step.cpu].pc.lock {
        OnlyNew(s, step, c, i);
        OnlyNew(s, step, d, j);
      } else {
        HoldsShrink(s, step, i, l);
        HoldsShrink(s, step, j, l);
        assert Holds(s.cpus[c], i, l) && Holds(s.cpus[d], j, l);
      }
    }
  }

  lemma OnlyNew(s: State, step: Step, c: nat, i: nat)
    requires Inv(s) && Enabled(s, step) && Granting(s, step) && c < |s.cpus|
    requires forall d, j: nat :: 0 <= d < |s.cpus| ==> !Holds(s.cpus[d], j, s.cpus[step.cpu].pc.lock)
    requires Holds(Apply(s, step).cpus[c], i, s.cpus[step.cpu].pc.lock)
    ensures c == step.cpu && i == |s.cpus[c].frames|
  {
    var l := s.cpus[step.cpu].pc.lock;
    assert !Holds(s.cpus[c], i, l);
  }

  /** A holder stays one until it releases the lock. */
  lemma HoldsKept(s: State, step: Step, i: nat, l: nat)
    requires WellFormed(s) && Enabled(s, step) && Holds(s.cpus[step.cpu], i, l)
    requires Effect(s, step).1.Some? && Effect(s, step).1.value.0 == l ==> !step.Unlock? && !step.ReleaseOnly?
    ensures Holds(Effect(s, step).0, i, l)
  {
  }

  lemma NoneLostStep(s: State, step: Step, l: nat)
    requires Inv(s) && Enabled(s, step) && l < |s.locks|
    requires step.Poll? ==> Distinguishable(s.locks[s.cpus[step.cpu].pc.lock])
    ensures NoneLost(Apply(s, step), l)
  {
    var s', c, touched := Apply(s, step), step.cpu, Effect(s, step).1;
    assert LockInv(s, l) && NoneLost(s, l);
    if touched.Some? && touched.value.0 == l && (step.Unlock? || step.ReleaseOnly?) {
      return;
    }
    if Granting(s, step) && s.cpus[c].pc.lock == l {
      assert Holds(s'.cpus[c], |s.cpus[c].frames|, l);
    } else if Held(s, l) {
      var d, i: nat :| 0 <= d < |s.cpus| && Holds(s.cpus[d], i, l);
      if d == c {
        HoldsKept(s, step, i, l);
      }
      assert Holds(s'.cpus[d], i, l);
    }
  }

  lemma StepKeeps(s: State, step: Step)
    requires Inv(s) && Enabled(s, step)
    requires step.Poll? ==> Distinguishable(s.locks[s.cpus[step.cpu].pc.lock])
    ensures Inv(Apply(s, step))
  {
    var s' := Apply(s, step);
    forall l | 0 <= l < |s.locks| ensures LockInv(s', l) && NoneLost(s', l) {
      NoneLostStep(s, step, l);
      var touched := Effect(s, step).1;
      if touched.Some? && touched.value.0 == l {
        TouchedLock(s, step);
      } else {
        OtherLocks(s, step, l);
      }
    }
    ExclusiveStep(s, step);
    FlagsStep(s, step);
  }

  // ── How many tickets can be out ───────────────────────────────────────────

  function Interval(a: nat, b: nat): (r: set<nat>)
    requires a <= b
    ensures |r| == b - a && forall n :: n in r <==> a <= n < b
    decreases b - a
  {
    if a == b then {} else {a} + Interval(a + 1, b)
  }

  function Numbers(cpus: seq<Cpu>, l: nat): (r: set<nat>)
    ensures |r| <= |cpus|
    ensures forall c :: 0 <= c < |cpus| && Waits(cpus[c], l) ==> cpus[c].pc.number in r
  {
    if cpus == [] then {}
    else
      var rest := Numbers(cpus[..|cpus| - 1], l);
      var last := cpus[|cpus| - 1];
      if Waits(last, l) then rest + {last.pc.number} else rest
  }

  lemma SubsetSize(a: set<nat>, b: set<nat>)
    requires a <= b
    ensures |a| <= |b|
  {
    assert b == a + (b - a);
  }

  /** Every CPU waits for at most one ticket and at most one ticket is being served. */
  lemma TicketsBounded(s: State, l: nat)
    requires l < |s.locks| && LockInv(s, l)
    ensures s.locks[l].issued - s.locks[l].served <= |s.cpus| + 1
  {
    var k := s.locks[l];
    var outstanding, waiting := Interval(k.granted, k.issued), Numbers(s.cpus, l);
    forall n | n in outstanding ensures n in waiting {
      assert TicketOwned(s, l, n);
    }
    SubsetSize(outstanding, waiting);
  }

  // ── Every run ─────────────────────────────────────────────────────────────

  lemma InitInv(s: State)
    requires Init(s)
    ensures Inv(s)
  {
  }

  ghost predicate TicketsTold(trace: seq<State>) {
    forall i, l :: 0 <= i < |trace| && 0 <= l < |trace[i].locks| ==> Distinguishable(trace[i].locks[l])
  }

  /** Every state of a run is safe if at most 2^32 tickets are ever out, in particular with fewer than 2^32 CPUs. */
  lemma {:induction false} RunsAreSafe(trace: seq<State>, steps: seq<Step>, i: nat)
    requires IsRun(trace, steps) && i < |trace|
    requires |trace[0].cpus| < TWO32 || TicketsTold(trace)
    ensures |trace[i].cpus| == |trace[0].cpus| && Inv(trace[i])
  {
    if i == 0 {
      InitInv(trace[0]);
    } else {
      RunsAreSafe(trace, steps, i - 1);
      var s, step := trace[i - 1], steps[i - 1];
      if step.Poll? {
        TicketsBounded(s, s.cpus[step.cpu].pc.lock);
      }
      StepKeeps(s, step);
    }
  }

  /** The n-th grant of a lock in such a run goes to the n-th ticket drawn, and then nobody else holds the lock. */
  lemma GrantsFollowTickets(trace: seq<State>, steps: seq<Step>, i: nat)
    requires IsRun(trace, steps) && i < |steps|
    requires |trace[0].cpus| < TWO32 || TicketsTold(trace)
    requires WellFormed(trace[i]) && Enabled(trace[i], steps[i]) && Granting(trace[i], steps[i])
    ensures var pc := trace[i].cpus[steps[i].cpu].pc;
            && pc.number == trace[i].locks[pc.lock].granted
            && trace[i + 1].locks[pc.lock].granted == pc.number + 1
            && forall d, j: nat :: 0 <= d < |trace[i].cpus| ==> !Holds(trace[i].cpus[d], j, pc.lock)
  {
    RunsAreSafe(trace, steps, i);
    TicketsBounded(trace[i], trace[i].cpus[steps[i].cpu].pc.lock);
    GrantInOrder(trace[i], steps[i].cpu);
  }

  /** No run gets stuck: a lock that is waited for and not held is granted to the oldest ticket at its next poll. */
  lemma FreeLockIsGranted(trace: seq<State>, steps: seq<Step>, i: nat, l: nat, w: nat) returns (c: nat)
    requires IsRun(trace, steps) && i < |trace| && (|trace[0].cpus| < TWO32 || TicketsTold(trace))
    requires l < |trace[i].locks| && w < |trace[i].cpus| && Waits(trace[i].cpus[w], l) && !Held(trace[i], l)
    ensures c < |trace[i].cpus| && Waits(trace[i].cpus[c], l)
    ensures trace[i].cpus[c].pc.number <= trace[i].cpus[w].pc.number
    ensures WellFormed(trace[i]) && Held(Apply(trace[i], Poll(c)), l)
  {
    RunsAreSafe(trace, steps, i);
    var s := trace[i];
    assert LockInv(s, l) && NoneLost(s, l) && TicketOwned(s, l, s.locks[l].granted);
    c :| 0 <= c < |s.cpus| && Waits(s.cpus[c], l) && s.cpus[c].pc.number == s.locks[l].granted;
    var s' := Apply(s, Poll(c));
    assert Holds(s'.cpus[c], |s.cpus[c].frames|, l);
  }

  predicate Outside(cpu: Cpu) { cpu.pc.Idle? && cpu.frames == [] }

  lemma {:induction false} BaseKept(trace: seq<State>, steps: seq<Step>, i: nat, k: nat, c: nat)
    requires IsRun(trace, steps) && i <= k < |trace| && c < |trace[i].cpus|
    requires forall j :: i <= j < k ==> !(steps[j].SetFlag? && steps[j].cpu == c)
    ensures |trace[k].cpus| == |trace[i].cpus| && trace[k].cpus[c].base == trace[i].cpus[c].base
  {
    if i < k {
      BaseKept(trace, steps, i, k - 1, c);
      var s := trace[k - 1];
      assert Effect(s, steps[k - 1]).0.base == s.cpus[steps[k - 1].cpu].base || steps[k - 1].SetFlag?;
    }
  }

  lemma {:induction false} RunsKeepFlags(trace: seq<State>, steps: seq<Step>, i: nat, c: nat)
    requires IsRun(trace, steps) && i < |trace| && c < |trace[0].cpus|
    ensures |trace[i].cpus| == |trace[0].cpus| && FlagsKept(trace[i].cpus[c])
  {
    if i > 0 {
      RunsKeepFlags(trace, steps, i - 1, c);
      if steps[i - 1].cpu == c {
        FlagsStep(trace[i - 1], steps[i - 1]);
      }
    }
  }

  /** In every run a CPU that leaves all its critical sections has the interrupt flag it entered them with. */
  lemma InterruptsRestored(trace: seq<State>, steps: seq<Step>, i: nat, k: nat, c: nat)
    requires IsRun(trace, steps) && i <= k < |trace| && c < |trace[i].cpus|
    requires forall j :: i <= j < k ==> !(steps[j].SetFlag? && steps[j].cpu == c)
    ensures |trace[k].cpus| == |trace[i].cpus|
    ensures Outside(trace[i].cpus[c]) && Outside(trace[k].cpus[c]) ==> trace[k].cpus[c].irq == trace[i].cpus[c].irq
    ensures !Outside(trace[k].cpus[c]) ==> !trace[k].cpus[c].irq
  {
    BaseKept(trace, steps, i, k, c);
    CpusKept(trace, steps, i);
    RunsKeepFlags(trace, steps, i, c);
    RunsKeepFlags(trace, steps, k, c);
  }

  // ── The bound is exact ────────────────────────────────────────────────────

  ghost predicate Reachable(s: State) {
    exists trace, steps :: IsRun(trace, steps) && trace[|steps|] == s
  }

  lemma ReachInit(s: State)
    requires Init(s)
    ensures Reachable(s)
  {
    assert IsRun([s], []);
  }

  lemma ReachStep(s: State, step: Step)
    requires Reachable(s) && WellFormed(s) && Enabled(s, step)
    ensures Reachable(Apply(s, step))
  {
    hide Apply;
    hide Enabled;
    hide WellFormed;
    hide Init;
    var trace, steps :| IsRun(trace, steps) && trace[|steps|] == s;
    assert IsRun(trace + [Apply(s, step)], steps + [step]);
  }

  /** An idle CPU with interrupts off goes and draws a ticket for lock 0. */
  lemma ReachDraw(s: State, c: nat)
    requires Reachable(s) && WellFormed(s) && c < |s.cpus| && s.locks != [] && s.cpus[c].pc == Idle && !s.cpus[c].irq
    ensures var k := s.locks[0];
            var cpu := s.cpus[c].(pc := Spinning(0, false, k.next, k.issued));
            Reachable(State(s.cpus[c := cpu], s.locks[0 := Issue(k)]))
  {
    hide Reachable;
    hide Issue;
    ReachStep(s, Disable(c, 0));
    var s1 := Apply(s, Disable(c, 0));
    assert s1 == State(s.cpus[c := s.cpus[c].(pc := Entering(0, false))], s.locks);
    ReachStep(s1, TakeTicket(c));
    assert s1.cpus[c := s.cpus[c].(pc := Spinning(0, false, s.locks[0].next, s.locks[0].issued))]
        == s.cpus[c := s.cpus[c].(pc := Spinning(0, false, s.locks[0].next, s.locks[0].issued))];
  }

  /** CPU 0 holds lock 0 and the CPUs below `k` wait for it in order. */
  function Crowd(n: nat, k: nat): State {
    State(seq(n, c requires 0 <= c =>
            if c == 0 then Cpu(false, false, Idle, [Frame(0, false, true)])
            else if c < k then Cpu(false, false, Spinning(0, false, Wrap32(c), c), [])
            else Cpu(false, false, Idle, [])),
          [Lock(Wrap32(k), 0, k, 0, 1)])
  }

  lemma CrowdStarts(n: nat)
    requires n > 0
    ensures Reachable(Crowd(n, 1))
  {
    hide Reachable;
    var s := State(seq(n, _ => Cpu(false, false, Idle, [])), [Lock(0, 0, 0, 0, 0)]);
    ReachInit(s);
    ReachDraw(s, 0);
    var s1 := State(s.cpus[0 := Cpu(false, false, Spinning(0, false, 0, 0), [])], [Lock(1, 0, 1, 0, 0)]);
    assert s.locks[0 := Issue(s.locks[0])] == s1.locks;
    ReachStep(s1, Poll(0));
    var cpu := Effect(s1, Poll(0)).0;
    assert cpu.frames == [Frame(0, false, true)];
    assert s1.cpus[0 := cpu] == Crowd(n, 1).cpus;
    assert Apply(s1, Poll(0)).locks == Crowd(n, 1).locks;
  }

  lemma {:induction false} CrowdGrows(n: nat, k: nat)
    requires 0 < k <= n
    ensures Reachable(Crowd(n, k))
  {
    hide Reachable;
    if k == 1 {
      CrowdStarts(n);
    } else {
      CrowdGrows(n, k - 1);
      ReachDraw(Crowd(n, k - 1), k - 1);
      var s := Crowd(n, k - 1);
      assert s.cpus[k - 1 := Cpu(false, false, Spinning(0, false, Wrap32(k - 1), k - 1), [])] == Crowd(n, k).cpus;
      assert s.locks[0 := Issue(s.locks[0])] == Crowd(n, k).locks;
    }
  }

  /** With 2^32 CPUs the counters wrap onto a ticket still out and the lock is granted a second time. */
  lemma CrowdBreaksExclusion(n: nat) returns (s: State)
    requires n >= TWO32
    ensures |s.cpus| == n && Reachable(s) && !Exclusive(s)
  {
    hide Reachable;
    var full := Crowd(n, TWO32);
    CrowdGrows(n, TWO32);
    ReachDraw(full, 0);
    var cpu := full.cpus[0].(pc := Spinning(0, false, 0, TWO32));
    var again := State(full.cpus[0 := cpu], full.locks[0 := Issue(full.locks[0])]);
    ReachStep(again, Poll(0));
    s := Apply(again, Poll(0));
    assert Holds(s.cpus[0], 0, 0) && Holds(s.cpus[0], 1, 0);
  }

  /** Mutual exclusion holds in every reachable state of a machine exactly when it has fewer than 2^32 CPUs. */
  lemma ExclusionIff(n: nat)
    ensures n < TWO32 <==> forall s :: Reachable(s) && |s.cpus| == n ==> Exclusive(s)
  {
    if n < TWO32 {
      forall s | Reachable(s) && |s.cpus| == n ensures Exclusive(s) {
        var trace, steps :| IsRun(trace, steps) && trace[|steps|] == s;
        CpusKept(trace, steps, |steps|);
        RunsAreSafe(trace, steps, |steps|);
      }
    } else {
      var s := CrowdBreaksExclusion(n);
    }
  }

  lemma {:induction false} CpusKept(trace: seq<State>, steps: seq<Step>, i: nat)
    requires IsRun(trace, steps) && i < |trace|
    ensures |trace[i].cpus| == |trace[0].cpus|
  {
    if i > 0 {
      CpusKept(trace, steps, i - 1);
    }
  }
}
