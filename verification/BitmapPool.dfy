/** The kernel tests' lock-free frame pool: a bitmap of slots that any number of threads claim and return. */
module BitmapPool {
  import opened Bytes
  import opened Frames

  const POOL_SIZE: nat := 64

  // ── Filling the pool ──────────────────────────────────────────────────────

  /** Non-empty frames in address order, each starting where the one before ends. */
  predicate Tiles(caps: seq<Frame>, base: nat, end: nat) {
    if caps == [] then base == end
    else caps[0].base == base && caps[0].pages > 0 && Tiles(caps[1..], base + caps[0].pages, end)
  }

  lemma {:induction false} TilesDisjoint(caps: seq<Frame>, base: nat, end: nat, i: nat, j: nat)
    requires Tiles(caps, base, end) && i < j < |caps|
    ensures base <= caps[i].base && caps[i].base + caps[i].pages <= caps[j].base && caps[i].pages > 0
    ensures caps[j].base + caps[j].pages <= end && caps[j].pages > 0
    decreases |caps|
  {
    TileWithin(caps, base, end, i);
    TileWithin(caps, base, end, j);
    if i > 0 {
      TilesDisjoint(caps[1..], base + caps[0].pages, end, i - 1, j - 1);
    } else {
      TileWithin(caps[1..], base + caps[0].pages, end, j - 1);
    }
  }

  lemma {:induction false} TileWithin(caps: seq<Frame>, base: nat, end: nat, i: nat)
    requires Tiles(caps, base, end) && i < |caps|
    ensures base <= caps[i].base && caps[i].base + caps[i].pages <= end && caps[i].pages > 0
    decreases |caps|
  {
    if i > 0 {
      TileWithin(caps[1..], base + caps[0].pages, end, i - 1);
    } else {
      TilesOrdered(caps[1..], base + caps[0].pages, end);
    }
  }

  lemma {:induction false} TilesOrdered(caps: seq<Frame>, base: nat, end: nat)
    requires Tiles(caps, base, end)
    ensures base <= end
    decreases |caps|
  {
    if caps != [] {
      TilesOrdered(caps[1..], base + caps[0].pages, end);
    }
  }

  /**
   * Either the whole frame ends up in the pool, cut without gaps, or the pool is full. The pieces are single pages, as
   * many as fit, unless the kernel refuses a split: then the last piece is all that was left.
   */
  method SplitFrameRecursive(k: Kernel, cap: Frame, slots: array<Frame>, count: nat) returns (n: nat, ghost end: nat)
    requires slots.Length == POOL_SIZE && count <= POOL_SIZE && cap.pages > 0
    modifies slots, k
    ensures count <= n <= POOL_SIZE && slots[..count] == old(slots[..count])
    ensures Tiles(slots[count..n], cap.base, end) && end <= cap.base + cap.pages
    ensures n < POOL_SIZE ==> end == cap.base + cap.pages
    ensures forall i :: count <= i < n - 1 ==> slots[i].pages == 1
    ensures old(k.refusals) <= k.refusals <= old(k.refusals) + 1
    ensures k.refusals == old(k.refusals) ==>
              n == Min(count + cap.pages, POOL_SIZE) && forall i :: count <= i < n ==> slots[i].pages == 1
    ensures k.refusals > old(k.refusals) ==>
              count < n && slots[n - 1].pages > 1 && end == cap.base + cap.pages
    decreases cap.pages
  {
    if count >= POOL_SIZE {
      return count, cap.base;
    }
    var halves := k.FrameSplit(cap);
    match halves
    case Some((a, b)) =>
      slots[count] := a;
      n, end := SplitFrameRecursive(k, b, slots, count + 1);
      assert slots[count] == slots[..count + 1][count] == a;
      assert slots[count..n][1..] == slots[count + 1..n];
    case None =>
      slots[count] := cap;
      n, end := count + 1, cap.base + cap.pages;
  }

  /** The bit mask with the `n` lowest bits set. */
  function Below(n: nat): (r: set<nat>)
    ensures forall i: nat :: i in r <==> i < n
  {
    if n == 0 then {} else Below(n - 1) + {n - 1}
  }

  /** `init`: the slots used are distinct frames inside the donated one and all are marked available. */
  method InitPool(k: Kernel, donated: Frame, slots: array<Frame>) returns (count: nat, available: set<nat>)
    requires slots.Length == POOL_SIZE && donated.pages > 0
    modifies slots, k
    ensures 0 < count <= POOL_SIZE && available == Below(count)
    ensures k.refusals == old(k.refusals) ==>
              count == Min(donated.pages, 64) && forall i :: 0 <= i < count ==> slots[i].pages == 1
    ensures forall i, j :: 0 <= i < j < count ==> Disjoint(slots[i], slots[j]) && slots[i] != slots[j]
    ensures forall i :: 0 <= i < count ==>
              && donated.base <= slots[i].base && slots[i].base + slots[i].pages <= donated.base + donated.pages
              && slots[i].pages > 0
  {
    ghost var end;
    count, end := SplitFrameRecursive(k, donated, slots, 0);
    available := Below(count);
    forall i, j | 0 <= i < j < count ensures Disjoint(slots[i], slots[j]) && slots[i] != slots[j] {
      TilesDisjoint(slots[..count], donated.base, end, i, j);
    }
    forall i | 0 <= i < count
      ensures donated.base <= slots[i].base && slots[i].base + slots[i].pages <= donated.base + donated.pages
      ensures slots[i].pages > 0
    {
      TileWithin(slots[..count], donated.base, end, i);
    }
  }

  // ── Threads ───────────────────────────────────────────────────────────────

  /** Between the load and the `fetch_and` a thread aims at one slot; `seen` is how often that slot had been claimed. */
  datatype Thread = Thread(pc: Pc, held: set<Frame>)
  datatype Pc = Ready | Aiming(slot: nat, seen: nat)

  /** `slots` never changes; `claims` counts the successful claims of each slot. */
  datatype State = State(available: set<nat>, slots: seq<Frame>, claims: seq<nat>, threads: seq<Thread>)

  /** Lowest set bit at or above `from`. */
  function TrailingZeros(bits: set<nat>, from: nat): (i: nat)
    requires exists j :: j in bits && from <= j
    requires forall j :: j in bits ==> j < POOL_SIZE
    ensures i in bits && from <= i && forall j :: j in bits && from <= j ==> i <= j
    decreases POOL_SIZE - from
  {
    if from in bits then from else TrailingZeros(bits, from + 1)
  }

  /** Slot index of a capability, or the number of slots. */
  function SlotOf(slots: seq<Frame>, cap: Frame): (i: nat)
    ensures i <= |slots| && (forall j :: 0 <= j < i ==> slots[j] != cap) && (i < |slots| ==> slots[i] == cap)
  {
    if slots == [] || slots[0] == cap then 0 else 1 + SlotOf(slots[1..], cap)
  }

  /** The linear search of `free`. */
  method FindSlot(slots: seq<Frame>, cap: Frame) returns (i: nat)
    ensures i == SlotOf(slots, cap)
  {
    i := 0;
    while i < |slots| && slots[i] != cap
      invariant i <= |slots| && forall j :: 0 <= j < i ==> slots[j] != cap
    {
      i := i + 1;
    }
  }

  datatype Step = Load(thread: nat) | Claim(thread: nat) | Free(thread: nat, cap: Frame)

  ghost predicate Valid(s: State) {
    && |s.claims| == |s.slots| <= POOL_SIZE
    && (forall i, j :: 0 <= i < j < |s.slots| ==> s.slots[i] != s.slots[j])
    && (forall i :: i in s.available ==> i < |s.slots|)
    && (forall t :: 0 <= t < |s.threads| && s.threads[t].pc.Aiming? ==> s.threads[t].pc.slot < |s.slots|)
  }

  ghost predicate Enabled(s: State, step: Step) {
    && step.thread < |s.threads|
    && var t := s.threads[step.thread];
    match step
    case Load(_) => t.pc.Ready?
    case Claim(_) => t.pc.Aiming?
    case Free(_, cap) => t.pc.Ready? && cap in t.held
  }

  function SetThread(s: State, t: nat, thread: Thread): State
    requires t < |s.threads|
  {
    s.(threads := s.threads[t := thread])
  }

  ghost function Apply(s: State, step: Step): State
    requires Valid(s) && Enabled(s, step)
  {
    var t := step.thread;
    var me := s.threads[t];
    match step
    case Load(_) =>
      if s.available == {} then s
      else
        assert exists j :: j in s.available && 0 <= j;
        var i := TrailingZeros(s.available, 0);
        SetThread(s, t, me.(pc := Aiming(i, s.claims[i])))
    case Claim(_) =>
      var i := me.pc.slot;
      var after := s.(available := s.available - {i});
      if i in s.available then
        SetThread(after.(claims := s.claims[i := s.claims[i] + 1]), t, Thread(Ready, me.held + {s.slots[i]}))
      else
        SetThread(after, t, me.(pc := Ready))
    case Free(_, cap) =>
      var i := SlotOf(s.slots, cap);
      var available := if i < |s.slots| then s.available + {i} else s.available;
      SetThread(s.(available := available), t, me.(held := me.held - {cap}))
  }

  // ── Safety ────────────────────────────────────────────────────────────────

  /** Slot `i` is available or held by some thread. */
  ghost predicate Accounted(s: State, i: nat)
    requires i < |s.slots|
  {
    i in s.available || exists t :: 0 <= t < |s.threads| && s.slots[i] in s.threads[t].held
  }

  ghost predicate Inv(s: State) {
    && Valid(s)
    && (forall t, cap :: 0 <= t < |s.threads| && cap in s.threads[t].held ==> cap in s.slots)
    && (forall t, i :: 0 <= t < |s.threads| && i in s.available ==> s.slots[i] !in s.threads[t].held)
    && (forall t, u :: 0 <= t < u < |s.threads| ==> s.threads[t].held !! s.threads[u].held)
    && (forall i :: 0 <= i < |s.slots| ==> Accounted(s, i))
    && (forall t :: 0 <= t < |s.threads| && s.threads[t].pc.Aiming? ==>
          var pc := s.threads[t].pc;
          pc.seen <= s.claims[pc.slot] && (pc.slot !in s.available ==> pc.seen < s.claims[pc.slot]))
  }

  ghost predicate Init(s: State) {
    && Valid(s)
    && s.available == Below(|s.slots|)
    && forall t :: 0 <= t < |s.threads| ==> s.threads[t] == Thread(Ready, {})
  }

  ghost predicate IsRun(trace: seq<State>, steps: seq<Step>) {
    && |trace| == |steps| + 1
    && Init(trace[0])
    && forall i :: 0 <= i < |steps| ==>
         Valid(trace[i]) && Enabled(trace[i], steps[i]) && trace[i + 1] == Apply(trace[i], steps[i])
  }

  lemma StillAccounted(s: State, s': State)
    requires s'.slots == s.slots && |s'.threads| == |s.threads|
    requires forall i :: 0 <= i < |s.slots| ==> Accounted(s, i)
    requires forall i :: 0 <= i < |s.slots| && i in s.available && i !in s'.available ==> Accounted(s', i)
    requires forall t, i :: 0 <= t < |s.threads| && 0 <= i < |s.slots| && s.slots[i] in s.threads[t].held ==>
               s.slots[i] in s'.threads[t].held || Accounted(s', i)
    ensures forall i :: 0 <= i < |s.slots| ==> Accounted(s', i)
  {
    forall i | 0 <= i < |s.slots| ensures Accounted(s', i) {
      assert Accounted(s, i);
    }
  }

  lemma LoadKeeps(s: State, step: Step)
    requires Inv(s) && Enabled(s, step) && step.Load?
    ensures Inv(Apply(s, step))
  {
    StillAccounted(s, Apply(s, step));
  }

  lemma ClaimKeeps(s: State, step: Step)
    requires Inv(s) && Enabled(s, step) && step.Claim?
    ensures Inv(Apply(s, step))
  {
    var s' := Apply(s, step);
    var i := s.threads[step.thread].pc.slot;
    if i in s.available {
      assert s.slots[i] in s'.threads[step.thread].held;
      assert Accounted(s', i);
    }
    StillAccounted(s, s');
  }

  lemma FreeKeeps(s: State, step: Step)
    requires Inv(s) && Enabled(s, step) && step.Free?
    ensures Inv(Apply(s, step))
  {
    var s' := Apply(s, step);
    var i := SlotOf(s.slots, step.cap);
    assert step.cap in s.threads[step.thread].held && step.cap in s.slots;
    assert s.slots[i] == step.cap && Accounted(s', i);
    StillAccounted(s, s');
  }

  /** In every state of every run no slot is held twice and each slot is available or held, never both. */
  lemma {:induction false} RunsAreSafe(trace: seq<State>, steps: seq<Step>, i: nat)
    requires IsRun(trace, steps) && i < |trace|
    ensures trace[i].slots == trace[0].slots && |trace[i].threads| == |trace[0].threads| && Inv(trace[i])
  {
    if i > 0 {
      RunsAreSafe(trace, steps, i - 1);
      var s, step := trace[i - 1], steps[i - 1];
      match step
      case Load(_) => LoadKeeps(s, step);
      case Claim(_) => ClaimKeeps(s, step);
      case Free(_, _) => FreeKeeps(s, step);
    } else {
      assert forall k :: 0 <= k < |trace[0].slots| ==> Accounted(trace[0], k);
    }
  }

  /** What a load does: the thread aims at the lowest available slot, and gives up exactly if there is none. */
  lemma LoadAims(s: State, t: nat)
    requires Valid(s) && Enabled(s, Load(t))
    ensures var pc := Apply(s, Load(t)).threads[t].pc;
            && (pc.Ready? <==> forall i :: 0 <= i < |s.slots| ==> i !in s.available)
            && (pc.Aiming? ==> pc.slot in s.available && forall i :: i in s.available ==> pc.slot <= i)
  {
    if j :| j in s.available {
      assert j < |s.slots|;
    }
  }

  /** A claim of a slot that is still available succeeds, and no other does; the bit is clear afterwards. */
  lemma ClaimDecides(s: State, t: nat)
    requires Inv(s) && Enabled(s, Claim(t))
    ensures var i, s' := s.threads[t].pc.slot, Apply(s, Claim(t));
            && s'.available == s.available - {i} && s'.threads[t].pc.Ready?
            && s'.threads[t].held == s.threads[t].held + if i in s.available then {s.slots[i]} else {}
  {
  }

  /** A freed capability leaves the thread's hands and its slot is available again. */
  lemma FreeReturns(s: State, t: nat, cap: Frame) returns (i: nat)
    requires Inv(s) && Enabled(s, Free(t, cap))
    ensures i < |s.slots| && s.slots[i] == cap && i !in s.available
    ensures var s' := Apply(s, Free(t, cap));
            s'.available == s.available + {i} && s'.threads[t].held == s.threads[t].held - {cap}
  {
    assert cap in s.slots;
    i := SlotOf(s.slots, cap);
  }

  /** `alloc` gives up only at a load that finds every slot in some thread's hands. */
  lemma NoneMeansAllHeld(trace: seq<State>, steps: seq<Step>, i: nat, k: nat)
    requires IsRun(trace, steps) && i < |steps| && steps[i].Load? && steps[i].thread < |trace[i + 1].threads|
    requires trace[i + 1].threads[steps[i].thread].pc.Ready? && k < |trace[i].slots|
    ensures exists t :: 0 <= t < |trace[i].threads| && trace[i].slots[k] in trace[i].threads[t].held
  {
    RunsAreSafe(trace, steps, i);
    LoadAims(trace[i], steps[i].thread);
    assert Accounted(trace[i], k);
  }

  /** A claim fails only if the slot was claimed by another thread after this thread's load. */
  lemma LostRaceMeansProgress(trace: seq<State>, steps: seq<Step>, i: nat) returns (j: nat)
    requires IsRun(trace, steps) && i < |steps| && Valid(trace[i]) && Enabled(trace[i], steps[i]) && steps[i].Claim?
    requires trace[i].threads[steps[i].thread].pc.slot !in trace[i].available
    ensures j < i && steps[j].Claim? && steps[j].thread != steps[i].thread && Enabled(trace[j], steps[j])
    ensures trace[j].threads[steps[j].thread].pc.slot == trace[i].threads[steps[i].thread].pc.slot
    ensures trace[i].threads[steps[i].thread].pc.slot in trace[j].available
    ensures forall m :: j <= m <= i ==>
              && steps[i].thread < |trace[m].threads|
              && trace[m].threads[steps[i].thread] == trace[i].threads[steps[i].thread]
  {
    var t := steps[i].thread;
    RunsAreSafe(trace, steps, i);
    j := FindClaim(trace, steps, i, t);
  }

  /** Walks back from a state in which the slot aimed at has been claimed to the step that claimed it. */
  lemma {:induction false} FindClaim(trace: seq<State>, steps: seq<Step>, i: nat, t: nat) returns (j: nat)
    requires IsRun(trace, steps) && i < |trace| && t < |trace[i].threads| && Valid(trace[i])
    requires trace[i].threads[t].pc.Aiming?
    requires trace[i].threads[t].pc.seen < trace[i].claims[trace[i].threads[t].pc.slot]
    ensures j < i && steps[j].Claim? && steps[j].thread != t && Enabled(trace[j], steps[j])
    ensures trace[j].threads[steps[j].thread].pc.slot == trace[i].threads[t].pc.slot
    ensures trace[i].threads[t].pc.slot in trace[j].available
    ensures forall m :: j <= m <= i ==> t < |trace[m].threads| && trace[m].threads[t] == trace[i].threads[t]
    decreases i
  {
    if i > 0 {
      RunsAreSafe(trace, steps, i - 1);
      var s := trace[i - 1];
      var pc := trace[i].threads[t].pc;
      if pc.slot < |s.claims| && s.claims[pc.slot] == trace[i].claims[pc.slot] {
        assert s.threads[t] == trace[i].threads[t];
        j := FindClaim(trace, steps, i - 1, t);
      } else {
        j := i - 1;
      }
    }
  }
}
