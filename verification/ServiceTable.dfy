/** svcmgr's services and the kernel objects that watch them, and what events do to them, on values. */
module ServiceTable {
  import opened Bytes

  const MAX_SERVICES: nat := 16
  const MAX_RESTARTS: nat := 5
  const EXIT_FAULT_BASE: nat := 0x1000

  const POLICY_ALWAYS: nat := 0
  const POLICY_ON_FAILURE: nat := 1
  const CRITICALITY_FATAL: nat := 0
  const CRITICALITY_NORMAL: nat := 1

  // ── The kernel objects involved ───────────────────────────────────────────

  /**
   * Event queues, the one death notification each thread may have, and the wait set as (queue, token) entries. Any call
   * may fail; `failures` counts the failed calls svcmgr reacts to.
   */
  class Kernel {
    var nextQueue: nat
    var nextThread: nat
    var live: set<nat>
    var bound: map<nat, nat>
    var waits: multiset<(nat, nat)>
    var failures: nat

    constructor (threads: nat)
      ensures nextQueue == 0 && nextThread == threads && live == {} && bound == map[] && waits == multiset{}
      ensures failures == 0
    {
      nextQueue, nextThread, live, bound, waits, failures := 0, threads, {}, map[], multiset{}, 0;
    }

    /** A call whose only effect in this model is whether it succeeds. */
    method Attempt() returns (ok: bool)
      modifies this`failures
      ensures failures == old(failures) + if ok then 0 else 1
    {
      ok := *;
      if !ok {
        failures := failures + 1;
      }
    }

    method CreateQueue() returns (q: Option<nat>)
      modifies this`nextQueue, this`live, this`failures
      ensures q.None? ==> nextQueue == old(nextQueue) && live == old(live)
      ensures q.Some? ==> q.value == old(nextQueue) && nextQueue == q.value + 1 && live == old(live) + {q.value}
      ensures failures == old(failures) + if q.Some? then 0 else 1
    {
      q := None;
      var ok := Attempt();
      if ok {
        q := Some(nextQueue);
        live, nextQueue := live + {nextQueue}, nextQueue + 1;
      }
    }

    /** Binding replaces whatever queue the thread was bound to. */
    method Bind(thread: nat, q: nat) returns (ok: bool)
      modifies this`bound, this`failures
      ensures bound == if ok then old(bound)[thread := q] else old(bound)
      ensures failures == old(failures) + if ok then 0 else 1
    {
      ok := Attempt();
      if ok {
        bound := bound[thread := q];
      }
    }

    method WaitSetAdd(q: nat, token: nat) returns (ok: bool)
      modifies this`waits, this`failures
      ensures waits == if ok then old(waits) + multiset{(q, token)} else old(waits)
      ensures failures == old(failures) + if ok then 0 else 1
    {
      ok := Attempt();
      if ok {
        waits := waits + multiset{(q, token)};
      }
    }

    /** Takes the queue's entry out of the wait set, which may fail without notice, and destroys the queue. */
    method RemoveQueue(q: nat, token: nat) returns (removed: bool)
      modifies this`waits, this`live
      ensures waits == (if removed then old(waits) - multiset{(q, token)} else old(waits)) && live == old(live) - {q}
    {
      removed := *;
      live := live - {q};
      if removed {
        waits := waits - multiset{(q, token)};
      }
    }

    /** procmgr's CREATE_PROCESS and START_PROCESS: a thread nobody has seen before. */
    method Spawn() returns (thread: Option<nat>)
      modifies this`nextThread, this`failures
      ensures thread.None? ==> nextThread == old(nextThread)
      ensures thread.Some? ==> thread.value == old(nextThread) && nextThread == thread.value + 1
      ensures failures == old(failures) + if thread.Some? then 0 else 1
    {
      thread := None;
      var ok := Attempt();
      if ok {
        thread := Some(nextThread);
        nextThread := nextThread + 1;
      }
    }
  }

  // ── Services ──────────────────────────────────────────────────────────────

  datatype Service = Service(
    thread: nat, queue: nat, hasModule: bool, policy: nat, criticality: nat, restarts: nat, active: bool)

  /** A kernel state, for comparing two moments. */
  datatype Moment =
    Moment(nextQueue: nat, nextThread: nat, live: set<nat>, bound: map<nat, nat>, waits: multiset<(nat, nat)>)

  /** Service `i` is watched: its thread reports to its own live queue, which waits once, under its own token. */
  ghost predicate Watched(m: Moment, svc: Service, i: nat) {
    && svc.queue in m.live
    && svc.thread in m.bound && m.bound[svc.thread] == svc.queue
    && forall token :: m.waits[(svc.queue, token)] == if token == i + 1 then 1 else 0
  }

  /** The service's thread reports to another queue. */
  ghost predicate Elsewhere(m: Moment, svc: Service) { svc.thread in m.bound && m.bound[svc.thread] != svc.queue }

  /** Every active service is watched but for those in `stolen`, whose threads report elsewhere. */
  ghost predicate WatchedBut(m: Moment, services: seq<Service>, stolen: set<nat>) {
    && (forall i :: i in stolen ==> i < |services|)
    && (forall i :: 0 <= i < |services| && services[i].active ==>
          if i in stolen then Elsewhere(m, services[i]) else Watched(m, services[i], i))
  }

  /** The active services with the given thread. */
  ghost function Owners(services: seq<Service>, thread: nat): set<nat> {
    set i | 0 <= i < |services| && services[i].active && services[i].thread == thread
  }

  /** Binding a thread to a queue no service uses takes it away from its owners and from nobody else. */
  lemma RebindSteals(a: Moment, b: Moment, services: seq<Service>, thread: nat, q: nat, stolen: set<nat>)
    requires WatchedBut(a, services, stolen) && a.live <= b.live && b.bound == a.bound[thread := q]
    requires forall i :: 0 <= i < |services| ==> services[i].queue != q
    requires forall p, token :: p != q ==> b.waits[(p, token)] == a.waits[(p, token)]
    ensures WatchedBut(b, services, stolen + Owners(services, thread))
  {
  }

  lemma WatchedMore(m: Moment, services: seq<Service>, svc: Service, stolen: set<nat>)
    requires Watched(m, svc, |services|) && WatchedBut(m, services, stolen)
    ensures WatchedBut(m, services + [svc], stolen)
  {
    var all := services + [svc];
    assert forall i :: 0 <= i < |services| ==> all[i] == services[i];
  }

  /** Restarts a service may still have, counting the last death. */
  function Lives(svc: Service): nat {
    if svc.active && svc.restarts <= MAX_RESTARTS then MAX_RESTARTS + 1 - svc.restarts else 0
  }

  function Measure(services: seq<Service>): nat {
    if services == [] then 0 else Measure(services[..|services| - 1]) + Lives(services[|services| - 1])
  }

  function TotalRestarts(services: seq<Service>): nat {
    if services == [] then 0 else TotalRestarts(services[..|services| - 1]) + services[|services| - 1].restarts
  }

  lemma {:induction false} MeasureUpdate(services: seq<Service>, i: nat, svc: Service)
    requires i < |services|
    ensures Measure(services[i := svc]) == Measure(services) - Lives(services[i]) + Lives(svc)
    ensures TotalRestarts(services[i := svc]) == TotalRestarts(services) - services[i].restarts + svc.restarts
    decreases |services|
  {
    var n := |services| - 1;
    if i < n {
      assert services[i := svc][..n] == services[..n][i := svc];
      MeasureUpdate(services[..n], i, svc);
    } else {
      assert services[i := svc][..n] == services[..n];
    }
  }

  lemma {:induction false} RestartsBounded(services: seq<Service>)
    requires forall i :: 0 <= i < |services| ==> services[i].restarts <= MAX_RESTARTS
    ensures TotalRestarts(services) <= MAX_RESTARTS * |services|
    decreases |services|
  {
    if services != [] {
      RestartsBounded(services[..|services| - 1]);
    }
  }

  /** Queues in use were handed out by the kernel. */
  ghost predicate HandedOut(live: set<nat>, waits: multiset<(nat, nat)>, nextQueue: nat) {
    && (forall q :: q in live ==> q < nextQueue)
    && (forall q, token :: (q, token) in waits ==> q < nextQueue)
  }

  ghost predicate TableOk(services: seq<Service>, nextQueue: nat, nextThread: nat) {
    && |services| <= MAX_SERVICES
    && (forall i :: 0 <= i < |services| ==>
          services[i].queue < nextQueue && services[i].thread < nextThread && services[i].restarts <= MAX_RESTARTS)
    && (forall i, j :: 0 <= i < j < |services| ==> services[i].queue != services[j].queue)
  }

  /** The history counters agree with the table: six lives each, one spent per death. */
  ghost predicate Accounts(services: seq<Service>, deaths: nat, restarts: nat) {
    && restarts == TotalRestarts(services)
    && deaths + Measure(services) <= (MAX_RESTARTS + 1) * |services|
  }

  /** `create_and_bind_event_queue` got as far as creating the queue, binding the thread or adding to the wait set. */
  ghost predicate Wired(a: Moment, b: Moment, thread: nat, index: nat, added: bool, rebound: bool) {
    var q := a.nextQueue;
    && b.nextThread == a.nextThread
    && ((b.nextQueue == q && b.live == a.live && !rebound) || (b.nextQueue == q + 1 && b.live == a.live + {q}))
    && b.bound == (if rebound then a.bound[thread := q] else a.bound)
    && (added ==> rebound)
    && b.waits == (if added then a.waits + multiset{(q, index + 1)} else a.waits)
  }

  lemma EnrollSteals(a: Moment, b: Moment, services: seq<Service>, svc: Service, added: bool, rebound: bool,
                     stolen: set<nat>)
    requires HandedOut(a.live, a.waits, a.nextQueue) && TableOk(services, a.nextQueue, a.nextThread)
    requires Wired(a, b, svc.thread, |services|, added, rebound) && svc.queue == a.nextQueue
    requires WatchedBut(a, services, stolen)
    ensures HandedOut(b.live, b.waits, b.nextQueue) && TableOk(services, b.nextQueue, b.nextThread)
    ensures WatchedBut(b, if added then services + [svc] else services,
                       if rebound then stolen + Owners(services, svc.thread) else stolen)
  {
    hide Owners;
    FreshQueue(a);
    if rebound {
      RebindSteals(a, b, services, svc.thread, a.nextQueue, stolen);
    }
    if added {
      WatchedMore(b, services, svc, stolen + Owners(services, svc.thread));
    }
  }

  lemma FreshQueue(m: Moment)
    requires HandedOut(m.live, m.waits, m.nextQueue)
    ensures forall token :: m.waits[(m.nextQueue, token)] == 0
  {
    forall token ensures m.waits[(m.nextQueue, token)] == 0 {
      assert (m.nextQueue, token) !in m.waits;
    }
  }

  lemma TableMore(services: seq<Service>, nextQueue: nat, nextThread: nat, svc: Service, deaths: nat, restarts: nat)
    requires TableOk(services, nextQueue, nextThread) && Accounts(services, deaths, restarts)
    requires |services| < MAX_SERVICES
    requires svc.queue == nextQueue && svc.thread < nextThread && svc.restarts == 0
    ensures TableOk(services + [svc], nextQueue + 1, nextThread) && Accounts(services + [svc], deaths, restarts)
  {
    assert (services + [svc])[..|services|] == services;
  }

  /** Between `a` and `b` nothing happened to older threads or to older queues other than `q`. */
  ghost predicate OnlyTouched(a: Moment, b: Moment, q: nat) {
    && a.nextQueue <= b.nextQueue && a.nextThread <= b.nextThread
    && (forall t: nat :: t < a.nextThread && t in a.bound ==> t in b.bound && b.bound[t] == a.bound[t])
    && (forall p :: p in a.live && p != q ==> p in b.live)
    && (forall p, token :: p < a.nextQueue && p != q ==> b.waits[(p, token)] == a.waits[(p, token)])
  }

  /** Replacing one service by an inactive or watched one changes nothing for the others. */
  lemma OthersKept(a: Moment, b: Moment, services: seq<Service>, i: nat, svc: Service, stolen: set<nat>)
    requires i < |services| && TableOk(services, a.nextQueue, a.nextThread) && OnlyTouched(a, b, services[i].queue)
    requires WatchedBut(a, services, stolen)
    requires svc.active ==> Watched(b, svc, i)
    ensures WatchedBut(b, services[i := svc], stolen - {i})
  {
    forall j | 0 <= j < |services| && j != i && services[j].active
      ensures if j in stolen then Elsewhere(b, services[j]) else Watched(b, services[j], j)
    {
      assert services[j].queue != services[i].queue;
    }
  }

  lemma TableUpdate(a: Moment, b: Moment, services: seq<Service>, i: nat, svc: Service)
    requires i < |services| && TableOk(services, a.nextQueue, a.nextThread)
    requires a.nextQueue <= b.nextQueue && a.nextThread <= b.nextThread
    requires svc.queue == services[i].queue || a.nextQueue <= svc.queue < b.nextQueue
    requires svc.thread < b.nextThread && svc.restarts <= MAX_RESTARTS
    ensures TableOk(services[i := svc], b.nextQueue, b.nextThread)
  {
  }

  /** A restarted service: its thread reports to its new live queue, which is not in the wait set yet. */
  ghost predicate Poised(m: Moment, svc: Service) {
    && svc.queue in m.live && svc.queue < m.nextQueue && svc.thread < m.nextThread
    && svc.thread in m.bound && m.bound[svc.thread] == svc.queue
    && forall token :: m.waits[(svc.queue, token)] == 0
  }

  lemma SpawnTouches(m: Moment, q: nat)
    requires HandedOut(m.live, m.waits, m.nextQueue)
    ensures OnlyTouched(m, m, q) && OnlyTouched(m, m.(nextThread := m.nextThread + 1), q)
  {
  }

  function Removed(waits: multiset<(nat, nat)>, q: nat, token: nat, ok: bool): multiset<(nat, nat)> {
    if ok then waits - multiset{(q, token)} else waits
  }

  lemma RemoveTouches(m: Moment, q: nat, token: nat, ok: bool)
    requires HandedOut(m.live, m.waits, m.nextQueue)
    ensures var n := m.(nextThread := m.nextThread + 1, waits := Removed(m.waits, q, token, ok), live := m.live - {q});
            && OnlyTouched(m, n, q) && HandedOut(n.live, n.waits, n.nextQueue)
            && OnlyTouched(m, n.(live := n.live + {m.nextQueue}, nextQueue := m.nextQueue + 1), q)
            && HandedOut(n.live + {m.nextQueue}, n.waits, m.nextQueue + 1)
  {
    assert forall p, t :: (p, t) in Removed(m.waits, q, token, ok) ==> (p, t) in m.waits;
  }

  lemma RebindTouches(m: Moment, svc: Service, token: nat, ok: bool)
    requires HandedOut(m.live, m.waits, m.nextQueue)
    ensures var n := Moment(m.nextQueue + 1, m.nextThread + 1, m.live - {svc.queue} + {m.nextQueue},
                            m.bound[m.nextThread := m.nextQueue], Removed(m.waits, svc.queue, token, ok));
            && OnlyTouched(m, n, svc.queue)
            && Poised(n, svc.(queue := m.nextQueue, thread := m.nextThread))
  {
    forall t ensures Removed(m.waits, svc.queue, token, ok)[(m.nextQueue, t)] == 0 {
      assert (m.nextQueue, t) !in m.waits;
    }
  }

  lemma AddWatches(a: Moment, b: Moment, b': Moment, q: nat, svc: Service, i: nat)
    requires OnlyTouched(a, b, q) && Poised(b, svc) && a.nextQueue <= svc.queue
    requires HandedOut(b.live, b.waits, b.nextQueue) && b' == b.(waits := b.waits + multiset{(svc.queue, i + 1)})
    ensures OnlyTouched(a, b', q) && HandedOut(b'.live, b'.waits, b'.nextQueue) && Watched(b', svc, i)
  {
  }

  lemma PoisedBounds(m: Moment, svc: Service)
    requires Poised(m, svc)
    ensures svc.queue < m.nextQueue && svc.thread < m.nextThread
  {
  }

  lemma TouchedForward(a: Moment, b: Moment, q: nat)
    requires OnlyTouched(a, b, q)
    ensures a.nextQueue <= b.nextQueue && a.nextThread <= b.nextThread
  {
  }

  lemma RestartsWithin(services: seq<Service>, nextQueue: nat, nextThread: nat, i: nat)
    requires TableOk(services, nextQueue, nextThread) && i < |services|
    ensures services[i].restarts <= MAX_RESTARTS && services[i].thread < nextThread
  {
  }

  lemma AccountsUpdate(services: seq<Service>, i: nat, svc: Service, deaths: nat, restarts: nat)
    requires i < |services| && Accounts(services, deaths, restarts)
    requires services[i].active && services[i].restarts <= MAX_RESTARTS
    requires (svc.restarts == services[i].restarts && !svc.active)
          || (svc.restarts == services[i].restarts + 1 && svc.restarts <= MAX_RESTARTS)
    ensures Accounts(services[i := svc], deaths + 1, restarts + svc.restarts - services[i].restarts)
    ensures Measure(services[i := svc]) < Measure(services)
  {
    MeasureUpdate(services, i, svc);
  }

  /** What a death may make of a service: inactive, or restarted once more with a new thread and queue. */
  ghost predicate Settled(a: Moment, b: Moment, svc: Service, now: Service) {
    && (now.queue == svc.queue || a.nextQueue <= now.queue < b.nextQueue)
    && now.thread < b.nextThread && now.criticality == svc.criticality
    && ((now.restarts == svc.restarts && !now.active)
        || (now.restarts == svc.restarts + 1 && now.restarts <= MAX_RESTARTS))
  }

  lemma TableSettled(a: Moment, b: Moment, services: seq<Service>, i: nat, now: Service, deaths: nat, restarts: nat,
                     stolen: set<nat>)
    requires i < |services| && services[i].active && TableOk(services, a.nextQueue, a.nextThread)
    requires Accounts(services, deaths, restarts) && WatchedBut(a, services, stolen)
    requires OnlyTouched(a, b, services[i].queue) && Settled(a, b, services[i], now)
    requires now.active ==> Watched(b, now, i)
    ensures now.restarts >= services[i].restarts
    ensures TableOk(services[i := now], b.nextQueue, b.nextThread)
    ensures Accounts(services[i := now], deaths + 1, restarts + now.restarts - services[i].restarts)
    ensures Measure(services[i := now]) < Measure(services)
    ensures WatchedBut(b, services[i := now], stolen - {i})
  {
    hide WatchedBut;
    hide Watched;
    hide Accounts;
    hide Measure;
    TouchedForward(a, b, services[i].queue);
    AccountsUpdate(services, i, now, deaths, restarts);
    TableUpdate(a, b, services, i, now);
    OthersKept(a, b, services, i, now, stolen);
  }

  /** `should_restart`. */
  predicate ShouldRestart(svc: Service, reason: nat) {
    && (svc.policy == POLICY_ALWAYS || (svc.policy == POLICY_ON_FAILURE && reason >= EXIT_FAULT_BASE))
    && svc.restarts < MAX_RESTARTS
    && svc.hasModule
  }

  /** A dead service is to be restarted: its criticality is normal and policy, count and module allow it. */
  predicate Revives(svc: Service, reason: nat) {
    svc.criticality == CRITICALITY_NORMAL && ShouldRestart(svc, reason)
  }

  datatype Reply = Success | InvalidName | TableFull | InsufficientCaps | EventQueueFailed

  function Registered(thread: nat, queue: nat, policy: nat, criticality: nat): Service {
    Service(thread, queue, true, policy, criticality, 0, true)
  }

  /** What `wait_set_wait` and `ipc_recv` may bring; a death event carries the service index plus one as its token. */
  datatype Event =
    | WaitFailed
    | OtherIpc
    | Register(nameLen: nat, caps: seq<nat>, policy: nat, criticality: nat)
    | Death(index: nat, reason: nat)

  // ── Which registrations take threads away ─────────────────────────────────

  /** A registration that passes the checks of `handle_register`, unless the table is full. */
  predicate Enrolls(e: Event) {
    e.Register? && 0 < e.nameLen <= 32 && |e.caps| >= 2 && e.caps[0] != 0 && e.caps[1] != 0
  }

  /** One of the events is a registration of the thread. */
  ghost predicate Names(events: seq<Event>, thread: nat) {
    exists j :: 0 <= j < |events| && Enrolls(events[j]) && events[j].caps[0] == thread
  }

  /** No event registers the thread of an active service or a thread that an earlier event has registered. */
  ghost predicate Fresh(events: seq<Event>, services: seq<Service>) {
    forall k :: 0 <= k < |events| && Enrolls(events[k]) ==>
      Owners(services, events[k].caps[0]) == {} && !Names(events[..k], events[k].caps[0])
  }

  /** Some thread is registered twice. */
  ghost predicate NamedTwice(events: seq<Event>) {
    exists k :: 0 <= k < |events| && Enrolls(events[k]) && Names(events[..k], events[k].caps[0])
  }

  /** Service `i` of a run that began with `was`: its thread, or that of some service new in the run, is registered. */
  ghost predicate Claimable(was: seq<Service>, events: seq<Event>, i: nat) {
    if i < |was| then was[i].active && Names(events, was[i].thread) else NamedTwice(events)
  }

  ghost predicate AllClaimable(was: seq<Service>, events: seq<Event>, taken: set<nat>) {
    forall i :: i in taken ==> Claimable(was, events, i)
  }

  lemma NamesMore(events: seq<Event>, e: Event, thread: nat)
    ensures Names(events + [e], thread) <==> Names(events, thread) || (Enrolls(e) && e.caps[0] == thread)
  {
    var more := events + [e];
    if j :| 0 <= j < |events| && Enrolls(events[j]) && events[j].caps[0] == thread {
      assert more[j] == events[j];
    }
    assert more[|events|] == e;
  }

  lemma FreshMore(events: seq<Event>, e: Event, services: seq<Service>)
    ensures Fresh(events + [e], services)
       <==> Fresh(events, services)
            && (Enrolls(e) ==> Owners(services, e.caps[0]) == {} && !Names(events, e.caps[0]))
  {
    hide Owners;
    hide Names;
    var more := events + [e];
    assert more[..|events|] == events;
    assert forall k :: 0 <= k < |events| ==> more[k] == events[k] && more[..k] == events[..k];
  }

  lemma ClaimablePrefix(was: seq<Service>, events: seq<Event>, n: nat, taken: set<nat>)
    requires n <= |events| && AllClaimable(was, events[..n], taken)
    ensures AllClaimable(was, events, taken)
  {
    var seen := events[..n];
    forall i | i in taken ensures Claimable(was, events, i) {
      assert Claimable(was, seen, i);
      if i < |was| {
        var j :| 0 <= j < |seen| && Enrolls(seen[j]) && seen[j].caps[0] == was[i].thread;
        assert events[j] == seen[j];
      } else {
        hide Names;
        var k :| 0 <= k < |seen| && Enrolls(seen[k]) && Names(seen[..k], seen[k].caps[0]);
        assert events[k] == seen[k] && events[..k] == seen[..k];
      }
    }
  }

  /** Nothing is claimable in a run of fresh registrations. */
  lemma FreshTakesNothing(was: seq<Service>, events: seq<Event>, i: nat)
    requires Claimable(was, events, i)
    ensures !Fresh(events, was)
  {
    if i < |was| {
      var j :| 0 <= j < |events| && Enrolls(events[j]) && events[j].caps[0] == was[i].thread;
      assert i in Owners(was, events[j].caps[0]);
    }
  }

  /** Where the threads of active services come from: the start of the run, a registration of it, or a restart. */
  ghost predicate Origins(was: seq<Service>, now: seq<Service>, seen: seq<Event>, nextThread: nat) {
    && |was| <= |now|
    && forall i :: 0 <= i < |now| && now[i].active && now[i].thread < nextThread ==>
         if i < |was| then was[i].active && now[i].thread == was[i].thread else Names(seen, now[i].thread)
  }

  /** What is true of every run: who was taken was claimable, and threads come from where they may. */
  ghost predicate Tracked(was: seq<Service>, now: seq<Service>, seen: seq<Event>, taken: set<nat>, nextThread: nat) {
    AllClaimable(was, seen, taken) && Origins(was, now, seen, nextThread)
  }

  /** A registration can only take services that its thread, or an equal earlier one, makes claimable. */
  lemma OwnersClaimable(was: seq<Service>, now: seq<Service>, seen: seq<Event>, e: Event, nextThread: nat)
    requires Origins(was, now, seen, nextThread) && Enrolls(e) && e.caps[0] < nextThread
    ensures AllClaimable(was, seen + [e], Owners(now, e.caps[0]))
  {
    hide Names;
    var more := seen + [e];
    NamesMore(seen, e, e.caps[0]);
    forall i | i in Owners(now, e.caps[0]) ensures Claimable(was, more, i) {
      if i >= |was| {
        assert more[|seen|] == e && more[..|seen|] == seen;
      }
    }
  }

  lemma EventTracked(was: seq<Service>, now: seq<Service>, seen: seq<Event>, e: Event, taken: set<nat>, nextThread: nat)
    requires Tracked(was, now, seen, taken, nextThread)
    ensures Tracked(was, now, seen + [e], taken, nextThread)
  {
    hide Names;
    assert (seen + [e])[..|seen|] == seen;
    ClaimablePrefix(was, seen + [e], |seen|, taken);
    forall thread | Names(seen, thread) ensures Names(seen + [e], thread) {
      NamesMore(seen, e, thread);
    }
  }

  lemma RegisterTracked(was: seq<Service>, now: seq<Service>, seen: seq<Event>, e: Event, svc: Service,
                        taken: set<nat>, nextThread: nat)
    requires Tracked(was, now, seen, taken, nextThread)
    requires Enrolls(e) && svc.thread == e.caps[0] < nextThread
    ensures Tracked(was, now, seen + [e], taken + Owners(now, e.caps[0]), nextThread)
    ensures Tracked(was, now + [svc], seen + [e], taken + Owners(now, e.caps[0]), nextThread)
  {
    hide Names;
    hide Owners;
    hide Claimable;
    EventTracked(was, now, seen, e, taken, nextThread);
    OwnersClaimable(was, now, seen, e, nextThread);
    NamesMore(seen, e, svc.thread);
  }

  lemma DeathTracked(was: seq<Service>, now: seq<Service>, seen: seq<Event>, e: Event, k: nat, svc: Service,
                     taken: set<nat>, nextThread: nat)
    requires Tracked(was, now, seen, taken, nextThread) && k < |now|
    requires svc.active ==> svc.thread >= nextThread
    ensures Tracked(was, now[k := svc], seen + [e], taken, nextThread)
  {
    hide AllClaimable;
    EventTracked(was, now, seen, e, taken, nextThread);
  }

  /** As long as nobody dies and nothing fails, the table only grows, by the services registered. */
  ghost predicate OnlyGrown(was: seq<Service>, now: seq<Service>, seen: seq<Event>) {
    && |was| <= |now| <= |was| + |seen|
    && (forall i :: 0 <= i < |was| ==> now[i] == was[i])
    && (forall thread :: Names(seen, thread) ==> Owners(now, thread) != {})
  }

  lemma OwnersGrown(was: seq<Service>, now: seq<Service>, seen: seq<Event>, thread: nat, nextThread: nat)
    requires Origins(was, now, seen, nextThread) && OnlyGrown(was, now, seen) && thread < nextThread
    ensures Owners(now, thread) == {} <==> Owners(was, thread) == {} && !Names(seen, thread)
  {
    hide Names;
    if i :| i in Owners(was, thread) {
      assert i in Owners(now, thread);
    } else if i :| i in Owners(now, thread) {
      assert i < |was| ==> i in Owners(was, thread);
    }
  }

  /** What is true besides of a run without deaths and failures: the services taken are those not fresh, and live on. */
  ghost predicate Plain(was: seq<Service>, now: seq<Service>, seen: seq<Event>, taken: set<nat>) {
    && OnlyGrown(was, now, seen)
    && (taken == {} <==> Fresh(seen, was))
    && (forall i :: i in taken ==> i < |now| && now[i].active)
  }

  lemma EventPlain(was: seq<Service>, now: seq<Service>, seen: seq<Event>, e: Event, taken: set<nat>)
    requires Plain(was, now, seen, taken) && !Enrolls(e)
    ensures Plain(was, now, seen + [e], taken)
  {
    hide Owners;
    hide Fresh;
    FreshMore(seen, e, was);
    GrownMore(was, now, seen, e, Registered(0, 0, 0, 0));
  }

  lemma RegisterPlain(was: seq<Service>, now: seq<Service>, seen: seq<Event>, e: Event, svc: Service, taken: set<nat>,
                      nextThread: nat)
    requires Plain(was, now, seen, taken) && Tracked(was, now, seen, taken, nextThread)
    requires Enrolls(e) && svc.active && svc.thread == e.caps[0] < nextThread
    ensures Plain(was, now + [svc], seen + [e], taken + Owners(now, e.caps[0]))
  {
    hide Fresh;
    hide OnlyGrown;
    OwnersGrown(was, now, seen, e.caps[0], nextThread);
    FreshMore(seen, e, was);
    GrownMore(was, now, seen, e, svc);
  }

  lemma GrownMore(was: seq<Service>, now: seq<Service>, seen: seq<Event>, e: Event, svc: Service)
    requires OnlyGrown(was, now, seen)
    requires Enrolls(e) ==> svc.active && svc.thread == e.caps[0]
    ensures OnlyGrown(was, if Enrolls(e) then now + [svc] else now, seen + [e])
  {
    hide Names;
    var next := if Enrolls(e) then now + [svc] else now;
    forall thread | Names(seen + [e], thread) ensures Owners(next, thread) != {} {
      NamesMore(seen, e, thread);
      if Names(seen, thread) {
        var i :| i in Owners(now, thread);
        assert i in Owners(next, thread);
      } else {
        assert |now| in Owners(next, thread);
      }
    }
  }

  lemma NothingSeen(was: seq<Service>, nextThread: nat)
    ensures Tracked(was, was, [], {}, nextThread) && Plain(was, was, [], {})
  {
  }

  lemma PlainRoom(was: seq<Service>, now: seq<Service>, seen: seq<Event>, taken: set<nat>)
    requires Plain(was, now, seen, taken)
    ensures |now| <= |was| + |seen|
  {
  }

  lemma TrackedEnd(was: seq<Service>, now: seq<Service>, events: seq<Event>, n: nat, taken: set<nat>, nextThread: nat)
    requires n <= |events| && Tracked(was, now, events[..n], taken, nextThread)
    ensures AllClaimable(was, events, taken) && (Fresh(events, was) ==> taken == {})
  {
    ClaimablePrefix(was, events, n, taken);
    if i :| i in taken {
      FreshTakesNothing(was, events, i);
    }
  }

  lemma PlainEnd(was: seq<Service>, now: seq<Service>, events: seq<Event>, taken: set<nat>)
    ensures Plain(was, now, events, taken) ==>
              && (taken == {} <==> Fresh(events, was))
              && (forall i :: 0 <= i < |was| ==> i < |now| && now[i] == was[i])
              && (forall i :: i in taken ==> i < |now| && now[i].active)
  {
  }
}
