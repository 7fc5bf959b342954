/** svcmgr: registration, death notification and bounded restart of services. */
module ServiceManager {
  import opened Bytes
  import opened ServiceTable

  class Manager {
    const kernel: Kernel
    var services: seq<Service>
    var halted: bool
    /** History: deaths of active services handled and restarts done since the start. */
    var deaths: nat
    var restarts: nat
    /** History: services whose thread was bound to another queue by a later registration, until they are restarted. */
    ghost var stolen: set<nat>

    constructor (k: Kernel)
      requires HandedOut(k.live, k.waits, k.nextQueue)
      ensures kernel == k && services == [] && !halted && deaths == 0 && restarts == 0 && stolen == {}
      ensures Sane() && AllWatched()
    {
      kernel, services, halted, deaths, restarts, stolen := k, [], false, 0, 0, {};
    }

    /**
     * The loop-head invariant: identifiers in use were handed out, the counters add up, and every active service is
     * watched but for the stolen ones.
     */
    ghost predicate Sane()
      reads this, kernel
    {
      && HandedOut(kernel.live, kernel.waits, kernel.nextQueue)
      && TableOk(services, kernel.nextQueue, kernel.nextThread)
      && Accounts(services, deaths, restarts)
      && WatchedBut(Now(), services, stolen)
    }

    ghost predicate WatchedAt(i: nat)
      requires i < |services|
      reads this, kernel
    {
      Watched(Now(), services[i], i)
    }

    /** Every active service is watched. */
    ghost predicate AllWatched()
      reads this, kernel
    {
      forall i :: 0 <= i < |services| && services[i].active ==> WatchedAt(i)
    }

    /** An active service is watched exactly when it is not stolen. */
    lemma WatchedUnlessStolen()
      requires Sane()
      ensures forall i :: 0 <= i < |services| && services[i].active ==> (WatchedAt(i) <==> i !in stolen)
      ensures forall i :: i in stolen ==> i < |services|
      ensures AllWatched() <==> forall i :: i in stolen ==> !services[i].active
    {
    }

    ghost function Now(): Moment
      reads kernel
    {
      Moment(kernel.nextQueue, kernel.nextThread, kernel.live, kernel.bound, kernel.waits)
    }

    // ── Registration ──────────────────────────────────────────────────────

    /** `rebound` says whether the thread's notification now goes to the new queue. */
    method CreateAndBind(thread: nat, index: nat) returns (q: Option<nat>, ghost rebound: bool)
      modifies kernel
      ensures q.Some? ==> q.value == old(kernel.nextQueue)
      ensures kernel.failures == old(kernel.failures) + if q.Some? then 0 else 1
      ensures Wired(old(Now()), Now(), thread, index, q.Some?, rebound)
    {
      rebound := false;
      q := kernel.CreateQueue();
      if q.None? {
        return;
      }
      var ok := kernel.Bind(thread, q.value);
      if !ok {
        return None, false;
      }
      rebound := true;
      ok := kernel.WaitSetAdd(q.value, index + 1);
      if !ok {
        q := None;
      }
    }

    /**
     * A registration takes the notifications of exactly the active services whose thread it rebinds; all others stay as
     * they are. So all stay watched exactly when it rebinds no such thread.
     */
    method HandleRegister(nameLen: nat, caps: seq<nat>, policy: nat, criticality: nat)
      returns (reply: Reply, ghost rebound: bool)
      requires Sane() && (caps != [] ==> caps[0] < kernel.nextThread)
      modifies this`services, this`stolen, kernel
      ensures Sane() && kernel.nextThread == old(kernel.nextThread)
      ensures rebound ==> Enrolls(Register(nameLen, caps, policy, criticality))
      ensures reply == Success ==>
                rebound && services == old(services) + [Registered(caps[0], old(kernel.nextQueue), policy, criticality)]
      ensures reply != Success ==> services == old(services)
      ensures reply == InvalidName <==> nameLen == 0 || nameLen > 32
      ensures reply == TableFull <==> 0 < nameLen <= 32 && |old(services)| >= 16
      ensures reply == InsufficientCaps <==>
                && 0 < nameLen <= 32 && |old(services)| < 16
                && (|caps| < 2 || caps[0] == 0 || caps[1] == 0)
      ensures reply == EventQueueFailed <==> kernel.failures > old(kernel.failures)
      ensures kernel.failures >= old(kernel.failures)
      ensures stolen == if rebound then old(stolen) + Owners(old(services), caps[0]) else old(stolen)
      ensures old(AllWatched()) ==> (AllWatched() <==> !(rebound && Owners(old(services), caps[0]) != {}))
    {
      hide WatchedBut;
      hide Watched;
      hide Accounts;
      hide TableOk;
      hide HandedOut;
      rebound := false;
      if nameLen == 0 || nameLen > 32 {
        return InvalidName, false;
      }
      if |services| >= MAX_SERVICES {
        return TableFull, false;
      }
      if |caps| < 2 || caps[0] == 0 || caps[1] == 0 {
        return InsufficientCaps, false;
      }
      WatchedUnlessStolen();
      ghost var was := services;
      reply, rebound := Enroll(caps[0], policy, criticality);
      WatchedUnlessStolen();
      assert forall i :: 0 <= i < |was| ==> services[i] == was[i];
    }

    method Enroll(thread: nat, policy: nat, criticality: nat) returns (reply: Reply, ghost rebound: bool)
      requires Sane() && thread < kernel.nextThread && |services| < MAX_SERVICES
      modifies this`services, this`stolen, kernel
      ensures Sane() && kernel.nextThread == old(kernel.nextThread) && (reply == Success || reply == EventQueueFailed)
      ensures kernel.failures == old(kernel.failures) + if reply == Success then 0 else 1
      ensures reply == Success ==> rebound
      ensures reply == Success ==>
                services == old(services) + [Registered(thread, old(kernel.nextQueue), policy, criticality)]
      ensures reply != Success ==> services == old(services)
      ensures stolen == if rebound then old(stolen) + Owners(old(services), thread) else old(stolen)
    {
      hide WatchedBut;
      hide Owners;
      hide Accounts;
      hide TableOk;
      hide HandedOut;
      ghost var before := Now();
      var svc := Registered(thread, kernel.nextQueue, policy, criticality);
      var q;
      q, rebound := CreateAndBind(thread, |services|);
      EnrollSteals(before, Now(), services, svc, q.Some?, rebound, stolen);
      stolen := if rebound then stolen + Owners(services, thread) else stolen;
      reply := EventQueueFailed;
      if q.Some? {
        TableMore(services, before.nextQueue, before.nextThread, svc, deaths, restarts);
        services := services + [svc.(queue := q.value)];
        reply := Success;
      }
    }

    // ── Death and restart ─────────────────────────────────────────────────

    /** `rebind_death_notification`: destroys the old queue and binds the new thread to a new one. */
    method Rebind(svc: Service, index: nat, thread: nat) returns (r: Option<Service>)
      requires HandedOut(kernel.live, kernel.waits, kernel.nextQueue) && kernel.nextThread == thread + 1
      modifies kernel
      ensures var m := old(Now()).(nextThread := thread);
              HandedOut(kernel.live, kernel.waits, kernel.nextQueue) && OnlyTouched(m, Now(), svc.queue)
      ensures kernel.failures == old(kernel.failures) + if r.Some? then 0 else 1
      ensures r.Some? ==>
                r.value == svc.(queue := old(kernel.nextQueue), thread := thread) && Poised(Now(), r.value)
    {
      hide OnlyTouched;
      hide HandedOut;
      hide Poised;
      ghost var m := Now().(nextThread := thread);
      var removed := kernel.RemoveQueue(svc.queue, index + 1);
      RemoveTouches(m, svc.queue, index + 1, removed);
      RebindTouches(m, svc, index + 1, removed);
      var q := kernel.CreateQueue();
      if q.None? {
        return None;
      }
      var ok := kernel.Bind(thread, q.value);
      if !ok {
        return None;
      }
      r := Some(svc.(queue := q.value, thread := thread));
    }

    /** A new process for a dead service, with a new queue bound to its thread; the old queue is gone from then on. */
    method RestartProcess(svc: Service, index: nat) returns (r: Option<Service>)
      requires HandedOut(kernel.live, kernel.waits, kernel.nextQueue)
      modifies kernel
      ensures HandedOut(kernel.live, kernel.waits, kernel.nextQueue) && OnlyTouched(old(Now()), Now(), svc.queue)
      ensures kernel.failures == old(kernel.failures) + if r.Some? then 0 else 1
      ensures r.Some? ==>
                && r.value == svc.(queue := old(kernel.nextQueue), thread := old(kernel.nextThread))
                && Poised(Now(), r.value)
    {
      hide OnlyTouched;
      hide HandedOut;
      hide Poised;
      SpawnTouches(Now(), svc.queue);
      var thread := kernel.Spawn();
      if thread.None? {
        return None;
      }
      var served := kernel.Attempt();
      if !served {
        return None;
      }
      r := Rebind(svc, index, thread.value);
    }

    /** `handle_death`: the new state of the service; `None` when a fatal service stops the system. */
    method HandleDeath(svc: Service, index: nat, reason: nat) returns (r: Option<Service>)
      requires HandedOut(kernel.live, kernel.waits, kernel.nextQueue) && svc.restarts <= MAX_RESTARTS && svc.active
      modifies kernel
      ensures HandedOut(kernel.live, kernel.waits, kernel.nextQueue) && OnlyTouched(old(Now()), Now(), svc.queue)
      ensures r.None? <==> svc.criticality == 0
      ensures r.None? ==> Now() == old(Now())
      ensures kernel.failures >= old(kernel.failures)
      ensures r.Some? ==>
                (r.value.active <==>
                 && svc.criticality == 1 && svc.hasModule && svc.restarts < 5
                 && (svc.policy == 0 || (svc.policy == 1 && reason >= 0x1000))
                 && kernel.failures == old(kernel.failures))
      ensures r.Some? && !r.value.active ==> r.value == svc.(active := false)
      ensures r.Some? && r.value.active ==>
                && r.value == svc.(queue := old(kernel.nextQueue), thread := old(kernel.nextThread),
                                   restarts := svc.restarts + 1)
                && Poised(Now(), r.value)
    {
      if svc.criticality == CRITICALITY_FATAL {
        return None;
      }
      if svc.criticality != CRITICALITY_NORMAL || !ShouldRestart(svc, reason) {
        return Some(svc.(active := false));
      }
      var restarted := RestartProcess(svc, index);
      if restarted.None? {
        return Some(svc.(active := false));
      }
      r := Some(restarted.value.(restarts := svc.restarts + 1));
    }

    /** `handle_death` and the re-adding of the new queue that follows it. */
    method SettleDeath(svc: Service, index: nat, reason: nat) returns (r: Option<Service>)
      requires HandedOut(kernel.live, kernel.waits, kernel.nextQueue) && svc.restarts <= MAX_RESTARTS && svc.active
      requires svc.thread < kernel.nextThread
      modifies kernel
      ensures HandedOut(kernel.live, kernel.waits, kernel.nextQueue) && OnlyTouched(old(Now()), Now(), svc.queue)
      ensures r.None? <==> svc.criticality == 0
      ensures r.None? ==> Now() == old(Now())
      ensures kernel.failures >= old(kernel.failures)
      ensures r.Some? ==>
                && Settled(old(Now()), Now(), svc, r.value)
                && (r.value.active ==> Watched(Now(), r.value, index) && r.value.thread == old(kernel.nextThread))
                && (r.value.active <==> Revives(svc, reason) && kernel.failures == old(kernel.failures))
    {
      hide OnlyTouched;
      hide HandedOut;
      hide Poised;
      hide Watched;
      ghost var before := Now();
      r := HandleDeath(svc, index, reason);
      TouchedForward(before, Now(), svc.queue);
      if r.Some? && r.value.active {
        ghost var between := Now();
        PoisedBounds(between, r.value);
        ghost var added := between.(waits := between.waits + multiset{(r.value.queue, index + 1)});
        AddWatches(before, between, added, svc.queue, r.value, index);
        var ok := kernel.WaitSetAdd(r.value.queue, index + 1);
        if !ok {
          r := Some(r.value.(active := false));
        }
      }
    }

    /** One death event. Every death handled uses up one of the service's lives, and inactive services stay so. */
    method DispatchDeath(token: nat, reason: nat) returns (handled: bool)
      requires Sane() && token > 0 && !halted
      modifies this`services, this`halted, this`deaths, this`restarts, this`stolen, kernel
      ensures Sane() && |services| == |old(services)| && kernel.nextThread >= old(kernel.nextThread)
      ensures stolen == if handled then old(stolen) - {token - 1} else old(stolen)
      ensures old(AllWatched()) ==> AllWatched()
      ensures forall i :: 0 <= i < |services| && (i + 1 != token || !old(services)[i].active) ==>
                services[i] == old(services)[i]
      ensures handled ==> token <= |services| && old(services)[token - 1].active
      ensures handled && services[token - 1].active ==> services[token - 1].thread == old(kernel.nextThread)
      ensures kernel.failures >= old(kernel.failures)
      ensures kernel.failures == old(kernel.failures) && token <= |services| && old(services)[token - 1].active ==>
                var svc := old(services)[token - 1];
                && (halted <==> svc.criticality == CRITICALITY_FATAL)
                && (handled <==> !halted)
                && (handled ==> (services[token - 1].active <==> Revives(svc, reason)))
      ensures handled ==> Measure(services) < old(Measure(services)) && deaths == old(deaths) + 1
      ensures !handled ==> services == old(services) && deaths == old(deaths) && restarts == old(restarts)
      ensures halted ==> !handled && token <= |services| && services[token - 1].criticality == CRITICALITY_FATAL
    {
      hide WatchedBut;
      hide Watched;
      hide TableOk;
      hide HandedOut;
      hide Accounts;
      hide OnlyTouched;
      hide Measure;
      hide Settled;
      hide Revives;
      WatchedUnlessStolen();
      handled := false;
      var idx := token - 1;
      if idx >= |services| {
        return;
      }
      var received := kernel.Attempt();
      if !received || !services[idx].active {
        return;
      }
      ghost var before := Now();
      var svc := services[idx];
      RestartsWithin(services, kernel.nextQueue, kernel.nextThread, idx);
      var after := SettleDeath(svc, idx, reason);
      if after.None? {
        halted := true;
      } else {
        TouchedForward(before, Now(), svc.queue);
        TableSettled(before, Now(), services, idx, after.value, deaths, restarts, stolen);
        deaths, restarts := deaths + 1, restarts + after.value.restarts - svc.restarts;
        services, stolen, handled := services[idx := after.value], stolen - {idx}, true;
      }
      WatchedUnlessStolen();
    }

    // ── The event loop ────────────────────────────────────────────────────

    /** In every run each service dies at most six times while active and is restarted at most five times. */
    lemma LivesBounded()
      requires Sane()
      ensures restarts <= 5 * |services| && deaths <= 6 * |services|
      ensures forall i :: 0 <= i < |services| ==> services[i].restarts <= MAX_RESTARTS
    {
      RestartsBounded(services);
    }

    /** Before the call: nobody is to die, and the table has room for every registration. */
    ghost predicate Quiet(events: seq<Event>)
      reads this
    {
      |services| + |events| <= MAX_SERVICES && forall i :: 0 <= i < |events| ==> !events[i].Death?
    }

    /**
     * Handles events until they are used up or a fatal service dies. `taken` are the services whose thread a
     * registration of this run has rebound while they were active. There are none if the registrations are fresh, and
     * without deaths and failures only then.
     */
    method EventLoop(events: seq<Event>) returns (ghost taken: set<nat>)
      requires Sane() && !halted
      requires forall i :: 0 <= i < |events| && events[i].Register? && events[i].caps != [] ==>
                 events[i].caps[0] < kernel.nextThread
      modifies this`services, this`halted, this`deaths, this`restarts, this`stolen, kernel
      ensures Sane() && |services| >= |old(services)|
      ensures forall i :: 0 <= i < |services| && services[i].active ==> (WatchedAt(i) <==> i !in stolen)
      ensures stolen <= old(stolen) + taken && AllClaimable(old(services), events, taken)
      ensures Fresh(events, old(services)) ==> taken == {} && (old(AllWatched()) ==> AllWatched())
      ensures old(Quiet(events)) && kernel.failures == old(kernel.failures) && old(AllWatched()) ==>
                (AllWatched() <==> Fresh(events, old(services)))
      ensures forall i :: 0 <= i < |old(services)| && !old(services)[i].active ==> services[i] == old(services)[i]
      ensures restarts <= 5 * |services| && deaths <= 6 * |services|
    {
      hide WatchedBut;
      hide TableOk;
      hide HandedOut;
      hide Accounts;
      hide Measure;
      hide Owners;
      hide Fresh;
      hide Origins;
      hide OnlyGrown;
      hide AllClaimable;
      hide Tracked;
      hide Plain;
      WatchedUnlessStolen();
      taken := {};
      ghost var was, before, quiet := services, stolen, Quiet(events);
      ghost var first, failed := kernel.nextThread, kernel.failures;
      NothingSeen(was, first);
      assert events[..0] == [];
      var i := 0;
      while i < |events| && !halted
        invariant 0 <= i <= |events| && Sane() && |services| >= |was|
        invariant kernel.nextThread >= first && kernel.failures >= failed
        invariant stolen <= before + taken && Tracked(was, services, events[..i], taken, first)
        invariant quiet && kernel.failures == failed ==>
                    !halted && stolen == before + taken && Plain(was, services, events[..i], taken)
        invariant forall k :: 0 <= k < |was| && !was[k].active ==> services[k] == was[k]
      {
        ghost var seen, e, now := events[..i], events[i], services;
        assert events[..i + 1] == seen + [e];
        EventTracked(was, now, seen, e, taken, first);
        if quiet && kernel.failures == failed {
          PlainRoom(was, now, seen, taken);
          if !Enrolls(e) {
            EventPlain(was, now, seen, e, taken);
          }
        }
        match events[i] {
        case WaitFailed =>
        case OtherIpc =>
        case Register(nameLen, caps, policy, criticality) =>
          ghost var queue := kernel.nextQueue;
          ghost var calm := quiet && kernel.failures == failed;
          ghost var rebound;
          var reply;
          reply, rebound := HandleRegister(nameLen, caps, policy, criticality);
          if rebound {
            ghost var svc := Registered(caps[0], queue, policy, criticality);
            RegisterTracked(was, now, seen, e, svc, taken, first);
            if calm {
              RegisterPlain(was, now, seen, e, svc, taken, first);
            }
            taken := taken + Owners(now, caps[0]);
          }
        case Death(index, reason) =>
          var handled := DispatchDeath(index + 1, reason);
          if handled {
            DeathTracked(was, now, seen, e, index, services[index], taken, first);
            assert services == now[index := services[index]];
          }
        }
        i := i + 1;
      }
      TrackedEnd(was, services, events, i, taken, first);
      assert events[..|events|] == events;
      PlainEnd(was, services, events, taken);
      WatchedUnlessStolen();
      LivesBounded();
    }
  }
}
