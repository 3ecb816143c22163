/** The dispatch lease: how soon the same handle can be handed out for processing again. */
module DispatchLease {
  import opened Types
  import opened DurableModel
  import opened DurableSafety

  /** The events that end a lease early: a release, an eviction from the registry, a new process. */
  ghost predicate EndsLease(cfg: Config, s: State, e: Event, h: Handle) {
    match e
    case ReleaseEvent(r) => r == h
    case DeleteEvent(_, _, pruneAt, _) => h in s.mem.uploaded && pruneAt - s.mem.uploaded[h] > s.mem.uploadedTTL
    case CrashEvent(_, _, _) => true
    case _ => false
  }

  ghost predicate NothingEndsLease(cfg: Config, s: State, events: seq<Event>, h: Handle)
    decreases |events|
  {
    events != [] ==>
      !EndsLease(cfg, s, events[0], h) && NothingEndsLease(cfg, Exec(cfg, s, events[0]), events[1..], h)
  }

  function ClockAfterAll(events: seq<Event>, clock: int): int
    decreases |events|
  {
    if events == [] then clock else ClockAfterAll(events[1..], ClockAfter(events[0], clock))
  }

  /** h is leased since `since`, or its lease has run out. */
  ghost predicate Leased(cfg: Config, s: State, h: Handle, since: int, clock: int) {
    || (h in s.mem.processing && s.mem.processing[h] == since)
    || clock - since > cfg.processingTTL
  }

  lemma LeaseStep(cfg: Config, s: State, e: Event, h: Handle, since: int, clock: int)
    requires Leased(cfg, s, h, since, clock) && InTime(e, clock) && !EndsLease(cfg, s, e, h)
    ensures Leased(cfg, Exec(cfg, s, e), h, since, ClockAfter(e, clock))
  {
  }

  lemma {:induction false} LeaseHolds(cfg: Config, s: State, events: seq<Event>, h: Handle, since: int, clock: int)
    requires Leased(cfg, s, h, since, clock) && Monotone(events, clock) && NothingEndsLease(cfg, s, events, h)
    ensures Leased(cfg, Run(cfg, s, events), h, since, ClockAfterAll(events, clock))
    decreases |events|
  {
    if events != [] {
      LeaseStep(cfg, s, events[0], h, since, clock);
      LeaseHolds(cfg, Exec(cfg, s, events[0]), events[1..], h, since, ClockAfter(events[0], clock));
    }
  }

  /**
  Between two returns of one handle, with a clock that does not go back, either more than
  the processing TTL passed or the handle was released, evicted, or the process restarted.
  */
  lemma NoEarlyRedispatch(cfg: Config, s: State, first: int, between: seq<Event>, second: int, h: Handle)
    requires h in Dispatchable(cfg, s.mem, first)
    requires Monotone(between, first) && ClockAfterAll(between, first) <= second
    requires h in Dispatchable(cfg, Run(cfg, Exec(cfg, s, DispatchEvent(first)), between).mem, second)
    ensures second - first > cfg.processingTTL || !NothingEndsLease(cfg, Exec(cfg, s, DispatchEvent(first)), between, h)
  {
    var s1 := Exec(cfg, s, DispatchEvent(first));
    if NothingEndsLease(cfg, s1, between, h) {
      LeaseHolds(cfg, s1, between, h, first, first);
    }
  }

  /** With no dispatch in between, h keeps the lease it has, if any. */
  ghost predicate NoOtherLease(s: State, h: Handle, since: int) {
    h in s.mem.processing ==> s.mem.processing[h] == since
  }

  predicate NoDispatch(events: seq<Event>) {
    forall k :: 0 <= k < |events| ==> !events[k].DispatchEvent?
  }

  lemma StepNoOtherLease(cfg: Config, s: State, e: Event, h: Handle, since: int)
    requires NoOtherLease(s, h, since) && !e.DispatchEvent?
    ensures NoOtherLease(Exec(cfg, s, e), h, since)
    ensures h !in s.mem.processing ==> h !in Exec(cfg, s, e).mem.processing
  {
    if e.CrashEvent? {
      var disk := DiskAfterCrash(cfg, s, e.point);
      RecoverKeepsRegistry(cfg, EmptyMem(cfg, Fresh(disk.registry, cfg.defaultTTL, e.restart)),
          ReplayList(disk.files, e.order));
    }
  }

  lemma {:induction false} RunNoOtherLease(cfg: Config, s: State, events: seq<Event>, h: Handle, since: int)
    requires NoOtherLease(s, h, since) && NoDispatch(events)
    ensures NoOtherLease(Run(cfg, s, events), h, since)
    ensures h !in s.mem.processing ==> h !in Run(cfg, s, events).mem.processing
    decreases |events|
  {
    if events != [] {
      assert !events[0].DispatchEvent?;
      assert forall k :: 0 <= k < |events[1..]| ==> events[1..][k] == events[k + 1];
      StepNoOtherLease(cfg, s, events[0], h, since);
      RunNoOtherLease(cfg, Exec(cfg, s, events[0]), events[1..], h, since);
    }
  }

  /**
  Of a call and the next one, with nothing to end the lease in between: the second returns a
  handle the first returned exactly when it is still uploaded and the processing TTL is past.
  */
  lemma RedispatchIff(cfg: Config, s: State, first: int, between: seq<Event>, second: int, h: Handle)
    requires h in Dispatchable(cfg, s.mem, first)
    requires Monotone(between, first) && ClockAfterAll(between, first) <= second && NoDispatch(between)
    requires NothingEndsLease(cfg, Exec(cfg, s, DispatchEvent(first)), between, h)
    ensures var s' := Run(cfg, Exec(cfg, s, DispatchEvent(first)), between);
            h in Dispatchable(cfg, s'.mem, second) <==> h in s'.mem.uploaded && second - first > cfg.processingTTL
  {
    var s1 := Exec(cfg, s, DispatchEvent(first));
    LeaseHolds(cfg, s1, between, h, first, first);
    RunNoOtherLease(cfg, s1, between, h, first);
  }

  /**
  A completed job's release leaves its handle to the next call, whatever happens until then,
  for as long as the handle is in the registry.
  */
  lemma ReleasedUntilDispatched(cfg: Config, s: State, between: seq<Event>, now: int, h: Handle)
    requires NoDispatch(between)
    ensures var s' := Run(cfg, Exec(cfg, s, ReleaseEvent(h)), between);
            h in Dispatchable(cfg, s'.mem, now) <==> h in s'.mem.uploaded
  {
    RunNoOtherLease(cfg, Exec(cfg, s, ReleaseEvent(h)), between, h, 0);
  }
}
