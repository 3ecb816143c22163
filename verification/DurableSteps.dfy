/**
What one event does to one handle, field by field, and what a run without a crash makes of
the handle table and the registry.  Conditions are spelled out on the clock, the counters
and the durations, so each law can be read without the functions that compute the step.
*/
module DurableSteps {
  import opened Types
  import opened WalCodec
  import opened DurableModel
  import DurableSafety

  // ------------------------------------------------------------------- writes

  /** The id was given out, the handle is young enough, and there is room or the oldest entry may go. */
  predicate Accepts(cfg: Config, mem: Mem, c: Content, now: int) {
    && 0 < c.Id.Id <= mem.nextHandle
    && now - c.Id.TimeStamp <= cfg.expiry
    && !(|mem.ring| >= cfg.capacity && mem.rejecting)
  }

  /**
  A Write is refused as invalid exactly for an id of 0, an id not given out or an expired
  handle, as full exactly when it is valid and a full ring rejects; a refused Write changes
  nothing and an accepted one puts its entry last, over the oldest one of a full ring.
  */
  lemma WriteEffect(cfg: Config, s: State, c: Content, now: int)
    requires cfg.capacity > 0
    ensures WriteResult(cfg, s.mem, c, now) == InvalidHandle <==>
              c.Id.Id == 0 || c.Id.Id > s.mem.nextHandle || now - c.Id.TimeStamp > cfg.expiry
    ensures WriteResult(cfg, s.mem, c, now) == Accepted <==> Accepts(cfg, s.mem, c, now)
    ensures !Accepts(cfg, s.mem, c, now) ==> Exec(cfg, s, WriteEvent(c, now)) == s
    ensures Accepts(cfg, s.mem, c, now) ==>
              Exec(cfg, s, WriteEvent(c, now)).mem.ring
                == (if |s.mem.ring| >= cfg.capacity then s.mem.ring[1..] else s.mem.ring) + [c]
  {
  }

  /** The event puts an entry of h into the ring. */
  predicate Enters(cfg: Config, mem: Mem, e: Event, h: Handle) {
    e.WriteEvent? && e.c.Id == h && Accepts(cfg, mem, e.c, e.now)
  }

  predicate MarksHandle(e: Event, h: Handle) {
    e.MarkEvent? && h in e.handles
  }

  // -------------------------------------------------------------- single steps

  /** An accepted entry lists its handle, an Eof completes it, and only a mark that names it removes it. */
  lemma HandlesStep(cfg: Config, s: State, e: Event, h: Handle)
    requires !e.CrashEvent?
    ensures h in Exec(cfg, s, e).mem.handles <==>
              !MarksHandle(e, h) && (h in s.mem.handles || Enters(cfg, s.mem, e, h))
    ensures h in Exec(cfg, s, e).mem.handles && Exec(cfg, s, e).mem.handles[h] <==>
              !MarksHandle(e, h) && ((h in s.mem.handles && s.mem.handles[h]) || (Enters(cfg, s.mem, e, h) && e.c.Eof))
  {
  }

  /** The deletion scan removes the log of h. */
  predicate ScansAway(cfg: Config, s: State, e: Event, h: Handle) {
    && e.DeleteEvent? && h in s.mem.uploaded && h in s.disk.files
    && e.scanAt - s.disk.files[h].mtime > cfg.deletion && h !in e.failed
  }

  /** The prune of a deletion cycle evicts h. */
  predicate PrunesAway(cfg: Config, s: State, e: Event, h: Handle) {
    && e.DeleteEvent? && h in s.mem.uploaded && !ScansAway(cfg, s, e, h)
    && e.pruneAt - s.mem.uploaded[h] > s.mem.uploadedTTL
  }

  predicate Evicts(cfg: Config, s: State, e: Event, h: Handle) {
    ScansAway(cfg, s, e, h) || PrunesAway(cfg, s, e, h)
  }

  /** A mark enters its handles with its time; a deletion cycle evicts those whose log it removes or that are stale. */
  lemma UploadedStep(cfg: Config, s: State, e: Event, h: Handle)
    requires !e.CrashEvent?
    ensures h in Exec(cfg, s, e).mem.uploaded <==>
              MarksHandle(e, h) || (h in s.mem.uploaded && !Evicts(cfg, s, e, h))
    ensures h in Exec(cfg, s, e).mem.uploaded ==>
              Exec(cfg, s, e).mem.uploaded[h] == if MarksHandle(e, h) then e.now else s.mem.uploaded[h]
  {
  }

  /** The event leases h: it is uploaded and has no lease within the processing TTL. */
  predicate Leases(cfg: Config, s: State, e: Event, h: Handle) {
    && e.DispatchEvent? && h in s.mem.uploaded
    && (h !in s.mem.processing || e.now - s.mem.processing[h] > cfg.processingTTL)
  }

  /** The event ends the lease of h: a release, a cleanup after the TTL, or an eviction by the prune. */
  predicate EndsLease(cfg: Config, s: State, e: Event, h: Handle) {
    || e == ReleaseEvent(h)
    || (e.CleanupEvent? && h in s.mem.processing && e.now - s.mem.processing[h] > cfg.processingTTL)
    || PrunesAway(cfg, s, e, h)
  }

  lemma ProcessingStep(cfg: Config, s: State, e: Event, h: Handle)
    requires !e.CrashEvent?
    ensures h in Exec(cfg, s, e).mem.processing <==>
              Leases(cfg, s, e, h) || (h in s.mem.processing && !EndsLease(cfg, s, e, h))
    ensures h in Exec(cfg, s, e).mem.processing ==>
              Exec(cfg, s, e).mem.processing[h] == if Leases(cfg, s, e, h) then e.now else s.mem.processing[h]
  {
  }

  function SavedAt(e: Event): int
    requires e.CleanupEvent? || e.MarkEvent? || e.DeleteEvent?
  {
    match e
    case CleanupEvent(now) => now
    case MarkEvent(_, _, now) => now
    case DeleteEvent(_, _, _, saveAt) => saveAt
  }

  /**
  A cleanup, a mark and a deletion cycle leave on disk the registry's entries within the TTL;
  no other event writes it.
  */
  lemma SavedStep(cfg: Config, s: State, e: Event, h: Handle)
    requires !e.CrashEvent?
    ensures !e.CleanupEvent? && !e.MarkEvent? && !e.DeleteEvent? ==>
              Exec(cfg, s, e).disk.registry == s.disk.registry
    ensures e.CleanupEvent? || e.MarkEvent? || e.DeleteEvent? ==>
              SavedEntry(Exec(cfg, s, e), s.mem.uploadedTTL, SavedAt(e), h)
  {
  }

  predicate SavedEntry(s: State, ttl: int, at: int, h: Handle) {
    && (h in s.disk.registry <==> h in s.mem.uploaded && at - s.mem.uploaded[h] <= ttl)
    && (h in s.disk.registry ==> s.disk.registry[h] == s.mem.uploaded[h])
  }

  /** What a flush writes of h: all of it while h is valid and young enough, nothing after. */
  function Written(cfg: Config, mem: Mem, h: Handle, now: int): seq<Content> {
    if 0 < h.Id <= mem.nextHandle && now - h.TimeStamp <= cfg.expiry then RecordsOf(mem.ring, h) else []
  }

  lemma {:induction false} KeptIsWritten(cfg: Config, mem: Mem, cs: seq<Content>, now: int, h: Handle)
    ensures RecordsOf(Kept(cfg, mem, cs, now), h)
              == if 0 < h.Id <= mem.nextHandle && now - h.TimeStamp <= cfg.expiry then RecordsOf(cs, h) else []
  {
    if cs != [] {
      var front, last := cs[..|cs| - 1], cs[|cs| - 1];
      KeptIsWritten(cfg, mem, front, now, h);
      RecordsSnoc(Kept(cfg, mem, front, now), last, h);
      assert Kept(cfg, mem, front, now) + [] == Kept(cfg, mem, front, now);
    }
  }

  /** A flush empties the ring and appends to the log of h what it writes of h, in one write at its time. */
  lemma FlushStep(cfg: Config, s: State, e: Event, h: Handle)
    requires e.FlushEvent? || e.CleanupEvent?
    ensures Exec(cfg, s, e).mem.ring == []
    ensures Written(cfg, s.mem, h, e.now) == [] ==> SameFile(s.disk.files, Exec(cfg, s, e).disk.files, h)
    ensures Written(cfg, s.mem, h, e.now) != [] ==>
              h in Exec(cfg, s, e).disk.files
              && Exec(cfg, s, e).disk.files[h]
                   == LogFile(Bytes(s.disk.files, h) + EncodeAll(Written(cfg, s.mem, h, e.now)), e.now)
  {
    var kept := Kept(cfg, s.mem, s.mem.ring, e.now);
    KeptIsWritten(cfg, s.mem, s.mem.ring, e.now, h);
    RecordsOfSubset(kept, h);
    assert Exec(cfg, s, e).disk.files == AppendTo(s.disk.files, kept, HandlesOf(kept), e.now);
  }

  predicate SameFile(files: map<Handle, LogFile>, files': map<Handle, LogFile>, h: Handle) {
    (h in files' <==> h in files) && (h in files' ==> files'[h] == files[h])
  }

  /** A log goes only by a removal that works: of a marked handle, or of one the deletion scan picks. */
  lemma FilesStep(cfg: Config, s: State, e: Event, h: Handle)
    requires !e.CrashEvent? && !e.FlushEvent? && !e.CleanupEvent?
    ensures h in Exec(cfg, s, e).disk.files <==>
              h in s.disk.files && !(MarksHandle(e, h) && h in e.removed) && !ScansAway(cfg, s, e, h)
    ensures h in Exec(cfg, s, e).disk.files ==> Exec(cfg, s, e).disk.files[h] == s.disk.files[h]
    ensures !e.WriteEvent? ==> Exec(cfg, s, e).mem.ring == s.mem.ring
  {
  }

  /** The TTL a SetUploadedHandleTTL asks for is taken as it is from the deletion time on. */
  lemma TTLStep(cfg: Config, s: State, ttl: int)
    requires ValidConfig(cfg)
    ensures var t := Exec(cfg, s, TTLEvent(ttl)).mem.uploadedTTL;
            && (ttl > 0 && ttl >= cfg.deletion ==> t == ttl)
            && (0 < ttl < cfg.deletion ==> t == cfg.deletion)
            && (ttl <= 0 ==> t == cfg.defaultTTL)
  {
  }

  /** Each counter and switch is set by one kind of event. */
  lemma CountersStep(cfg: Config, s: State, e: Event)
    requires !e.CrashEvent?
    ensures Exec(cfg, s, e).mem.nextHandle == s.mem.nextHandle + if e.GenerateEvent? then 1 else 0
    ensures Exec(cfg, s, e).mem.rejecting == if e.PolicyEvent? then e.rejecting else s.mem.rejecting
    ensures !e.TTLEvent? ==> Exec(cfg, s, e).mem.uploadedTTL == s.mem.uploadedTTL
  {
  }

  // ------------------------------------------------------ crashes and restarts

  /** The disk a crash leaves: what of its step's file operations was done, handle by handle. */
  lemma CrashDisk(cfg: Config, s: State, point: CrashPoint, h: Handle)
    ensures point.BetweenSteps? ==> DiskAfterCrash(cfg, s, point) == s.disk
    ensures point.InFlush? ==>
              AppendedTo(cfg, s, point.appended, point.now, DiskAfterCrash(cfg, s, point), h)
    ensures point.InMark? ==>
              RemovedFrom(s, point.removed * point.handles, DiskAfterCrash(cfg, s, point), h)
              && MarkedOnDisk(s, point.handles, point.now, DiskAfterCrash(cfg, s, point).registry, h)
    ensures point.InDelete? ==>
              var gone := point.removed * (set g | g in s.disk.files && g in s.mem.uploaded
                                             && point.now - s.disk.files[g].mtime > cfg.deletion);
              RemovedFrom(s, gone, DiskAfterCrash(cfg, s, point), h)
              && DiskAfterCrash(cfg, s, point).registry == s.disk.registry
  {
    if point.InFlush? {
      KeptIsWritten(cfg, s.mem, s.mem.ring, point.now, h);
      RecordsOfSubset(Kept(cfg, s.mem, s.mem.ring, point.now), h);
    }
  }

  ghost predicate AppendedTo(cfg: Config, s: State, appended: set<Handle>, now: int, disk: Disk, h: Handle) {
    && disk.registry == s.disk.registry
    && if h in appended && Written(cfg, s.mem, h, now) != []
       then h in disk.files && disk.files[h]
              == LogFile(Bytes(s.disk.files, h) + EncodeAll(Written(cfg, s.mem, h, now)), now)
       else SameFile(s.disk.files, disk.files, h)
  }

  predicate RemovedFrom(s: State, gone: set<Handle>, disk: Disk, h: Handle) {
    && (h in disk.files <==> h in s.disk.files && h !in gone)
    && (h in disk.files ==> disk.files[h] == s.disk.files[h])
  }

  predicate MarkedOnDisk(s: State, hs: set<Handle>, now: int, registry: map<Handle, int>, h: Handle) {
    var known := h in hs || h in s.mem.uploaded;
    && (h in registry <==> known && now - (if h in hs then now else s.mem.uploaded[h]) <= s.mem.uploadedTTL)
    && (h in registry ==> registry[h] == if h in hs then now else s.mem.uploaded[h])
  }

  /** A new process knows the saved entries within the default TTL, leases nothing and drops the oldest. */
  lemma RestartStart(cfg: Config, disk: Disk, order: seq<Handle>, now: int, h: Handle)
    ensures var s := Restart(cfg, disk, order, now);
            && s.disk == disk && s.mem.processing == map[] && !s.mem.rejecting && s.mem.uploadedTTL == cfg.defaultTTL
            && (h in s.mem.uploaded <==> h in disk.registry && now - disk.registry[h] <= cfg.defaultTTL)
            && (h in s.mem.uploaded ==> s.mem.uploaded[h] == disk.registry[h])
  {
    DurableSafety.RecoverKeepsRegistry(
      cfg, EmptyMem(cfg, Fresh(disk.registry, cfg.defaultTTL, now)), ReplayList(disk.files, order));
  }

  // ------------------------------------------------------------ whole processes

  predicate NoCrash(events: seq<Event>) {
    forall k :: 0 <= k < |events| ==> !events[k].CrashEvent?
  }

  /** A mark from event k on names h. */
  predicate MarkedFrom(events: seq<Event>, k: nat, h: Handle) {
    exists j :: k <= j < |events| && MarksHandle(events[j], h)
  }

  /** Event k puts an entry of h into the ring. */
  predicate EntersAt(cfg: Config, s: State, events: seq<Event>, k: nat, h: Handle)
    requires k < |events|
  {
    Enters(cfg, Run(cfg, s, events[..k]).mem, events[k], h)
  }

  /** Some accepted entry of h, an Eof if `eof`, has no later mark of h. */
  predicate EnteredUnmarked(cfg: Config, s: State, events: seq<Event>, h: Handle, eof: bool) {
    exists k :: 0 <= k < |events| && EntersAt(cfg, s, events, k, h) && (eof ==> events[k].c.Eof)
                && !MarkedFrom(events, k + 1, h)
  }

  lemma MarkedSnoc(events: seq<Event>, e: Event, k: nat, h: Handle)
    requires k <= |events|
    ensures MarkedFrom(events + [e], k, h) <==> MarkedFrom(events, k, h) || MarksHandle(e, h)
  {
    var all := events + [e];
    if MarkedFrom(events, k, h) {
      var j :| k <= j < |events| && MarksHandle(events[j], h);
      assert all[j] == events[j];
    }
    if MarksHandle(e, h) { assert MarksHandle(all[|events|], h); }
  }

  lemma EntersSnoc(cfg: Config, s: State, events: seq<Event>, e: Event, k: nat, h: Handle)
    requires k <= |events|
    ensures k < |events| ==> (EntersAt(cfg, s, events + [e], k, h) <==> EntersAt(cfg, s, events, k, h))
    ensures EntersAt(cfg, s, events + [e], |events|, h) <==> Enters(cfg, Run(cfg, s, events).mem, e, h)
  {
    var all := events + [e];
    assert all[..k] == events[..k];
    assert all[..|events|] == events;
  }

  lemma EnteredSnoc(cfg: Config, s: State, events: seq<Event>, e: Event, h: Handle, eof: bool)
    ensures EnteredUnmarked(cfg, s, events + [e], h, eof) <==>
              !MarksHandle(e, h)
              && (EnteredUnmarked(cfg, s, events, h, eof)
                  || (Enters(cfg, Run(cfg, s, events).mem, e, h) && (eof ==> e.c.Eof)))
  {
    var all, n := events + [e], |events|;
    EntersSnoc(cfg, s, events, e, n, h);
    if EnteredUnmarked(cfg, s, all, h, eof) {
      var k :| 0 <= k < |all| && EntersAt(cfg, s, all, k, h) && (eof ==> all[k].c.Eof) && !MarkedFrom(all, k + 1, h);
      if k < n {
        EntersSnoc(cfg, s, events, e, k, h);
        MarkedSnoc(events, e, k + 1, h);
        assert events[k] == all[k];
      }
    }
    if EnteredUnmarked(cfg, s, events, h, eof) && !MarksHandle(e, h) {
      var k :| 0 <= k < n && EntersAt(cfg, s, events, k, h) && (eof ==> events[k].c.Eof)
               && !MarkedFrom(events, k + 1, h);
      EntersSnoc(cfg, s, events, e, k, h);
      MarkedSnoc(events, e, k + 1, h);
      assert all[k] == events[k];
    }
    if Enters(cfg, Run(cfg, s, events).mem, e, h) && (eof ==> e.c.Eof) {
      assert all[n] == e && !MarkedFrom(all, n + 1, h);
    }
  }

  /**
  Over any run of one process, a handle is listed exactly when it was at the start or an
  entry of it was accepted, and no mark has named it since; it is listed as complete exactly
  when it was at the start or an Eof of it was accepted, and no mark has named it since.
  */
  lemma {:induction false} HandlesHistory(cfg: Config, s: State, events: seq<Event>, h: Handle)
    requires NoCrash(events)
    ensures h in Run(cfg, s, events).mem.handles <==>
              (h in s.mem.handles && !MarkedFrom(events, 0, h)) || EnteredUnmarked(cfg, s, events, h, false)
    ensures h in Run(cfg, s, events).mem.handles && Run(cfg, s, events).mem.handles[h] <==>
              (h in s.mem.handles && s.mem.handles[h] && !MarkedFrom(events, 0, h))
              || EnteredUnmarked(cfg, s, events, h, true)
    decreases |events|
  {
    if events != [] {
      var front, e := events[..|events| - 1], events[|events| - 1];
      assert events == front + [e];
      HandlesHistory(cfg, s, front, h);
      RunSnoc(cfg, s, front, e);
      HandlesStep(cfg, Run(cfg, s, front), e, h);
      MarkedSnoc(front, e, 0, h);
      EnteredSnoc(cfg, s, front, e, h, false);
      EnteredSnoc(cfg, s, front, e, h, true);
    }
  }

  // ------------------------------------------------------------------- expiry

  /** h has expired by the clock. */
  predicate Old(cfg: Config, h: Handle, clock: int) {
    clock - h.TimeStamp > cfg.expiry
  }

  lemma OldStep(cfg: Config, s: State, e: Event, clock: int, h: Handle)
    requires !e.CrashEvent? && InTime(e, clock) && Old(cfg, h, clock)
    ensures !Enters(cfg, s.mem, e, h) && Old(cfg, h, ClockAfter(e, clock))
    ensures e.FlushEvent? || e.CleanupEvent? ==> Written(cfg, s.mem, h, e.now) == []
  {
  }

  /** The ring holds no more entries of h than before, and its log and its completion are untouched. */
  ghost predicate NothingNew(s: State, s': State, h: Handle) {
    && (forall c :: c in s'.mem.ring && c.Id == h ==> c in s.mem.ring)
    && (h in s'.mem.handles ==> h in s.mem.handles && s'.mem.handles[h] == s.mem.handles[h])
    && (h in s'.disk.files ==> h in s.disk.files && s'.disk.files[h] == s.disk.files[h])
  }

  lemma OldIsLeftAlone(cfg: Config, s: State, e: Event, clock: int, h: Handle)
    requires cfg.capacity > 0 && !e.CrashEvent? && InTime(e, clock) && Old(cfg, h, clock)
    ensures NothingNew(s, Exec(cfg, s, e), h)
  {
    OldStep(cfg, s, e, clock, h);
    HandlesStep(cfg, s, e, h);
    if e.FlushEvent? || e.CleanupEvent? {
      FlushStep(cfg, s, e, h);
    } else {
      FilesStep(cfg, s, e, h);
      if e.WriteEvent? { WriteEffect(cfg, s, e.c, e.now); }
    }
  }

  /**
  Once h has expired, no event of the process accepts an entry of it, completes it, or writes
  to its log: data of an expired handle is never acknowledged.
  */
  lemma {:induction false} ExpiredStaysOut(
      cfg: Config, s: State, events: seq<Event>, clock: int, h: Handle)
    requires cfg.capacity > 0 && NoCrash(events) && Monotone(events, clock) && Old(cfg, h, clock)
    ensures NothingNew(s, Run(cfg, s, events), h)
    ensures forall k :: 0 <= k < |events| ==> !EntersAt(cfg, s, events, k, h)
    decreases |events|
  {
    if events != [] {
      var e, rest := events[0], events[1..];
      OldIsLeftAlone(cfg, s, e, clock, h);
      OldStep(cfg, s, e, clock, h);
      ExpiredStaysOut(cfg, Exec(cfg, s, e), rest, ClockAfter(e, clock), h);
      forall k | 0 <= k < |events| ensures !EntersAt(cfg, s, events, k, h) {
        EntersLater(cfg, s, events, k, h);
      }
    }
  }

  lemma EntersLater(cfg: Config, s: State, events: seq<Event>, k: nat, h: Handle)
    requires k < |events|
    ensures k == 0 ==> (EntersAt(cfg, s, events, k, h) <==> Enters(cfg, s.mem, events[0], h))
    ensures k > 0 ==>
              (EntersAt(cfg, s, events, k, h) <==> EntersAt(cfg, Exec(cfg, s, events[0]), events[1..], k - 1, h))
  {
    if k > 0 { assert events[..k][1..] == events[1..][..k - 1]; }
  }
}
