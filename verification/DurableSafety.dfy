/**
What the durable buffer promises across crashes: no log file is lost before its handle was
persisted as uploaded, recovery rebuilds the handles from disk, and the registry outlives
the logs.
*/
module DurableSafety {
  import opened Wrappers
  import opened Types
  import opened WalCodec
  import opened DurableModel

  // --------------------------------------------- files leave only after marks

  /** Every handle the uploaded-handles file held at any point of a run. */
  function EverPersisted(cfg: Config, s: State, events: seq<Event>): set<Handle>
    decreases |events|
  {
    s.disk.registry.Keys + if events == [] then {} else EverPersisted(cfg, Exec(cfg, s, events[0]), events[1..])
  }

  lemma PersistedNow(cfg: Config, s: State, events: seq<Event>)
    ensures s.disk.registry.Keys <= EverPersisted(cfg, s, events)
  {
  }

  ghost predicate Untouchable(s: State, h: Handle) {
    s.mem.uploadedTTL >= 0 && h !in s.mem.uploaded && h !in s.disk.registry
  }

  /** h's log is still there, with all its records and perhaps more. */
  ghost predicate KeepsFile(s: State, s': State, h: Handle)
    requires h in s.disk.files
  {
    Untouchable(s', h) && h in s'.disk.files && Parse(s.disk.files[h].bytes) <= Parse(s'.disk.files[h].bytes)
  }

  /** A step that does not persist h keeps its log, and only appends whole records to it. */
  lemma StepKeepsFile(cfg: Config, s: State, e: Event, h: Handle)
    requires ValidConfig(cfg) && GoodState(cfg, s) && GoodEvent(cfg, s, e)
    requires Untouchable(s, h) && h in s.disk.files && h !in Exec(cfg, s, e).disk.registry
    ensures KeepsFile(s, Exec(cfg, s, e), h)
  {
    if e.FlushEvent? || e.CleanupEvent? {
      FlushStepKeepsFile(cfg, s, e.now, Exec(cfg, s, e), h);
    } else if e.CrashEvent? {
      RestartKeepsDisk(cfg, DiskAfterCrash(cfg, s, e.point), e.order, e.restart);
      CrashStepKeepsFile(cfg, s, e.point, Exec(cfg, s, e), h);
    } else {
      OtherStepKeepsFile(cfg, s, e, h);
    }
  }

  lemma OtherStepKeepsFile(cfg: Config, s: State, e: Event, h: Handle)
    requires Untouchable(s, h) && h in s.disk.files && h !in Exec(cfg, s, e).disk.registry
    requires !e.FlushEvent? && !e.CleanupEvent? && !e.CrashEvent?
    ensures KeepsFile(s, Exec(cfg, s, e), h)
  {
    match e
    case MarkEvent(hs, removed, now) => MarkKeepsFile(s, hs, removed, now, h);
    case DeleteEvent(failed, scanAt, pruneAt, saveAt) => DeleteStep(cfg, s, failed, scanAt, pruneAt, saveAt, h);
    case _ =>
  }

  // s' is the state after a flush, or after what follows it in a cleanup.
  lemma FlushStepKeepsFile(cfg: Config, s: State, now: int, s': State, h: Handle)
    requires GoodState(cfg, s) && Untouchable(s, h) && h in s.disk.files && h !in s'.disk.registry
    requires s'.disk.files == Flush(cfg, s, now).disk.files
    requires s'.mem.uploaded == s.mem.uploaded && s'.mem.uploadedTTL == s.mem.uploadedTTL
    ensures KeepsFile(s, s', h)
  {
    FlushKeepsFile(cfg, s, h, HandlesOf(Kept(cfg, s.mem, s.mem.ring, now)), now);
  }

  lemma CrashStepKeepsFile(cfg: Config, s: State, point: CrashPoint, s': State, h: Handle)
    requires GoodState(cfg, s) && Untouchable(s, h) && h in s.disk.files
    requires s'.disk == DiskAfterCrash(cfg, s, point) && h !in s'.disk.registry
    requires s'.mem.uploadedTTL >= 0 && s'.mem.uploaded.Keys <= s'.disk.registry.Keys
    ensures KeepsFile(s, s', h)
  {
    CrashKeepsFile(cfg, s, point, h);
  }

  lemma MarkKeepsFile(s: State, hs: set<Handle>, removed: set<Handle>, now: int, h: Handle)
    requires Untouchable(s, h) && h in s.disk.files && h !in Mark(s, hs, removed, now).disk.registry
    ensures h !in hs && h in Mark(s, hs, removed, now).disk.files
    ensures Mark(s, hs, removed, now).disk.files[h] == s.disk.files[h]
  {
  }

  lemma CrashKeepsFile(cfg: Config, s: State, point: CrashPoint, h: Handle)
    requires GoodState(cfg, s) && Untouchable(s, h) && h in s.disk.files
    requires h !in DiskAfterCrash(cfg, s, point).registry
    ensures var disk := DiskAfterCrash(cfg, s, point);
            h in disk.files && Parse(s.disk.files[h].bytes) <= Parse(disk.files[h].bytes)
  {
    match point
    case InFlush(now, appended) => FlushKeepsFile(cfg, s, h, appended, now);
    case InMark(hs, removed, now) => MarkKeepsFile(s, hs, removed, now, h);
    case _ =>
  }

  lemma RestartKeepsDisk(cfg: Config, disk: Disk, order: seq<Handle>, now: int)
    ensures var s' := Restart(cfg, disk, order, now);
            && s'.disk == disk
            && s'.mem.uploaded == Fresh(disk.registry, cfg.defaultTTL, now)
            && s'.mem.uploadedTTL == cfg.defaultTTL
  {
    RecoverKeepsRegistry(cfg, EmptyMem(cfg, Fresh(disk.registry, cfg.defaultTTL, now)), ReplayList(disk.files, order));
  }

  lemma FlushKeepsFile(cfg: Config, s: State, h: Handle, only: set<Handle>, now: int)
    requires GoodState(cfg, s) && h in s.disk.files
    ensures var after := AppendTo(s.disk.files, Kept(cfg, s.mem, s.mem.ring, now), only, now);
            h in after && Parse(s.disk.files[h].bytes) <= Parse(after[h].bytes)
  {
    KeptFits(cfg, s.mem, s.mem.ring, now);
    AppendOne(s.disk.files, Kept(cfg, s.mem, s.mem.ring, now), only, now, h);
  }

  lemma {:induction false} RecoverKeepsRegistry(cfg: Config, mem: Mem, cs: seq<Content>)
    ensures Recover(cfg, mem, cs).uploaded == mem.uploaded
    ensures Recover(cfg, mem, cs).uploadedTTL == mem.uploadedTTL
    ensures Recover(cfg, mem, cs).processing == mem.processing
    ensures Recover(cfg, mem, cs).rejecting == mem.rejecting
    decreases |cs|
  {
    if cs != [] { RecoverKeepsRegistry(cfg, RecoverOne(cfg, mem, cs[0]), cs[1..]); }
  }

  /**
  Over any run, with crashes before or after any append or removal: a log file stays on disk,
  with all its records, as long as its handle has never been persisted as uploaded.
  */
  lemma {:induction false} NothingLostBeforePersisted(cfg: Config, s: State, events: seq<Event>, h: Handle)
    requires ValidConfig(cfg) && GoodState(cfg, s) && GoodRun(cfg, s, events)
    requires s.mem.uploadedTTL >= 0 && h !in s.mem.uploaded && h in s.disk.files
    requires h !in EverPersisted(cfg, s, events)
    ensures var s' := Run(cfg, s, events);
            h in s'.disk.files && Parse(s.disk.files[h].bytes) <= Parse(s'.disk.files[h].bytes)
    decreases |events|
  {
    PersistedNow(cfg, s, events);
    if events != [] {
      var s' := Exec(cfg, s, events[0]);
      PersistedNow(cfg, s', events[1..]);
      StepKeepsFile(cfg, s, events[0], h);
      ExecKeepsGood(cfg, s, events[0]);
      NothingLostBeforePersisted(cfg, s', events[1..], h);
    }
  }

  // ---------------------------------------------------------------- recovery

  ghost predicate HasRecord(cs: seq<Content>, h: Handle) {
    exists i :: 0 <= i < |cs| && cs[i].Id == h
  }

  ghost predicate HasEof(cs: seq<Content>, h: Handle) {
    exists i :: 0 <= i < |cs| && cs[i].Id == h && cs[i].Eof
  }

  lemma HasRecordCons(c: Content, cs: seq<Content>, h: Handle)
    ensures HasRecord([c] + cs, h) <==> c.Id == h || HasRecord(cs, h)
    ensures HasEof([c] + cs, h) <==> (c.Id == h && c.Eof) || HasEof(cs, h)
  {
    var all := [c] + cs;
    if c.Id == h { assert all[0].Id == h; }
    if HasRecord(cs, h) {
      var i :| 0 <= i < |cs| && cs[i].Id == h;
      assert all[i + 1].Id == h;
    }
    if HasEof(cs, h) {
      var i :| 0 <= i < |cs| && cs[i].Id == h && cs[i].Eof;
      assert all[i + 1].Id == h;
    }
    if HasRecord(all, h) && c.Id != h {
      var i :| 0 <= i < |all| && all[i].Id == h;
      assert cs[i - 1].Id == h;
    }
    if HasEof(all, h) && !(c.Id == h && c.Eof) {
      var i :| 0 <= i < |all| && all[i].Id == h && all[i].Eof;
      assert cs[i - 1].Id == h;
    }
  }

  lemma {:induction false} RecoverHandles(cfg: Config, mem: Mem, cs: seq<Content>, h: Handle)
    ensures var m := Recover(cfg, mem, cs);
            && m.nextHandle >= mem.nextHandle
            && (HasRecord(cs, h) && h !in mem.uploaded ==> m.nextHandle > h.Id)
            && (h in m.handles <==> h in mem.handles || (HasRecord(cs, h) && h !in mem.uploaded))
            && (h in m.handles ==>
                  (m.handles[h] <==> (h in mem.handles && mem.handles[h]) || (HasEof(cs, h) && h !in mem.uploaded)))
    decreases |cs|
  {
    if cs != [] {
      assert cs == [cs[0]] + cs[1..];
      HasRecordCons(cs[0], cs[1..], h);
      RecoverHandles(cfg, RecoverOne(cfg, mem, cs[0]), cs[1..], h);
    }
  }

  lemma HasRecordAppend(a: seq<Content>, b: seq<Content>, h: Handle)
    ensures HasRecord(a + b, h) <==> HasRecord(a, h) || HasRecord(b, h)
    ensures HasEof(a + b, h) <==> HasEof(a, h) || HasEof(b, h)
    decreases |a|
  {
    if a == [] {
      assert a + b == b;
    } else {
      assert a + b == [a[0]] + (a[1..] + b) && a == [a[0]] + a[1..];
      HasRecordAppend(a[1..], b, h);
      HasRecordCons(a[0], a[1..] + b, h);
      HasRecordCons(a[0], a[1..], h);
    }
  }

  /** Whatever else is in the file, its whole records are of its own handle. */
  ghost predicate OwnRecords(h: Handle, bytes: seq<Byte>) {
    forall c :: c in Parse(bytes) ==> c.Id == h
  }

  lemma FileRecords(h: Handle, owner: Handle, bytes: seq<Byte>)
    requires OwnRecords(owner, bytes)
    ensures HasRecord(Parse(bytes), h) <==> h == owner && Parse(bytes) != []
    ensures HasEof(Parse(bytes), h) ==> h == owner
  {
    var rs := Parse(bytes);
    if HasRecord(rs, h) {
      var i :| 0 <= i < |rs| && rs[i].Id == h;
      assert rs[i] in rs;
    }
    if HasEof(rs, h) {
      var i :| 0 <= i < |rs| && rs[i].Id == h && rs[i].Eof;
      assert rs[i] in rs;
    }
    if rs != [] && h == owner {
      assert rs[0] in rs;
    }
  }

  predicate Holds(files: map<Handle, LogFile>, h: Handle) {
    h in files && Parse(files[h].bytes) != []
  }

  lemma NoFileNoRecords(files: map<Handle, LogFile>, owner: Handle, h: Handle)
    requires owner !in files
    ensures !HasRecord(Parse(Bytes(files, owner)), h) && !HasEof(Parse(Bytes(files, owner)), h)
  {
  }

  lemma InTail(order: seq<Handle>, h: Handle)
    requires order != []
    ensures h in order <==> h == order[0] || h in order[1..]
  {
    assert order == [order[0]] + order[1..];
  }

  lemma {:induction false} ReplayListRecords(files: map<Handle, LogFile>, order: seq<Handle>, h: Handle)
    requires forall k :: k in files ==> OwnRecords(k, files[k].bytes)
    ensures HasRecord(ReplayList(files, order), h) <==> h in order && Holds(files, h)
    ensures HasEof(ReplayList(files, order), h) <==> h in order && h in files && HasEof(Parse(files[h].bytes), h)
    decreases |order|
  {
    if order != [] {
      var owner := order[0];
      HasRecordAppend(Parse(Bytes(files, owner)), ReplayList(files, order[1..]), h);
      ReplayListRecords(files, order[1..], h);
      InTail(order, h);
      if owner in files {
        FileRecords(h, owner, files[owner].bytes);
      } else {
        NoFileNoRecords(files, owner, h);
      }
    }
  }

  lemma EachIsRead(order: seq<Handle>, files: map<Handle, LogFile>, h: Handle)
    requires ReadsEachOnce(order, files)
    ensures h in order <==> h in files
  {
    assert h in order <==> h in multiset(order);
    assert multiset(order)[h] == if h in files then 1 else 0;
  }

  /**
  A restart rebuilds `handles` from the disk alone: the not-uploaded handles with a whole
  record in their file, complete exactly when an Eof record is on disk; and the next id lies
  above every one of them.  A file may end in a torn record.
  */
  lemma RestartRebuildsHandles(cfg: Config, disk: Disk, order: seq<Handle>, now: int, h: Handle)
    requires forall k :: k in disk.files ==> OwnRecords(k, disk.files[k].bytes)
    requires ReadsEachOnce(order, disk.files)
    ensures var m := Restart(cfg, disk, order, now).mem;
            && m.uploaded == Fresh(disk.registry, cfg.defaultTTL, now)
            && (h in m.handles <==> Holds(disk.files, h) && h !in m.uploaded)
            && (h in m.handles ==> (m.handles[h] <==> HasEof(Parse(disk.files[h].bytes), h)))
            && (h in m.handles ==> m.nextHandle > h.Id)
  {
    var mem := EmptyMem(cfg, Fresh(disk.registry, cfg.defaultTTL, now));
    var cs := ReplayList(disk.files, order);
    RecoverKeepsRegistry(cfg, mem, cs);
    RecoverHandles(cfg, mem, cs, h);
    ReplayListRecords(disk.files, order, h);
    EachIsRead(order, disk.files, h);
  }

  /** A log of h cut at any byte, as a crash inside an append leaves it, still has only records of h. */
  lemma TornFileOwnRecords(h: Handle, rs: seq<Content>, k: nat)
    requires AllFit(rs) && k <= |EncodeAll(rs)| && forall c :: c in rs ==> c.Id == h
    ensures OwnRecords(h, EncodeAll(rs)[..k])
    ensures Parse(EncodeAll(rs)[..k]) == rs[..WholeRecords(rs, k)]
  {
    CutFile(rs, k);
  }

  /** The same at any crash of any run. */
  lemma EveryCrashRecovers(
      cfg: Config, s: State, events: seq<Event>, point: CrashPoint, order: seq<Handle>, restart: int, h: Handle)
    requires ValidConfig(cfg) && GoodState(cfg, s) && GoodRun(cfg, s, events)
    requires GoodEvent(cfg, Run(cfg, s, events), CrashEvent(point, order, restart))
    ensures var dead := Run(cfg, s, events);
            var files := DiskAfterCrash(cfg, dead, point).files;
            var m := Exec(cfg, dead, CrashEvent(point, order, restart)).mem;
            && (h in m.handles <==> h in files && h !in m.uploaded)
            && (h in m.handles ==> (m.handles[h] <==> HasEof(Parse(files[h].bytes), h)) && m.nextHandle > h.Id)
  {
    RunKeepsGood(cfg, s, events);
    var dead := Run(cfg, s, events);
    CrashKeepsFiles(cfg, dead, point);
    RestartRebuildsHandles(cfg, DiskAfterCrash(cfg, dead, point), order, restart, h);
  }

  /** What a crash inside the appends leaves: each log cut somewhere, but not before what was there already. */
  ghost predicate TornBy(before: map<Handle, LogFile>, written: map<Handle, LogFile>, torn: map<Handle, LogFile>) {
    && torn.Keys == written.Keys
    && (forall h :: h in torn ==> torn[h].bytes <= written[h].bytes)
    && (forall h :: h in torn && h in before ==> before[h].bytes <= torn[h].bytes)
  }

  /**
  The same when the crash falls inside the appends of a flush and any of them is torn: the
  handles are rebuilt from the whole records, and no record that was on disk before is lost.
  */
  lemma EveryTornCrashRecovers(
      cfg: Config, s: State, events: seq<Event>, now: int, appended: set<Handle>, torn: map<Handle, LogFile>,
      order: seq<Handle>, restart: int, h: Handle)
    requires ValidConfig(cfg) && GoodState(cfg, s) && GoodRun(cfg, s, events) && ReadsEachOnce(order, torn)
    requires var dead := Run(cfg, s, events);
             TornBy(dead.disk.files, DiskAfterCrash(cfg, dead, InFlush(now, appended)).files, torn)
    ensures var dead := Run(cfg, s, events);
            var m := Restart(cfg, Disk(torn, dead.disk.registry), order, restart).mem;
            && (h in m.handles <==> Holds(torn, h) && h !in m.uploaded)
            && (h in m.handles ==> (m.handles[h] <==> HasEof(Parse(torn[h].bytes), h)) && m.nextHandle > h.Id)
            && (h in dead.disk.files && h in torn ==> Parse(dead.disk.files[h].bytes) <= Parse(torn[h].bytes))
  {
    RunKeepsGood(cfg, s, events);
    var dead := Run(cfg, s, events);
    var written := DiskAfterCrash(cfg, dead, InFlush(now, appended)).files;
    CrashKeepsFiles(cfg, dead, InFlush(now, appended));
    forall k | k in torn ensures OwnRecords(k, torn[k].bytes) {
      TornOwnRecords(k, written[k].bytes, torn[k].bytes);
    }
    RestartRebuildsHandles(cfg, Disk(torn, dead.disk.registry), order, restart, h);
    if h in dead.disk.files && h in torn {
      LongerParsesMore(h, dead.disk.files[h].bytes, torn[h].bytes);
    }
  }

  lemma TornOwnRecords(h: Handle, bytes: seq<Byte>, cut: seq<Byte>)
    requires WellFormed(h, bytes) && cut <= bytes
    ensures OwnRecords(h, cut)
  {
    TornFileOwnRecords(h, Parse(bytes), |cut|);
    assert bytes[..|cut|] == cut;
  }

  lemma LongerParsesMore(h: Handle, bytes: seq<Byte>, longer: seq<Byte>)
    requires WellFormed(h, bytes) && bytes <= longer
    ensures Parse(bytes) <= Parse(longer)
  {
    var more := longer[|bytes|..];
    assert longer == EncodeAll(Parse(bytes)) + more;
    ParseAppend(Parse(bytes), more);
  }

  lemma {:induction false} RunKeepsGood(cfg: Config, s: State, events: seq<Event>)
    requires ValidConfig(cfg) && GoodState(cfg, s) && GoodRun(cfg, s, events)
    ensures GoodState(cfg, Run(cfg, s, events))
    decreases |events|
  {
    if events != [] {
      ExecKeepsGood(cfg, s, events[0]);
      RunKeepsGood(cfg, Exec(cfg, s, events[0]), events[1..]);
    }
  }

  // --------------------------------------------------- the registry outlives logs

  /** The time of h's last upload mark; None before the first, and once the scan removed its log. */
  function MarkAfter(cfg: Config, s: State, e: Event, mark: Option<int>, h: Handle): Option<int> {
    match e
    case MarkEvent(hs, _, now) => if h in hs then Some(now) else mark
    case DeleteEvent(failed, scanAt, _, _) => if h in Deletable(cfg, s, scanAt) - failed then None else mark
    case _ => mark
  }

  function LastMark(cfg: Config, s: State, events: seq<Event>, mark: Option<int>, h: Handle): Option<int>
    decreases |events|
  {
    if events == [] then mark
    else LastMark(cfg, Exec(cfg, s, events[0]), events[1..], MarkAfter(cfg, s, events[0], mark, h), h)
  }

  /**
  The prune does not lag behind the scan by more than the TTL exceeds the deletion time, and
  the removal of h's log does not fail in the cycle that evicts h.
  */
  ghost predicate TimelyDelete(cfg: Config, s: State, e: Event, h: Handle) {
    e.DeleteEvent? ==>
      && e.pruneAt - e.scanAt <= s.mem.uploadedTTL - cfg.deletion
      && (h in e.failed && h in s.mem.uploaded ==> e.pruneAt - s.mem.uploaded[h] <= s.mem.uploadedTTL)
  }

  /** One process: no crash, and its deletion cycles are timely for h. */
  ghost predicate OneProcess(cfg: Config, s: State, events: seq<Event>, h: Handle)
    decreases |events|
  {
    events != [] ==>
      && !events[0].CrashEvent? && TimelyDelete(cfg, s, events[0], h)
      && OneProcess(cfg, Exec(cfg, s, events[0]), events[1..], h)
  }

  ghost predicate RegistryInv(cfg: Config, s: State, mark: Option<int>, clock: int, h: Handle) {
    && s.mem.uploadedTTL >= cfg.deletion
    && (h in s.disk.files ==> s.disk.files[h].mtime <= clock)
    && (mark.Some? ==>
          && mark.value <= clock
          && (h in s.disk.files && s.disk.files[h].mtime <= mark.value ==>
                h in s.mem.uploaded && s.mem.uploaded[h] == mark.value)
          && (h !in s.disk.files && (h !in s.mem.uploaded || s.mem.uploaded[h] != mark.value) ==> mark.value < clock))
  }

  lemma RegistryStep(cfg: Config, s: State, e: Event, mark: Option<int>, clock: int, h: Handle)
    requires ValidConfig(cfg) && RegistryInv(cfg, s, mark, clock, h) && InTime(e, clock)
    requires !e.CrashEvent? && TimelyDelete(cfg, s, e, h)
    ensures RegistryInv(cfg, Exec(cfg, s, e), MarkAfter(cfg, s, e, mark, h), ClockAfter(e, clock), h)
  {
    if e.DeleteEvent? {
      DeleteStep(cfg, s, e.failed, e.scanAt, e.pruneAt, e.saveAt, h);
    }
  }

  // What a deletion cycle does to one handle.
  lemma DeleteStep(cfg: Config, s: State, failed: set<Handle>, scanAt: int, pruneAt: int, saveAt: int, h: Handle)
    ensures var s' := Delete(cfg, s, failed, scanAt, pruneAt, saveAt);
            var gone := h in Deletable(cfg, s, scanAt) - failed;
            && s'.mem.uploadedTTL == s.mem.uploadedTTL
            && (h in s'.disk.files <==> h in s.disk.files && !gone)
            && (h in s'.disk.files ==> s'.disk.files[h] == s.disk.files[h])
            && (h in s'.mem.uploaded <==>
                h in s.mem.uploaded && !gone && pruneAt - s.mem.uploaded[h] <= s.mem.uploadedTTL)
            && (h in s'.mem.uploaded ==> s'.mem.uploaded[h] == s.mem.uploaded[h])
  {
  }

  /**
  In one process, at every moment: a handle marked uploaded whose log, not written to since,
  is still on disk is still in the registry.
  */
  lemma {:induction false} RegistryOutlivesLogs(
      cfg: Config, s: State, events: seq<Event>, mark: Option<int>, clock: int, h: Handle)
    requires ValidConfig(cfg) && RegistryInv(cfg, s, mark, clock, h)
    requires OneProcess(cfg, s, events, h) && Monotone(events, clock)
    ensures var s', mark' := Run(cfg, s, events), LastMark(cfg, s, events, mark, h);
            mark'.Some? && h in s'.disk.files && s'.disk.files[h].mtime <= mark'.value ==> h in s'.mem.uploaded
    decreases |events|
  {
    if events != [] {
      RegistryStep(cfg, s, events[0], mark, clock, h);
      RegistryOutlivesLogs(cfg, Exec(cfg, s, events[0]), events[1..], MarkAfter(cfg, s, events[0], mark, h),
                           ClockAfter(events[0], clock), h);
    }
  }

  /** A process starts with the invariant, whatever it loaded: a loaded entry is the mark. */
  lemma RestartEstablishesRegistry(cfg: Config, disk: Disk, order: seq<Handle>, now: int, h: Handle)
    requires ValidConfig(cfg)
    requires h in disk.files ==> disk.files[h].mtime <= now
    requires h in disk.registry ==> disk.registry[h] <= now
    ensures var loaded := Fresh(disk.registry, cfg.defaultTTL, now);
            RegistryInv(cfg, Restart(cfg, disk, order, now), if h in loaded then Some(loaded[h]) else None, now, h)
  {
    RecoverKeepsRegistry(cfg, EmptyMem(cfg, Fresh(disk.registry, cfg.defaultTTL, now)), ReplayList(disk.files, order));
  }

  /**
  When a deletion cycle parts a registry entry from a log that stays: exactly when the prune
  finds the mark older than the TTL while the scan found the log too young or failed to remove
  it.  With a timely cycle and a removal that works, such a log was written to after the mark.
  */
  lemma PruneOrphansIff(cfg: Config, s: State, failed: set<Handle>, scanAt: int, pruneAt: int, saveAt: int, h: Handle)
    requires h in s.mem.uploaded && h in s.disk.files
    ensures var s' := Delete(cfg, s, failed, scanAt, pruneAt, saveAt);
            var orphaned := h in s'.disk.files && h !in s'.mem.uploaded;
            && (orphaned <==>
                  && pruneAt - s.mem.uploaded[h] > s.mem.uploadedTTL
                  && (s.disk.files[h].mtime >= scanAt - cfg.deletion || h in failed))
            && (orphaned && TimelyDelete(cfg, s, DeleteEvent(failed, scanAt, pruneAt, saveAt), h) ==>
                  s.disk.files[h].mtime > s.mem.uploaded[h])
  {
    DeleteStep(cfg, s, failed, scanAt, pruneAt, saveAt, h);
  }
}
