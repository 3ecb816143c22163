/**
What a restart does not keep apart: which replayed entries come back into the ring and are
written a second time, which uploaded handles are delivered again, and which ids are issued
again.  Each failure has a run that reaches it and its exact condition.
*/
module DurableRestart {
  import opened Wrappers
  import opened Types
  import opened WalCodec
  import opened DurableBytes
  import opened DurableModel
  import opened DurableSafety
  import Permutations

  // ------------------------------------------------------ the recovered ring

  /** The records replay visits once the registry has been asked. */
  function NotUploaded(cs: seq<Content>, uploaded: map<Handle, int>): seq<Content> {
    if cs == [] then []
    else (if cs[0].Id in uploaded then [] else [cs[0]]) + NotUploaded(cs[1..], uploaded)
  }

  function First(q: seq<Content>, n: nat): seq<Content> {
    if |q| <= n then q else q[..n]
  }

  lemma {:induction false} RecoveredRing(cfg: Config, mem: Mem, cs: seq<Content>)
    requires |mem.ring| <= cfg.capacity
    ensures Recover(cfg, mem, cs).ring == First(mem.ring + NotUploaded(cs, mem.uploaded), cfg.capacity)
    decreases |cs|
  {
    if cs == [] {
      Permutations.Associative(mem.ring, [], []);
    } else {
      RecoveredRing(cfg, RecoverOne(cfg, mem, cs[0]), cs[1..]);
      OneRecovered(mem.ring, cs[0], cs[0].Id in mem.uploaded, NotUploaded(cs[1..], mem.uploaded), cfg.capacity);
    }
  }

  lemma OneRecovered(ring: seq<Content>, c: Content, uploaded: bool, rest: seq<Content>, n: nat)
    requires |ring| <= n
    ensures var ring' := if !uploaded && |ring| < n then ring + [c] else ring;
            First(ring' + rest, n) == First(ring + ((if uploaded then [] else [c]) + rest), n)
  {
    Permutations.Associative(ring, [c], rest);
    Permutations.Associative(rest, [], []);
  }

  /** After a restart the ring holds the first `capacity` not-uploaded records replay visits. */
  lemma RestartRing(cfg: Config, disk: Disk, order: seq<Handle>, now: int)
    ensures Restart(cfg, disk, order, now).mem.ring
         == First(NotUploaded(ReplayList(disk.files, order), Fresh(disk.registry, cfg.defaultTTL, now)), cfg.capacity)
  {
    var mem := EmptyMem(cfg, Fresh(disk.registry, cfg.defaultTTL, now));
    RecoveredRing(cfg, mem, ReplayList(disk.files, order));
    Permutations.Associative(NotUploaded(ReplayList(disk.files, order), mem.uploaded), [], []);
  }

  // --------------------------------------------------- records written twice

  /**
  The first flush after a restart, whatever was written in between, appends to h's log the
  entries of h that are in the ring by then, unless h has expired; so it leaves the log alone
  exactly when h has expired or the ring holds none of its entries.
  */
  lemma FlushAfterRestartIff(
      cfg: Config, disk: Disk, order: seq<Handle>, restart: int, events: seq<Event>, now: int, h: Handle)
    requires ValidConfig(cfg) && forall k :: k in disk.files ==> WellFormed(k, disk.files[k].bytes)
    requires GoodRun(cfg, Restart(cfg, disk, order, restart), events)
    requires h in Run(cfg, Restart(cfg, disk, order, restart), events).disk.files
    ensures var s := Run(cfg, Restart(cfg, disk, order, restart), events);
            var after := Flush(cfg, s, now).disk.files;
            && h in after
            && Parse(after[h].bytes)
               == Parse(s.disk.files[h].bytes)
                   + (if now - h.TimeStamp <= cfg.expiry then RecordsOf(s.mem.ring, h) else [])
            && (after[h].bytes == s.disk.files[h].bytes <==>
                  now - h.TimeStamp > cfg.expiry || forall c :: c in s.mem.ring ==> c.Id != h)
  {
    var start := Restart(cfg, disk, order, restart);
    RestartIsGood(cfg, disk, order, restart);
    RunKeepsGood(cfg, start, events);
    FlushIff(cfg, Run(cfg, start, events), now, h);
  }

  /** Until then, under drop-oldest, the ring is the last `capacity` of the recovered and the accepted entries. */
  lemma RingAfterRestart(cfg: Config, disk: Disk, order: seq<Handle>, restart: int, events: seq<Event>)
    requires ValidConfig(cfg) && forall k :: 0 <= k < |events| ==> KeepsDropping(events[k])
    ensures var start := Restart(cfg, disk, order, restart);
            var replayed := NotUploaded(ReplayList(disk.files, order), Fresh(disk.registry, cfg.defaultTTL, restart));
            var all := First(replayed, cfg.capacity) + AcceptedIn(cfg, start, events);
            Run(cfg, start, events).mem.ring == Last(all, cfg.capacity)
  {
    RestartRing(cfg, disk, order, restart);
    RestartKeepsDropping(cfg, disk, order, restart);
    DropOldestKeepsLast(cfg, Restart(cfg, disk, order, restart), events);
  }

  lemma RestartKeepsDropping(cfg: Config, disk: Disk, order: seq<Handle>, restart: int)
    ensures !Restart(cfg, disk, order, restart).mem.rejecting
  {
    RecoverKeepsRegistry(
      cfg, EmptyMem(cfg, Fresh(disk.registry, cfg.defaultTTL, restart)), ReplayList(disk.files, order));
  }

  lemma FlushIff(cfg: Config, s: State, now: int, h: Handle)
    requires GoodState(cfg, s) && h in s.disk.files
    ensures var after := Flush(cfg, s, now).disk.files;
            && h in after
            && Parse(after[h].bytes)
               == Parse(s.disk.files[h].bytes)
                   + (if now - h.TimeStamp <= cfg.expiry then RecordsOf(s.mem.ring, h) else [])
            && (after[h].bytes == s.disk.files[h].bytes <==>
                  now - h.TimeStamp > cfg.expiry || forall c :: c in s.mem.ring ==> c.Id != h)
  {
    FlushParses(cfg, s, now, h);
    KeptOfHandle(cfg, s.mem, s.mem.ring, now, h);
    SameBytesIff(
      s.disk.files[h].bytes, Flush(cfg, s, now).disk.files[h].bytes, RecordsOf(Kept(cfg, s.mem, s.mem.ring, now), h));
    NoRecordsIff(s.mem.ring, h);
  }

  lemma SameBytesIff(before: seq<Byte>, after: seq<Byte>, more: seq<Content>)
    requires EncodeAll(Parse(before)) == before && EncodeAll(Parse(after)) == after
    requires Parse(after) == Parse(before) + more
    ensures after == before <==> more == []
  {
    Permutations.Associative(Parse(before), [], []);
    assert |Parse(after)| == |Parse(before)| + |more|;
  }

  lemma NoRecordsIff(cs: seq<Content>, h: Handle)
    ensures RecordsOf(cs, h) == [] <==> forall c :: c in cs ==> c.Id != h
  {
    RecordsOfSubset(cs, h);
    if h in HandlesOf(cs) {
      var i :| 0 <= i < |cs| && cs[i].Id == h;
      assert cs[i] in cs;
    }
  }

  // ---------------------------------------------------------- runs that fail

  /** A process on an empty directory. */
  function Begin(cfg: Config): State {
    Restart(cfg, Disk(map[], map[]), [], 0)
  }

  /** One handle generated, one entry of it written and flushed, at the handle's own time. */
  function WriteAndFlush(c: Content): seq<Event> {
    [GenerateEvent, WriteEvent(c, c.Id.TimeStamp), FlushEvent(c.Id.TimeStamp)]
  }

  ghost predicate FirstEntry(cfg: Config, c: Content) {
    ValidConfig(cfg) && Fits(c) && c.Id.Id == 1
  }

  function OneFile(c: Content): map<Handle, LogFile> {
    map[c.Id := LogFile(Encode(c), c.Id.TimeStamp)]
  }

  function Flushed(cfg: Config, c: Content): State {
    State(
      Mem(1, false, [], map[c.Id := c.Eof], map[], map[], cfg.defaultTTL),
      Disk(OneFile(c), map[]))
  }

  lemma EncodeOne(c: Content)
    requires Fits(c)
    ensures EncodeAll([c]) == Encode(c) && Parse(Encode(c)) == [c]
  {
    assert [c][1..] == [];
    Permutations.Associative(Encode(c), [], []);
    ReplayRoundTripIff([c]);
  }

  lemma ListOfOne(c: Content)
    ensures [c][..0] == [] && [c][1..] == []
    ensures HandlesOf([c]) == {c.Id} && RecordsOf([c], c.Id) == [c]
  {
    assert [c][0] == c;
  }

  lemma FlushOne(cfg: Config, s: State, c: Content, now: int)
    requires s.mem.ring == [c] && Flushable(cfg, s.mem, c, now)
    ensures Flush(cfg, s, now).mem == s.mem.(ring := [])
    ensures Flush(cfg, s, now).disk
         == s.disk.(files := s.disk.files[c.Id := LogFile(Bytes(s.disk.files, c.Id) + EncodeAll([c]), now)])
  {
    KeptOne(cfg, s.mem, c, now);
    AppendListOfOne(s.disk.files, c, now);
  }

  lemma KeptOne(cfg: Config, mem: Mem, c: Content, now: int)
    requires Flushable(cfg, mem, c, now)
    ensures Kept(cfg, mem, [c], now) == [c]
  {
    ListOfOne(c);
    assert Kept(cfg, mem, [], now) == [];
  }

  lemma AppendListOfOne(files: map<Handle, LogFile>, c: Content, now: int)
    ensures AppendTo(files, [c], HandlesOf([c]), now)
              == files[c.Id := LogFile(Bytes(files, c.Id) + EncodeAll([c]), now)]
  {
    ListOfOne(c);
  }

  lemma RunThree(cfg: Config, s: State, a: Event, b: Event, c: Event)
    ensures Run(cfg, s, [a, b, c]) == Exec(cfg, Exec(cfg, Exec(cfg, s, a), b), c)
  {
    assert [a, b, c][1..] == [b, c];
    RunTwo(cfg, Exec(cfg, s, a), b, c);
  }

  lemma RunTwo(cfg: Config, s: State, a: Event, b: Event)
    ensures Run(cfg, s, [a, b]) == Exec(cfg, Exec(cfg, s, a), b)
  {
    assert [a, b][1..] == [b] && [b][1..] == [];
    assert Run(cfg, Exec(cfg, s, a), [b]) == Run(cfg, Exec(cfg, Exec(cfg, s, a), b), []);
  }

  lemma AfterWriteAndFlush(cfg: Config, c: Content)
    requires FirstEntry(cfg, c)
    ensures Run(cfg, Begin(cfg), WriteAndFlush(c)) == Flushed(cfg, c)
  {
    var t := c.Id.TimeStamp;
    RunThree(cfg, Begin(cfg), GenerateEvent, WriteEvent(c, t), FlushEvent(t));
    var empty := Disk(map[], map[]);
    var mem := EmptyMem(cfg, map[]).(nextHandle := 1);
    assert Exec(cfg, Begin(cfg), GenerateEvent) == State(mem, empty);
    var written := State(mem.(ring := [c], handles := map[c.Id := c.Eof]), empty);
    FirstWrite(cfg, mem, c, t);
    assert Exec(cfg, State(mem, empty), WriteEvent(c, t)) == written;
    FlushOne(cfg, written, c, t);
    EncodeOne(c);
    assert Bytes(map[], c.Id) + EncodeAll([c]) == Encode(c);
  }

  lemma FirstWrite(cfg: Config, mem: Mem, c: Content, now: int)
    requires cfg.capacity > 0 && mem.ring == [] && mem.handles == map[] && !Expired(cfg, mem, c.Id, now)
    ensures Write(cfg, mem, c, now) == mem.(ring := [c], handles := map[c.Id := c.Eof])
  {
    assert mem.ring + [c] == [c];
  }

  function Recovered(cfg: Config, c: Content, registry: map<Handle, int>): State {
    State(
      EmptyMem(cfg, map[]).(nextHandle := 2, ring := [c], handles := map[c.Id := c.Eof]),
      Disk(OneFile(c), registry))
  }

  /** A restart on the one log, nothing in the loaded registry. */
  lemma RestartOnOne(cfg: Config, c: Content, disk: Disk, now: int)
    requires FirstEntry(cfg, c) && disk.files == OneFile(c) && Fresh(disk.registry, cfg.defaultTTL, now) == map[]
    ensures Restart(cfg, disk, [c.Id], now) == Recovered(cfg, c, disk.registry)
  {
    ReplayOne(c);
    RecoverSingle(cfg, c);
  }

  lemma ReplayOne(c: Content)
    requires Fits(c)
    ensures ReplayList(OneFile(c), [c.Id]) == [c]
  {
    EncodeOne(c);
    assert [c.Id][1..] == [];
    assert ReplayList(OneFile(c), [c.Id]) == [c] + ReplayList(OneFile(c), []);
  }

  lemma CrashOnOne(cfg: Config, c: Content, s: State, now: int)
    requires FirstEntry(cfg, c) && s.disk.files == OneFile(c)
    requires Fresh(s.disk.registry, cfg.defaultTTL, now) == map[]
    ensures Exec(cfg, s, CrashEvent(BetweenSteps, [c.Id], now)) == Recovered(cfg, c, s.disk.registry)
  {
    RestartOnOne(cfg, c, s.disk, now);
  }

  lemma RecoverSingle(cfg: Config, c: Content)
    requires FirstEntry(cfg, c)
    ensures Recover(cfg, EmptyMem(cfg, map[]), [c])
         == EmptyMem(cfg, map[]).(nextHandle := 2, ring := [c], handles := map[c.Id := c.Eof])
  {
    ListOfOne(c);
    var mem := EmptyMem(cfg, map[]);
    assert mem.ring + [c] == [c];
    assert Recover(cfg, mem, [c]) == Recover(cfg, RecoverOne(cfg, mem, c), []);
  }

  lemma DecodeTwoCopies(c: Content)
    requires Fits(c)
    ensures Decode(Encode(c) + EncodeAll([c])) == Ok(c.Data + c.Data)
  {
    EncodeOne(c);
    ReadStep(c, Encode(c));
    DecodeRoundTrip([c]);
    ListOfOne(c);
    Permutations.Associative(c.Data, [], []);
  }

  /** Write, flush, crash, flush: the log then decodes to the data twice. */
  lemma WrittenTwice(cfg: Config, c: Content)
    requires FirstEntry(cfg, c)
    ensures var t := c.Id.TimeStamp;
            var s := Run(cfg, Begin(cfg), WriteAndFlush(c) + [CrashEvent(BetweenSteps, [c.Id], t), FlushEvent(t)]);
            Decode(Bytes(s.disk.files, c.Id)) == Ok(c.Data + c.Data)
  {
    var t := c.Id.TimeStamp;
    var crash := CrashEvent(BetweenSteps, [c.Id], t);
    RunAppend(cfg, Begin(cfg), WriteAndFlush(c), [crash, FlushEvent(t)]);
    AfterWriteAndFlush(cfg, c);
    RunTwo(cfg, Flushed(cfg, c), crash, FlushEvent(t));
    SecondFlush(cfg, c, t);
    DecodeTwoCopies(c);
  }

  lemma SecondFlush(cfg: Config, c: Content, t: int)
    requires FirstEntry(cfg, c) && t == c.Id.TimeStamp
    ensures var s := Flush(cfg, Exec(cfg, Flushed(cfg, c), CrashEvent(BetweenSteps, [c.Id], t)), t);
            Bytes(s.disk.files, c.Id) == Encode(c) + EncodeAll([c])
  {
    NothingFresh(cfg, t);
    CrashOnOne(cfg, c, Flushed(cfg, c), t);
    FlushOne(cfg, Recovered(cfg, c, map[]), c, t);
  }

  lemma NothingFresh(cfg: Config, now: int)
    ensures Fresh(map[], cfg.defaultTTL, now) == map[]
  {
  }

  // ---------------------------------------------------------- delivered again

  /**
  At any crash point, a log left on disk is delivered again exactly when its handle is not in
  the saved registry, or the process starts again more than the default TTL after the mark,
  whatever TTL had been set.
  */
  lemma RedeliveredAfterCrashIff(cfg: Config, s: State, point: CrashPoint, order: seq<Handle>, restart: int, h: Handle)
    requires GoodState(cfg, s) && GoodEvent(cfg, s, CrashEvent(point, order, restart))
    requires h in DiskAfterCrash(cfg, s, point).files
    ensures var registry := DiskAfterCrash(cfg, s, point).registry;
            (h in Exec(cfg, s, CrashEvent(point, order, restart)).mem.handles <==>
              !(h in registry && restart - registry[h] <= cfg.defaultTTL))
  {
    CrashKeepsFiles(cfg, s, point);
    RestartRebuildsHandles(cfg, DiskAfterCrash(cfg, s, point), order, restart, h);
  }

  /** The mark is saved, the removal fails, the process is down past the TTL: a completed handle is back. */
  lemma DeliveredAgain(cfg: Config, c: Content)
    requires FirstEntry(cfg, c) && c.Eof
    ensures var t := c.Id.TimeStamp;
            var marked := Run(cfg, Begin(cfg), WriteAndFlush(c) + [MarkEvent({c.Id}, {}, t)]);
            var s := Exec(cfg, marked, CrashEvent(BetweenSteps, [c.Id], t + cfg.defaultTTL + 1));
            && c.Id in marked.disk.registry
            && c.Id in s.mem.handles && s.mem.handles[c.Id]
  {
    var t := c.Id.TimeStamp;
    RunAppend(cfg, Begin(cfg), WriteAndFlush(c), [MarkEvent({c.Id}, {}, t)]);
    AfterWriteAndFlush(cfg, c);
    RunOne(cfg, Flushed(cfg, c), MarkEvent({c.Id}, {}, t));
    MarkWithoutRemoval(cfg, c, t);
    var registry := map[c.Id := t as int];
    assert Fresh(registry, cfg.defaultTTL, t + cfg.defaultTTL + 1) == map[];
    CrashOnOne(cfg, c, Exec(cfg, Flushed(cfg, c), MarkEvent({c.Id}, {}, t)), t + cfg.defaultTTL + 1);
  }

  lemma RunOne(cfg: Config, s: State, e: Event)
    ensures Run(cfg, s, [e]) == Exec(cfg, s, e)
  {
    assert [e][1..] == [];
  }

  lemma MarkWithoutRemoval(cfg: Config, c: Content, t: int)
    requires FirstEntry(cfg, c)
    ensures Exec(cfg, Flushed(cfg, c), MarkEvent({c.Id}, {}, t)).disk
              == Disk(Flushed(cfg, c).disk.files, map[c.Id := t])
  {
    var s := Flushed(cfg, c);
    assert s.mem.uploaded + AllAt({c.Id}, t) == map[c.Id := t];
    assert Fresh(map[c.Id := t], cfg.defaultTTL, t) == map[c.Id := t];
    assert s.disk.files - ({} * {c.Id}) == s.disk.files;
  }

  /**
  No crash is needed to lose the guard: the scan finds the log just not old enough, the prune
  comes later by more than the TTL exceeds the deletion time, and the entry goes while the log
  stays.  At the least TTL the clamp allows, one tick is enough.  A restart then delivers the
  handle again.
  */
  lemma EvictedWithoutItsLog(cfg: Config, c: Content)
    requires FirstEntry(cfg, c)
    ensures Orphaned(cfg, Run(cfg, Begin(cfg), LateEviction(cfg, c)), c.Id, c.Id.TimeStamp + cfg.defaultTTL + 1)
  {
    var s := Run(cfg, Begin(cfg), LateEviction(cfg, c));
    LateEvictionRun(cfg, c);
    EvictedOne(cfg, c, s);
    OrphanDelivered(cfg, c, s, c.Id.TimeStamp + cfg.defaultTTL + 1);
  }

  /** Write, flush, a mark whose removal fails, a scan just in time to find the log too young, a late prune. */
  function LateEviction(cfg: Config, c: Content): seq<Event> {
    WriteAndFlush(c) + [MarkEvent({c.Id}, {}, c.Id.TimeStamp), LatePrune(cfg, c)]
  }

  function LatePrune(cfg: Config, c: Content): Event {
    var late := c.Id.TimeStamp + cfg.defaultTTL + 1;
    DeleteEvent({}, c.Id.TimeStamp + cfg.deletion, late, late)
  }

  lemma LateEvictionRun(cfg: Config, c: Content)
    requires FirstEntry(cfg, c)
    ensures Run(cfg, Begin(cfg), LateEviction(cfg, c)) == Exec(cfg, Marked(cfg, c), LatePrune(cfg, c))
  {
    RunAppend(cfg, Begin(cfg), WriteAndFlush(c), [MarkEvent({c.Id}, {}, c.Id.TimeStamp), LatePrune(cfg, c)]);
    AfterWriteAndFlush(cfg, c);
    MarkThen(cfg, c, LatePrune(cfg, c));
  }

  /** h's log is there, h is not in the registry, and a restart now delivers h. */
  ghost predicate Orphaned(cfg: Config, s: State, h: Handle, now: int) {
    && h in s.disk.files && h !in s.mem.uploaded
    && h in Exec(cfg, s, CrashEvent(BetweenSteps, [h], now)).mem.handles
  }

  lemma OrphanDelivered(cfg: Config, c: Content, s: State, now: int)
    requires FirstEntry(cfg, c) && s.disk == Disk(OneFile(c), map[]) && s.mem.uploaded == map[]
    ensures Orphaned(cfg, s, c.Id, now)
  {
    NothingFresh(cfg, now);
    CrashOnOne(cfg, c, s, now);
  }

  function Marked(cfg: Config, c: Content): State {
    State(
      Flushed(cfg, c).mem.(uploaded := map[c.Id := c.Id.TimeStamp], handles := map[]),
      Disk(OneFile(c), map[c.Id := c.Id.TimeStamp]))
  }

  lemma MarkedOne(cfg: Config, c: Content, t: int)
    requires FirstEntry(cfg, c) && t == c.Id.TimeStamp
    ensures Exec(cfg, Flushed(cfg, c), MarkEvent({c.Id}, {}, t)) == Marked(cfg, c)
  {
    MarkWithoutRemoval(cfg, c, t);
    var mem := Flushed(cfg, c).mem;
    assert mem.uploaded + AllAt({c.Id}, t) == map[c.Id := t];
    assert mem.handles - {c.Id} == map[];
  }

  lemma MarkThen(cfg: Config, c: Content, e: Event)
    requires FirstEntry(cfg, c)
    ensures Run(cfg, Flushed(cfg, c), [MarkEvent({c.Id}, {}, c.Id.TimeStamp), e]) == Exec(cfg, Marked(cfg, c), e)
  {
    RunTwo(cfg, Flushed(cfg, c), MarkEvent({c.Id}, {}, c.Id.TimeStamp), e);
    MarkedOne(cfg, c, c.Id.TimeStamp);
  }

  lemma EvictedOne(cfg: Config, c: Content, s': State)
    requires FirstEntry(cfg, c)
    requires s' == Exec(cfg, Marked(cfg, c), LatePrune(cfg, c))
    ensures s'.mem.uploaded == map[] && s'.disk == Disk(OneFile(c), map[])
  {
    var t := c.Id.TimeStamp;
    var late := t + cfg.defaultTTL + 1;
    var s := Marked(cfg, c);
    assert Deletable(cfg, s, t + cfg.deletion) == {};
    assert Scan(cfg, s, {}, t + cfg.deletion) == s;
    assert Stale(s.mem, late) == {c.Id};
    assert s.mem.uploaded - {c.Id} == map[];
    var none: map<Handle, int> := map[];
    assert Fresh(none, cfg.defaultTTL, late) == map[];
  }

  /** A log with the one entry d, of a handle that is uploaded, not listed, and not delivered by a restart. */
  ghost predicate Stranded(cfg: Config, s: State, d: Content) {
    && Decode(Bytes(s.disk.files, d.Id)) == Ok(d.Data)
    && d.Id in s.mem.uploaded && d.Id !in s.mem.handles
    && d.Id !in Exec(cfg, s, CrashEvent(BetweenSteps, [d.Id], d.Id.TimeStamp)).mem.handles
  }

  /** An entry accepted after the uploaded flush and before the mark ends in a log nobody reads. */
  lemma LateEntryStranded(cfg: Config, c: Content, d: Content)
    requires FirstEntry(cfg, c) && Fits(d) && d.Id == c.Id
    ensures var t := c.Id.TimeStamp;
            var late := [WriteEvent(d, t), MarkEvent({c.Id}, {c.Id}, t), FlushEvent(t)];
            Stranded(cfg, Run(cfg, Begin(cfg), WriteAndFlush(c) + late), d)
  {
    var t, h := c.Id.TimeStamp, c.Id;
    var write, mark := WriteEvent(d, t), MarkEvent({h}, {h}, t);
    RunAppend(cfg, Begin(cfg), WriteAndFlush(c), [write, mark, FlushEvent(t)]);
    AfterWriteAndFlush(cfg, c);
    RunThree(cfg, Flushed(cfg, c), write, mark, FlushEvent(t));
    LateWrite(cfg, c, d);
    StrandedEntry(cfg, Exec(cfg, Flushed(cfg, c), write),
        Run(cfg, Begin(cfg), WriteAndFlush(c) + [write, mark, FlushEvent(t)]), c, d);
  }

  lemma LateWrite(cfg: Config, c: Content, d: Content)
    requires FirstEntry(cfg, c) && d.Id == c.Id
    ensures var s := Exec(cfg, Flushed(cfg, c), WriteEvent(d, c.Id.TimeStamp));
            && s.mem.ring == [d] && s.disk == Disk(OneFile(c), map[]) && s.mem.nextHandle == 1
            && s.mem.uploaded == map[] && s.mem.uploadedTTL == cfg.defaultTTL
  {
    assert Write(cfg, Flushed(cfg, c).mem, d, c.Id.TimeStamp).ring == [] + [d];
  }

  lemma StrandedEntry(cfg: Config, s: State, s': State, c: Content, d: Content)
    requires FirstEntry(cfg, c) && Fits(d) && d.Id == c.Id
    requires s.mem.ring == [d] && s.disk == Disk(OneFile(c), map[]) && s.mem.nextHandle == 1
    requires s.mem.uploaded == map[] && s.mem.uploadedTTL == cfg.defaultTTL
    requires s' == Flush(cfg, Mark(s, {c.Id}, {c.Id}, c.Id.TimeStamp), c.Id.TimeStamp)
    ensures Stranded(cfg, s', d)
  {
    var t, h := c.Id.TimeStamp, c.Id;
    var s1 := Mark(s, {h}, {h}, t);
    MarkOne(s, t, h);
    FlushOne(cfg, s1, d, t);
    EncodeOne(d);
    assert Bytes(s1.disk.files, h) + EncodeAll([d]) == Encode(d);
    DecodeRoundTrip([d]);
    PayloadOfOne(d);
    HeldThroughCrash(cfg, s', [h], t, h);
  }

  lemma HeldThroughCrash(cfg: Config, s: State, order: seq<Handle>, now: int, h: Handle)
    requires h in s.disk.registry && now - s.disk.registry[h] <= cfg.defaultTTL
    ensures h !in Exec(cfg, s, CrashEvent(BetweenSteps, order, now)).mem.handles
  {
    HeldNotDelivered(cfg, s.disk, order, now, h);
  }

  // ------------------------------------------------------------- issued again

  lemma {:induction false} RecoveredNextHandle(cfg: Config, mem: Mem, cs: seq<Content>, x: nat)
    ensures x <= Recover(cfg, mem, cs).nextHandle <==>
       x <= mem.nextHandle || exists i :: 0 <= i < |cs| && cs[i].Id !in mem.uploaded && x <= cs[i].Id.Id + 1
    decreases |cs|
  {
    if cs != [] {
      var mem', rest := RecoverOne(cfg, mem, cs[0]), cs[1..];
      RecoveredNextHandle(cfg, mem', rest, x);
      if i :| 0 <= i < |rest| && rest[i].Id !in mem.uploaded && x <= rest[i].Id.Id + 1 {
        assert cs[i + 1] == rest[i];
      }
      if i :| 0 <= i < |cs| && cs[i].Id !in mem.uploaded && x <= cs[i].Id.Id + 1 {
        if i > 0 { assert rest[i - 1] == cs[i]; }
      }
    }
  }

  lemma {:induction false} ReplayListOwners(files: map<Handle, LogFile>, order: seq<Handle>)
    requires forall k :: k in files ==> OwnRecords(k, files[k].bytes)
    ensures forall c :: c in ReplayList(files, order) ==> Holds(files, c.Id)
  {
    if order != [] {
      ReplayListOwners(files, order[1..]);
      assert order[0] !in files ==> Parse(Bytes(files, order[0])) == [];
    }
  }

  function Generates(n: nat): seq<Event> {
    seq(n, _ => GenerateEvent)
  }

  lemma {:induction false} GeneratedId(cfg: Config, s: State, n: nat)
    ensures Run(cfg, s, Generates(n)).mem.nextHandle == s.mem.nextHandle + n
    decreases n
  {
    if n > 0 {
      assert Generates(n)[1..] == Generates(n - 1);
      GeneratedId(cfg, Exec(cfg, s, GenerateEvent), n - 1);
    }
  }

  /** Some call of GenerateHandle after the restart issues the id x. */
  ghost predicate Issues(cfg: Config, s: State, x: nat) {
    exists n :: n > 0 && Run(cfg, s, Generates(n)).mem.nextHandle == x
  }

  lemma IssuesIff(cfg: Config, s: State, x: nat)
    ensures Issues(cfg, s, x) <==> x > s.mem.nextHandle
  {
    if x > s.mem.nextHandle {
      var n: nat := x - s.mem.nextHandle;
      GeneratedId(cfg, s, n);
    }
    if Issues(cfg, s, x) {
      var n :| n > 0 && Run(cfg, s, Generates(n)).mem.nextHandle == x;
      GeneratedId(cfg, s, n);
    }
  }

  /**
  Replay raises the id counter for the handles it delivers and for no others: an id is issued
  (again) after a restart exactly when every not-uploaded handle with a record on disk has an
  id more than one below it.
  */
  lemma IdIssuedAgainIff(cfg: Config, disk: Disk, order: seq<Handle>, now: int, x: nat)
    requires forall k :: k in disk.files ==> OwnRecords(k, disk.files[k].bytes)
    requires ReadsEachOnce(order, disk.files)
    ensures var uploaded := Fresh(disk.registry, cfg.defaultTTL, now);
            (Issues(cfg, Restart(cfg, disk, order, now), x) <==>
              x > 0 && forall g :: Holds(disk.files, g) && g !in uploaded ==> g.Id + 1 < x)
  {
    var uploaded := Fresh(disk.registry, cfg.defaultTTL, now);
    var cs := ReplayList(disk.files, order);
    RecoveredNextHandle(cfg, EmptyMem(cfg, uploaded), cs, x);
    IssuesIff(cfg, Restart(cfg, disk, order, now), x);
    ReplayListOwners(disk.files, order);
    forall g | Holds(disk.files, g) && g !in uploaded
      ensures exists i :: 0 <= i < |cs| && cs[i].Id == g
    {
      ReplayListRecords(disk.files, order, g);
      EachIsRead(order, disk.files, g);
      assert HasRecord(cs, g);
    }
    forall i | 0 <= i < |cs| ensures Holds(disk.files, cs[i].Id) {
      assert cs[i] in cs;
    }
  }

  /** A handle uploaded and removed, a crash: the next handle gets the id that is still in the registry. */
  lemma IdIssuedTwice(cfg: Config, c: Content)
    requires FirstEntry(cfg, c)
    ensures var t := c.Id.TimeStamp;
            var s := Run(cfg, Begin(cfg), WriteAndFlush(c)
                         + [MarkEvent({c.Id}, {c.Id}, t), CrashEvent(BetweenSteps, [], t), GenerateEvent]);
            s.mem.nextHandle == c.Id.Id && c.Id in s.mem.uploaded
  {
    var t := c.Id.TimeStamp;
    var mark, crash := MarkEvent({c.Id}, {c.Id}, t), CrashEvent(BetweenSteps, [], t);
    RunAppend(cfg, Begin(cfg), WriteAndFlush(c), [mark, crash, GenerateEvent]);
    AfterWriteAndFlush(cfg, c);
    RunThree(cfg, Flushed(cfg, c), mark, crash, GenerateEvent);
  }
}
