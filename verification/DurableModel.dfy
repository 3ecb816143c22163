/**
The durable buffer as a state machine: memory and disk kept apart, clock readings passed in,
and crashes that may fall between the file operations of a step.  The class in DurableBuffer
is proved to take exactly these steps.
*/
module DurableModel {
  import opened Types
  import opened WalCodec

  /** deletion, defaultTTL and processingTTL are durations; defaultTTL is the uploaded TTL a process starts with. */
  datatype Config = Config(capacity: nat, expiry: nat, deletion: nat, defaultTTL: nat, processingTTL: nat)

  ghost predicate ValidConfig(cfg: Config) {
    cfg.capacity >= 2 && cfg.deletion <= cfg.defaultTTL
  }

  datatype LogFile = LogFile(bytes: seq<Byte>, mtime: int)

  /** The .dlog files by handle (file names separate handles) and the uploaded-handles file. */
  datatype Disk = Disk(files: map<Handle, LogFile>, registry: map<Handle, int>)

  datatype Mem = Mem(
    nextHandle: nat,
    rejecting: bool,
    ring: seq<Content>,
    handles: map<Handle, bool>,
    uploaded: map<Handle, int>,
    processing: map<Handle, int>,
    uploadedTTL: int)

  datatype State = State(mem: Mem, disk: Disk)

  // --------------------------------------------------------------- writing

  predicate Expired(cfg: Config, mem: Mem, h: Handle, now: int) {
    h.Id == 0 || h.Id > mem.nextHandle || now - h.TimeStamp > cfg.expiry
  }

  datatype WriteOutcome = Accepted | InvalidHandle | BufferFull

  function WriteResult(cfg: Config, mem: Mem, c: Content, now: int): WriteOutcome {
    if Expired(cfg, mem, c.Id, now) then InvalidHandle
    else if |mem.ring| >= cfg.capacity && mem.rejecting then BufferFull
    else Accepted
  }

  /** An Eof completes the handle for good; other data registers it as incomplete. */
  function NoteHandle(handles: map<Handle, bool>, c: Content): map<Handle, bool> {
    if c.Eof then handles[c.Id := true]
    else if c.Id in handles && handles[c.Id] then handles
    else handles[c.Id := false]
  }

  function Write(cfg: Config, mem: Mem, c: Content, now: int): Mem {
    if WriteResult(cfg, mem, c, now) != Accepted then mem
    else
      var room := if mem.ring != [] && |mem.ring| >= cfg.capacity then mem.ring[1..] else mem.ring;
      mem.(ring := room + [c], handles := NoteHandle(mem.handles, c))
  }

  // --------------------------------------------------------------- flushing

  predicate Flushable(cfg: Config, mem: Mem, c: Content, now: int) {
    c.Id.Id != 0 && !Expired(cfg, mem, c.Id, now)
  }

  /** The entries a flush at this time writes out. */
  function Kept(cfg: Config, mem: Mem, cs: seq<Content>, now: int): seq<Content> {
    if cs == [] then []
    else
      var last := cs[|cs| - 1];
      Kept(cfg, mem, cs[..|cs| - 1], now) + if Flushable(cfg, mem, last, now) then [last] else []
  }

  function RecordsOf(cs: seq<Content>, h: Handle): seq<Content> {
    if cs == [] then []
    else
      var last := cs[|cs| - 1];
      RecordsOf(cs[..|cs| - 1], h) + if last.Id == h then [last] else []
  }

  function HandlesOf(cs: seq<Content>): set<Handle> {
    set i | 0 <= i < |cs| :: cs[i].Id
  }

  function Bytes(files: map<Handle, LogFile>, h: Handle): seq<Byte> {
    if h in files then files[h].bytes else []
  }

  /** Each file among `only` gets its handle's records, in order, in one append. */
  function AppendTo(files: map<Handle, LogFile>, cs: seq<Content>, only: set<Handle>, now: int): map<Handle, LogFile> {
    map h | h in files.Keys + HandlesOf(cs) * only ::
      if h in HandlesOf(cs) && h in only then LogFile(Bytes(files, h) + EncodeAll(RecordsOf(cs, h)), now)
      else files[h]
  }

  function Flush(cfg: Config, s: State, now: int): State {
    var kept := Kept(cfg, s.mem, s.mem.ring, now);
    State(s.mem.(ring := []), s.disk.(files := AppendTo(s.disk.files, kept, HandlesOf(kept), now)))
  }

  // -------------------------------------------------- the uploaded registry

  function Fresh(marks: map<Handle, int>, ttl: int, now: int): map<Handle, int> {
    map h | h in marks && now - marks[h] <= ttl :: marks[h]
  }

  /** saveUploadedHandles: replaces the file by the entries within their TTL. */
  function Save(s: State, now: int): State {
    s.(disk := s.disk.(registry := Fresh(s.mem.uploaded, s.mem.uploadedTTL, now)))
  }

  function PruneProcessing(cfg: Config, s: State, now: int): State {
    s.(mem := s.mem.(processing := Fresh(s.mem.processing, cfg.processingTTL, now)))
  }

  function Cleanup(cfg: Config, s: State, now: int): State {
    Save(PruneProcessing(cfg, Flush(cfg, s, now), now), now)
  }

  function AllAt(hs: set<Handle>, now: int): map<Handle, int> {
    map h | h in hs :: now
  }

  /** Mark in memory, save, then remove the files; `removed` are the removals that succeed. */
  function Mark(s: State, hs: set<Handle>, removed: set<Handle>, now: int): State {
    var marked := s.(mem := s.mem.(uploaded := s.mem.uploaded + AllAt(hs, now), handles := s.mem.handles - hs));
    var saved := Save(marked, now);
    saved.(disk := saved.disk.(files := saved.disk.files - (removed * hs)))
  }

  /** The files the deletion scan may remove. */
  function Deletable(cfg: Config, s: State, now: int): set<Handle> {
    set h | h in s.disk.files && h in s.mem.uploaded && s.disk.files[h].mtime < now - cfg.deletion
  }

  /** The deletion scan; `failed` are removals that fail. */
  function Scan(cfg: Config, s: State, failed: set<Handle>, now: int): State {
    var gone := Deletable(cfg, s, now) - failed;
    State(s.mem.(uploaded := s.mem.uploaded - gone), s.disk.(files := s.disk.files - gone))
  }

  function Stale(mem: Mem, now: int): set<Handle> {
    set h | h in mem.uploaded && now - mem.uploaded[h] > mem.uploadedTTL
  }

  /** pruneUploadedHandles: evict at one reading of the clock, save at the next. */
  function Prune(s: State, now: int, saveAt: int): State {
    var stale := Stale(s.mem, now);
    Save(s.(mem := s.mem.(uploaded := s.mem.uploaded - stale, processing := s.mem.processing - stale)), saveAt)
  }

  /** The deletion cycle: scan, prune and save each read the clock. */
  function Delete(cfg: Config, s: State, failed: set<Handle>, scanAt: int, pruneAt: int, saveAt: int): State {
    Prune(Scan(cfg, s, failed, scanAt), pruneAt, saveAt)
  }

  function SetUploadedTTL(cfg: Config, s: State, ttl: int): State {
    var wanted := if ttl <= 0 then cfg.defaultTTL else ttl;
    s.(mem := s.mem.(uploadedTTL := if wanted < cfg.deletion then cfg.deletion else wanted))
  }

  // --------------------------------------------------------- dispatch lease

  /** The handles GetUploadedHandles returns. */
  function Dispatchable(cfg: Config, mem: Mem, now: int): set<Handle> {
    set h | h in mem.uploaded && (h !in mem.processing || now - mem.processing[h] > cfg.processingTTL)
  }

  function Dispatch(cfg: Config, s: State, now: int): State {
    s.(mem := s.mem.(processing := s.mem.processing + AllAt(Dispatchable(cfg, s.mem, now), now)))
  }

  // --------------------------------------------------------------- recovery

  /** What replay visits, file by file in this order, before the registry is asked. */
  function ReplayList(files: map<Handle, LogFile>, order: seq<Handle>): seq<Content> {
    if order == [] then []
    else Parse(Bytes(files, order[0])) + ReplayList(files, order[1..])
  }

  function RecoverOne(cfg: Config, mem: Mem, c: Content): Mem {
    if c.Id in mem.uploaded then mem
    else
      mem.(nextHandle := if c.Id.Id >= mem.nextHandle then c.Id.Id + 1 else mem.nextHandle,
           ring := if |mem.ring| < cfg.capacity then mem.ring + [c] else mem.ring,
           handles := NoteHandle(mem.handles, c))
  }

  function Recover(cfg: Config, mem: Mem, cs: seq<Content>): Mem
    decreases |cs|
  {
    if cs == [] then mem else Recover(cfg, RecoverOne(cfg, mem, cs[0]), cs[1..])
  }

  function EmptyMem(cfg: Config, uploaded: map<Handle, int>): Mem {
    Mem(0, false, [], map[], uploaded, map[], cfg.defaultTTL)
  }

  /** A new process on a disk: load the registry, replay the files in some order. */
  function Restart(cfg: Config, disk: Disk, order: seq<Handle>, now: int): State {
    var mem := EmptyMem(cfg, Fresh(disk.registry, cfg.defaultTTL, now));
    State(Recover(cfg, mem, ReplayList(disk.files, order)), disk)
  }

  // ------------------------------------------------------------------- runs

  /** Where a crash falls: between steps, or after some of a step's file operations. */
  datatype CrashPoint =
    | BetweenSteps
    | InFlush(now: int, appended: set<Handle>)
    | InMark(handles: set<Handle>, removed: set<Handle>, now: int)
    | InDelete(removed: set<Handle>, now: int)

  datatype Event =
    | GenerateEvent
    | WriteEvent(c: Content, now: int)
    | FlushEvent(now: int)
    | CleanupEvent(now: int)
    | MarkEvent(handles: set<Handle>, removed: set<Handle>, now: int)
    | DeleteEvent(failed: set<Handle>, scanAt: int, pruneAt: int, saveAt: int)
    | DispatchEvent(now: int)
    | ReleaseEvent(handle: Handle)
    | PolicyEvent(rejecting: bool)
    | TTLEvent(ttl: int)
    | CrashEvent(point: CrashPoint, order: seq<Handle>, restart: int)

  /** What is on disk when the process dies. */
  function DiskAfterCrash(cfg: Config, s: State, point: CrashPoint): Disk {
    match point
    case BetweenSteps => s.disk
    case InFlush(now, appended) =>
      s.disk.(files := AppendTo(s.disk.files, Kept(cfg, s.mem, s.mem.ring, now), appended, now))
    case InMark(hs, removed, now) => Mark(s, hs, removed, now).disk
    case InDelete(removed, now) => s.disk.(files := s.disk.files - (removed * Deletable(cfg, s, now)))
  }

  function Exec(cfg: Config, s: State, e: Event): State {
    match e
    case GenerateEvent => s.(mem := s.mem.(nextHandle := s.mem.nextHandle + 1))
    case WriteEvent(c, now) => s.(mem := Write(cfg, s.mem, c, now))
    case FlushEvent(now) => Flush(cfg, s, now)
    case CleanupEvent(now) => Cleanup(cfg, s, now)
    case MarkEvent(hs, removed, now) => Mark(s, hs, removed, now)
    case DeleteEvent(failed, scanAt, pruneAt, saveAt) => Delete(cfg, s, failed, scanAt, pruneAt, saveAt)
    case DispatchEvent(now) => Dispatch(cfg, s, now)
    case ReleaseEvent(h) => s.(mem := s.mem.(processing := s.mem.processing - {h}))
    case PolicyEvent(r) => s.(mem := s.mem.(rejecting := r))
    case TTLEvent(ttl) => SetUploadedTTL(cfg, s, ttl)
    case CrashEvent(point, order, restart) => Restart(cfg, DiskAfterCrash(cfg, s, point), order, restart)
  }

  /** The clock readings of an event do not go back behind `clock`. */
  predicate InTime(e: Event, clock: int) {
    match e
    case WriteEvent(_, now) => clock <= now
    case FlushEvent(now) => clock <= now
    case CleanupEvent(now) => clock <= now
    case MarkEvent(_, _, now) => clock <= now
    case DeleteEvent(_, scanAt, pruneAt, saveAt) => clock <= scanAt <= pruneAt <= saveAt
    case DispatchEvent(now) => clock <= now
    case CrashEvent(BetweenSteps, _, restart) => clock <= restart
    case CrashEvent(InFlush(now, _), _, restart) => clock <= now <= restart
    case CrashEvent(InMark(_, _, now), _, restart) => clock <= now <= restart
    case CrashEvent(InDelete(_, now), _, restart) => clock <= now <= restart
    case _ => true
  }

  function ClockAfter(e: Event, clock: int): int {
    match e
    case WriteEvent(_, now) => now
    case FlushEvent(now) => now
    case CleanupEvent(now) => now
    case MarkEvent(_, _, now) => now
    case DeleteEvent(_, _, _, saveAt) => saveAt
    case DispatchEvent(now) => now
    case CrashEvent(_, _, restart) => restart
    case _ => clock
  }

  predicate Monotone(events: seq<Event>, clock: int)
    decreases |events|
  {
    events != [] ==> InTime(events[0], clock) && Monotone(events[1..], ClockAfter(events[0], clock))
  }

  function Run(cfg: Config, s: State, events: seq<Event>): State
    decreases |events|
  {
    if events == [] then s else Run(cfg, Exec(cfg, s, events[0]), events[1..])
  }

  lemma {:induction false} RunAppend(cfg: Config, s: State, a: seq<Event>, b: seq<Event>)
    ensures Run(cfg, s, a + b) == Run(cfg, Run(cfg, s, a), b)
    decreases |a|
  {
    if a == [] {
      assert a + b == b;
    } else {
      assert (a + b)[1..] == a[1..] + b;
      RunAppend(cfg, Exec(cfg, s, a[0]), a[1..], b);
    }
  }

  lemma RunSnoc(cfg: Config, s: State, events: seq<Event>, e: Event)
    ensures Run(cfg, s, events + [e]) == Exec(cfg, Run(cfg, s, events), e)
  {
    RunAppend(cfg, s, events, [e]);
    assert [e][1..] == [];
  }

  // ------------------------------------------------------ files stay well formed

  /** Whole records of the file's own handle, at least one. */
  ghost predicate WellFormed(h: Handle, bytes: seq<Byte>) {
    && h.Id != 0
    && EncodeAll(Parse(bytes)) == bytes
    && Parse(bytes) != []
    && forall c :: c in Parse(bytes) ==> c.Id == h
  }

  ghost predicate GoodState(cfg: Config, s: State) {
    && (forall h :: h in s.disk.files ==> WellFormed(h, s.disk.files[h].bytes))
    && GoodRing(cfg, s.mem)
  }

  /** The ring's entries fit their records and their ids were given out. */
  ghost predicate GoodRing(cfg: Config, mem: Mem) {
    && AllFit(mem.ring)
    && |mem.ring| <= cfg.capacity
    && forall c :: c in mem.ring ==> 0 < c.Id.Id <= mem.nextHandle
  }

  ghost predicate ReadsEachOnce(order: seq<Handle>, files: map<Handle, LogFile>) {
    forall h :: multiset(order)[h] == if h in files then 1 else 0
  }

  /** Data lengths fit their 32-bit field; a restart reads each file once. */
  ghost predicate GoodEvent(cfg: Config, s: State, e: Event) {
    match e
    case WriteEvent(c, _) => Fits(c)
    case CrashEvent(point, order, _) =>
      ReadsEachOnce(order, DiskAfterCrash(cfg, s, point).files)
    case _ => true
  }

  ghost predicate GoodRun(cfg: Config, s: State, events: seq<Event>)
    decreases |events|
  {
    events != [] ==> GoodEvent(cfg, s, events[0]) && GoodRun(cfg, Exec(cfg, s, events[0]), events[1..])
  }

  lemma {:induction false} KeptSubset(cfg: Config, mem: Mem, cs: seq<Content>, now: int)
    ensures forall c :: c in Kept(cfg, mem, cs, now) <==> c in cs && Flushable(cfg, mem, c, now)
  {
    if cs != [] {
      assert cs == cs[..|cs| - 1] + [cs[|cs| - 1]];
      KeptSubset(cfg, mem, cs[..|cs| - 1], now);
    }
  }

  lemma {:induction false} RecordsOfSubset(cs: seq<Content>, h: Handle)
    ensures forall c :: c in RecordsOf(cs, h) <==> c in cs && c.Id == h
    ensures RecordsOf(cs, h) == [] <==> h !in HandlesOf(cs)
  {
    if cs != [] {
      var front, last := cs[..|cs| - 1], cs[|cs| - 1];
      assert cs == front + [last];
      RecordsOfSubset(front, h);
      assert h in HandlesOf(cs) <==> h in HandlesOf(front) || h == last.Id by {
        if h in HandlesOf(front) {
          var i :| 0 <= i < |front| && front[i].Id == h;
          assert cs[i].Id == h;
        }
        if h == last.Id { assert cs[|cs| - 1].Id == h; }
      }
    }
  }

  /** Of entries whose ids were given out, a flush keeps all of a handle or none. */
  lemma {:induction false} KeptOfHandle(cfg: Config, mem: Mem, cs: seq<Content>, now: int, h: Handle)
    requires forall c :: c in cs ==> 0 < c.Id.Id <= mem.nextHandle
    ensures RecordsOf(Kept(cfg, mem, cs, now), h) == if now - h.TimeStamp <= cfg.expiry then RecordsOf(cs, h) else []
  {
    if cs != [] {
      var front, last := cs[..|cs| - 1], cs[|cs| - 1];
      KeptOfHandle(cfg, mem, front, now, h);
      assert last in cs;
      RecordsSnoc(Kept(cfg, mem, front, now), last, h);
      assert Kept(cfg, mem, front, now) + [] == Kept(cfg, mem, front, now);
    }
  }

  lemma RecordsSnoc(cs: seq<Content>, c: Content, h: Handle)
    ensures RecordsOf(cs + [c], h) == RecordsOf(cs, h) + if c.Id == h then [c] else []
    ensures HandlesOf(cs + [c]) == HandlesOf(cs) + {c.Id}
  {
    var all := cs + [c];
    assert all[..|cs|] == cs;
    assert forall i :: 0 <= i < |cs| ==> all[i] == cs[i];
    assert all[|cs|] == c;
  }

  /** Appending a handle's records to its file appends them to what the file parses to. */
  lemma AppendParses(h: Handle, bytes: seq<Byte>, rs: seq<Content>)
    requires bytes == [] || WellFormed(h, bytes)
    requires AllFit(rs) && h.Id != 0 && (forall c :: c in rs ==> c.Id == h)
    ensures Parse(bytes + EncodeAll(rs)) == Parse(bytes) + rs
    ensures bytes != [] || rs != [] ==> WellFormed(h, bytes + EncodeAll(rs))
  {
    var before := Parse(bytes);
    assert EncodeAll(before) == bytes;
    ParseAppend(before, EncodeAll(rs));
    ReplayRoundTripIff(rs);
    EncodeAllAppend(before, rs);
    assert before + rs != [] <==> before != [] || rs != [];
  }

  lemma AppendOne(files: map<Handle, LogFile>, cs: seq<Content>, only: set<Handle>, now: int, h: Handle)
    requires h in files ==> WellFormed(h, files[h].bytes)
    requires AllFit(cs) && forall c :: c in cs ==> c.Id.Id != 0
    ensures var after := AppendTo(files, cs, only, now);
            && (h in after <==> h in files || (h in HandlesOf(cs) && h in only))
            && (h in after ==> WellFormed(h, after[h].bytes))
            && Parse(Bytes(after, h)) == Parse(Bytes(files, h)) + if h in only then RecordsOf(cs, h) else []
  {
    RecordsOfSubset(cs, h);
    if h in HandlesOf(cs) && h in only {
      assert RecordsOf(cs, h)[0] in RecordsOf(cs, h);
      AppendParses(h, Bytes(files, h), RecordsOf(cs, h));
    }
  }

  lemma AppendKeepsWellFormed(files: map<Handle, LogFile>, cs: seq<Content>, only: set<Handle>, now: int)
    requires forall h :: h in files ==> WellFormed(h, files[h].bytes)
    requires AllFit(cs) && forall c :: c in cs ==> c.Id.Id != 0
    ensures forall h :: h in AppendTo(files, cs, only, now) ==> WellFormed(h, AppendTo(files, cs, only, now)[h].bytes)
  {
    forall h | h in AppendTo(files, cs, only, now) ensures WellFormed(h, AppendTo(files, cs, only, now)[h].bytes) {
      AppendOne(files, cs, only, now, h);
    }
  }

  lemma KeptFits(cfg: Config, mem: Mem, cs: seq<Content>, now: int)
    requires AllFit(cs)
    ensures AllFit(Kept(cfg, mem, cs, now)) && forall c :: c in Kept(cfg, mem, cs, now) ==> c.Id.Id != 0
  {
    KeptSubset(cfg, mem, cs, now);
  }

  ghost predicate NoZeroIds(cs: seq<Content>) {
    forall c :: c in cs ==> c.Id.Id != 0
  }

  lemma {:induction false} RecoverKeepsRing(cfg: Config, mem: Mem, cs: seq<Content>)
    requires AllFit(cs) && NoZeroIds(cs) && GoodRing(cfg, mem)
    ensures GoodRing(cfg, Recover(cfg, mem, cs))
    decreases |cs|
  {
    if cs != [] {
      RecoverKeepsRing(cfg, RecoverOne(cfg, mem, cs[0]), cs[1..]);
    }
  }

  lemma {:induction false} ReplayListFits(files: map<Handle, LogFile>, order: seq<Handle>)
    requires forall h :: h in files ==> NoZeroIds(Parse(files[h].bytes))
    ensures AllFit(ReplayList(files, order)) && NoZeroIds(ReplayList(files, order))
  {
    if order != [] { ReplayListFits(files, order[1..]); }
  }

  lemma CrashKeepsFiles(cfg: Config, s: State, point: CrashPoint)
    requires GoodState(cfg, s)
    ensures forall h :: h in DiskAfterCrash(cfg, s, point).files ==>
              WellFormed(h, DiskAfterCrash(cfg, s, point).files[h].bytes)
  {
    if point.InFlush? {
      KeptFits(cfg, s.mem, s.mem.ring, point.now);
      AppendKeepsWellFormed(s.disk.files, Kept(cfg, s.mem, s.mem.ring, point.now), point.appended, point.now);
    }
  }

  lemma ExecKeepsGood(cfg: Config, s: State, e: Event)
    requires GoodState(cfg, s) && cfg.capacity > 0 && GoodEvent(cfg, s, e)
    ensures GoodState(cfg, Exec(cfg, s, e))
  {
    match e
    case FlushEvent(now) => FlushKeepsGood(cfg, s, now);
    case CleanupEvent(now) => FlushKeepsGood(cfg, s, now);
    case CrashEvent(point, order, restart) =>
      CrashKeepsFiles(cfg, s, point);
      RestartIsGood(cfg, DiskAfterCrash(cfg, s, point), order, restart);
    case _ =>
  }

  /** A process starts in a good state on any disk of well-formed files. */
  lemma RestartIsGood(cfg: Config, disk: Disk, order: seq<Handle>, now: int)
    requires forall h :: h in disk.files ==> WellFormed(h, disk.files[h].bytes)
    ensures GoodState(cfg, Restart(cfg, disk, order, now))
  {
    ReplayListFits(disk.files, order);
    RecoverKeepsRing(cfg, EmptyMem(cfg, Fresh(disk.registry, cfg.defaultTTL, now)), ReplayList(disk.files, order));
  }

  /** A flush appends to what h's log parses to exactly h's kept entries. */
  lemma FlushParses(cfg: Config, s: State, now: int, h: Handle)
    requires GoodState(cfg, s)
    ensures var after, kept := Flush(cfg, s, now).disk.files, Kept(cfg, s.mem, s.mem.ring, now);
            && Parse(Bytes(after, h)) == Parse(Bytes(s.disk.files, h)) + RecordsOf(kept, h)
            && (h in after ==> WellFormed(h, after[h].bytes))
            && (h in s.disk.files ==> h in after)
  {
    var kept := Kept(cfg, s.mem, s.mem.ring, now);
    KeptFits(cfg, s.mem, s.mem.ring, now);
    AppendOne(s.disk.files, kept, HandlesOf(kept), now, h);
    RecordsOfSubset(kept, h);
  }

  lemma FlushKeepsGood(cfg: Config, s: State, now: int)
    requires GoodState(cfg, s)
    ensures GoodState(cfg, Flush(cfg, s, now))
  {
    var kept := Kept(cfg, s.mem, s.mem.ring, now);
    KeptFits(cfg, s.mem, s.mem.ring, now);
    AppendKeepsWellFormed(s.disk.files, kept, HandlesOf(kept), now);
  }
}
