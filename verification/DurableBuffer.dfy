/**
The durable buffer itself: an object over the ring buffer and the log directory, whose
methods are proved to take the steps of DurableModel.
*/
module DurableBuffer {
  import opened Types
  import opened WalCodec
  import opened DurableModel
  import Permutations
  import Ring
  import Sorting

  const SECOND: nat := 1_000_000_000
  const MINUTE: nat := 60 * SECOND
  const DEFAULT_UPLOADED_TTL: nat := 48 * 60 * MINUTE
  const DEFAULT_PROCESSING_TTL: nat := 5 * MINUTE

  const OVERFLOW_REJECT: nat := 1
  const MAX_RETRIES: nat := 100

  /** The conversion of a float to an integer: towards zero. */
  function Truncate(x: real): (d: int)
    ensures x >= 0.0 ==> d as real <= x < d as real + 1.0
    ensures x <= 0.0 ==> d as real - 1.0 < x <= d as real
  {
    if x >= 0.0 then x.Floor else -(-x).Floor
  }

  /** (expiry + cleanup + recovery) * factor, towards zero; a factor below 1 counts as 2. */
  function SafeLogDeletionDuration(expiry: int, cleanup: int, recovery: int, safetyFactor: real): (d: int)
    ensures expiry + cleanup + recovery >= 0 ==> d >= expiry + cleanup + recovery
    ensures expiry + cleanup + recovery < 0 ==> d <= expiry + cleanup + recovery
    ensures safetyFactor < 1.0 || safetyFactor == 2.0 ==> d == 2 * (expiry + cleanup + recovery)
    ensures safetyFactor >= 1.0 ==> TruncationOf((expiry + cleanup + recovery) as real * safetyFactor, d)
  {
    var factor := if safetyFactor < 1.0 then 2.0 else safetyFactor;
    var base := expiry + cleanup + recovery;
    var x := base as real * factor;
    Scaled(base, factor, x);
    Truncate(x)
  }

  predicate TruncationOf(x: real, d: int) {
    && (x >= 0.0 ==> d as real <= x < d as real + 1.0)
    && (x <= 0.0 ==> d as real - 1.0 < x <= d as real)
  }

  lemma Scaled(base: int, factor: real, x: real)
    requires factor >= 1.0 && x == base as real * factor
    ensures base >= 0 ==> Truncate(x) >= base
    ensures base < 0 ==> Truncate(x) <= base
    ensures factor == 2.0 ==> Truncate(x) == 2 * base
  {
    ScaleUp(base as real, factor, x);
    if base >= 0 { TruncateAtLeast(x, base); } else { TruncateAtMost(x, base); }
    if factor == 2.0 { Doubled(base, x); }
  }

  lemma Doubled(base: int, x: real)
    requires x == base as real * 2.0
    ensures Truncate(x) == 2 * base
  {
    assert x == (2 * base) as real;
    TruncateWhole(2 * base);
  }

  lemma TruncateAtLeast(x: real, n: int)
    requires n >= 0 && x >= n as real
    ensures Truncate(x) >= n
  {
    var d := Truncate(x);
    assert d < n ==> (d + 1) as real <= n as real;
  }

  lemma TruncateAtMost(x: real, n: int)
    requires n <= 0 && x <= n as real
    ensures Truncate(x) <= n
  {
    var d := Truncate(x);
    assert d > n ==> (d - 1) as real >= n as real;
  }

  lemma TruncateWhole(n: int)
    ensures Truncate(n as real) == n
  {
  }

  lemma ScaleUp(base: real, factor: real, x: real)
    requires factor >= 1.0 && x == base * factor
    ensures base >= 0.0 ==> x >= base
    ensures base <= 0.0 ==> x <= base
  {
  }

  /**
  The durations of a new buffer: deletion covers two expiry and cleanup cycles and is no
  longer than that unless asked for, and the uploaded TTL covers deletion.
  */
  predicate Clamped(cfg: Config, handleExpiry: int, cleanupInterval: int, logDeletion: int) {
    var cycle := cfg.expiry + if cleanupInterval > 0 then cleanupInterval else 30 * SECOND;
    && cfg.expiry == (if handleExpiry > 0 then handleExpiry else MINUTE)
    && cfg.deletion >= logDeletion && cfg.deletion >= 2 * cycle
    && (cfg.deletion == logDeletion || cfg.deletion == 2 * cycle)
    && cfg.defaultTTL >= DEFAULT_UPLOADED_TTL && cfg.defaultTTL >= cfg.deletion
    && (cfg.defaultTTL == DEFAULT_UPLOADED_TTL || cfg.defaultTTL == cfg.deletion)
    && cfg.processingTTL == DEFAULT_PROCESSING_TTL
  }

  function Configure(capacity: nat, handleExpiry: int, cleanupInterval: int, logDeletion: int): (cfg: Config)
    ensures cfg.capacity == capacity && Clamped(cfg, handleExpiry, cleanupInterval, logDeletion)
  {
    var expiry: nat := if handleExpiry <= 0 then MINUTE else handleExpiry;
    var cleanup: nat := if cleanupInterval <= 0 then 30 * SECOND else cleanupInterval;
    var minDeletion := SafeLogDeletionDuration(expiry, cleanup, 0, 2.0);
    var deletion: nat := if logDeletion < minDeletion then minDeletion else logDeletion;
    var ttl: nat := if DEFAULT_UPLOADED_TTL < deletion then deletion else DEFAULT_UPLOADED_TTL;
    Config(capacity, expiry, deletion, ttl, DEFAULT_PROCESSING_TTL)
  }

  /** The log directory; the registry file holds each handle once, as a save leaves it. */
  class LogDirectory {
    var files: map<Handle, LogFile>
    var registry: seq<Byte>

    ghost predicate Valid()
      reads this
    {
      DistinctHandles(Marks(registry))
    }

    constructor ()
      ensures Valid() && files == map[] && registry == []
    {
      files, registry := map[], [];
    }

    /** Open for append, write, sync. */
    method Append(h: Handle, data: seq<Byte>, now: int)
      modifies this`files
      ensures files == old(files)[h := LogFile(Bytes(old(files), h) + data, now)]
    {
      files := files[h := LogFile(Bytes(files, h) + data, now)];
    }
  }

  /** The bytes of the entries a save writes: a Range over the registry, stale ones left out. */
  method EncodeFresh(marks: map<Handle, Int64>, ttl: int, now: int) returns (bytes: seq<Byte>)
    ensures RegistryOf(bytes) == Fresh(marks, ttl, now) && DistinctHandles(Marks(bytes))
  {
    bytes := [];
    ghost var entries: seq<RegistryEntry> := [];
    var todo := marks.Keys;
    while todo != {}
      invariant todo <= marks.Keys
      invariant bytes == EncodeMarks(entries) && DistinctHandles(entries)
      invariant Table(entries) == FreshBut(marks, todo, ttl, now)
      decreases todo
    {
      var h :| h in todo;
      FreshButOneLess(marks, todo, h, ttl, now);
      todo := todo - {h};
      if now - marks[h] <= ttl {
        var m := RegistryEntry(h, marks[h]);
        EncodeMarksSnoc(entries, m);
        TableSnoc(entries, m);
        bytes := bytes + EncodeMark(m);
        entries := entries + [m];
      }
    }
    RegistryRoundTrip(entries);
  }

  /** The entries within the TTL, those still to do left out. */
  function FreshBut(marks: map<Handle, Int64>, todo: set<Handle>, ttl: int, now: int): map<Handle, Int64> {
    map h | h in marks && h !in todo && now - marks[h] <= ttl :: marks[h]
  }

  lemma FreshButOneLess(marks: map<Handle, Int64>, todo: set<Handle>, h: Handle, ttl: int, now: int)
    requires h in todo && h in marks
    ensures h !in FreshBut(marks, todo, ttl, now)
    ensures FreshBut(marks, todo - {h}, ttl, now)
         == if now - marks[h] <= ttl then FreshBut(marks, todo, ttl, now)[h := marks[h]]
             else FreshBut(marks, todo, ttl, now)
  {
  }

  /** The entries within the TTL. */
  function FreshMarks(ms: seq<RegistryEntry>, ttl: int, now: int): seq<RegistryEntry> {
    if ms == [] then []
    else
      var last := ms[|ms| - 1];
      FreshMarks(ms[..|ms| - 1], ttl, now) + if now - last.uploadedAt <= ttl then [last] else []
  }

  /** loadUploadedHandles: the whole entries of the file that are within the TTL, the last of a handle winning. */
  method LoadUploadedHandles(bytes: seq<Byte>, ttl: int, now: int) returns (loaded: map<Handle, Int64>)
    ensures loaded == Table(FreshMarks(Marks(bytes), ttl, now))
    ensures DistinctHandles(Marks(bytes)) ==> loaded == Fresh(RegistryOf(bytes), ttl, now)
  {
    loaded := map[];
    ghost var done: seq<RegistryEntry> := [];
    var pos := 0;
    assert bytes[0..] == bytes;
    while pos + 24 <= |bytes|
      invariant pos <= |bytes| && Marks(bytes) == done + Marks(bytes[pos..])
      invariant loaded == Table(FreshMarks(done, ttl, now))
      decreases |bytes| - pos
    {
      MarksStep(bytes, pos);
      var m := MarkAt(bytes, pos);
      Permutations.Associative(done, [m], Marks(bytes[pos + 24..]));
      FreshMarksSnoc(done, m, ttl, now);
      if now - m.uploadedAt <= ttl {
        loaded := loaded[m.handle := m.uploadedAt];
      }
      done := done + [m];
      pos := pos + 24;
    }
    Permutations.Associative(done, [], []);
    if DistinctHandles(done) { FreshTable(done, ttl, now); }
  }

  lemma FreshMarksSnoc(ms: seq<RegistryEntry>, m: RegistryEntry, ttl: int, now: int)
    ensures var before := Table(FreshMarks(ms, ttl, now));
            Table(FreshMarks(ms + [m], ttl, now))
                == if now - m.uploadedAt <= ttl then before[m.handle := m.uploadedAt] else before
  {
    assert (ms + [m])[..|ms|] == ms;
    TableSnoc(FreshMarks(ms, ttl, now), m);
    Permutations.Associative(FreshMarks(ms, ttl, now), [], []);
  }

  /** When each handle is listed once, the load is the saved table less its stale entries. */
  lemma {:induction false} FreshTable(ms: seq<RegistryEntry>, ttl: int, now: int)
    requires DistinctHandles(ms)
    ensures Table(FreshMarks(ms, ttl, now)) == Fresh(Table(ms), ttl, now)
  {
    if ms != [] {
      var front, last := ms[..|ms| - 1], ms[|ms| - 1];
      assert ms == front + [last];
      DistinctPrefix(front, [last]);
      FreshTable(front, ttl, now);
      FreshMarksSnoc(front, last, ttl, now);
      TableSnoc(front, last);
      FreshWith(Table(front), last.handle, last.uploadedAt, ttl, now);
    }
  }

  lemma DistinctPrefix(front: seq<RegistryEntry>, rest: seq<RegistryEntry>)
    requires DistinctHandles(front + rest)
    ensures DistinctHandles(front)
  {
    forall i, j | 0 <= i < j < |front| ensures front[i].handle != front[j].handle {
      assert (front + rest)[i].handle != (front + rest)[j].handle;
    }
  }

  lemma FreshWith(marks: map<Handle, Int64>, h: Handle, at: Int64, ttl: int, now: int)
    requires h !in marks
    ensures Fresh(marks[h := at], ttl, now)
              == if now - at <= ttl then Fresh(marks, ttl, now)[h := at] else Fresh(marks, ttl, now)
  {
  }

  /** A Range over a registry that keeps the entries within a TTL. */
  method KeepFresh(marks: map<Handle, Int64>, ttl: int, now: int) returns (kept: map<Handle, Int64>)
    ensures kept == Fresh(marks, ttl, now)
  {
    kept := map[];
    var todo := marks.Keys;
    while todo != {}
      invariant todo <= marks.Keys
      invariant kept == map h | h in marks && h !in todo && now - marks[h] <= ttl :: marks[h]
      decreases todo
    {
      var h :| h in todo;
      todo := todo - {h};
      if now - marks[h] <= ttl {
        kept := kept[h := marks[h]];
      }
    }
  }

  /** By id, and by timestamp among equal ids; so no handle twice. */
  predicate Ascending(hs: seq<Handle>) {
    forall i, j :: 0 <= i < j < |hs| ==>
      hs[i].Id < hs[j].Id || (hs[i].Id == hs[j].Id && hs[i].TimeStamp < hs[j].TimeStamp)
  }

  /** The handles of a Range, sorted by id and timestamp. */
  method SortedHandles(hs: set<Handle>) returns (r: seq<Handle>)
    ensures Ascending(r)
    ensures forall h :: h in r <==> h in hs
  {
    var items: seq<Handle> := [];
    var todo := hs;
    while todo != {}
      invariant todo <= hs && multiset(items) == multiset(hs - todo)
      decreases todo
    {
      var h :| h in todo;
      assert hs - (todo - {h}) == (hs - todo) + {h};
      todo := todo - {h};
      items := items + [h];
    }
    assert hs - todo == hs;
    r := Sorting.SortSlice(items, HandleLess);
    Permutations.ListingDistinct(r, hs);
    forall i, j | 0 <= i < j < |r|
      ensures r[i].Id < r[j].Id || (r[i].Id == r[j].Id && r[i].TimeStamp < r[j].TimeStamp)
    {
      assert !HandleLess(r[j], r[i]) && r[i] != r[j];
    }
  }

  class Buffer {
    const cfg: Config
    const log: Ring.RingBuffer<Content>
    const dir: LogDirectory
    var nextHandle: nat
    var lastTimestamp: int
    var rejecting: bool
    var handles: map<Handle, bool>
    var uploadedHandles: map<Handle, Int64>
    var processingHandles: map<Handle, Int64>
    var uploadedHandleTTL: int

    ghost predicate Valid()
      reads this, log, log.sequence, log.val, dir
    {
      && log.Valid() && dir.Valid() && cfg.capacity == log.capacity && ValidConfig(cfg)
      && cfg.defaultTTL == if DEFAULT_UPLOADED_TTL < cfg.deletion then cfg.deletion else DEFAULT_UPLOADED_TTL
    }

    ghost function MemView(): Mem
      requires Valid()
      reads this, log, log.sequence, log.val, dir
    {
      Mem(nextHandle, rejecting, log.Contents(), handles, uploadedHandles, processingHandles, uploadedHandleTTL)
    }

    ghost function View(): State
      requires Valid()
      reads this, log, log.sequence, log.val, dir
    {
      State(MemView(), Disk(dir.files, RegistryOf(dir.registry)))
    }

    /**
    NewDurableBuffer in recovery mode: clamp the durations, load the registry, replay the log
    files in some order.  The ring's capacity must not round to one slot.
    */
    constructor NewDurableBuffer(
        requested: nat, handleExpiry: int, cleanupInterval: int, logDeletion: int,
        dir: LogDirectory, order: seq<Handle>, now: int)
      requires dir.Valid() && requested != 1 && requested <= TWO63
      ensures Valid() && fresh(log) && fresh(log.sequence) && fresh(log.val) && this.dir == dir
      ensures var slots := if requested == 0 then 1024 else requested; slots <= cfg.capacity < 2 * slots
      ensures Clamped(cfg, handleExpiry, cleanupInterval, logDeletion)
      ensures View() == Restart(cfg, Disk(dir.files, RegistryOf(dir.registry)), order, now)
    {
      var ring := new Ring.RingBuffer<Content>.NewRingBuffer(if requested == 0 then 1024 else requested);
      var config := Configure(ring.capacity, handleExpiry, cleanupInterval, logDeletion);
      var ttl := config.defaultTTL;
      var loaded := LoadUploadedHandles(dir.registry, ttl, now);
      cfg, log, this.dir := config, ring, dir;
      nextHandle, lastTimestamp, rejecting := 0, 0, false;
      handles, uploadedHandles, processingHandles := map[], loaded, map[];
      uploadedHandleTTL := ttl;
      new;
      assert MemView() == EmptyMem(cfg, Fresh(RegistryOf(dir.registry), ttl, now));
      RecoverFromLog(order);
    }

    /** The replay loop of recovery: every whole record of every file, in the files' order. */
    method RecoverFromLog(order: seq<Handle>)
      requires Valid()
      modifies this`nextHandle, this`handles, log, log.sequence, log.val
      ensures Valid()
      ensures MemView() == Recover(cfg, old(MemView()), ReplayList(dir.files, order))
    {
      ghost var start := MemView();
      assert order[0..] == order;
      for k := 0 to |order|
        invariant Valid()
        invariant Recover(cfg, start, ReplayList(dir.files, order))
               == Recover(cfg, MemView(), ReplayList(dir.files, order[k..]))
      {
        ReplayListSplit(dir.files, order, k);
        RecoverFile(Bytes(dir.files, order[k]), ReplayList(dir.files, order[k + 1..]));
      }
    }

    method RecoverFile(bytes: seq<Byte>, ghost later: seq<Content>)
      requires Valid()
      modifies this`nextHandle, this`handles, log, log.sequence, log.val
      ensures Valid()
      ensures Recover(cfg, MemView(), later) == Recover(cfg, old(MemView()), Parse(bytes) + later)
    {
      assert bytes[0..] == bytes;
      ghost var end := RecoverFrom(cfg, MemView(), bytes, 0, later);
      var pos := 0;
      while Next(bytes[pos..]).Record?
        invariant Valid() && pos <= |bytes|
        invariant RecoverFrom(cfg, MemView(), bytes, pos, later) == end
        decreases |bytes| - pos
      {
        ghost var before, at := MemView(), pos;
        pos := RecoverNext(bytes, pos);
        ReadOne(cfg, before, MemView(), bytes, at, pos, later);
      }
      Permutations.Associative(later, [], []);
    }

    // One turn of the loop over a file: the record at pos.
    method RecoverNext(bytes: seq<Byte>, pos: nat) returns (after: nat)
      requires Valid() && pos <= |bytes| && Next(bytes[pos..]).Record?
      modifies this`nextHandle, this`handles, log, log.sequence, log.val
      ensures Valid() && after == pos + Next(bytes[pos..]).size <= |bytes|
      ensures MemView() == RecoverOne(cfg, old(MemView()), Next(bytes[pos..]).content)
    {
      var next := Next(bytes[pos..]);
      after := pos + next.size;
      RecoverRecord(next.content);
    }

    method RecoverRecord(c: Content)
      requires Valid()
      modifies this`nextHandle, this`handles, log, log.sequence, log.val
      ensures Valid()
      ensures MemView() == RecoverOne(cfg, old(MemView()), c)
    {
      if c.Id in uploadedHandles {
        return;
      }
      if c.Id.Id >= nextHandle {
        nextHandle := c.Id.Id + 1;
      }
      PushReplayed(c);
      handles := NoteHandle(handles, c);
    }

    // Attempt after attempt, with a pause between; nothing drains the ring meanwhile.
    method PushReplayed(c: Content)
      requires Valid()
      modifies log, log.sequence, log.val
      ensures Valid()
      ensures log.Contents() ==
                if |old(log.Contents())| < cfg.capacity then old(log.Contents()) + [c] else old(log.Contents())
    {
      var retries := 0;
      while retries <= MAX_RETRIES
        invariant Valid() && log.Contents() == old(log.Contents())
        invariant retries > 0 ==> |log.Contents()| >= cfg.capacity
      {
        var ok := log.Push(c);
        if ok {
          return;
        }
        retries := retries + 1;
      }
    }

    /** GenerateHandle under one caller: the id counter, and a timestamp above the last one. */
    method GenerateHandle(clock: int) returns (id: nat, timestamp: int)
      requires Valid()
      modifies this`nextHandle, this`lastTimestamp
      ensures Valid() && View() == Exec(cfg, old(View()), GenerateEvent)
      ensures id == old(nextHandle) + 1 && nextHandle == id && lastTimestamp == timestamp
      ensures clock > old(lastTimestamp) ==> timestamp == clock
      ensures clock <= old(lastTimestamp) ==> timestamp == old(lastTimestamp) + 1
    {
      nextHandle := nextHandle + 1;
      id := nextHandle;
      timestamp := if clock <= lastTimestamp then lastTimestamp + 1 else clock;
      lastTimestamp := timestamp;
    }

    /** Any policy but OverflowReject counts as OverflowDropOldest. */
    method SetOverflowPolicy(policy: nat)
      requires Valid()
      modifies this`rejecting
      ensures Valid() && View() == Exec(cfg, old(View()), PolicyEvent(policy == OVERFLOW_REJECT))
    {
      rejecting := policy == OVERFLOW_REJECT;
    }

    method SetUploadedHandleTTL(wanted: int)
      requires Valid()
      modifies this`uploadedHandleTTL
      ensures Valid() && View() == Exec(cfg, old(View()), TTLEvent(wanted))
      ensures wanted > 0 && wanted >= cfg.deletion ==> uploadedHandleTTL == wanted
      ensures 0 < wanted < cfg.deletion ==> uploadedHandleTTL == cfg.deletion
      ensures wanted <= 0 ==> uploadedHandleTTL >= DEFAULT_UPLOADED_TTL && uploadedHandleTTL >= cfg.deletion
      ensures wanted <= 0 ==> uploadedHandleTTL == DEFAULT_UPLOADED_TTL || uploadedHandleTTL == cfg.deletion
    {
      var ttl := if wanted <= 0 then DEFAULT_UPLOADED_TTL else wanted;
      if ttl < cfg.deletion {
        ttl := cfg.deletion;
      }
      uploadedHandleTTL := ttl;
    }

    /**
    Write.  After one Pop the second Push always finds room, so the retry rounds of the source
    are never reached.
    */
    method Write(content: Content, now: int) returns (outcome: WriteOutcome)
      requires Valid()
      modifies this`handles, log, log.sequence, log.val
      ensures Valid()
      ensures outcome == WriteResult(cfg, old(MemView()), content, now)
      ensures View() == Exec(cfg, old(View()), WriteEvent(content, now))
      ensures outcome == InvalidHandle <==>
                content.Id.Id == 0 || content.Id.Id > nextHandle || now - content.Id.TimeStamp > cfg.expiry
      ensures outcome == BufferFull <==>
                0 < content.Id.Id <= nextHandle && now - content.Id.TimeStamp <= cfg.expiry
                && |old(log.Contents())| == cfg.capacity && rejecting
      ensures outcome != Accepted ==> View() == old(View())
    {
      if content.Id.Id == 0 || content.Id.Id > nextHandle || now - content.Id.TimeStamp > cfg.expiry {
        return InvalidHandle;
      }
      var ok := PushEntry(content);
      if !ok {
        return BufferFull;
      }
      if content.Eof {
        handles := handles[content.Id := true];
      } else if !(content.Id in handles && handles[content.Id]) {
        handles := handles[content.Id := false];
      }
      return Accepted;
    }

    // The push under the mutex, with the overflow policy.
    method PushEntry(content: Content) returns (ok: bool)
      requires Valid()
      modifies log, log.sequence, log.val
      ensures Valid()
      ensures ok <==> |old(log.Contents())| < cfg.capacity || !rejecting
      ensures !ok ==> log.Contents() == old(log.Contents())
      ensures ok ==> var before := old(log.Contents());
                     log.Contents() == (if |before| >= cfg.capacity then before[1..] else before) + [content]
    {
      ok := log.Push(content);
      if !ok && !rejecting {
        var oldest := log.Pop();
        ok := log.Push(content);
        assert ok;
      }
    }

    /** Flush: drain the ring, group by file, one append a file. */
    method SyncLogToFile(now: int)
      requires Valid()
      modifies log, log.sequence, dir`files
      ensures Valid()
      ensures View() == Exec(cfg, old(View()), FlushEvent(now))
    {
      ghost var mem := MemView();
      var contents := DrainAll();
      if contents == [] {
        AppendToNone(dir.files, contents, now);
        return;
      }
      KeptIgnoresRing(cfg, mem, contents, now);
      SyncContentsToFile(contents, now);
    }

    // The drain under the mutex.
    method DrainAll() returns (contents: seq<Content>)
      requires Valid()
      modifies log, log.sequence
      ensures Valid() && contents == old(log.Contents())
      ensures MemView() == old(MemView()).(ring := [])
    {
      var buffer := new Content[log.Cap()];
      var count := log.Drain(buffer);
      contents := buffer[..count];
      assert count == |old(log.Contents())|;
      assert log.Contents() == [];
    }

    method SyncContentsToFile(contents: seq<Content>, now: int)
      requires Valid()
      modifies dir`files
      ensures Valid()
      ensures var kept := Kept(cfg, MemView(), contents, now);
              dir.files == AppendTo(old(dir.files), kept, HandlesOf(kept), now)
    {
      ghost var kept := Kept(cfg, MemView(), contents, now);
      var buffers: map<Handle, seq<Byte>> := map[];
      for i := 0 to |contents|
        invariant dir.files == old(dir.files)
        invariant Grouped(buffers, Kept(cfg, MemView(), contents[..i], now))
      {
        var entry := contents[i];
        assert contents[..i + 1][..i] == contents[..i];
        if entry.Id.Id == 0 || entry.Id.Id > nextHandle || now - entry.Id.TimeStamp > cfg.expiry {
          Permutations.Associative(Kept(cfg, MemView(), contents[..i], now), [], []);
          continue;
        }
        var logContent := BuildLogContent(entry.Id, entry);
        GroupOne(buffers, Kept(cfg, MemView(), contents[..i], now), entry);
        var sofar := if entry.Id in buffers then buffers[entry.Id] else [];
        buffers := buffers[entry.Id := sofar + logContent];
      }
      assert contents[..|contents|] == contents;
      var todo := buffers.Keys;
      assert HandlesOf(kept) - todo == {};
      AppendToNone(dir.files, kept, now);
      while todo != {}
        invariant todo <= buffers.Keys
        invariant dir.files == AppendTo(old(dir.files), kept, HandlesOf(kept) - todo, now)
        decreases todo
      {
        var h :| h in todo;
        AppendToOneMore(old(dir.files), kept, HandlesOf(kept) - todo, h, now);
        assert HandlesOf(kept) - (todo - {h}) == (HandlesOf(kept) - todo) + {h};
        todo := todo - {h};
        dir.Append(h, buffers[h], now);
      }
      assert HandlesOf(kept) - todo == HandlesOf(kept);
    }

    method PruneProcessingHandles(now: int)
      requires Valid()
      modifies this`processingHandles
      ensures Valid() && View() == PruneProcessing(cfg, old(View()), now)
    {
      processingHandles := KeepFresh(processingHandles, cfg.processingTTL, now);
    }

    method SaveUploadedHandles(now: int)
      requires Valid()
      modifies dir`registry
      ensures Valid() && View() == Save(old(View()), now)
    {
      dir.registry := EncodeFresh(uploadedHandles, uploadedHandleTTL, now);
    }

    method DoCleanup(now: int)
      requires Valid()
      modifies this`processingHandles, log, log.sequence, dir
      ensures Valid() && View() == Exec(cfg, old(View()), CleanupEvent(now))
    {
      SyncLogToFile(now);
      PruneProcessingHandles(now);
      SaveUploadedHandles(now);
    }

    /** `removed` is the set of files whose removal succeeds. */
    method MarkHandlesUploaded(hs: seq<Handle>, removed: set<Handle>, now: Int64)
      requires Valid()
      modifies this`uploadedHandles, this`handles, dir
      ensures Valid() && View() == Exec(cfg, old(View()), MarkEvent(SetOf(hs), removed, now))
      ensures forall h :: h in handles <==> h in old(handles) && h !in hs
      ensures forall h :: h in handles ==> handles[h] == old(handles)[h]
    {
      MarkInMemory(hs, now);
      SaveUploadedHandles(now);
      RemoveLogs(hs, removed);
    }

    method MarkInMemory(hs: seq<Handle>, now: Int64)
      requires Valid()
      modifies this`uploadedHandles, this`handles
      ensures Valid()
      ensures uploadedHandles == old(uploadedHandles) + AllAt(SetOf(hs), now) && handles == old(handles) - SetOf(hs)
    {
      for i := 0 to |hs|
        invariant Valid()
        invariant uploadedHandles == old(uploadedHandles) + AllAt(SetOf(hs[..i]), now)
        invariant handles == old(handles) - SetOf(hs[..i])
      {
        SetOfSnoc(hs, i);
        MarkOneMore(old(uploadedHandles), old(handles), SetOf(hs[..i]), hs[i], now);
        uploadedHandles := uploadedHandles[hs[i] := now];
        handles := handles - {hs[i]};
      }
      assert hs[..|hs|] == hs;
    }

    method RemoveLogs(hs: seq<Handle>, removed: set<Handle>)
      modifies dir`files
      ensures dir.files == old(dir.files) - (removed * SetOf(hs))
    {
      for i := 0 to |hs|
        invariant dir.files == old(dir.files) - (removed * SetOf(hs[..i]))
      {
        SetOfSnoc(hs, i);
        if hs[i] in removed {
          dir.files := dir.files - {hs[i]};
        }
      }
      assert hs[..|hs|] == hs;
    }

    /** The deletion scan, the prune and the save; `failed` are files whose removal fails. */
    method PerformLogDeletion(failed: set<Handle>, scanAt: int, pruneAt: int, saveAt: int)
      requires Valid()
      modifies this`uploadedHandles, this`processingHandles, dir
      ensures Valid() && View() == Exec(cfg, old(View()), DeleteEvent(failed, scanAt, pruneAt, saveAt))
    {
      ScanLogs(failed, scanAt);
      PruneUploadedHandles(pruneAt, saveAt);
    }

    // The loop over the directory.
    method ScanLogs(failed: set<Handle>, now: int)
      requires Valid()
      modifies this`uploadedHandles, dir`files
      ensures Valid() && View() == Scan(cfg, old(View()), failed, now)
    {
      ghost var gone := Deletable(cfg, View(), now) - failed;
      var todo := dir.files.Keys;
      while todo != {}
        invariant Valid() && todo <= old(dir.files).Keys
        invariant uploadedHandles == old(uploadedHandles) - (gone - todo)
        invariant dir.files == old(dir.files) - (gone - todo)
        decreases todo
      {
        var h :| h in todo;
        todo := todo - {h};
        if h in uploadedHandles && dir.files[h].mtime < now - cfg.deletion && h !in failed {
          dir.files := dir.files - {h};
          uploadedHandles := uploadedHandles - {h};
        }
      }
      assert gone - todo == gone;
    }

    method PruneUploadedHandles(now: int, saveAt: int)
      requires Valid()
      modifies this`uploadedHandles, this`processingHandles, dir`registry
      ensures Valid() && View() == Prune(old(View()), now, saveAt)
    {
      ghost var stale := Stale(MemView(), now);
      var todo := uploadedHandles.Keys;
      while todo != {}
        invariant Valid() && todo <= old(uploadedHandles).Keys
        invariant uploadedHandles == old(uploadedHandles) - (stale - todo)
        invariant processingHandles == old(processingHandles) - (stale - todo)
        decreases todo
      {
        var h :| h in todo;
        todo := todo - {h};
        if now - uploadedHandles[h] > uploadedHandleTTL {
          uploadedHandles := uploadedHandles - {h};
          processingHandles := processingHandles - {h};
        }
      }
      assert stale - todo == stale;
      SaveUploadedHandles(saveAt);
    }

    /** The completed handles, sorted. */
    method GetCompletedHandleForRetransmission() returns (completed: seq<Handle>)
      ensures Ascending(completed)
      ensures forall h :: h in completed <==> h in handles && handles[h]
    {
      completed := SortedHandles(set h | h in handles && handles[h]);
    }

    /** The uploaded handles that are not leased, sorted; each is leased from now on. */
    method GetUploadedHandles(now: Int64) returns (result: seq<Handle>)
      requires Valid()
      modifies this`processingHandles
      ensures Valid() && View() == Exec(cfg, old(View()), DispatchEvent(now))
      ensures Ascending(result)
      ensures forall h :: h in result <==>
                h in uploadedHandles
                && (h in old(processingHandles) ==> now - old(processingHandles)[h] > cfg.processingTTL)
    {
      var free := LeaseFree(now);
      result := SortedHandles(free);
    }

    // The Range over the uploaded handles: lease each one that is free.
    method LeaseFree(now: Int64) returns (taken: set<Handle>)
      requires Valid()
      modifies this`processingHandles
      ensures taken == Dispatchable(cfg, old(MemView()), now)
      ensures Valid() && View() == Exec(cfg, old(View()), DispatchEvent(now))
    {
      ghost var free := Dispatchable(cfg, MemView(), now);
      taken := {};
      var todo := uploadedHandles.Keys;
      while todo != {}
        invariant todo <= uploadedHandles.Keys && taken == free - todo
        invariant processingHandles == old(processingHandles) + AllAt(taken, now)
        decreases todo
      {
        var h :| h in todo;
        assert h in free <==> h !in processingHandles || now - processingHandles[h] > cfg.processingTTL;
        todo := todo - {h};
        if h !in processingHandles || now - processingHandles[h] > cfg.processingTTL {
          LeaseOneMore(old(processingHandles), taken, h, now);
          processingHandles := processingHandles[h := now];
          taken := taken + {h};
        }
      }
      assert taken == free;
    }

    method ReleaseProcessingHandle(h: Handle)
      requires Valid()
      modifies this`processingHandles
      ensures Valid() && View() == Exec(cfg, old(View()), ReleaseEvent(h))
    {
      processingHandles := processingHandles - {h};
    }
  }

  // ------------------------------------------------------------------ helpers

  function SetOf(hs: seq<Handle>): set<Handle> {
    set h | h in hs
  }

  ghost predicate Grouped(buffers: map<Handle, seq<Byte>>, cs: seq<Content>) {
    buffers.Keys == HandlesOf(cs) && forall h :: h in buffers ==> buffers[h] == EncodeAll(RecordsOf(cs, h))
  }

  lemma SetOfSnoc(hs: seq<Handle>, i: nat)
    requires i < |hs|
    ensures SetOf(hs[..i + 1]) == SetOf(hs[..i]) + {hs[i]}
  {
    assert hs[..i + 1] == hs[..i] + [hs[i]];
  }

  lemma MarkOneMore(uploaded: map<Handle, int>, handles: map<Handle, bool>, hs: set<Handle>, h: Handle, now: int)
    ensures (uploaded + AllAt(hs, now))[h := now] == uploaded + AllAt(hs + {h}, now)
    ensures (handles - hs) - {h} == handles - (hs + {h})
  {
  }

  lemma LeaseOneMore(processing: map<Handle, int>, hs: set<Handle>, h: Handle, now: int)
    ensures (processing + AllAt(hs, now))[h := now] == processing + AllAt(hs + {h}, now)
  {
  }

  lemma {:induction false} KeptIgnoresRing(cfg: Config, mem: Mem, cs: seq<Content>, now: int)
    ensures Kept(cfg, mem.(ring := []), cs, now) == Kept(cfg, mem, cs, now)
  {
    if cs != [] { KeptIgnoresRing(cfg, mem, cs[..|cs| - 1], now); }
  }

  lemma AppendToNone(files: map<Handle, LogFile>, cs: seq<Content>, now: int)
    ensures AppendTo(files, cs, {}, now) == files
  {
  }

  lemma AppendToOneMore(files: map<Handle, LogFile>, cs: seq<Content>, only: set<Handle>, h: Handle, now: int)
    requires h in HandlesOf(cs) && h !in only
    ensures AppendTo(files, cs, only + {h}, now)
         == AppendTo(files, cs, only, now)[h := LogFile(Bytes(files, h) + EncodeAll(RecordsOf(cs, h)), now)]
    ensures Bytes(AppendTo(files, cs, only, now), h) == Bytes(files, h)
  {
  }

  lemma GroupOne(buffers: map<Handle, seq<Byte>>, cs: seq<Content>, c: Content)
    requires Grouped(buffers, cs)
    ensures Grouped(buffers[c.Id := (if c.Id in buffers then buffers[c.Id] else []) + Encode(c)], cs + [c])
  {
    var sofar := if c.Id in buffers then buffers[c.Id] else [];
    var buffers' := buffers[c.Id := sofar + Encode(c)];
    RecordsSnoc(cs, c, c.Id);
    forall h | h in buffers' ensures buffers'[h] == EncodeAll(RecordsOf(cs + [c], h)) {
      RecordsSnoc(cs, c, h);
      RecordsOfSubset(cs, h);
      if h == c.Id {
        EncodeSnoc(RecordsOf(cs, h), c);
      } else {
        Permutations.Associative(RecordsOf(cs, h), [], []);
      }
    }
  }

  lemma EncodeSnoc(rs: seq<Content>, c: Content)
    ensures EncodeAll(rs + [c]) == EncodeAll(rs) + Encode(c)
  {
    EncodeAllAppend(rs, [c]);
    assert [c][1..] == [];
    Permutations.Associative(Encode(c), [], []);
  }

  lemma ReplayListSplit(files: map<Handle, LogFile>, order: seq<Handle>, k: nat)
    requires k < |order|
    ensures ReplayList(files, order[k..]) == Parse(Bytes(files, order[k])) + ReplayList(files, order[k + 1..])
  {
    assert order[k..][1..] == order[k + 1..];
  }

  // What recovery ends in when the bytes from pos on, and then the later records, are left.
  ghost function RecoverFrom(cfg: Config, mem: Mem, bytes: seq<Byte>, pos: nat, later: seq<Content>): Mem
    requires pos <= |bytes|
  {
    Recover(cfg, mem, Parse(bytes[pos..]) + later)
  }

  lemma ReadOne(cfg: Config, mem: Mem, mem': Mem, bytes: seq<Byte>, pos: nat, after: nat, later: seq<Content>)
    requires pos <= |bytes| && Next(bytes[pos..]).Record?
    requires mem' == RecoverOne(cfg, mem, Next(bytes[pos..]).content) && after == pos + Next(bytes[pos..]).size
    ensures RecoverFrom(cfg, mem', bytes, after, later) == RecoverFrom(cfg, mem, bytes, pos, later)
  {
    var next := Next(bytes[pos..]);
    assert bytes[pos..][next.size..] == bytes[after..];
    RecoverCons(cfg, mem, next.content, Parse(bytes[after..]), later);
  }

  lemma RecoverCons(cfg: Config, mem: Mem, c: Content, rest: seq<Content>, later: seq<Content>)
    ensures Recover(cfg, mem, ([c] + rest) + later) == Recover(cfg, RecoverOne(cfg, mem, c), rest + later)
  {
    assert (([c] + rest) + later)[1..] == rest + later;
  }
}
