/**
Bytes in equal bytes out.  A journal remembers every accepted entry of one process and what
became of it; the files and the ring are proved to hold exactly the entries that were
neither dropped by overflow nor skipped as expired, in order.
*/
module DurableBytes {
  import opened Wrappers
  import opened Types
  import opened WalCodec
  import opened DurableModel
  import opened DurableSafety
  import Permutations

  datatype Fate = Pending | Durable | Dropped | Skipped

  const SURVIVING: set<Fate> := {Pending, Durable}

  datatype Entry = Entry(content: Content, fate: Fate)

  /** The contents of h's entries whose fate is among `fates`, in order. */
  function Select(journal: seq<Entry>, h: Handle, fates: set<Fate>): seq<Content> {
    if journal == [] then []
    else
      var last := journal[|journal| - 1];
      Select(journal[..|journal| - 1], h, fates)
      + if last.content.Id == h && last.fate in fates then [last.content] else []
  }

  /** The ring's entries at the start of a process are pending: recovery put them there. */
  function StartJournal(ring: seq<Content>): (j: seq<Entry>)
    ensures |j| == |ring|
  {
    seq(|ring|, i requires 0 <= i < |ring| => Entry(ring[i], Pending))
  }

  function FirstPending(journal: seq<Entry>): (k: nat)
    ensures k <= |journal| && (k < |journal| ==> journal[k].fate == Pending)
    ensures forall i :: 0 <= i < k ==> journal[i].fate != Pending
  {
    if journal == [] then 0
    else if journal[0].fate == Pending then 0
    else 1 + FirstPending(journal[1..])
  }

  /** A write that overflows drops the first pending entry; the new entry is pending. */
  function JournalWrite(cfg: Config, mem: Mem, journal: seq<Entry>, c: Content, now: int): seq<Entry> {
    if WriteResult(cfg, mem, c, now) != Accepted then journal
    else DropFirstPending(journal, |mem.ring| >= cfg.capacity) + [Entry(c, Pending)]
  }

  function DropFirstPending(journal: seq<Entry>, full: bool): (j: seq<Entry>)
    ensures |j| == |journal|
  {
    var k := FirstPending(journal);
    if k < |journal| && full then journal[k := journal[k].(fate := Dropped)] else journal
  }

  /** A flush settles every pending entry: durable, or skipped when expired. */
  function Settle(cfg: Config, mem: Mem, journal: seq<Entry>, now: int): (j: seq<Entry>)
    ensures |j| == |journal|
  {
    seq(|journal|, i requires 0 <= i < |journal| =>
      if journal[i].fate == Pending
      then journal[i].(fate := if Flushable(cfg, mem, journal[i].content, now) then Durable else Skipped)
      else journal[i])
  }

  function JournalAfter(cfg: Config, s: State, e: Event, journal: seq<Entry>): seq<Entry> {
    match e
    case WriteEvent(c, now) => JournalWrite(cfg, s.mem, journal, c, now)
    case FlushEvent(now) => Settle(cfg, s.mem, journal, now)
    case CleanupEvent(now) => Settle(cfg, s.mem, journal, now)
    case _ => journal
  }

  function Journal(cfg: Config, s: State, events: seq<Event>, journal: seq<Entry>): seq<Entry>
    decreases |events|
  {
    if events == [] then journal
    else Journal(cfg, Exec(cfg, s, events[0]), events[1..], JournalAfter(cfg, s, events[0], journal))
  }

  /** One process that does not mark h uploaded. */
  predicate NoUpload(e: Event, h: Handle) {
    !e.CrashEvent? && (e.MarkEvent? ==> h !in e.handles)
  }

  // -------------------------------------------------------- accepted entries

  predicate Accepts(cfg: Config, s: State, e: Event) {
    e.WriteEvent? && WriteResult(cfg, s.mem, e.c, e.now) == Accepted
  }

  function AcceptedBy(cfg: Config, s: State, e: Event): seq<Content> {
    if Accepts(cfg, s, e) then [e.c] else []
  }

  /** The entries a run accepts, in order. */
  function AcceptedIn(cfg: Config, s: State, events: seq<Event>): seq<Content>
    decreases |events|
  {
    if events == [] then [] else AcceptedBy(cfg, s, events[0]) + AcceptedIn(cfg, Exec(cfg, s, events[0]), events[1..])
  }

  function Contents(journal: seq<Entry>): (cs: seq<Content>)
    ensures |cs| == |journal|
  {
    seq(|journal|, i requires 0 <= i < |journal| => journal[i].content)
  }

  lemma JournalGrows(cfg: Config, s: State, e: Event, journal: seq<Entry>)
    ensures Contents(JournalAfter(cfg, s, e, journal)) == Contents(journal) + AcceptedBy(cfg, s, e)
  {
  }

  /** The journal records the ring the process started with and every accepted entry, in order. */
  lemma {:induction false} JournalIsAccepted(cfg: Config, s: State, events: seq<Event>, journal: seq<Entry>)
    ensures Contents(Journal(cfg, s, events, journal)) == Contents(journal) + AcceptedIn(cfg, s, events)
    decreases |events|
  {
    if events == [] {
      Permutations.Associative(Contents(journal), [], []);
    } else {
      JournalGrows(cfg, s, events[0], journal);
      JournalIsAccepted(cfg, Exec(cfg, s, events[0]), events[1..], JournalAfter(cfg, s, events[0], journal));
      Permutations.Associative(Contents(journal), AcceptedBy(cfg, s, events[0]),
          AcceptedIn(cfg, Exec(cfg, s, events[0]), events[1..]));
    }
  }

  // ------------------------------------------------------- selecting entries

  lemma {:induction false} SelectAppend(a: seq<Entry>, b: seq<Entry>, h: Handle, fates: set<Fate>)
    ensures Select(a + b, h, fates) == Select(a, h, fates) + Select(b, h, fates)
  {
    if b == [] {
      assert a + b == a;
    } else {
      assert (a + b)[..|a + b| - 1] == a + b[..|b| - 1];
      SelectAppend(a, b[..|b| - 1], h, fates);
    }
  }

  lemma {:induction false} RecordsOfAppend(a: seq<Content>, b: seq<Content>, h: Handle)
    ensures RecordsOf(a + b, h) == RecordsOf(a, h) + RecordsOf(b, h)
  {
    if b == [] {
      assert a + b == a;
    } else {
      assert (a + b)[..|a + b| - 1] == a + b[..|b| - 1];
      RecordsOfAppend(a, b[..|b| - 1], h);
    }
  }

  // --------------------------------------------------------------- invariant

  /** The pending entries are the ring, and come last. */
  ghost predicate RingIsPending(journal: seq<Entry>, ring: seq<Content>) {
    && |ring| <= |journal|
    && (forall i :: 0 <= i < |journal| - |ring| ==> journal[i].fate != Pending)
    && (forall i :: 0 <= i < |ring| ==> journal[|journal| - |ring| + i] == Entry(ring[i], Pending))
  }

  ghost predicate BytesInv(cfg: Config, s: State, journal: seq<Entry>, h: Handle, base: seq<Content>) {
    && GoodState(cfg, s)
    && h !in s.mem.uploaded
    && RingIsPending(journal, s.mem.ring)
    && Parse(Bytes(s.disk.files, h)) == base + Select(journal, h, {Durable})
    && (h in s.disk.files ==> WellFormed(h, s.disk.files[h].bytes))
  }

  lemma {:induction false} SelectSettled(journal: seq<Entry>, h: Handle)
    requires forall i :: 0 <= i < |journal| ==> journal[i].fate != Pending
    ensures Select(journal, h, SURVIVING) == Select(journal, h, {Durable})
  {
    if journal != [] { SelectSettled(journal[..|journal| - 1], h); }
  }

  lemma {:induction false} SelectPending(journal: seq<Entry>, ring: seq<Content>, h: Handle)
    requires |journal| == |ring| && forall i :: 0 <= i < |ring| ==> journal[i] == Entry(ring[i], Pending)
    ensures Select(journal, h, {Durable}) == []
    ensures Select(journal, h, SURVIVING) == RecordsOf(ring, h)
  {
    if ring != [] { SelectPending(journal[..|ring| - 1], ring[..|ring| - 1], h); }
  }

  /** Durable entries, then the ring's: together the surviving ones, in order. */
  lemma SurvivorsSplit(journal: seq<Entry>, ring: seq<Content>, h: Handle)
    requires RingIsPending(journal, ring)
    ensures Select(journal, h, SURVIVING) == Select(journal, h, {Durable}) + RecordsOf(ring, h)
  {
    var k := |journal| - |ring|;
    var a, b := journal[..k], journal[k..];
    Permutations.SplitAt(journal, k);
    SelectAppend(a, b, h, SURVIVING);
    SelectAppend(a, b, h, {Durable});
    SelectSettled(a, h);
    SelectPending(b, ring, h);
    Permutations.Associative(Select(a, h, {Durable}), [], []);
  }

  lemma {:induction false} SelectSettlePending(cfg: Config, mem: Mem, journal: seq<Entry>, ring: seq<Content>,
      now: int, h: Handle)
    requires |journal| == |ring| && forall i :: 0 <= i < |ring| ==> journal[i] == Entry(ring[i], Pending)
    ensures Select(Settle(cfg, mem, journal, now), h, {Durable}) == RecordsOf(Kept(cfg, mem, ring, now), h)
  {
    if ring != [] {
      var n := |ring| - 1;
      SelectSettlePending(cfg, mem, journal[..n], ring[..n], now, h);
      SettleFront(cfg, mem, journal, now);
      KeptLast(cfg, mem, ring, now, h);
    }
  }

  lemma SettleFront(cfg: Config, mem: Mem, journal: seq<Entry>, now: int)
    requires journal != []
    ensures Settle(cfg, mem, journal, now)[..|journal| - 1] == Settle(cfg, mem, journal[..|journal| - 1], now)
  {
  }

  lemma KeptLast(cfg: Config, mem: Mem, ring: seq<Content>, now: int, h: Handle)
    requires ring != []
    ensures RecordsOf(Kept(cfg, mem, ring, now), h)
         == RecordsOf(Kept(cfg, mem, ring[..|ring| - 1], now), h)
            + (var last := ring[|ring| - 1]; if Flushable(cfg, mem, last, now) && last.Id == h then [last] else [])
  {
    var front, last := ring[..|ring| - 1], ring[|ring| - 1];
    RecordsSnoc(Kept(cfg, mem, front, now), last, h);
    Permutations.Associative(Kept(cfg, mem, front, now), [], []);
    Permutations.Associative(RecordsOf(Kept(cfg, mem, front, now), h), [], []);
  }

  lemma SettleSelects(cfg: Config, s: State, journal: seq<Entry>, now: int, h: Handle)
    requires RingIsPending(journal, s.mem.ring)
    ensures Select(Settle(cfg, s.mem, journal, now), h, {Durable})
         == Select(journal, h, {Durable}) + RecordsOf(Kept(cfg, s.mem, s.mem.ring, now), h)
  {
    var k := |journal| - |s.mem.ring|;
    var a, b := journal[..k], journal[k..];
    Permutations.SplitAt(journal, k);
    SettleSplits(cfg, s.mem, journal, k, now);
    SelectAppend(a, b, h, {Durable});
    SelectAppend(a, Settle(cfg, s.mem, b, now), h, {Durable});
    SelectPending(b, s.mem.ring, h);
    SelectSettlePending(cfg, s.mem, b, s.mem.ring, now, h);
    Permutations.Associative(Select(a, h, {Durable}), [], []);
  }

  lemma SettleSplits(cfg: Config, mem: Mem, journal: seq<Entry>, k: nat, now: int)
    requires k <= |journal| && forall i :: 0 <= i < k ==> journal[i].fate != Pending
    ensures Settle(cfg, mem, journal, now) == journal[..k] + Settle(cfg, mem, journal[k..], now)
  {
  }

  lemma FlushStep(cfg: Config, s: State, journal: seq<Entry>, now: int, h: Handle, base: seq<Content>)
    requires BytesInv(cfg, s, journal, h, base)
    ensures BytesInv(cfg, Flush(cfg, s, now), Settle(cfg, s.mem, journal, now), h, base)
  {
    FlushParses(cfg, s, now, h);
    SettleSelects(cfg, s, journal, now, h);
    FlushKeepsGood(cfg, s, now);
    SettledRing(cfg, s, journal, now);
    Permutations.Associative(base, Select(journal, h, {Durable}), RecordsOf(Kept(cfg, s.mem, s.mem.ring, now), h));
  }

  lemma SettledRing(cfg: Config, s: State, journal: seq<Entry>, now: int)
    ensures RingIsPending(Settle(cfg, s.mem, journal, now), [])
  {
  }

  lemma {:induction false} SelectUpdate(journal: seq<Entry>, k: nat, e: Entry, h: Handle, fates: set<Fate>)
    requires k < |journal| && journal[k].fate !in fates && e.fate !in fates
    ensures Select(journal[k := e], h, fates) == Select(journal, h, fates)
  {
    var n := |journal| - 1;
    if k < n {
      assert journal[k := e][..n] == journal[..n][k := e];
      SelectUpdate(journal[..n], k, e, h, fates);
    } else {
      assert journal[k := e][..n] == journal[..n];
    }
  }

  lemma WriteStep(cfg: Config, s: State, journal: seq<Entry>, c: Content, now: int, h: Handle, base: seq<Content>)
    requires cfg.capacity > 0 && Fits(c) && BytesInv(cfg, s, journal, h, base)
    ensures BytesInv(cfg, Exec(cfg, s, WriteEvent(c, now)), JournalWrite(cfg, s.mem, journal, c, now), h, base)
  {
    ExecKeepsGood(cfg, s, WriteEvent(c, now));
    if WriteResult(cfg, s.mem, c, now) == Accepted {
      var full := |s.mem.ring| >= cfg.capacity;
      JournalDrops(journal, s.mem.ring, full, c, h);
      WrittenRing(cfg, s, c, now);
    }
  }

  lemma WrittenRing(cfg: Config, s: State, c: Content, now: int)
    requires cfg.capacity > 0 && WriteResult(cfg, s.mem, c, now) == Accepted
    ensures var s' := Exec(cfg, s, WriteEvent(c, now));
            && s'.mem.ring == (if |s.mem.ring| >= cfg.capacity then s.mem.ring[1..] else s.mem.ring) + [c]
            && s'.disk == s.disk && s'.mem.uploaded == s.mem.uploaded
  {
  }

  lemma JournalDrops(journal: seq<Entry>, ring: seq<Content>, full: bool, c: Content, h: Handle)
    requires RingIsPending(journal, ring) && (full ==> ring != [])
    ensures var journal' := DropFirstPending(journal, full) + [Entry(c, Pending)];
            && RingIsPending(journal', (if full then ring[1..] else ring) + [c])
            && Select(journal', h, {Durable}) == Select(journal, h, {Durable})
  {
    var dropped := DropFirstPending(journal, full);
    if full { OldestIsFirstPending(journal, ring); }
    DropSelects(journal, full, h);
    OnePending(dropped, c, h);
    PendingShifts(journal, ring, dropped, full, c);
  }

  lemma DropSelects(journal: seq<Entry>, full: bool, h: Handle)
    ensures Select(DropFirstPending(journal, full), h, {Durable}) == Select(journal, h, {Durable})
  {
    var k := FirstPending(journal);
    if k < |journal| && full { SelectUpdate(journal, k, journal[k].(fate := Dropped), h, {Durable}); }
  }

  lemma OnePending(journal: seq<Entry>, c: Content, h: Handle)
    ensures Select(journal + [Entry(c, Pending)], h, {Durable}) == Select(journal, h, {Durable})
  {
    assert (journal + [Entry(c, Pending)])[..|journal|] == journal;
    Permutations.Associative(Select(journal, h, {Durable}), [], []);
  }

  lemma OldestIsFirstPending(journal: seq<Entry>, ring: seq<Content>)
    requires RingIsPending(journal, ring) && ring != []
    ensures FirstPending(journal) == |journal| - |ring|
  {
    assert journal[|journal| - |ring| + 0] == Entry(ring[0], Pending);
  }

  lemma PendingShifts(journal: seq<Entry>, ring: seq<Content>, dropped: seq<Entry>, full: bool, c: Content)
    requires RingIsPending(journal, ring) && (full ==> ring != [])
    requires dropped == if full then journal[|journal| - |ring| := journal[|journal| - |ring|].(fate := Dropped)]
              else journal
    ensures RingIsPending(dropped + [Entry(c, Pending)], (if full then ring[1..] else ring) + [c])
  {
  }

  lemma CleanupStep(cfg: Config, s: State, journal: seq<Entry>, now: int, h: Handle, base: seq<Content>)
    requires BytesInv(cfg, s, journal, h, base)
    ensures BytesInv(cfg, Cleanup(cfg, s, now), Settle(cfg, s.mem, journal, now), h, base)
  {
    FlushStep(cfg, s, journal, now, h, base);
  }

  lemma OtherStep(cfg: Config, s: State, journal: seq<Entry>, e: Event, h: Handle, base: seq<Content>)
    requires BytesInv(cfg, s, journal, h, base) && NoUpload(e, h) && GoodState(cfg, Exec(cfg, s, e))
    requires !e.WriteEvent? && !e.FlushEvent? && !e.CleanupEvent?
    ensures BytesInv(cfg, Exec(cfg, s, e), journal, h, base)
  {
    if e.DeleteEvent? { DeleteStep(cfg, s, e.failed, e.scanAt, e.pruneAt, e.saveAt, h); }
  }

  lemma {:induction false} BytesRun(cfg: Config, s: State, events: seq<Event>, journal: seq<Entry>, h: Handle,
      base: seq<Content>)
    requires ValidConfig(cfg) && BytesInv(cfg, s, journal, h, base) && GoodRun(cfg, s, events)
    requires forall k :: 0 <= k < |events| ==> NoUpload(events[k], h)
    ensures BytesInv(cfg, Run(cfg, s, events), Journal(cfg, s, events, journal), h, base)
    decreases |events|
  {
    if events != [] {
      var e := events[0];
      assert NoUpload(e, h);
      assert forall k :: 0 <= k < |events[1..]| ==> events[1..][k] == events[k + 1];
      ExecKeepsGood(cfg, s, e);
      match e {
        case WriteEvent(c, now) => WriteStep(cfg, s, journal, c, now, h, base);
        case FlushEvent(now) => FlushStep(cfg, s, journal, now, h, base);
        case CleanupEvent(now) => CleanupStep(cfg, s, journal, now, h, base);
        case _ => OtherStep(cfg, s, journal, e, h, base);
      }
      BytesRun(cfg, Exec(cfg, s, e), events[1..], JournalAfter(cfg, s, e, journal), h, base);
    }
  }

  /** What was in h's file when the process started. */
  function Base(s: State, h: Handle): seq<Content> {
    Parse(Bytes(s.disk.files, h))
  }

  /**
  At every moment of a process in which h is not uploaded: decoding h's log succeeds, and the
  decoded bytes followed by the data of h's entries still in the ring are the bytes the log
  started with followed by the data of every entry of h in the starting ring or accepted
  since, in order, except exactly those dropped by overflow or skipped as expired.
  */
  lemma BytesInEqualBytesOut(cfg: Config, s: State, events: seq<Event>, h: Handle)
    requires ValidConfig(cfg) && GoodState(cfg, s) && GoodRun(cfg, s, events) && h !in s.mem.uploaded
    requires forall k :: 0 <= k < |events| ==> NoUpload(events[k], h)
    ensures var s' := Run(cfg, s, events);
            var journal := Journal(cfg, s, events, StartJournal(s.mem.ring));
            && Contents(journal) == s.mem.ring + AcceptedIn(cfg, s, events)
            && Decode(Bytes(s'.disk.files, h)).Ok?
            && Decode(Bytes(s'.disk.files, h)).value + Payload(RecordsOf(s'.mem.ring, h))
               == Payload(Base(s, h)) + Payload(Select(journal, h, SURVIVING))
  {
    var start := StartJournal(s.mem.ring);
    StartInv(cfg, s, h);
    BytesRun(cfg, s, events, start, h, Base(s, h));
    InvAccountsForBytes(cfg, Run(cfg, s, events), Journal(cfg, s, events, start), h, Base(s, h));
    JournalIsAccepted(cfg, s, events, start);
  }

  lemma StartInv(cfg: Config, s: State, h: Handle)
    requires GoodState(cfg, s) && h !in s.mem.uploaded
    ensures BytesInv(cfg, s, StartJournal(s.mem.ring), h, Base(s, h))
    ensures Contents(StartJournal(s.mem.ring)) == s.mem.ring
  {
    SelectPending(StartJournal(s.mem.ring), s.mem.ring, h);
    Permutations.Associative(Base(s, h), [], []);
  }

  lemma InvAccountsForBytes(cfg: Config, s: State, journal: seq<Entry>, h: Handle, base: seq<Content>)
    requires BytesInv(cfg, s, journal, h, base)
    ensures Decode(Bytes(s.disk.files, h)).Ok?
    ensures Decode(Bytes(s.disk.files, h)).value + Payload(RecordsOf(s.mem.ring, h))
         == Payload(base) + Payload(Select(journal, h, SURVIVING))
  {
    var bytes := Bytes(s.disk.files, h);
    var durable, ring := Select(journal, h, {Durable}), RecordsOf(s.mem.ring, h);
    assert bytes == EncodeAll(Parse(bytes));
    DecodeRoundTrip(Parse(bytes));
    SurvivorsSplit(journal, s.mem.ring, h);
    PayloadAppend(base, durable);
    PayloadAppend(durable, ring);
    Permutations.Associative(Payload(base), Payload(durable), Payload(ring));
  }

  // ------------------------------------------- when an upload is complete

  /** The records of h a process can still bring to disk: its log's, then the ring's. */
  function Survivors(s: State, h: Handle): seq<Content> {
    Base(s, h) + RecordsOf(s.mem.ring, h)
  }

  /** The steps that lose entries of h: an overflow when the oldest is h's, a flush of entries of h past the expiry. */
  predicate Loses(cfg: Config, s: State, e: Event, h: Handle) {
    match e
    case WriteEvent(_, _) =>
      Accepts(cfg, s, e) && |s.mem.ring| >= cfg.capacity && s.mem.ring != [] && s.mem.ring[0].Id == h
    case FlushEvent(now) => h in HandlesOf(s.mem.ring) && now - h.TimeStamp > cfg.expiry
    case CleanupEvent(now) => h in HandlesOf(s.mem.ring) && now - h.TimeStamp > cfg.expiry
    case _ => false
  }

  predicate NeverLoses(cfg: Config, s: State, events: seq<Event>, h: Handle)
    decreases |events|
  {
    events != [] ==> !Loses(cfg, s, events[0], h) && NeverLoses(cfg, Exec(cfg, s, events[0]), events[1..], h)
  }

  /** Either nothing is lost and `more` is added, or something is lost. */
  ghost predicate Accounts(before: seq<Content>, after: seq<Content>, more: seq<Content>, lost: bool) {
    if lost then |after| < |before| + |more| else after == before + more
  }

  // s' is the state after a flush, or after what follows it in a cleanup.
  lemma FlushSurvivors(cfg: Config, s: State, now: int, s': State, h: Handle)
    requires GoodState(cfg, s)
    requires s'.disk.files == Flush(cfg, s, now).disk.files && s'.mem.ring == []
    ensures Accounts(Survivors(s, h), Survivors(s', h), [],
                     h in HandlesOf(s.mem.ring) && now - h.TimeStamp > cfg.expiry)
  {
    FlushParses(cfg, s, now, h);
    KeptOfHandle(cfg, s.mem, s.mem.ring, now, h);
    RecordsOfSubset(s.mem.ring, h);
    Permutations.Associative(Base(s', h), [], []);
    Permutations.Associative(Base(s, h), [], []);
    Permutations.Associative(Survivors(s, h), [], []);
  }

  lemma WriteSurvivors(cfg: Config, s: State, c: Content, now: int, h: Handle)
    requires cfg.capacity > 0
    ensures var e := WriteEvent(c, now);
            Accounts(Survivors(s, h), Survivors(Exec(cfg, s, e), h), RecordsOf(AcceptedBy(cfg, s, e), h),
                     Loses(cfg, s, e, h))
  {
    if Accepts(cfg, s, WriteEvent(c, now)) {
      WrittenRing(cfg, s, c, now);
      RoomSurvivors(Base(s, h), s.mem.ring, |s.mem.ring| >= cfg.capacity, c, h);
    } else {
      Permutations.Associative(Survivors(s, h), [], []);
    }
  }

  lemma RoomSurvivors(base: seq<Content>, ring: seq<Content>, full: bool, c: Content, h: Handle)
    requires full ==> ring != []
    ensures var lost := full && ring[0].Id == h;
            var after := base + RecordsOf((if full then ring[1..] else ring) + [c], h);
            Accounts(base + RecordsOf(ring, h), after, RecordsOf([c], h), lost)
  {
    var room := if full then ring[1..] else ring;
    RecordsOfAppend(room, [c], h);
    Permutations.Associative(base, RecordsOf(room, h), RecordsOf([c], h));
    if full { RecordsOfTail(ring, h); }
  }

  lemma RecordsOfTail(ring: seq<Content>, h: Handle)
    requires ring != []
    ensures RecordsOf(ring, h) == (if ring[0].Id == h then [ring[0]] else []) + RecordsOf(ring[1..], h)
    ensures ring[0].Id != h ==> RecordsOf(ring, h) == RecordsOf(ring[1..], h)
  {
    assert ring == [ring[0]] + ring[1..];
    RecordsOfAppend([ring[0]], ring[1..], h);
    RecordOfOne(ring[0], h);
    Permutations.Associative(RecordsOf(ring[1..], h), [], []);
  }

  lemma RecordOfOne(c: Content, h: Handle)
    ensures RecordsOf([c], h) == if c.Id == h then [c] else []
  {
    assert [c][..0] == [];
  }

  // No other step touches the ring or the log of a handle that is not uploaded.
  lemma OtherSteps(cfg: Config, s: State, e: Event, h: Handle)
    requires h !in s.mem.uploaded && NoUpload(e, h)
    requires !e.WriteEvent? && !e.FlushEvent? && !e.CleanupEvent?
    ensures Survivors(Exec(cfg, s, e), h) == Survivors(s, h)
  {
    if e.DeleteEvent? { DeleteStep(cfg, s, e.failed, e.scanAt, e.pruneAt, e.saveAt, h); }
  }

  lemma StaysNotUploaded(cfg: Config, s: State, e: Event, h: Handle)
    requires h !in s.mem.uploaded && NoUpload(e, h)
    ensures h !in Exec(cfg, s, e).mem.uploaded
  {
    if e.DeleteEvent? { DeleteStep(cfg, s, e.failed, e.scanAt, e.pruneAt, e.saveAt, h); }
  }

  lemma StepSurvivors(cfg: Config, s: State, e: Event, h: Handle)
    requires ValidConfig(cfg) && GoodState(cfg, s) && h !in s.mem.uploaded && NoUpload(e, h)
    ensures Accounts(Survivors(s, h), Survivors(Exec(cfg, s, e), h), RecordsOf(AcceptedBy(cfg, s, e), h),
                     Loses(cfg, s, e, h))
  {
    if e.WriteEvent? {
      WriteSurvivors(cfg, s, e.c, e.now, h);
    } else if e.FlushEvent? {
      FlushSurvivors(cfg, s, e.now, Exec(cfg, s, e), h);
    } else if e.CleanupEvent? {
      FlushSurvivors(cfg, s, e.now, Exec(cfg, s, e), h);
    } else {
      OtherSteps(cfg, s, e, h);
      Permutations.Associative(Survivors(s, h), [], []);
    }
  }

  lemma {:induction false} RunSurvivors(cfg: Config, s: State, events: seq<Event>, h: Handle)
    requires ValidConfig(cfg) && GoodState(cfg, s) && GoodRun(cfg, s, events) && h !in s.mem.uploaded
    requires forall k :: 0 <= k < |events| ==> NoUpload(events[k], h)
    ensures Accounts(Survivors(s, h), Survivors(Run(cfg, s, events), h), RecordsOf(AcceptedIn(cfg, s, events), h),
                     !NeverLoses(cfg, s, events, h))
    decreases |events|
  {
    if events == [] {
      Permutations.Associative(Survivors(s, h), [], []);
    } else {
      var e, s' := events[0], Exec(cfg, s, events[0]);
      assert NoUpload(e, h);
      assert forall k :: 0 <= k < |events[1..]| ==> events[1..][k] == events[k + 1];
      ExecKeepsGood(cfg, s, e);
      StepSurvivors(cfg, s, e, h);
      StaysNotUploaded(cfg, s, e, h);
      RunSurvivors(cfg, s', events[1..], h);
      RecordsOfAppend(AcceptedBy(cfg, s, e), AcceptedIn(cfg, s', events[1..]), h);
      Permutations.Associative(
        Survivors(s, h), RecordsOf(AcceptedBy(cfg, s, e), h), RecordsOf(AcceptedIn(cfg, s', events[1..]), h));
    }
  }

  /** A handle listed as complete has had its Eof. */
  ghost predicate EofSurvives(s: State, h: Handle) {
    h in s.mem.handles && s.mem.handles[h] ==> HasEof(Survivors(s, h), h)
  }

  lemma StepEof(cfg: Config, s: State, e: Event, h: Handle)
    requires ValidConfig(cfg) && GoodState(cfg, s) && h !in s.mem.uploaded && NoUpload(e, h)
    requires EofSurvives(s, h) && !Loses(cfg, s, e, h)
    ensures EofSurvives(Exec(cfg, s, e), h)
  {
    StepSurvivors(cfg, s, e, h);
    HasRecordAppend(Survivors(s, h), RecordsOf(AcceptedBy(cfg, s, e), h), h);
    var s' := Exec(cfg, s, e);
    if h in s'.mem.handles && s'.mem.handles[h] {
      StepCompletes(cfg, s, e, h);
    }
    if Accepts(cfg, s, e) && e.c.Id == h && e.c.Eof {
      RecordOfOne(e.c, h);
      assert RecordsOf([e.c], h)[0].Eof;
    }
  }

  // Only an accepted Eof completes a handle.
  lemma StepCompletes(cfg: Config, s: State, e: Event, h: Handle)
    requires !e.CrashEvent? && h in Exec(cfg, s, e).mem.handles && Exec(cfg, s, e).mem.handles[h]
    ensures (h in s.mem.handles && s.mem.handles[h]) || (Accepts(cfg, s, e) && e.c.Id == h && e.c.Eof)
  {
  }

  lemma {:induction false} RunEof(cfg: Config, s: State, events: seq<Event>, h: Handle)
    requires ValidConfig(cfg) && GoodState(cfg, s) && GoodRun(cfg, s, events) && h !in s.mem.uploaded
    requires forall k :: 0 <= k < |events| ==> NoUpload(events[k], h)
    requires EofSurvives(s, h) && NeverLoses(cfg, s, events, h)
    ensures EofSurvives(Run(cfg, s, events), h)
    decreases |events|
  {
    if events != [] {
      assert NoUpload(events[0], h);
      assert forall k :: 0 <= k < |events[1..]| ==> events[1..][k] == events[k + 1];
      ExecKeepsGood(cfg, s, events[0]);
      StaysNotUploaded(cfg, s, events[0], h);
      StepEof(cfg, s, events[0], h);
      RunEof(cfg, Exec(cfg, s, events[0]), events[1..], h);
    }
  }

  lemma FlushedAway(cfg: Config, s: State, events: seq<Event>, now: int, h: Handle)
    ensures Survivors(Run(cfg, s, events + [FlushEvent(now)]), h) == Base(Run(cfg, s, events + [FlushEvent(now)]), h)
  {
    RunSnoc(cfg, s, events, FlushEvent(now));
    Permutations.Associative(Base(Run(cfg, s, events + [FlushEvent(now)]), h), [], []);
  }

  /**
  What the coordinator uploads after a flush: the log holds every entry of h it held at the
  start, had in the ring or accepted since, exactly when no overflow met an oldest entry of h
  and no flush met entries of h past the expiry; and then a handle listed as complete has its
  Eof on disk.
  */
  lemma UploadIsCompleteIff(cfg: Config, s: State, events: seq<Event>, now: int, h: Handle)
    requires ValidConfig(cfg) && GoodState(cfg, s) && GoodRun(cfg, s, events + [FlushEvent(now)])
              && h !in s.mem.uploaded
    requires forall k :: 0 <= k < |events| ==> NoUpload(events[k], h)
    ensures var all := events + [FlushEvent(now)];
            var s' := Run(cfg, s, all);
            && (Base(s', h) == Survivors(s, h) + RecordsOf(AcceptedIn(cfg, s, all), h) <==> NeverLoses(cfg, s, all, h))
            && (NeverLoses(cfg, s, all, h) && EofSurvives(s, h) && h in s'.mem.handles && s'.mem.handles[h] ==>
                  HasEof(Base(s', h), h))
  {
    var all := events + [FlushEvent(now)];
    forall k | 0 <= k < |all| ensures NoUpload(all[k], h) {
      if k < |events| { assert all[k] == events[k]; }
    }
    RunSurvivors(cfg, s, all, h);
    FlushedAway(cfg, s, events, now, h);
    if NeverLoses(cfg, s, all, h) && EofSurvives(s, h) {
      RunEof(cfg, s, all, h);
    }
  }

  /** A process starts with it. */
  lemma RestartEofSurvives(cfg: Config, disk: Disk, order: seq<Handle>, now: int, h: Handle)
    requires forall k :: k in disk.files ==> OwnRecords(k, disk.files[k].bytes)
    requires ReadsEachOnce(order, disk.files)
    ensures EofSurvives(Restart(cfg, disk, order, now), h)
  {
    RestartRebuildsHandles(cfg, disk, order, now, h);
    HasRecordAppend(Parse(Bytes(disk.files, h)), RecordsOf(Restart(cfg, disk, order, now).mem.ring, h), h);
  }

  /** So for every process, whatever it recovered. */
  lemma UploadAfterRestartIff(
      cfg: Config, disk: Disk, order: seq<Handle>, restart: int, events: seq<Event>, now: int, h: Handle)
    requires ValidConfig(cfg) && (forall k :: k in disk.files ==> WellFormed(k, disk.files[k].bytes))
    requires ReadsEachOnce(order, disk.files) && h !in Fresh(disk.registry, cfg.defaultTTL, restart)
    requires GoodRun(cfg, Restart(cfg, disk, order, restart), events + [FlushEvent(now)])
    requires forall k :: 0 <= k < |events| ==> NoUpload(events[k], h)
    ensures var s, all := Restart(cfg, disk, order, restart), events + [FlushEvent(now)];
            var s' := Run(cfg, s, all);
            && (Base(s', h) == Survivors(s, h) + RecordsOf(AcceptedIn(cfg, s, all), h) <==> NeverLoses(cfg, s, all, h))
            && (NeverLoses(cfg, s, all, h) && h in s'.mem.handles && s'.mem.handles[h] ==> HasEof(Base(s', h), h))
  {
    RestartIsGood(cfg, disk, order, restart);
    RestartKeepsDisk(cfg, disk, order, restart);
    RestartEofSurvives(cfg, disk, order, restart, h);
    UploadIsCompleteIff(cfg, Restart(cfg, disk, order, restart), events, now, h);
  }

  // --------------------------------------- what comes after the uploaded flush

  /**
  From the flush whose log is uploaded to the mark: the upload is all that the process can
  still bring to disk exactly when nothing of h was accepted in between.
  */
  lemma UploadMissesIff(cfg: Config, s: State, between: seq<Event>, h: Handle)
    requires ValidConfig(cfg) && GoodState(cfg, s) && GoodRun(cfg, s, between) && h !in s.mem.uploaded
    requires s.mem.ring == [] && NeverLoses(cfg, s, between, h)
    requires forall k :: 0 <= k < |between| ==> NoUpload(between[k], h)
    ensures Survivors(Run(cfg, s, between), h) == Base(s, h) <==> RecordsOf(AcceptedIn(cfg, s, between), h) == []
  {
    RunSurvivors(cfg, s, between, h);
    Permutations.Associative(Base(s, h), [], []);
  }

  /**
  What becomes of entries of h that are in the ring when h is marked and its log removed: the
  next flush writes a new log exactly when there are some and h has not expired, and no part
  of the system looks at it: h is uploaded, not among the handles, and not delivered by a
  restart within the TTL.
  */
  lemma StrandedIff(
      cfg: Config, s: State, marked: int, now: int, order: seq<Handle>, restart: int, h: Handle)
    requires ValidConfig(cfg) && GoodState(cfg, s) && s.mem.uploadedTTL >= 0
    requires restart - marked <= cfg.defaultTTL
    ensures var s' := Flush(cfg, Mark(s, {h}, {h}, marked), now);
            && (h in s'.disk.files <==> h in HandlesOf(s.mem.ring) && now - h.TimeStamp <= cfg.expiry)
            && h in s'.mem.uploaded && h !in s'.mem.handles
            && h !in Restart(cfg, s'.disk, order, restart).mem.handles
  {
    var s1 := Mark(s, {h}, {h}, marked);
    ExecKeepsGood(cfg, s, MarkEvent({h}, {h}, marked));
    MarkOne(s, marked, h);
    LogAfterFlush(cfg, s1, now, h);
    HeldNotDelivered(cfg, Flush(cfg, s1, now).disk, order, restart, h);
  }

  lemma LogAfterFlush(cfg: Config, s: State, now: int, h: Handle)
    requires GoodState(cfg, s) && h !in s.disk.files
    ensures h in Flush(cfg, s, now).disk.files
       <==> h in HandlesOf(s.mem.ring) && now - h.TimeStamp <= cfg.expiry
  {
    FlushParses(cfg, s, now, h);
    KeptOfHandle(cfg, s.mem, s.mem.ring, now, h);
    RecordsOfSubset(s.mem.ring, h);
  }

  lemma HeldNotDelivered(cfg: Config, disk: Disk, order: seq<Handle>, now: int, h: Handle)
    requires h in disk.registry && now - disk.registry[h] <= cfg.defaultTTL
    ensures h !in Restart(cfg, disk, order, now).mem.handles
  {
    RecoverHandles(cfg, EmptyMem(cfg, Fresh(disk.registry, cfg.defaultTTL, now)), ReplayList(disk.files, order), h);
  }

  lemma MarkOne(s: State, marked: int, h: Handle)
    requires s.mem.uploadedTTL >= 0
    ensures var s' := Mark(s, {h}, {h}, marked);
            && s'.mem.ring == s.mem.ring && s'.mem.nextHandle == s.mem.nextHandle
            && h in s'.mem.uploaded && h !in s'.mem.handles && h !in s'.disk.files
            && h in s'.disk.registry && s'.disk.registry[h] == marked
  {
  }

  // ---------------------------------------------------- when nothing is lost

  /** Writes are refused rather than dropped, and no flush comes after h expires. */
  predicate Lossless(cfg: Config, e: Event, h: Handle) {
    match e
    case PolicyEvent(rejecting) => rejecting
    case FlushEvent(now) => now - h.TimeStamp <= cfg.expiry
    case CleanupEvent(now) => now - h.TimeStamp <= cfg.expiry
    case CrashEvent(_, _, _) => false
    case _ => true
  }

  lemma {:induction false} LosslessNeverLoses(cfg: Config, s: State, events: seq<Event>, h: Handle)
    requires s.mem.rejecting && forall k :: 0 <= k < |events| ==> Lossless(cfg, events[k], h)
    ensures NeverLoses(cfg, s, events, h)
    decreases |events|
  {
    if events != [] {
      assert Lossless(cfg, events[0], h);
      assert forall k :: 0 <= k < |events[1..]| ==> events[1..][k] == events[k + 1];
      LosslessNeverLoses(cfg, Exec(cfg, s, events[0]), events[1..], h);
    }
  }

  /**
  A process that refuses writes when full and flushes h before h expires: after a flush,
  decoding h's log gives the bytes it started with, the bytes of h's entries in the starting
  ring, and precisely the bytes of the accepted writes of h.
  */
  lemma LosslessFlushIsExact(cfg: Config, s: State, events: seq<Event>, now: int, h: Handle)
    requires ValidConfig(cfg) && GoodState(cfg, s) && GoodRun(cfg, s, events + [FlushEvent(now)])
              && h !in s.mem.uploaded
    requires s.mem.rejecting && now - h.TimeStamp <= cfg.expiry
    requires forall k :: 0 <= k < |events| ==> NoUpload(events[k], h) && Lossless(cfg, events[k], h)
    ensures var all := events + [FlushEvent(now)];
            var start := Payload(Base(s, h)) + Payload(RecordsOf(s.mem.ring, h));
            Decode(Bytes(Run(cfg, s, all).disk.files, h)) == Ok(start + Payload(RecordsOf(AcceptedIn(cfg, s, all), h)))
  {
    var all := events + [FlushEvent(now)];
    forall k | 0 <= k < |all| ensures Lossless(cfg, all[k], h) {
      if k < |events| { assert all[k] == events[k]; }
    }
    LosslessNeverLoses(cfg, s, all, h);
    UploadIsCompleteIff(cfg, s, events, now, h);
    RunKeepsGood(cfg, s, all);
    GoodFileDecodes(cfg, Run(cfg, s, all), h);
    PayloadAppend(Survivors(s, h), RecordsOf(AcceptedIn(cfg, s, all), h));
    PayloadAppend(Base(s, h), RecordsOf(s.mem.ring, h));
  }

  lemma GoodFileDecodes(cfg: Config, s: State, h: Handle)
    requires GoodState(cfg, s)
    ensures Decode(Bytes(s.disk.files, h)) == Ok(Payload(Base(s, h)))
  {
    assert Bytes(s.disk.files, h) == EncodeAll(Base(s, h));
    DecodeRoundTrip(Base(s, h));
  }

  // ------------------------------------------------------------ drop oldest

  function Last(q: seq<Content>, n: nat): seq<Content> {
    if |q| <= n then q else q[|q| - n..]
  }

  /** No drain, no restart, no switch to refusing. */
  predicate KeepsDropping(e: Event) {
    match e
    case FlushEvent(_) => false
    case CleanupEvent(_) => false
    case CrashEvent(_, _, _) => false
    case PolicyEvent(rejecting) => !rejecting
    case _ => true
  }

  /** Under drop-oldest the ring holds exactly the last `capacity` entries accepted since the last drain. */
  lemma {:induction false} DropOldestKeepsLast(cfg: Config, s: State, events: seq<Event>)
    requires cfg.capacity > 0 && !s.mem.rejecting && |s.mem.ring| <= cfg.capacity
    requires forall k :: 0 <= k < |events| ==> KeepsDropping(events[k])
    ensures Run(cfg, s, events).mem.ring == Last(s.mem.ring + AcceptedIn(cfg, s, events), cfg.capacity)
    decreases |events|
  {
    if events == [] {
      Permutations.Associative(s.mem.ring, [], []);
    } else {
      var e, s' := events[0], Exec(cfg, s, events[0]);
      assert KeepsDropping(e);
      assert forall k :: 0 <= k < |events[1..]| ==> events[1..][k] == events[k + 1];
      OneDropOldest(cfg, s, e);
      DropOldestKeepsLast(cfg, s', events[1..]);
      Permutations.Associative(s.mem.ring, AcceptedBy(cfg, s, e), AcceptedIn(cfg, s', events[1..]));
      LastOfLast(s.mem.ring + AcceptedBy(cfg, s, e), AcceptedIn(cfg, s', events[1..]), cfg.capacity);
    }
  }

  lemma OneDropOldest(cfg: Config, s: State, e: Event)
    requires cfg.capacity > 0 && !s.mem.rejecting && |s.mem.ring| <= cfg.capacity && KeepsDropping(e)
    ensures var s' := Exec(cfg, s, e);
            && s'.mem.ring == Last(s.mem.ring + AcceptedBy(cfg, s, e), cfg.capacity)
            && |s'.mem.ring| <= cfg.capacity && !s'.mem.rejecting
  {
    Permutations.Associative(s.mem.ring, [], []);
    if Accepts(cfg, s, e) {
      WrittenRing(cfg, s, e.c, e.now);
      LastOfFull(s.mem.ring, e.c, cfg.capacity);
    } else {
      RingUntouched(cfg, s, e);
    }
  }

  lemma LastOfFull(ring: seq<Content>, c: Content, n: nat)
    requires 0 < n && |ring| <= n
    ensures Last(ring + [c], n) == (if |ring| >= n then ring[1..] else ring) + [c]
  {
  }

  lemma RingUntouched(cfg: Config, s: State, e: Event)
    requires KeepsDropping(e) && !Accepts(cfg, s, e)
    ensures Exec(cfg, s, e).mem.ring == s.mem.ring
  {
  }

  lemma LastOfLast(q: seq<Content>, more: seq<Content>, n: nat)
    ensures Last(Last(q, n) + more, n) == Last(q + more, n)
  {
  }

  // ------------------------------------------------ complete, but not all there

  /**
  Three writes of one handle, the last one its Eof, into a ring of two: the handle is listed
  as complete, and its log decodes to the last two pieces without the first.
  */
  lemma CompleteWithoutItsStart(cfg: Config, s: State, a: Content, b: Content, c: Content, now: int)
    requires ValidConfig(cfg) && cfg.capacity == 2 && GoodState(cfg, s)
    requires s.mem.ring == [] && !s.mem.rejecting && a.Id !in s.disk.files && a.Id !in s.mem.handles
    requires a.Id == b.Id == c.Id && c.Eof && Fits(a) && Fits(b) && Fits(c)
    requires !Expired(cfg, s.mem, a.Id, now)
    ensures var s' := Run(cfg, s, [WriteEvent(a, now), WriteEvent(b, now), WriteEvent(c, now), FlushEvent(now)]);
            && a.Id in s'.mem.handles && s'.mem.handles[a.Id]
            && Decode(Bytes(s'.disk.files, a.Id)) == Ok(b.Data + c.Data)
  {
    var h := a.Id;
    var writes := [WriteEvent(a, now), WriteEvent(b, now), WriteEvent(c, now)];
    RunSnoc(cfg, s, writes, FlushEvent(now));
    assert writes + [FlushEvent(now)] == [WriteEvent(a, now), WriteEvent(b, now), WriteEvent(c, now), FlushEvent(now)];
    ThreeWrites(cfg, s, a, b, c, now);
    FlushOfTwo(cfg, Run(cfg, s, writes), b, c, now);
  }

  lemma FlushOfTwo(cfg: Config, s: State, b: Content, c: Content, now: int)
    requires GoodState(cfg, s) && s.mem.ring == [b, c] && b.Id == c.Id && c.Id !in s.disk.files
    requires now - c.Id.TimeStamp <= cfg.expiry
    ensures Decode(Bytes(Flush(cfg, s, now).disk.files, c.Id)) == Ok(b.Data + c.Data)
  {
    var h, s' := c.Id, Flush(cfg, s, now);
    FlushKeepsGood(cfg, s, now);
    FlushSurvivors(cfg, s, now, s', h);
    GoodFileDecodes(cfg, s', h);
    TwoRecords(b, c, h);
    assert Base(s, h) == [];
    Permutations.Associative([b, c], [], []);
    Permutations.Associative(Base(s', h), [], []);
  }

  lemma ThreeWrites(cfg: Config, s: State, a: Content, b: Content, c: Content, now: int)
    requires cfg.capacity == 2 && s.mem.ring == [] && !s.mem.rejecting && a.Id !in s.mem.handles
    requires a.Id == b.Id == c.Id && c.Eof && !Expired(cfg, s.mem, a.Id, now)
    ensures var s' := Run(cfg, s, [WriteEvent(a, now), WriteEvent(b, now), WriteEvent(c, now)]);
            && s'.disk == s.disk && s'.mem.ring == [b, c] && s'.mem.nextHandle == s.mem.nextHandle
            && c.Id in s'.mem.handles && s'.mem.handles[c.Id]
  {
    var writes := [WriteEvent(a, now), WriteEvent(b, now), WriteEvent(c, now)];
    assert writes[1..] == [WriteEvent(b, now), WriteEvent(c, now)];
    assert writes[1..][1..] == [WriteEvent(c, now)];
    assert writes[1..][1..][1..] == [];
    var s1 := Exec(cfg, s, writes[0]);
    assert s1.mem.ring == [a];
    var s2 := Exec(cfg, s1, writes[1]);
    assert s2.mem.ring == [a, b];
    var s3 := Exec(cfg, s2, writes[2]);
    assert s3.mem.ring == [a, b][1..] + [c];
    assert Run(cfg, s2, writes[1..][1..]) == s3;
  }

  lemma TwoRecords(b: Content, c: Content, h: Handle)
    requires b.Id == c.Id == h
    ensures RecordsOf([b, c], h) == [b, c] && Payload([b, c]) == b.Data + c.Data
  {
    assert [b, c] == [b] + [c];
    RecordOfOne(b, h);
    RecordOfOne(c, h);
    RecordsOfAppend([b], [c], h);
    PayloadAppend([b], [c]);
    PayloadOfOne(b);
    PayloadOfOne(c);
  }

  lemma PayloadOfOne(c: Content)
    ensures Payload([c]) == c.Data
  {
    assert [c][1..] == [];
    Permutations.Associative(c.Data, [], []);
  }
}
