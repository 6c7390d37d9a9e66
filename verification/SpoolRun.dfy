/**
 Whole runs of the spool: any mix of appends, flushes and restarts, with a power cut or device error at any
 storage operation of any of them.
 */
module SpoolRun {
  import opened Bits
  import opened Counting
  import opened Storage
  import opened SlotCommit
  import opened SpoolFormat
  import opened Spool
  import opened SpoolReclaim
  import opened SpoolFlush
  import opened Outbox

  /** One step of a run, with the device failure armed for it. */
  datatype Command =
    | Add(data: seq<u8>, priority: u8, fault: Fault)
    | Drain(replies: nat -> Reply, fault: Fault)
    | Restart(fault: Fault)

  ghost predicate WellFormed(c: Command) {
    c.Drain? ==> forall n :: c.replies(n).Failed? ==> c.replies(n).status != Ok
  }

  /** No failure, or a power cut: nothing fails while the device goes on working. */
  predicate Clean(fault: Fault) {
    fault.operation == 0 || fault.cut
  }

  /** What a step returned, the slot an append programmed, and how many events there were before it. */
  datatype Entry = Entry(status: Status, used: Option<nat>, at: nat)

  /** An append that returned success with an event type the record format knows. */
  predicate Accepted(cfg: Config, c: Command, e: Entry) {
    && c.Add? && e.status == Ok && e.used.Some? && Acceptable(cfg, c.data, c.priority)
    && 1 <= NewRec(cfg, c.data, c.priority).eventType <= 8
  }

  /** The commit event of an accepted append. */
  predicate CommittedIn(cfg: Config, c: Command, e: Entry, events: seq<Event>)
    requires Accepted(cfg, c, e)
  {
    e.at < |events| && events[e.at] == Commit(e.used.value, NewRec(cfg, c.data, c.priority))
  }

  /** Every accepted append has a commit of its own in the history, in the order of the appends. */
  predicate Recorded(cfg: Config, script: seq<Command>, log: seq<Entry>, events: seq<Event>)
    requires |log| <= |script|
  {
    && (forall k :: 0 <= k < |log| && Accepted(cfg, script[k], log[k]) ==> CommittedIn(cfg, script[k], log[k], events))
    && (forall j, k :: 0 <= j < k < |log| && Accepted(cfg, script[j], log[j]) && Accepted(cfg, script[k], log[k]) ==>
          log[j].at < log[k].at)
  }

  predicate MadeBy(cfg: Config, c: Command, rec: Rec) {
    c.Add? && Acceptable(cfg, c.data, c.priority) && rec == NewRec(cfg, c.data, c.priority)
  }

  /** Every commit is of a record that some append was asked for. */
  ghost predicate Appended(cfg: Config, script: seq<Command>, events: seq<Event>) {
    forall e :: e in events && e.Commit? ==> exists c :: c in script && MadeBy(cfg, c, e.rec)
  }

  lemma AppendedNext(cfg: Config, script: seq<Command>, c: Command, events: seq<Event>, more: seq<Event>)
    requires Appended(cfg, script, events) && forall e :: e in more && e.Commit? ==> MadeBy(cfg, c, e.rec)
    ensures Appended(cfg, script + [c], events + more)
  {
    hide MadeBy;
    forall e | e in events + more && e.Commit? ensures exists d :: d in script + [c] && MadeBy(cfg, d, e.rec) {
      if e in more {
        assert c in script + [c];
      } else {
        var d :| d in script && MadeBy(cfg, d, e.rec);
        assert d in script + [c];
      }
    }
  }

  // ---------------------------------------------------------------- reserved slots

  /** The slots from lo on that are not vacant. */
  ghost function TakenFrom(cfg: Config, b: seq<u8>, lo: nat): set<nat>
    requires SlotOffset(cfg, cfg.slots) <= |b|
  {
    set s | lo <= s < cfg.slots && !Vacant(cfg, b, s)
  }

  /** How many appends of a script have a priority that may use slots from lo on. */
  function Uses(cfg: Config, script: seq<Command>, lo: nat): nat
    requires Sane(cfg)
  {
    if script == [] then 0 else
    var c := script[|script| - 1];
    Uses(cfg, script[..|script| - 1], lo) + Use(cfg, c, lo)
  }

  function Use(cfg: Config, c: Command, lo: nat): nat
    requires Sane(cfg)
  {
    if c.Add? && SlotLimit(cfg, c.priority) > lo then 1 else 0
  }

  lemma UsesNext(cfg: Config, script: seq<Command>, c: Command, lo: nat)
    requires Sane(cfg)
    ensures Uses(cfg, script + [c], lo) == Uses(cfg, script, lo) + Use(cfg, c, lo)
  {
    assert (script + [c])[..|script|] == script;
  }

  /** The reserve counts from the start, or from a flush that drained the spool and freed every slot. */
  predicate Renewed(script: seq<Command>, log: seq<Entry>, since: nat)
    requires |log| <= |script|
  {
    since == 0 || (since <= |log| && script[since - 1].Drain? && log[since - 1].status == Ok)
  }

  /** How many slots from lo on are taken at such a point. */
  ghost function Already(cfg: Config, start: seq<u8>, since: nat, lo: nat): nat
    requires SlotOffset(cfg, cfg.slots) <= |start|
  {
    if since == 0 then |TakenFrom(cfg, start, lo)| else 0
  }

  /** Taken slots are bounded by the appends that were entitled to them. */
  ghost predicate Reserved(cfg: Config, start: seq<u8>, b: seq<u8>, script: seq<Command>, log: seq<Entry>)
    requires Sane(cfg) && |log| == |script| && SlotOffset(cfg, cfg.slots) <= |b|
    requires SlotOffset(cfg, cfg.slots) <= |start|
  {
    forall since: nat, lo: nat :: since <= |script| && Renewed(script, log, since) ==>
      |TakenFrom(cfg, b, lo)| <= Already(cfg, start, since, lo) + Uses(cfg, script[since..], lo)
  }

  /** The bound for one more command, given that it takes at most as many slots as it is entitled to. */
  lemma ReservedNext(cfg: Config, start: seq<u8>, b: seq<u8>, b': seq<u8>, script: seq<Command>, log: seq<Entry>,
                     c: Command, e: Entry)
    requires Sane(cfg) && |log| == |script| && SlotOffset(cfg, cfg.slots) <= |b| == |b'|
    requires SlotOffset(cfg, cfg.slots) <= |start|
    requires Reserved(cfg, start, b, script, log)
    requires forall lo: nat :: |TakenFrom(cfg, b', lo)| <= |TakenFrom(cfg, b, lo)| + Use(cfg, c, lo)
    requires c.Drain? && e.status == Ok ==> forall s :: 0 <= s < cfg.slots ==> Vacant(cfg, b', s)
    ensures Reserved(cfg, start, b', script + [c], log + [e])
  {
    hide Vacant, SlotOffset, Uses, SlotLimit, Use;
    var script', log' := script + [c], log + [e];
    forall since: nat, lo: nat | since <= |script'| && Renewed(script', log', since)
      ensures |TakenFrom(cfg, b', lo)| <= Already(cfg, start, since, lo) + Uses(cfg, script'[since..], lo)
    {
      if since <= |script| {
        assert script'[since..] == script[since..] + [c] && Renewed(script, log, since);
        UsesNext(cfg, script[since..], c, lo);
      } else {
        assert TakenFrom(cfg, b', lo) == {};
      }
    }
  }

  /** A command that takes no slot. */
  lemma ReservedKept(cfg: Config, start: seq<u8>, b: seq<u8>, b': seq<u8>, script: seq<Command>, log: seq<Entry>,
                     c: Command, e: Entry)
    requires Sane(cfg) && |log| == |script| && SlotOffset(cfg, cfg.slots) <= |b| == |b'|
    requires SlotOffset(cfg, cfg.slots) <= |start|
    requires Reserved(cfg, start, b, script, log) && KeepsVacant(cfg, b, b')
    requires c.Drain? && e.status == Ok ==> forall s :: 0 <= s < cfg.slots ==> Vacant(cfg, b', s)
    ensures Reserved(cfg, start, b', script + [c], log + [e])
  {
    hide Vacant, SlotOffset, Uses, SlotLimit, Reserved;
    forall lo: nat ensures |TakenFrom(cfg, b', lo)| <= |TakenFrom(cfg, b, lo)| + Use(cfg, c, lo) {
      Smaller(TakenFrom(cfg, b', lo), TakenFrom(cfg, b, lo));
    }
    ReservedNext(cfg, start, b, b', script, log, c, e);
  }

  /** An append takes at most the one slot it programmed, which lies below the limit of its priority. */
  lemma ReservedAppend(cfg: Config, start: seq<u8>, b: seq<u8>, b': seq<u8>, script: seq<Command>, log: seq<Entry>,
                       c: Command, e: Entry, slot: nat)
    requires Sane(cfg) && |log| == |script| && SlotOffset(cfg, cfg.slots) <= |b| == |b'|
    requires SlotOffset(cfg, cfg.slots) <= |start|
    requires Reserved(cfg, start, b, script, log) && c.Add? && slot < SlotLimit(cfg, c.priority)
    requires SlotOffset(cfg, slot) + SlotSize(cfg) <= |b| && OnlySlot(b, b', SlotOffset(cfg, slot), SlotSize(cfg))
    ensures Reserved(cfg, start, b', script + [c], log + [e])
  {
    hide SlotOffset, Uses, SlotLimit, OnlySlot, Slot, SlotSize, Reserved;
    forall lo: nat ensures |TakenFrom(cfg, b', lo)| <= |TakenFrom(cfg, b, lo)| + Use(cfg, c, lo) {
      forall s: nat | s < cfg.slots && s != slot ensures Vacant(cfg, b', s) == Vacant(cfg, b, s) {
        OtherSlotSame(cfg, b, b', slot, s);
      }
      var one := if slot >= lo then {slot} else {};
      Smaller(TakenFrom(cfg, b', lo), TakenFrom(cfg, b, lo) + one);
    }
    ReservedNext(cfg, start, b, b', script, log, c, e);
  }

  /** The append found no vacant slot below its limit. */
  predicate Full(cfg: Config, c: Command, e: Entry) {
    c.Add? && Acceptable(cfg, c.data, c.priority) && e.status == Enospace && e.used.None?
  }

  /**
   An append is turned away only after as many earlier appends, since the spool was last drained, were entitled to the
   slots from lo on as there are such slots below its own limit.
   */
  ghost predicate TurnedAway(cfg: Config, start: seq<u8>, script: seq<Command>, log: seq<Entry>)
    requires Sane(cfg) && |log| <= |script| && SlotOffset(cfg, cfg.slots) <= |start|
  {
    forall k, since: nat, lo: nat ::
      since <= k < |log| && Full(cfg, script[k], log[k]) && Renewed(script, log, since) ==>
      SlotLimit(cfg, script[k].priority) - lo <= Already(cfg, start, since, lo) + Uses(cfg, script[since..k], lo)
  }

  lemma FullMeansTaken(cfg: Config, start: seq<u8>, b: seq<u8>, script: seq<Command>, log: seq<Entry>, limit: nat,
                       since: nat, lo: nat)
    requires Sane(cfg) && |log| == |script| && SlotOffset(cfg, cfg.slots) <= |b|
    requires SlotOffset(cfg, cfg.slots) <= |start|
    requires Reserved(cfg, start, b, script, log) && since <= |script| && Renewed(script, log, since)
    requires limit <= cfg.slots && forall s :: 0 <= s < limit ==> !Vacant(cfg, b, s)
    ensures limit - lo <= Already(cfg, start, since, lo) + Uses(cfg, script[since..], lo)
  {
    hide Vacant, SlotOffset, Uses;
    if lo < limit {
      Smaller(UpTo(lo), UpTo(limit));
      assert UpTo(lo) <= UpTo(limit);
      var span := UpTo(limit) - UpTo(lo);
      assert UpTo(limit) == UpTo(lo) + span;
      Smaller(span, TakenFrom(cfg, b, lo));
    }
  }

  /**
   The reserve for emergencies: on a spool whose emergency slots start out free, or that was drained since, an emergency
   append finds a slot as long as fewer emergency appends have been made from there than slots are reserved for them.
   */
  lemma EmergencyReserve(cfg: Config, start: seq<u8>, script: seq<Command>, log: seq<Entry>, since: nat, k: nat)
    requires Sane(cfg) && since <= k < |log| <= |script| && SlotOffset(cfg, cfg.slots) <= |start|
    requires TurnedAway(cfg, start, script, log) && Renewed(script, log, since)
    requires since == 0 ==> forall s :: cfg.slots - cfg.reservedEmergency <= s < cfg.slots ==> Vacant(cfg, start, s)
    requires script[k].Add? && script[k].priority == EMERGENCY && Emergencies(script[since..k]) < cfg.reservedEmergency
    ensures !Full(cfg, script[k], log[k])
  {
    hide Vacant, SlotOffset, Uses, Acceptable, Renewed;
    var lo := cfg.slots - cfg.reservedEmergency;
    assert since == 0 ==> TakenFrom(cfg, start, lo) == {};
    OnlyEmergencies(cfg, script[since..k]);
    assert Already(cfg, start, since, lo) + Uses(cfg, script[since..k], lo) < cfg.reservedEmergency;
  }

  /** Every append finds a slot while fewer appends were made, and slots taken, than lie below the critical reserve. */
  lemma OrdinaryRoom(cfg: Config, start: seq<u8>, script: seq<Command>, log: seq<Entry>, since: nat, k: nat)
    requires Sane(cfg) && since <= k < |log| <= |script| && SlotOffset(cfg, cfg.slots) <= |start|
    requires TurnedAway(cfg, start, script, log) && Renewed(script, log, since)
    requires (if since == 0 then |TakenFrom(cfg, start, 0)| else 0) + Appends(script[since..k])
          < cfg.slots - cfg.reservedCritical
    ensures !Full(cfg, script[k], log[k])
  {
    hide Vacant, SlotOffset, Uses, Acceptable, Renewed;
    AllAppends(cfg, script[since..k]);
    assert Already(cfg, start, since, 0) + Uses(cfg, script[since..k], 0) < cfg.slots - cfg.reservedCritical;
  }

  function Appends(script: seq<Command>): nat {
    if script == [] then 0 else Appends(script[..|script| - 1]) + if script[|script| - 1].Add? then 1 else 0
  }

  lemma {:induction false} AllAppends(cfg: Config, script: seq<Command>)
    requires Sane(cfg)
    ensures Uses(cfg, script, 0) <= Appends(script)
    decreases |script|
  {
    if script != [] {
      AllAppends(cfg, script[..|script| - 1]);
    }
  }

  function Emergencies(script: seq<Command>): nat {
    if script == [] then 0 else
    var c := script[|script| - 1];
    Emergencies(script[..|script| - 1]) + if c.Add? && c.priority == EMERGENCY then 1 else 0
  }

  lemma {:induction false} OnlyEmergencies(cfg: Config, script: seq<Command>)
    requires Sane(cfg)
    ensures Uses(cfg, script, cfg.slots - cfg.reservedEmergency) <= Emergencies(script)
    decreases |script|
  {
    if script != [] {
      OnlyEmergencies(cfg, script[..|script| - 1]);
    }
  }

  /** The reserve for critical events, shared with emergencies. */
  lemma CriticalReserve(cfg: Config, start: seq<u8>, script: seq<Command>, log: seq<Entry>, since: nat, k: nat)
    requires Sane(cfg) && since <= k < |log| <= |script| && SlotOffset(cfg, cfg.slots) <= |start|
    requires TurnedAway(cfg, start, script, log) && Renewed(script, log, since)
    requires since == 0 ==> forall s :: cfg.slots - cfg.reservedCritical <= s < cfg.slots ==> Vacant(cfg, start, s)
    requires script[k].Add? && script[k].priority == CRITICAL
    requires Urgent(script[since..k]) < cfg.reservedCritical - cfg.reservedEmergency
    ensures !Full(cfg, script[k], log[k])
  {
    hide Vacant, SlotOffset, Uses, Acceptable, Renewed;
    var lo := cfg.slots - cfg.reservedCritical;
    assert since == 0 ==> TakenFrom(cfg, start, lo) == {};
    OnlyUrgent(cfg, script[since..k]);
    var room := cfg.reservedCritical - cfg.reservedEmergency;
    assert Already(cfg, start, since, lo) + Uses(cfg, script[since..k], lo) < room;
  }

  function Urgent(script: seq<Command>): nat {
    if script == [] then 0 else
    var c := script[|script| - 1];
    Urgent(script[..|script| - 1]) + if c.Add? && c.priority <= CRITICAL then 1 else 0
  }

  lemma {:induction false} OnlyUrgent(cfg: Config, script: seq<Command>)
    requires Sane(cfg)
    ensures Uses(cfg, script, cfg.slots - cfg.reservedCritical) <= Urgent(script)
    decreases |script|
  {
    if script != [] {
      OnlyUrgent(cfg, script[..|script| - 1]);
    }
  }

  // ---------------------------------------------------------------- runs

  /** What holds after the first commands of a run. */
  ghost predicate Sofar(cfg: Config, start: seq<u8>, b: seq<u8>, script: seq<Command>, log: seq<Entry>,
                        events: seq<Event>)
    requires Sane(cfg) && |log| == |script| && SlotOffset(cfg, cfg.slots) <= |b|
    requires SlotOffset(cfg, cfg.slots) <= |start|
  {
    && History(cfg, View(cfg, start), events) && View(cfg, b) == Replay(View(cfg, start), events)
    && Recorded(cfg, script, log, events) && Appended(cfg, script, events) && Reserved(cfg, start, b, script, log)
    && TurnedAway(cfg, start, script, log)
  }

  /** Runs one command. */
  method Step(store: Spool.Store, c: Command, ghost start: seq<u8>, ghost script: seq<Command>, ghost log: seq<Entry>,
              ghost events: seq<Event>)
      returns (ghost entry: Entry, ghost all: seq<Event>)
    requires store.Ready() && WellFormed(c) && SlotOffset(store.cfg, store.cfg.slots) <= |start| && |log| == |script|
    requires Sofar(store.cfg, start, store.raw.data[..], script, log, events)
    modifies store, store.raw, store.raw.data
    ensures Sofar(store.cfg, start, store.raw.data[..], script + [c], log + [entry], all)
    ensures events <= all && (Clean(c.fault) ==> NoneUnreadable(all[|events|..]))
  {
    hide SlotOffset, StorageSize, View, History, Replay, Recorded, Appended, Reserved, TurnedAway, KeepsVacant,
         InOrder, OnlySlot, SlotSize, Vacant, SlotLimit;
    var cfg := store.cfg;
    ghost var b := store.raw.data[..];
    ghost var more: seq<Event> := [];
    store.raw.FailAt(c.fault);
    match c {
      case Add(data, priority, _) =>
        var status;
        ghost var used;
        status, used := store.Append(data, priority);
        entry := Entry(status, used, |events|);
        if used.Some? && View(cfg, store.raw.data[..]) != View(cfg, b) {
          more := [Commit(used.value, NewRec(cfg, data, priority))];
        }
        AddStep(store, start, b, store.raw.data[..], script, log, c, entry, events, more);
      case Drain(replies, _) =>
        var status;
        ghost var fetches;
        status, more, fetches := Flush(store, replies);
        entry := Entry(status, None, |events|);
        OtherStep(cfg, start, b, store.raw.data[..], script, log, c, entry, events, more);
      case Restart(_) =>
        store.sequence := 0;
        var status := Init(store);
        entry := Entry(status, None, |events|);
        StartsEmpty(cfg, View(cfg, b));
        OtherStep(cfg, start, b, store.raw.data[..], script, log, c, entry, events, more);
    }
    all := events + more;
  }

  lemma RecordedNext(cfg: Config, script: seq<Command>, log: seq<Entry>, c: Command, e: Entry, events: seq<Event>,
                     more: seq<Event>)
    requires |log| == |script| && Recorded(cfg, script, log, events) && e.at == |events|
    requires Accepted(cfg, c, e) ==> more == [Commit(e.used.value, NewRec(cfg, c.data, c.priority))]
    ensures Recorded(cfg, script + [c], log + [e], events + more)
  {
    hide Acceptable, NewRec, Accepted;
    var script', log', events' := script + [c], log + [e], events + more;
    forall k | 0 <= k < |log'|
      && Accepted(cfg, script'[k], log'[k]) ensures CommittedIn(cfg, script'[k], log'[k], events') {
      if k < |log| {
        assert Accepted(cfg, script[k], log[k]) && CommittedIn(cfg, script[k], log[k], events);
      }
    }
    forall j, k | 0 <= j < k < |log'| && Accepted(cfg, script'[j], log'[j]) && Accepted(cfg, script'[k], log'[k])
      ensures log'[j].at < log'[k].at
    {
      assert Accepted(cfg, script[j], log[j]) && CommittedIn(cfg, script[j], log[j], events);
    }
  }

  lemma AcceptedIs(cfg: Config, c: Command, e: Entry)
    requires Accepted(cfg, c, e)
    ensures c.Add? && e.used.Some? && Acceptable(cfg, c.data, c.priority)
  {
  }

  lemma TurnedAwayNext(cfg: Config, start: seq<u8>, b: seq<u8>, script: seq<Command>, log: seq<Entry>, c: Command,
                       e: Entry)
    requires Sane(cfg) && |log| == |script| && SlotOffset(cfg, cfg.slots) <= |start|
    requires SlotOffset(cfg, cfg.slots) <= |b|
    requires TurnedAway(cfg, start, script, log) && Reserved(cfg, start, b, script, log)
    requires Full(cfg, c, e) ==> forall s :: 0 <= s < SlotLimit(cfg, c.priority) ==> !Vacant(cfg, b, s)
    ensures TurnedAway(cfg, start, script + [c], log + [e])
  {
    hide Vacant, SlotOffset, Uses, Acceptable, Reserved, SlotLimit;
    var script', log' := script + [c], log + [e];
    forall k, since: nat, lo: nat
      | since <= k < |log'| && Full(cfg, script'[k], log'[k]) && Renewed(script', log', since)
      ensures SlotLimit(cfg, script'[k].priority) - lo
           <= Already(cfg, start, since, lo) + Uses(cfg, script'[since..k], lo)
    {
      assert Renewed(script, log, since);
      if k < |log| {
        assert Full(cfg, script[k], log[k]) && script'[since..k] == script[since..k];
      } else {
        assert script'[since..k] == script[since..];
        FullMeansTaken(cfg, start, b, script, log, SlotLimit(cfg, c.priority), since, lo);
      }
    }
  }

  /** A flush or a restart. */
  lemma OtherStep(cfg: Config, start: seq<u8>, b: seq<u8>, b': seq<u8>, script: seq<Command>, log: seq<Entry>,
                  c: Command, e: Entry, events: seq<Event>, more: seq<Event>)
    requires Sane(cfg) && |log| == |script| && SlotOffset(cfg, cfg.slots) <= |b| == |b'|
    requires SlotOffset(cfg, cfg.slots) <= |start|
    requires Sofar(cfg, start, b, script, log, events) && !c.Add? && e.at == |events|
    requires History(cfg, View(cfg, b), more) && View(cfg, b') == Replay(View(cfg, b), more) && KeepsVacant(cfg, b, b')
    requires forall x :: x in more ==> !x.Commit?
    requires c.Drain? && e.status == Ok ==> forall s :: 0 <= s < cfg.slots ==> Vacant(cfg, b', s)
    ensures Sofar(cfg, start, b', script + [c], log + [e], events + more)
  {
    hide SlotOffset, View, History, Replay, Recorded, Reserved, TurnedAway, KeepsVacant, Appended;
    AppendedNext(cfg, script, c, events, more);
    HistoryConcat(cfg, View(cfg, start), events, more);
    RecordedNext(cfg, script, log, c, e, events, more);
    TurnedAwayNext(cfg, start, b, script, log, c, e);
    ReservedKept(cfg, start, b, b', script, log, c, e);
  }

  /** An append. */
  lemma AddStep(store: Spool.Store, start: seq<u8>, b: seq<u8>, b': seq<u8>, script: seq<Command>, log: seq<Entry>,
                c: Command, e: Entry, events: seq<Event>, more: seq<Event>)
    requires store.Ready() && |log| == |script| && SlotOffset(store.cfg, store.cfg.slots) <= |b| == |b'|
    requires SlotOffset(store.cfg, store.cfg.slots) <= |start|
    requires Sofar(store.cfg, start, b, script, log, events) && c.Add? && e.at == |events|
    requires e.used.None? ==> b' == b && e.status != Ok && more == []
    requires e.used.Some? ==>
      Acceptable(store.cfg, c.data, c.priority) && e.used.value < SlotLimit(store.cfg, c.priority)
    requires e.used.Some? ==> store.Touches(b, b', e.used.value) && e.used.value !in View(store.cfg, b)
    requires e.used.Some? ==> var rec := NewRec(store.cfg, c.data, c.priority); var v := View(store.cfg, b);
      || (View(store.cfg, b') == v && more == [])
      || (View(store.cfg, b') == v[e.used.value := rec] && more == [Commit(e.used.value, rec)])
    requires Accepted(store.cfg, c, e) ==> more != []
    requires Full(store.cfg, c, e) ==>
      forall s :: 0 <= s < SlotLimit(store.cfg, c.priority) ==> !Vacant(store.cfg, b, s)
    ensures Sofar(store.cfg, start, b', script + [c], log + [e], events + more)
  {
    hide SlotOffset, View, Recorded, Reserved, TurnedAway, KeepsVacant, Vacant, SlotLimit, OnlySlot, Acceptable,
         NewRec, Accepted, Full, Intact, History, Replay, Appended;
    var cfg := store.cfg;
    AppendedNext(cfg, script, c, events, more);
    OneCommit(cfg, View(cfg, b), e.used, more);
    HistoryConcat(cfg, View(cfg, start), events, more);
    if Accepted(cfg, c, e) {
      AcceptedIs(cfg, c, e);
    }
    RecordedNext(cfg, script, log, c, e, events, more);
    TurnedAwayNext(cfg, start, b, script, log, c, e);
    if e.used.Some? {
      ReservedAppend(cfg, start, b, b', script, log, c, e, e.used.value);
    } else {
      KeepsVacantSame(cfg, b);
      ReservedKept(cfg, start, b, b', script, log, c, e);
    }
  }

  lemma OneCommit(cfg: Config, view: map<nat, Rec>, used: Option<nat>, more: seq<Event>)
    requires || more == []
             || (|more| == 1 && more[0].Commit? && used == Some(more[0].slot) && more[0].slot !in view
                 && Intact(cfg, more[0].rec))
    ensures History(cfg, view, more)
    ensures Replay(view, more) == if more == [] then view else view[more[0].slot := more[0].rec]
  {
    if more != [] {
      assert more[..0] == [];
    }
  }

  /** Still on flash, committed, byte for byte, or taken by a transport after its commit. */
  ghost predicate Settled(view: map<nat, Rec>, events: seq<Event>, at: nat, slot: nat, rec: Rec)
    requires at < |events|
  {
    Has(view, slot, rec) || Sent(slot, rec) in events[at + 1..]
  }

  /** Where the envelope of an accepted append is in the end; the third case needs a read that failed with power on. */
  ghost predicate Safe(view: map<nat, Rec>, events: seq<Event>, at: nat, slot: nat, rec: Rec)
    requires at < |events|
  {
    Settled(view, events, at, slot, rec) || Gone(slot, rec, Unreadable) in events[at + 1..]
  }

  /**
   Any run. Every envelope accepted by an append has its own commit and is safe in the end; where every failure is a
   power cut, it is on flash or was taken by a transport. Everything committed or sent was there at the start or was
   appended, and appends are turned away only when the slots open to them are used up.
   */
  method Run(dev: Device, cfg: Config, script: seq<Command>) returns (ghost log: seq<Entry>, ghost events: seq<Event>)
    requires Sane(cfg) && StorageSize(cfg) <= dev.data.Length && forall c :: c in script ==> WellFormed(c)
    modifies dev, dev.data
    ensures |log| == |script| && SlotOffset(cfg, cfg.slots) <= dev.data.Length
    ensures Sofar(cfg, old(dev.data[..]), dev.data[..], script, log, events)
    ensures forall k :: 0 <= k < |log| && Accepted(cfg, script[k], log[k]) ==>
      && CommittedIn(cfg, script[k], log[k], events)
      && Safe(View(cfg, dev.data[..]), events, log[k].at, log[k].used.value,
              NewRec(cfg, script[k].data, script[k].priority))
    ensures (forall c :: c in script ==> Clean(c.fault)) ==> NoneUnreadable(events)
    ensures (forall c :: c in script ==> Clean(c.fault)) ==>
      forall k :: 0 <= k < |log| && Accepted(cfg, script[k], log[k]) ==>
        Settled(View(cfg, dev.data[..]), events, log[k].at, log[k].used.value,
                NewRec(cfg, script[k].data, script[k].priority))
  {
    hide SlotOffset, StorageSize, View, History, Replay, Recorded, Reserved, TurnedAway, Sofar, NoneUnreadable,
         Accepted, Settled, Safe;
    var store := new Spool.Store(dev, cfg);
    ghost var start := dev.data[..];
    log, events := [], [];
    SofarNone(cfg, start);
    var i := 0;
    while i < |script|
      invariant 0 <= i <= |script| && |log| == i && fresh(store) && store.raw == dev && store.cfg == cfg
      invariant store.Ready()
      invariant Sofar(cfg, start, dev.data[..], script[..i], log, events)
      invariant (forall c :: c in script ==> Clean(c.fault)) ==> NoneUnreadable(events)
    {
      ghost var entry, all;
      entry, all := Step(store, script[i], start, script[..i], log, events);
      NoneUnreadableJoin(events, all);
      assert script[..i] + [script[i]] == script[..i + 1];
      log, events := log + [entry], all;
      i := i + 1;
    }
    assert script[..i] == script;
    AllSafe(cfg, start, dev.data[..], script, log, events);
  }

  lemma SofarNone(cfg: Config, b: seq<u8>)
    requires Sane(cfg) && SlotOffset(cfg, cfg.slots) <= |b|
    ensures Sofar(cfg, b, b, [], [], []) && NoneUnreadable([])
  {
    hide SlotOffset, View, Vacant;
  }

  lemma NoneUnreadableJoin(events: seq<Event>, all: seq<Event>)
    requires events <= all
    ensures NoneUnreadable(events) && NoneUnreadable(all[|events|..]) ==> NoneUnreadable(all)
  {
    assert all == events + all[|events|..];
  }

  lemma AllSafe(cfg: Config, start: seq<u8>, b: seq<u8>, script: seq<Command>, log: seq<Entry>, events: seq<Event>)
    requires Sane(cfg) && |log| == |script| && SlotOffset(cfg, cfg.slots) <= |b|
    requires SlotOffset(cfg, cfg.slots) <= |start|
    requires Sofar(cfg, start, b, script, log, events)
    ensures forall k :: 0 <= k < |log| && Accepted(cfg, script[k], log[k]) ==>
      var slot, rec := log[k].used.value, NewRec(cfg, script[k].data, script[k].priority);
      && CommittedIn(cfg, script[k], log[k], events) && Safe(View(cfg, b), events, log[k].at, slot, rec)
      && (NoneUnreadable(events) ==> Settled(View(cfg, b), events, log[k].at, slot, rec))
  {
    hide SlotOffset, View, History, Replay, Reserved, TurnedAway, Intact, NewRec, Acceptable, Appended;
    forall k | 0 <= k < |log| && Accepted(cfg, script[k], log[k])
      ensures var slot, rec := log[k].used.value, NewRec(cfg, script[k].data, script[k].priority);
        && CommittedIn(cfg, script[k], log[k], events) && Safe(View(cfg, b), events, log[k].at, slot, rec)
        && (NoneUnreadable(events) ==> Settled(View(cfg, b), events, log[k].at, slot, rec))
    {
      assert CommittedIn(cfg, script[k], log[k], events);
      AcceptedIs(cfg, script[k], log[k]);
      NeverLost(cfg, View(cfg, start), events, log[k].at + 1, log[k].used.value,
                NewRec(cfg, script[k].data, script[k].priority));
    }
  }

  /**
   A read error loses a record: appended to an empty spool, reported as stored, and dropped by a flush whose transport
   would have taken it, because the read of its payload fails once with power staying on.
   */
  method ReadErrorLoses(store: Spool.Store, data: seq<u8>, priority: u8)
      returns (stored: Status, ghost slot: nat, ghost events: seq<Event>)
    requires store.Ready() && store.Whole() && View(store.cfg, store.raw.data[..]) == map[]
    requires Acceptable(store.cfg, data, priority) && 1 <= NewRec(store.cfg, data, priority).eventType <= 8
    requires store.BlankSlot(store.raw.data[..], SlotLimit(store.cfg, priority))
    modifies store, store.raw, store.raw.data
    ensures stored == Ok && View(store.cfg, store.raw.data[..]) == map[]
    ensures var rec := NewRec(store.cfg, data, priority);
      Gone(slot, rec, Unreadable) in events && forall s, r :: Sent(s, r) !in events
  {
    hide SlotOffset, StorageSize, View, History, Replay, InOrder, KeepsVacant, Vacant, SlotLimit, RetriesFall,
         PayloadRead, NewRec;
    ghost var used;
    store.raw.FailAt(NO_FAULT);
    stored, used := store.Append(data, priority);
    slot := used.value;
    ghost var rec := NewRec(store.cfg, data, priority);
    ghost var view := View(store.cfg, store.raw.data[..]);
    assert view == map[slot := rec];
    FirstRead(store);
    store.raw.FailAt(Fault(store.cfg.slots + 1, 0, false));
    ghost var fetches;
    var status;
    status, events, fetches := Flush(store, _ => Taken);
    assert |view| == 1;
    OnlyLoss(store.cfg, view, View(store.cfg, store.raw.data[..]), events, slot, rec);
  }

  lemma FirstRead(store: Spool.Store)
    ensures PayloadRead(store, 0, 0) == store.cfg.slots + 1
  {
  }

  lemma OnlyLoss(cfg: Config, view: map<nat, Rec>, left: map<nat, Rec>, events: seq<Event>, slot: nat, rec: Rec)
    requires view == map[slot := rec] && !NoneUnreadable(events)
    requires Losses(view, left, events) && InOrder(view, left, events)
    requires History(cfg, view, events) && left == Replay(view, events) && forall e :: e in events ==> !e.Commit?
    ensures left == map[] && Gone(slot, rec, Unreadable) in events && forall s, r :: Sent(s, r) !in events
  {
    hide History, Replay, InOrder;
    var e :| e in events && e.Gone? && e.why == Unreadable;
    assert e == Gone(slot, rec, Unreadable);
    SentKnown(view, left, events);
    LeftKnown(cfg, view, events);
    assert left.Keys == {};
  }

  lemma SentKnown(view: map<nat, Rec>, left: map<nat, Rec>, events: seq<Event>)
    requires InOrder(view, left, events)
    ensures forall s, r :: Sent(s, r) in events ==> Has(view, s, r)
  {
    hide Precedes, Comparable;
    assert forall i :: 0 <= i < |events| && events[i].Sent? ==> Has(view, events[i].slot, events[i].rec);
  }

  lemma LeftKnown(cfg: Config, view: map<nat, Rec>, events: seq<Event>)
    requires History(cfg, view, events) && forall e :: e in events ==> !e.Commit?
    ensures forall s :: s in Replay(view, events) ==> s in view
  {
    hide History, Replay;
    forall s | s in Replay(view, events) ensures s in view {
      NoPhantom(cfg, view, events, s, Replay(view, events)[s]);
    }
  }
}
