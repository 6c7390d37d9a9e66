/**
 Promotion of retained evidence into the spool. A dying device seals a record or stores a fault in retained memory;
 after a reset the evidence is captured as an emergency event and withdrawn only once its record is committed.
 */
module Promotion {
  import opened Bits
  import opened Words
  import opened Storage
  import opened SlotCommit
  import opened SpoolFormat
  import Spool
  import opened SpoolFlush
  import opened Outbox
  import Envelope
  import SpoolRun
  import PowerFail
  import FaultRecord

  const CRASH: u8 := 1
  const RESET: u8 := 5

  /** What a recovered event reports. */
  datatype Evidence = Brownout(seal: PowerFail.Seal) | Crash(fault: FaultRecord.Fault)

  /** What encoding draws from the runtime: the identity strings and fields of an event, and the key. */
  datatype Encoding = Encoding(describe: Evidence -> Details, mac: seq<u8> -> seq<u8>, identify: (seq<u8>, u32) -> u32,
                               secured: bool, capacity: nat)

  datatype Details = Details(architecture: u8, texts: seq<seq<u8>>, parts: seq<Envelope.Part>)

  ghost predicate WellMade(encoding: Encoding) {
    && (forall e :: |encoding.describe(e).texts| == Envelope.FIELDS && Envelope.AllWritable(encoding.describe(e).parts))
    && forall s :: |encoding.mac(s)| == Envelope.MAC_SIZE
  }

  /** The event made of the evidence. */
  function Event(encoding: Encoding, e: Evidence): Envelope.Source {
    var d := encoding.describe(e);
    Envelope.Source(if e.Brownout? then RESET else CRASH, d.architecture, d.texts, d.parts)
  }

  /** The spool checks envelopes as the encoder makes them. */
  ghost predicate ChecksEnvelopes(cfg: Config) {
    forall data :: cfg.validate(data) == Envelope.Summary(cfg.crc, data)
  }

  /** The bytes are an envelope of the source under some sequence number. */
  ghost predicate IsEnvelope(crc: Checksum, encoding: Encoding, source: Envelope.Source, data: seq<u8>) {
    exists n: u32, cut, kept :: Envelope.Encodes(crc, encoding.identify, encoding.secured, source, n, data, cut, kept)
  }

  /** An emergency record whose envelope reports the evidence. */
  ghost predicate Carries(cfg: Config, rec: Rec, encoding: Encoding, e: Evidence) {
    rec.priority == EMERGENCY && IsEnvelope(cfg.crc, encoding, Event(encoding, e), rec.data)
  }

  // ---------------------------------------------------------------- capturing an event

  /** An envelope of the source fits into the buffer and into a slot, whatever its fields. */
  predicate Fits(cfg: Config, encoding: Encoding, source: Envelope.Source) {
    && Envelope.RoomFor(source, encoding.secured) <= encoding.capacity
    && Envelope.RoomFor(source, encoding.secured) <= cfg.maxEvent
  }

  /** The first vacant slot open to the priority is erased throughout, and the device works. */
  ghost predicate CanStore(store: Spool.Store, priority: u8)
    requires store.Ready()
    reads store.raw, store.raw.data
  {
    store.raw.Quiet() && store.Whole() && store.BlankSlot(store.raw.data[..], Spool.SlotLimit(store.cfg, priority))
  }

  /**
   Captures an event: counts the sequence, asks the policy, encodes and appends. For an emergency, success means that
   its record has become visible; lower priorities may also be dropped by the policy. On a working device with a slot
   and room for the envelope it does succeed.
   */
  method CaptureEvent(store: Spool.Store, capturing: bool, kept: bool, priority: u8, source: Envelope.Source,
                      encoding: Encoding)
      returns (status: Status, ghost events: seq<Outbox.Event>)
    requires store.Ready() && ChecksEnvelopes(store.cfg) && WellMade(encoding) && 1 <= source.eventType <= 8
    requires |source.texts| == Envelope.FIELDS && Envelope.AllWritable(source.parts)
    modifies store, store.raw`operationCount, store.raw.data
    ensures var v := View(store.cfg, old(store.raw.data[..]));
      History(store.cfg, v, events) && View(store.cfg, store.raw.data[..]) == Replay(v, events)
    ensures forall x :: x in events ==>
      x.Commit? && x.rec.priority == priority && IsEnvelope(store.cfg.crc, encoding, source, x.rec.data)
    ensures forall x :: x in events ==> x.rec.sequence == store.sequence && x.rec.eventType == source.eventType
    ensures status == Ok ==> |events| == 1 || (priority > CRITICAL && !kept)
    ensures capturing ==> status == Eagain && store.raw.data[..] == old(store.raw.data[..])
    ensures store.sequence == if capturing then old(store.sequence) else Next(old(store.sequence))
    ensures (!capturing && priority <= DIAGNOSTIC && old(CanStore(store, priority))
             && Fits(store.cfg, encoding, source)) ==>
      status == Ok && (priority <= CRITICAL || kept ==> |events| == 1)
    ensures |events| <= 1 && (priority > CRITICAL && !kept ==> events == [])
  {
    hide View, SlotOffset, StorageSize, Envelope.Validated, Envelope.Encodes, Envelope.RoomFor, Spool.SlotLimit;
    events := [];
    ghost var v := View(store.cfg, store.raw.data[..]);
    StartsEmpty(store.cfg, v);
    if capturing {
      return Eagain, [];
    }
    store.sequence := Next(store.sequence);
    if priority > CRITICAL && !kept {
      return Ok, [];
    }
    var data, cut, taken;
    status, data, cut, taken := Envelope.Encode(store.cfg.crc, encoding.mac, encoding.identify, encoding.secured,
                                                source, encoding.capacity, store.sequence);
    if status != Ok {
      return;
    }
    EncodedInfo(store.cfg, encoding, source, store.sequence, data, cut, taken);
    ghost var used;
    status, used := store.Append(data, priority);
    if used.Some? && View(store.cfg, store.raw.data[..]) != v {
      events := [Commit(used.value, Spool.NewRec(store.cfg, data, priority))];
      SpoolRun.OneCommit(store.cfg, v, used, events);
    }
  }

  /** What the spool reads from an encoded envelope. */
  lemma EncodedInfo(cfg: Config, encoding: Encoding, source: Envelope.Source, n: u32, data: seq<u8>, cut: seq<seq<u8>>,
                    kept: seq<bool>)
    requires ChecksEnvelopes(cfg)
    requires Envelope.Encodes(cfg.crc, encoding.identify, encoding.secured, source, n, data, cut, kept)
    ensures IsEnvelope(cfg.crc, encoding, source, data)
    ensures cfg.validate(data).Some? && cfg.validate(data).value.eventType == source.eventType
    ensures cfg.validate(data).value.sequence == n && |data| > 0
  {
    hide Envelope.Validated;
  }

  // ---------------------------------------------------------------- recovery

  /** A committed record that carries the evidence. */
  ghost predicate Promotes(cfg: Config, events: seq<Outbox.Event>, encoding: Encoding, e: Evidence) {
    exists x :: x in events && x.Commit? && Carries(cfg, x.rec, encoding, e)
  }

  /**
   Promotes a power-fail seal: it stays as it is, or its emergency record is committed. On a working device with a slot
   and room for the envelope it is promoted.
   */
  method RecoverSeal(store: Spool.Store, area: PowerFail.SealArea, capturing: bool, encoding: Encoding)
      returns (status: Status, ghost events: seq<Outbox.Event>)
    requires store.Ready() && ChecksEnvelopes(store.cfg) && WellMade(encoding) && area.Ready()
    requires store.raw.data != area.retained && store.raw.data != area.window
    modifies store, store.raw`operationCount, store.raw.data, area`power, area.retained, area.window
    ensures var v := View(store.cfg, old(store.raw.data[..]));
      History(store.cfg, v, events) && View(store.cfg, store.raw.data[..]) == Replay(v, events)
    ensures (forall x :: x in events ==> x.Commit?) && (old(area.Held()).None? ==> status == Ok && events == [])
    ensures old(area.Held()).None? || status != Ok ==>
      area.retained[..] == old(area.retained[..]) && area.window[..] == old(area.window[..])
    ensures old(area.Held()).Some? && status == Ok ==>
      Promotes(store.cfg, events, encoding, Brownout(old(area.Held()).value))
    ensures forall x :: x in events ==> x.rec.eventType == 5
    ensures status == Ok && old(area.power) >= 5 ==> area.Held().None?
    ensures (old(area.Held()).Some? && !capturing && old(CanStore(store, EMERGENCY))
             && Fits(store.cfg, encoding, Event(encoding, Brownout(old(area.Held()).value)))) ==>
      status == Ok && |events| == 1
  {
    hide View, SlotOffset, StorageSize, History, Replay, PowerFail.ReadSeal, IsEnvelope, WellMade;
    events := [];
    StartsEmpty(store.cfg, View(store.cfg, store.raw.data[..]));
    var held := area.Held();
    if held.None? {
      return Ok, [];
    }
    EventReady(encoding, Brownout(held.value));
    status, events := CaptureEvent(store, capturing, true, EMERGENCY, Event(encoding, Brownout(held.value)), encoding);
    if status == Ok {
      assert events[0] in events && Carries(store.cfg, events[0].rec, encoding, Brownout(held.value));
      area.Clear();
    }
  }

  lemma EventReady(encoding: Encoding, e: Evidence)
    requires WellMade(encoding)
    ensures 1 <= Event(encoding, e).eventType <= 8 && |Event(encoding, e).texts| == Envelope.FIELDS
    ensures Envelope.AllWritable(Event(encoding, e).parts)
  {
    hide Envelope.AllWritable;
  }

  /** Promotes a retained fault in the same way. */
  method RecoverFault(store: Spool.Store, record: FaultRecord.Record, capturing: bool, encoding: Encoding)
      returns (status: Status, ghost events: seq<Outbox.Event>)
    requires store.Ready() && ChecksEnvelopes(store.cfg) && WellMade(encoding) && record.Ready()
    modifies store, store.raw`operationCount, store.raw.data, record`power, record.words
    ensures var v := View(store.cfg, old(store.raw.data[..]));
      History(store.cfg, v, events) && View(store.cfg, store.raw.data[..]) == Replay(v, events)
    ensures (forall x :: x in events ==> x.Commit?) && (old(record.Held()).None? ==> status == Ok && events == [])
    ensures old(record.Held()).None? || status != Ok ==> record.words[..] == old(record.words[..])
    ensures old(record.Held()).Some? && status == Ok ==>
      Promotes(store.cfg, events, encoding, Crash(old(record.Held()).value))
    ensures forall x :: x in events ==> x.rec.eventType == 1
    ensures status == Ok && old(record.power) >= 1 ==> record.Held().None?
    ensures (old(record.Held()).Some? && !capturing && old(CanStore(store, EMERGENCY))
             && Fits(store.cfg, encoding, Event(encoding, Crash(old(record.Held()).value)))) ==>
      status == Ok && |events| == 1
  {
    hide View, SlotOffset, StorageSize, History, Replay, FaultRecord.ReadFault, IsEnvelope, WellMade;
    events := [];
    StartsEmpty(store.cfg, View(store.cfg, store.raw.data[..]));
    var held := record.Held();
    if held.None? {
      return Ok, [];
    }
    EventReady(encoding, Crash(held.value));
    status, events := CaptureEvent(store, capturing, true, EMERGENCY, Event(encoding, Crash(held.value)), encoding);
    if status == Ok {
      assert events[0] in events && Carries(store.cfg, events[0].rec, encoding, Crash(held.value));
      record.Clear();
    }
  }

  // ---------------------------------------------------------------- runs

  /**
   One step of a run; a reset may fall between any two steps, inside a step (through the device failure armed for it)
   or between the stores into retained memory (through the power left).
   */
  datatype Command =
    | Spooling(command: SpoolRun.Command)
    | PromoteSeal(encoding: Encoding, capturing: bool, fault: Fault, power: nat)
    | PromoteFault(encoding: Encoding, capturing: bool, fault: Fault, power: nat)
    | SealPower(reason: u32, vcap: u16, bootId: u32, minimal: Option<PowerFail.Minimal>, power: nat)
    | StoreFault(crash: FaultRecord.Fault, power: nat)

  predicate Promoting(c: Command) {
    c.PromoteSeal? || c.PromoteFault?
  }

  ghost predicate WellFormed(c: Command) {
    match c
    case Spooling(command) => SpoolRun.WellFormed(command)
    case PromoteSeal(encoding, _, _, _) => WellMade(encoding)
    case PromoteFault(encoding, _, _, _) => WellMade(encoding)
    case SealPower(reason, _, _, _, _) => reason <= PowerFail.MAX_REASON
    case StoreFault(crash, _) => FaultRecord.Shaped(crash)
  }

  /** No failure of the device while it goes on working. */
  predicate Clean(c: Command) {
    match c
    case Spooling(command) => SpoolRun.Clean(command.fault)
    case PromoteSeal(_, _, fault, _) => SpoolRun.Clean(fault)
    case PromoteFault(_, _, fault, _) => SpoolRun.Clean(fault)
    case _ => true
  }

  /** A seal call that reaches the backup window. */
  predicate Reseals(c: Command) {
    c.SealPower? && c.reason != 0 && c.power > 56
  }

  /** A fault stored over the last one. */
  predicate Recrashes(c: Command) {
    c.StoreFault? && c.power > 0
  }

  function RetainedSeal(area: PowerFail.SealArea): Option<PowerFail.Seal>
    requires area.Ready()
    reads area.retained
  {
    PowerFail.ReadRetained(area.crc, area.retained[..])
  }

  /** What one step does to the seal that was held before it. */
  ghost predicate SealStep(cfg: Config, c: Command, more: seq<Outbox.Event>, seal: PowerFail.Seal, kept: bool,
                           wasRetained: bool) {
    kept || (Promoting(c) && Promotes(cfg, more, c.encoding, Brownout(seal))) || (!wasRetained && Reseals(c))
  }

  ghost predicate FaultStep(cfg: Config, c: Command, more: seq<Outbox.Event>, crash: FaultRecord.Fault, kept: bool) {
    kept || (Promoting(c) && Promotes(cfg, more, c.encoding, Crash(crash))) || Recrashes(c)
  }

  /** Runs one command. */
  method Step(store: Spool.Store, area: PowerFail.SealArea, record: FaultRecord.Record, c: Command)
      returns (ghost more: seq<Outbox.Event>)
    requires store.Ready() && area.Ready() && record.Ready() && ChecksEnvelopes(store.cfg) && WellFormed(c)
    requires store.raw.data != area.retained && store.raw.data != area.window
    modifies store, store.raw, store.raw.data, area`power, area`sequence, area.retained, area.window, record`power,
             record.words
    ensures var v := View(store.cfg, old(store.raw.data[..]));
      History(store.cfg, v, more) && View(store.cfg, store.raw.data[..]) == Replay(v, more)
    ensures Clean(c) ==> NoneUnreadable(more)
    ensures old(area.Held()).Some? ==>
      SealStep(store.cfg, c, more, old(area.Held()).value, area.Held() == old(area.Held()),
               old(RetainedSeal(area)).Some?)
    ensures old(RetainedSeal(area)).Some? ==>
      SealStep(store.cfg, c, more, old(area.Held()).value, RetainedSeal(area) == old(area.Held()), true)
    ensures old(record.Held()).Some? ==>
      FaultStep(store.cfg, c, more, old(record.Held()).value, record.Held() == old(record.Held()))
  {
    hide View, SlotOffset, StorageSize, History, Replay, FaultRecord.ReadFault, PowerFail.ReadRetained,
         PowerFail.ReadBackup, Promotes, ChecksEnvelopes;
    more := [];
    StartsEmpty(store.cfg, View(store.cfg, store.raw.data[..]));
    match c {
      case Spooling(command) =>
        ghost var b := store.raw.data[..];
        SpoolRun.SofarNone(store.cfg, b);
        ghost var entry;
        entry, more := SpoolRun.Step(store, command, b, [], [], []);
        assert more[0..] == more;
      case PromoteSeal(encoding, capturing, fault, power) =>
        store.raw.FailAt(fault);
        area.power := power;
        var status;
        status, more := RecoverSeal(store, area, capturing, encoding);
      case PromoteFault(encoding, capturing, fault, power) =>
        store.raw.FailAt(fault);
        record.power := power;
        var status;
        status, more := RecoverFault(store, record, capturing, encoding);
      case SealPower(reason, vcap, bootId, minimal, power) =>
        area.power := power;
        ghost var seal := area.SealNow(reason, vcap, bootId, minimal);
      case StoreFault(crash, power) =>
        record.power := power;
        record.Store(crash);
    }
  }

  /** An emergency record for the evidence has been committed in the course of the events. */
  ghost predicate Promoted(cfg: Config, script: seq<Command>, events: seq<Outbox.Event>, e: Evidence) {
    exists k: nat, c :: PromotedBy(cfg, script, events, e, k, c)
  }

  ghost predicate PromotedBy(cfg: Config, script: seq<Command>, events: seq<Outbox.Event>, e: Evidence, k: nat,
                             c: Command) {
    k < |events| && events[k].Commit? && c in script && Promoting(c) && Carries(cfg, events[k].rec, c.encoding, e)
  }

  lemma PromotedLater(cfg: Config, script: seq<Command>, c: Command, events: seq<Outbox.Event>, more: seq<Outbox.Event>,
                      e: Evidence)
    requires Promoted(cfg, script, events, e)
    ensures Promoted(cfg, script + [c], events + more, e)
  {
    hide Carries;
    var k: nat, d :| PromotedBy(cfg, script, events, e, k, d);
    assert PromotedBy(cfg, script + [c], events + more, e, k, d);
  }

  lemma PromotedNow(cfg: Config, script: seq<Command>, c: Command, events: seq<Outbox.Event>, more: seq<Outbox.Event>,
                    e: Evidence)
    requires Promoting(c) && Promotes(cfg, more, c.encoding, e)
    ensures Promoted(cfg, script + [c], events + more, e)
  {
    hide Carries;
    var x :| x in more && x.Commit? && Carries(cfg, x.rec, c.encoding, e);
    var k :| 0 <= k < |more| && more[k] == x;
    assert PromotedBy(cfg, script + [c], events + more, e, |events| + k, c);
  }

  /**
   The record committed for the evidence, and where it is in the end: still on flash, or taken by a transport after its
   commit, or, unless every failure was a power cut, found unreadable.
   */
  ghost predicate Secured(cfg: Config, view: map<nat, Rec>, script: seq<Command>, events: seq<Outbox.Event>,
                          e: Evidence, clean: bool) {
    exists k: nat, c :: SecuredBy(cfg, view, script, events, e, clean, k, c)
  }

  ghost predicate SecuredBy(cfg: Config, view: map<nat, Rec>, script: seq<Command>, events: seq<Outbox.Event>,
                            e: Evidence, clean: bool, k: nat, c: Command)
  {
    && PromotedBy(cfg, script, events, e, k, c)
    && SpoolRun.Safe(view, events, k, events[k].slot, events[k].rec)
    && (clean ==> SpoolRun.Settled(view, events, k, events[k].slot, events[k].rec))
  }

  /** A promoted record is on flash, or a transport has taken it, or its payload could not be read with power on. */
  lemma PromotedIsSafe(cfg: Config, view: map<nat, Rec>, script: seq<Command>, events: seq<Outbox.Event>, e: Evidence,
                       clean: bool)
    requires History(cfg, view, events) && Promoted(cfg, script, events, e) && (clean ==> NoneUnreadable(events))
    ensures Secured(cfg, Replay(view, events), script, events, e, clean)
  {
    hide History, Intact, Replay, Carries;
    var k: nat, c :| PromotedBy(cfg, script, events, e, k, c);
    NeverLost(cfg, view, events, k + 1, events[k].slot, events[k].rec);
    assert SecuredBy(cfg, Replay(view, events), script, events, e, clean, k, c);
  }

  /** Where a seal is after some steps: where it was, promoted, or sealed over in the window. */
  ghost predicate SealKept(cfg: Config, area: PowerFail.SealArea, script: seq<Command>, events: seq<Outbox.Event>,
                           seal: Option<PowerFail.Seal>, wasRetained: bool)
    requires area.Ready()
    reads area.retained, area.window
  {
    seal.Some? ==>
      || (area.Held() == seal && (wasRetained ==> RetainedSeal(area) == seal))
      || Promoted(cfg, script, events, Brownout(seal.value)) || (!wasRetained && exists c :: c in script && Reseals(c))
  }

  ghost predicate FaultKept(cfg: Config, record: FaultRecord.Record, script: seq<Command>, events: seq<Outbox.Event>,
                            crash: Option<FaultRecord.Fault>)
    requires record.Ready()
    reads record.words
  {
    crash.Some? ==>
      || record.Held() == crash
      || Promoted(cfg, script, events, Crash(crash.value))
      || exists c :: c in script && Recrashes(c)
  }

  /**
   Any run of seals, faults, mounts, recoveries, appends and flushes, from any state and reset at any point. Evidence
   held at the start is still held in the end or is secured in the spool, except that a seal held by the backup window
   alone gives way to a later seal, and a fault to a later fault.
   */
  method Run(store: Spool.Store, area: PowerFail.SealArea, record: FaultRecord.Record, script: seq<Command>)
      returns (ghost events: seq<Outbox.Event>)
    requires store.Ready() && area.Ready() && record.Ready() && ChecksEnvelopes(store.cfg)
    requires store.raw.data != area.retained && store.raw.data != area.window
    requires forall c :: c in script ==> WellFormed(c)
    modifies store, store.raw, store.raw.data, area`power, area`sequence, area.retained, area.window, record`power,
             record.words
    ensures var v := View(store.cfg, old(store.raw.data[..]));
      History(store.cfg, v, events) && View(store.cfg, store.raw.data[..]) == Replay(v, events)
    ensures old(area.Held()).Some? && area.Held() != old(area.Held()) ==>
      || Secured(store.cfg, View(store.cfg, store.raw.data[..]), script, events, Brownout(old(area.Held()).value),
                 AllClean(script))
      || (old(RetainedSeal(area)).None? && exists c :: c in script && Reseals(c))
    ensures old(record.Held()).Some? && record.Held() != old(record.Held()) ==>
      || Secured(store.cfg, View(store.cfg, store.raw.data[..]), script, events, Crash(old(record.Held()).value),
                 AllClean(script))
      || exists c :: c in script && Recrashes(c)
  {
    hide View, SlotOffset, StorageSize, History, Replay, Promoted, Secured, WellFormed, FaultRecord.ReadFault,
         PowerFail.ReadSeal, Clean,
         NoneUnreadable, SealKept, FaultKept, ChecksEnvelopes, PowerFail.ReadRetained, SealStep, FaultStep;
    ghost var v := View(store.cfg, store.raw.data[..]);
    StartsEmpty(store.cfg, v);
    ghost var seal, crash, retained := area.Held(), record.Held(), RetainedSeal(area).Some?;
    events := [];
    StartsKept(store.cfg, area, record);
    var i := 0;
    while i < |script|
      invariant 0 <= i <= |script| && store.Ready()
      invariant History(store.cfg, v, events) && View(store.cfg, store.raw.data[..]) == Replay(v, events)
      invariant AllClean(script) ==> NoneUnreadable(events)
      invariant SealKept(store.cfg, area, script[..i], events, seal, retained)
      invariant FaultKept(store.cfg, record, script[..i], events, crash)
    {
      events := RunStep(store, area, record, script[..i], script[i], v, events, seal, crash, retained);
      assert script[..i] + [script[i]] == script[..i + 1];
      i := i + 1;
    }
    assert script[..i] == script;
    if seal.Some? {
      SealEnds(store.cfg, area, v, script, events, seal.value, retained);
    }
    if crash.Some? {
      FaultEnds(store.cfg, record, v, script, events, crash.value);
    }
  }

  ghost predicate AllClean(script: seq<Command>) {
    forall c :: c in script ==> Clean(c)
  }

  lemma StartsKept(cfg: Config, area: PowerFail.SealArea, record: FaultRecord.Record)
    requires area.Ready() && record.Ready()
    ensures SealKept(cfg, area, [], [], area.Held(), RetainedSeal(area).Some?)
    ensures FaultKept(cfg, record, [], [], record.Held())
    ensures NoneUnreadable([])
  {
    hide PowerFail.ReadRetained, PowerFail.ReadBackup;
  }

  /** One step of a run, with what has been kept so far. */
  method RunStep(store: Spool.Store, area: PowerFail.SealArea, record: FaultRecord.Record, ghost before: seq<Command>,
                 c: Command,
                 ghost v: map<nat, Rec>, ghost events: seq<Outbox.Event>, ghost seal: Option<PowerFail.Seal>,
                 ghost crash: Option<FaultRecord.Fault>, ghost retained: bool)
      returns (ghost all: seq<Outbox.Event>)
    requires store.Ready() && area.Ready() && record.Ready() && ChecksEnvelopes(store.cfg) && WellFormed(c)
    requires store.raw.data != area.retained && store.raw.data != area.window
    requires History(store.cfg, v, events) && View(store.cfg, store.raw.data[..]) == Replay(v, events)
    requires SealKept(store.cfg, area, before, events, seal, retained)
    requires FaultKept(store.cfg, record, before, events, crash)
    modifies store, store.raw, store.raw.data, area`power, area`sequence, area.retained, area.window, record`power,
             record.words
    ensures History(store.cfg, v, all) && View(store.cfg, store.raw.data[..]) == Replay(v, all)
    ensures SealKept(store.cfg, area, before + [c], all, seal, retained)
    ensures FaultKept(store.cfg, record, before + [c], all, crash)
    ensures Clean(c) && NoneUnreadable(events) ==> NoneUnreadable(all)
  {
    hide View, SlotOffset, StorageSize, History, Replay, Promoted, WellFormed, FaultRecord.ReadFault,
         PowerFail.ReadSeal, Clean, ChecksEnvelopes, PowerFail.ReadRetained, Promotes, Reseals, Recrashes;
    RetainedIsHeld(area);
    ghost var wasSeal, wasRetained, wasFault := area.Held(), RetainedSeal(area), record.Held();
    ghost var more := Step(store, area, record, c);
    HistoryConcat(store.cfg, v, events, more);
    all := events + more;
    if seal.Some? {
      SealNext(store.cfg, before, c, events, more, seal.value, wasSeal, wasRetained, area.Held(), RetainedSeal(area),
               retained);
    }
    if crash.Some? {
      FaultNext(store.cfg, before, c, events, more, crash.value, wasFault, record.Held());
    }
  }

  lemma RetainedIsHeld(area: PowerFail.SealArea)
    requires area.Ready()
    ensures RetainedSeal(area).Some? ==> area.Held() == RetainedSeal(area)
  {
    hide PowerFail.ReadRetained;
  }

  lemma SealNext(cfg: Config, script: seq<Command>, c: Command, events: seq<Outbox.Event>, more: seq<Outbox.Event>,
                 seal: PowerFail.Seal, was: Option<PowerFail.Seal>, wasRetained: Option<PowerFail.Seal>,
                 now: Option<PowerFail.Seal>, nowRetained: Option<PowerFail.Seal>, retained: bool)
    requires || (was == Some(seal) && (retained ==> wasRetained == Some(seal)))
             || Promoted(cfg, script, events, Brownout(seal)) || (!retained && exists d :: d in script && Reseals(d))
    requires was == Some(seal) ==> SealStep(cfg, c, more, seal, now == was, wasRetained.Some?)
    requires wasRetained == Some(seal) ==> SealStep(cfg, c, more, seal, nowRetained == was, true)
    ensures || (now == Some(seal) && (retained ==> nowRetained == Some(seal)))
            || Promoted(cfg, script + [c], events + more, Brownout(seal))
            || (!retained && exists d :: d in script + [c] && Reseals(d))
  {
    hide Promoted, Promotes, Reseals;
    if Promoted(cfg, script, events, Brownout(seal)) {
      PromotedLater(cfg, script, c, events, more, Brownout(seal));
    } else if !retained && exists d :: d in script && Reseals(d) {
      var d :| d in script && Reseals(d);
      assert d in script + [c];
    } else if Promoting(c) && Promotes(cfg, more, c.encoding, Brownout(seal)) {
      PromotedNow(cfg, script, c, events, more, Brownout(seal));
    } else {
      assert c in script + [c];
    }
  }

  lemma FaultNext(cfg: Config, script: seq<Command>, c: Command, events: seq<Outbox.Event>, more: seq<Outbox.Event>,
                  crash: FaultRecord.Fault, was: Option<FaultRecord.Fault>, now: Option<FaultRecord.Fault>)
    requires || was == Some(crash)
             || Promoted(cfg, script, events, Crash(crash))
             || exists d :: d in script && Recrashes(d)
    requires was == Some(crash) ==> FaultStep(cfg, c, more, crash, now == was)
    ensures || now == Some(crash)
            || Promoted(cfg, script + [c], events + more, Crash(crash))
            || exists d :: d in script + [c] && Recrashes(d)
  {
    hide Promoted, Promotes, Recrashes;
    if Promoted(cfg, script, events, Crash(crash)) {
      PromotedLater(cfg, script, c, events, more, Crash(crash));
    } else if exists d :: d in script && Recrashes(d) {
      var d :| d in script && Recrashes(d);
      assert d in script + [c];
    } else if Promoting(c) && Promotes(cfg, more, c.encoding, Crash(crash)) {
      PromotedNow(cfg, script, c, events, more, Crash(crash));
    } else {
      assert c in script + [c];
    }
  }

  lemma SealEnds(cfg: Config, area: PowerFail.SealArea, view: map<nat, Rec>, script: seq<Command>,
                 events: seq<Outbox.Event>, seal: PowerFail.Seal, retained: bool)
    requires area.Ready() && History(cfg, view, events) && (AllClean(script) ==> NoneUnreadable(events))
    requires SealKept(cfg, area, script, events, Some(seal), retained)
    ensures || area.Held() == Some(seal)
            || Secured(cfg, Replay(view, events), script, events, Brownout(seal), AllClean(script))
            || (!retained && exists c :: c in script && Reseals(c))
    ensures retained && RetainedSeal(area) != Some(seal) ==>
      Secured(cfg, Replay(view, events), script, events, Brownout(seal), AllClean(script))
  {
    hide History, Replay, Promoted, Secured, Reseals, AllClean, NoneUnreadable, PowerFail.ReadRetained;
    if Promoted(cfg, script, events, Brownout(seal)) {
      PromotedIsSafe(cfg, view, script, events, Brownout(seal), AllClean(script));
    }
  }

  lemma FaultEnds(cfg: Config, record: FaultRecord.Record, view: map<nat, Rec>, script: seq<Command>,
                  events: seq<Outbox.Event>, crash: FaultRecord.Fault)
    requires record.Ready() && History(cfg, view, events) && (AllClean(script) ==> NoneUnreadable(events))
    requires FaultKept(cfg, record, script, events, Some(crash))
    ensures || record.Held() == Some(crash)
            || Secured(cfg, Replay(view, events), script, events, Crash(crash), AllClean(script))
            || exists c :: c in script && Recrashes(c)
  {
    hide History, Replay, Promoted, Secured, Recrashes, AllClean, NoneUnreadable, FaultRecord.ReadFault;
    if Promoted(cfg, script, events, Crash(crash)) {
      PromotedIsSafe(cfg, view, script, events, Crash(crash), AllClean(script));
    }
  }

  /**
   A brownout in the course of a run: once the seal call has got its bytes out, 60 of them or 120 with a backup window,
   whatever happens later, its seal is still held or an emergency record reporting it is secured.
   */
  method SealedRun(store: Spool.Store, area: PowerFail.SealArea, record: FaultRecord.Record, reason: u32, vcap: u16,
                   bootId: u32, minimal: Option<PowerFail.Minimal>, script: seq<Command>)
      returns (ghost seal: PowerFail.Seal, ghost events: seq<Outbox.Event>)
    requires store.Ready() && area.Ready() && record.Ready() && ChecksEnvelopes(store.cfg)
    requires 0 < reason <= PowerFail.MAX_REASON
    requires store.raw.data != area.retained && store.raw.data != area.window
    requires forall c :: c in script ==> WellFormed(c)
    requires area.power >= (if area.installed then 120 else 60) && ReadU32(area.retained[..], 0) != PowerFail.MAGIC
    modifies store, store.raw, store.raw.data, area`power, area`sequence, area.retained, area.window, record`power,
             record.words
    ensures seal == PowerFail.NewSeal(area.installed, reason, vcap, bootId, minimal, old(area.sequence))
    ensures || area.Held() == Some(seal)
            || Secured(store.cfg, View(store.cfg, store.raw.data[..]), script, events, Brownout(seal), AllClean(script))
  {
    hide View, SlotOffset, StorageSize, History, Replay, Secured, WellFormed, PowerFail.ReadSeal,
         PowerFail.ReadRetained, ChecksEnvelopes, AllClean;
    seal := area.SealNow(reason, vcap, bootId, minimal);
    events := Run(store, area, record, script);
  }
}
