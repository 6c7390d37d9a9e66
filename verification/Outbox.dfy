/**
 What the spool promises about whole runs, stated on histories: a record enters when its append commits, and
 leaves only after a transport has taken it or when its payload is found damaged or unreadable.
 */
module Outbox {
  import opened SpoolFormat

  datatype Why = Delivered | Corrupt | Unreadable

  datatype Event =
    | Commit(slot: nat, rec: Rec)           // an append became visible
    | Sent(slot: nat, rec: Rec)             // a transport accepted the envelope
    | Gone(slot: nat, rec: Rec, why: Why)   // the record was acknowledged on flash

  function Apply(view: map<nat, Rec>, e: Event): map<nat, Rec> {
    match e
    case Commit(slot, rec) => view[slot := rec]
    case Sent(_, _) => view
    case Gone(slot, _, _) => view - {slot}
  }

  /** The committed records after a history. */
  function Replay(view: map<nat, Rec>, events: seq<Event>): map<nat, Rec> {
    if events == [] then view else Apply(Replay(view, events[..|events| - 1]), events[|events| - 1])
  }

  /**
   May e happen next, after `before` has led to `view`? A committed slot is never overwritten, what is committed is
   intact, only intact committed records are sent, and a record goes only directly after it was sent, or when it is
   found damaged or unreadable.
   */
  predicate Allowed(cfg: Config, view: map<nat, Rec>, before: seq<Event>, e: Event) {
    match e
    case Commit(slot, rec) => slot !in view && Intact(cfg, rec)
    case Sent(slot, rec) => slot in view && view[slot] == rec && Intact(cfg, rec)
    case Gone(slot, rec, why) =>
      && slot in view && view[slot] == rec
      && (why == Delivered ==> before != [] && before[|before| - 1] == Sent(slot, rec))
      && (why == Corrupt ==> !Intact(cfg, rec))
  }

  predicate History(cfg: Config, view: map<nat, Rec>, events: seq<Event>) {
    forall k :: 0 <= k < |events| ==> Allowed(cfg, Replay(view, events[..k]), events[..k], events[k])
  }

  lemma ReplayNext(view: map<nat, Rec>, events: seq<Event>, e: Event)
    ensures Replay(view, events + [e]) == Apply(Replay(view, events), e)
  {
    assert (events + [e])[..|events|] == events;
  }

  lemma HistoryNext(cfg: Config, view: map<nat, Rec>, events: seq<Event>, e: Event)
    requires History(cfg, view, events) && Allowed(cfg, Replay(view, events), events, e)
    ensures History(cfg, view, events + [e])
  {
    var longer := events + [e];
    forall k | 0 <= k < |longer| ensures Allowed(cfg, Replay(view, longer[..k]), longer[..k], longer[k]) {
      assert longer[..k] == if k < |events| then events[..k] else events;
    }
  }

  lemma HistoryLast(cfg: Config, view: map<nat, Rec>, events: seq<Event>)
    requires events != [] && History(cfg, view, events)
    ensures var n := |events| - 1; var front := events[..n];
      && events == front + [events[n]] && History(cfg, view, front)
      && Allowed(cfg, Replay(view, front), front, events[n])
      && Replay(view, events) == Apply(Replay(view, front), events[n])
  {
    hide Allowed, Apply, Replay;
    var n := |events| - 1;
    var front := events[..n];
    assert events == front + [events[n]];
    ReplayNext(view, front, events[n]);
    forall k | 0 <= k < n ensures Allowed(cfg, Replay(view, front[..k]), front[..k], front[k]) {
      assert front[..k] == events[..k];
    }
  }

  lemma AllowedAfter(cfg: Config, view: map<nat, Rec>, a: seq<Event>, b: seq<Event>, e: Event)
    requires Allowed(cfg, view, b, e)
    ensures Allowed(cfg, view, a + b, e)
  {
    hide Intact;
  }

  /** Histories compose. */
  lemma {:induction false} HistoryConcat(cfg: Config, view: map<nat, Rec>, a: seq<Event>, b: seq<Event>)
    requires History(cfg, view, a) && History(cfg, Replay(view, a), b)
    ensures History(cfg, view, a + b) && Replay(view, a + b) == Replay(Replay(view, a), b)
    decreases |b|
  {
    hide Allowed, Apply, Replay, History;
    if b == [] {
      assert a + b == a;
      ReplayNone(Replay(view, a));
    } else {
      var n := |b| - 1;
      var front, e := b[..n], b[n];
      HistoryLast(cfg, Replay(view, a), b);
      HistoryConcat(cfg, view, a, front);
      assert a + b == (a + front) + [e];
      ReplayNext(view, a + front, e);
      AllowedAfter(cfg, Replay(view, a + front), a, front, e);
      HistoryNext(cfg, view, a + front, e);
    }
  }

  lemma ReplayNone(view: map<nat, Rec>)
    ensures Replay(view, []) == view
  {
  }

  /** Where a record can be after a history, given that it was committed after the first k events. */
  predicate Accounted(view: map<nat, Rec>, events: seq<Event>, k: nat, slot: nat, rec: Rec)
    requires k <= |events|
  {
    || Has(Replay(view, events), slot, rec)
    || Sent(slot, rec) in events[k..]
    || Gone(slot, rec, Unreadable) in events[k..]
  }

  predicate Has(view: map<nat, Rec>, slot: nat, rec: Rec) {
    slot in view && view[slot] == rec
  }

  /** One event takes an intact record away only if it had just been sent or could not be read. */
  lemma OneEvent(cfg: Config, view: map<nat, Rec>, before: seq<Event>, e: Event, slot: nat, rec: Rec)
    requires Has(view, slot, rec) && Intact(cfg, rec) && Allowed(cfg, view, before, e)
    ensures || Has(Apply(view, e), slot, rec) || e == Gone(slot, rec, Unreadable)
            || (before != [] && before[|before| - 1] == Sent(slot, rec))
  {
    hide Intact;
  }

  /**
   Nothing is lost: an intact record that was there at the start or was committed since is still committed, or a
   transport has taken it, or its payload could not be read.
   */
  lemma {:induction false} NeverLost(cfg: Config, view: map<nat, Rec>, events: seq<Event>, k: nat, slot: nat, rec: Rec)
    requires History(cfg, view, events) && k <= |events|
    requires (k == 0 && Has(view, slot, rec) && Intact(cfg, rec)) || (k > 0 && events[k - 1] == Commit(slot, rec))
    ensures Accounted(view, events, k, slot, rec)
    decreases |events|
  {
    hide Allowed, History, Intact, Apply;
    if events != [] {
      var n := |events| - 1;
      var front, e := events[..n], events[n];
      HistoryLast(cfg, view, events);
      if k == n + 1 {
        CommitHas(Replay(view, front), slot, rec);
      } else {
        assert events[k..] == front[k..] + [e];
        NeverLost(cfg, view, front, k, slot, rec);
        if Has(Replay(view, front), slot, rec) {
          if k > 0 {
            CommitIntact(cfg, view, events, k - 1);
          }
          OneEvent(cfg, Replay(view, front), front, e, slot, rec);
          if front != [] && front[n - 1] == Sent(slot, rec) {
            assert k < n && front[k..][n - 1 - k] == Sent(slot, rec);
          }
        }
      }
    }
  }

  lemma CommitIntact(cfg: Config, view: map<nat, Rec>, events: seq<Event>, k: nat)
    requires History(cfg, view, events) && k < |events| && events[k].Commit?
    ensures Intact(cfg, events[k].rec)
  {
    assert Allowed(cfg, Replay(view, events[..k]), events[..k], events[k]);
  }

  lemma CommitHas(view: map<nat, Rec>, slot: nat, rec: Rec)
    ensures Has(Apply(view, Commit(slot, rec)), slot, rec)
  {
  }

  /** Nothing is made up: what is committed was there before or was committed since, and so was what is sent. */
  lemma {:induction false} NoPhantom(cfg: Config, view: map<nat, Rec>, events: seq<Event>, slot: nat, rec: Rec)
    requires History(cfg, view, events)
    requires Has(Replay(view, events), slot, rec) || Sent(slot, rec) in events
    ensures Has(view, slot, rec) || Commit(slot, rec) in events
    decreases |events|
  {
    hide History, Intact;
    if events != [] {
      var n := |events| - 1;
      var front, e := events[..n], events[n];
      HistoryLast(cfg, view, events);
      if Has(Replay(view, front), slot, rec) || Sent(slot, rec) in front {
        NoPhantom(cfg, view, front, slot, rec);
      }
    }
  }

  /** Only payloads that match their checksum and are envelopes are sent, and only others go as damaged. */
  lemma SentIntact(cfg: Config, view: map<nat, Rec>, events: seq<Event>, e: Event)
    requires History(cfg, view, events) && e in events
    ensures e.Sent? || e.Commit? ==> cfg.crc(e.rec.data) == e.rec.dataCrc && cfg.validate(e.rec.data).Some?
    ensures e.Gone? && e.why == Corrupt ==> cfg.crc(e.rec.data) != e.rec.dataCrc || cfg.validate(e.rec.data).None?
  {
    hide Replay;
    var k :| 0 <= k < |events| && events[k] == e;
    assert Allowed(cfg, Replay(view, events[..k]), events[..k], events[k]);
  }

  ghost predicate NoneUnreadable(events: seq<Event>) {
    forall e :: e in events ==> !(e.Gone? && e.why == Unreadable)
  }

  /** Without failed payload reads, every intact record is still committed or has been taken by a transport. */
  lemma DeliveredOrKept(cfg: Config, view: map<nat, Rec>, events: seq<Event>, k: nat, slot: nat, rec: Rec)
    requires History(cfg, view, events) && NoneUnreadable(events) && k <= |events|
    requires (k == 0 && Has(view, slot, rec) && Intact(cfg, rec)) || (k > 0 && events[k - 1] == Commit(slot, rec))
    ensures Has(Replay(view, events), slot, rec) || Sent(slot, rec) in events[k..]
  {
    hide History, Intact, Replay;
    NeverLost(cfg, view, events, k, slot, rec);
  }
}
