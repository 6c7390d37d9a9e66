/**
 What the flash mirror and the wear leveller promise: a store whose updates are atomic under power cuts.
 Runs are logged step by step, and `LegalRun` says which logs such a store may produce.
 */
module AtomicStore {
  import opened Bits
  import opened Storage
  import opened SlotCommit

  /** An update: bytes over a range of the image, or 0xff over it. */
  datatype Change = Write(offset: nat, bytes: seq<u8>) | Erase(offset: nat, length: nat)

  predicate InRange(capacity: nat, change: Change) {
    match change
    case Write(offset, bytes) => offset + |bytes| <= capacity
    case Erase(offset, length) => offset + length <= capacity
  }

  function Apply(image: seq<u8>, change: Change): (r: seq<u8>)
    requires InRange(|image|, change)
    ensures |r| == |image|
  {
    match change
    case Write(offset, bytes) => Splice(image, offset, bytes)
    case Erase(offset, length) => Splice(image, offset, Blank(length))
  }

  /** Where a change begins and how many bytes it covers. */
  function Begin(change: Change): nat {
    match change { case Write(offset, _) => offset case Erase(offset, _) => offset }
  }

  function Extent(change: Change): nat {
    match change { case Write(_, bytes) => |bytes| case Erase(_, length) => length }
  }

  /** The byte at a position after the change: the one written, 0xff where erased, and outside the range the old one. */
  function ByteAfter(image: seq<u8>, change: Change, i: nat): u8
    requires i < |image|
  {
    if !(Begin(change) <= i < Begin(change) + Extent(change)) then image[i]
    else if change.Write? then change.bytes[i - Begin(change)]
    else 0xff
  }

  lemma ApplyBytes(image: seq<u8>, change: Change)
    ensures InRange(|image|, change) <==> Begin(change) + Extent(change) <= |image|
    ensures InRange(|image|, change) ==> forall i :: 0 <= i < |image| ==>
      Apply(image, change)[i] == ByteAfter(image, change, i)
  {
  }

  /** One step of a run, with the device failure armed for it. */
  datatype Command =
    | Update(change: Change, fault: Fault)
    | Restart(fault: Fault)

  /** What was observed of a step. */
  datatype Entry =
    | Done(image: seq<u8>)        // the update returned success
    | CutShort(image: seq<u8>)    // the commit of this image failed or lost power
    | Refused                     // nothing was attempted
    | Restarted(image: seq<u8>)   // initialisation mounted this image
    | RestartFailed
    | Skipped                     // nothing mounted
    | Exhausted                   // an update found erase counters or generations used up
    | RestartExhausted            // so did the formatting of a restart

  /**
   A kind of store: its capacity, whether a session goes on after a failed commit, and whether its erase counters and
   generations can be used up.
   */
  datatype Kind = Kind(capacity: nat, retries: bool, bounded: bool)

  /** The image known to be durable after a run. */
  function Durable(start: Option<seq<u8>>, log: seq<Entry>): Option<seq<u8>> {
    if log == [] then start else
    match log[|log| - 1]
    case Done(image) => Some(image)
    case Restarted(image) => Some(image)
    case _ => Durable(start, log[..|log| - 1])
  }

  /** The images whose commit was cut short since then. */
  function Pending(log: seq<Entry>): set<seq<u8>> {
    if log == [] then {} else
    match log[|log| - 1]
    case Done(_) => {}
    case Restarted(_) => {}
    case CutShort(image) => Pending(log[..|log| - 1]) + {image}
    case _ => Pending(log[..|log| - 1])
  }

  predicate IsMounted(kind: Kind, log: seq<Entry>) {
    if log == [] then false else
    match log[|log| - 1]
    case Restarted(_) => true
    case RestartFailed => false
    case RestartExhausted => false
    case CutShort(_) => kind.retries && IsMounted(kind, log[..|log| - 1])
    case _ => IsMounted(kind, log[..|log| - 1])
  }

  /** The images a restart may find: the durable one or one cut short since; a blank one on a new device. */
  predicate Possible(kind: Kind, start: Option<seq<u8>>, log: seq<Entry>, found: Option<seq<u8>>) {
    match Durable(start, log)
    case None => found == None || found == Some(Blank(kind.capacity))
    case Some(image) => found.Some? && (found.value == image || found.value in Pending(log))
  }

  /**
   A step of an atomic store: commands that fail are all-or-nothing, and without a failure none fails, unless the store
   is used up.
   */
  predicate Legal(kind: Kind, start: Option<seq<u8>>, log: seq<Entry>, command: Command, entry: Entry) {
    match command
    case Update(change, fault) => (
      if !IsMounted(kind, log) || Durable(start, log).None? then entry == Skipped
      else if !InRange(|Durable(start, log).value|, change) then entry == Refused
      else
        var image := Apply(Durable(start, log).value, change);
        || entry == Done(image)
        || (fault.operation != 0 && (entry == CutShort(image) || entry == Refused))
        || (kind.bounded && entry == Exhausted))
    case Restart(fault) =>
      || (entry.Restarted? && Possible(kind, start, log, Some(entry.image)))
      || (fault.operation != 0 && entry == RestartFailed)
      || (kind.bounded && entry == RestartExhausted)
  }

  predicate LegalRun(kind: Kind, start: Option<seq<u8>>, script: seq<Command>, log: seq<Entry>) {
    |log| == |script| && forall k :: 0 <= k < |log| ==> Legal(kind, start, log[..k], script[k], log[k])
  }

  lemma LegalExtends(kind: Kind, start: Option<seq<u8>>, script: seq<Command>, log: seq<Entry>, entry: Entry)
    requires |log| < |script| && LegalRun(kind, start, script[..|log|], log)
    requires Legal(kind, start, log, script[|log|], entry)
    ensures LegalRun(kind, start, script[..|log| + 1], log + [entry])
  {
    hide Legal;
    var longer := log + [entry];
    forall k | 0 <= k < |longer| ensures Legal(kind, start, longer[..k], script[..|log| + 1][k], longer[k]) {
      if k < |log| {
        assert longer[..k] == log[..k];
      } else {
        assert longer[..k] == log;
      }
    }
  }

  lemma AfterEntry(kind: Kind, start: Option<seq<u8>>, log: seq<Entry>, entry: Entry)
    ensures Durable(start, log + [entry]) ==
      match entry { case Done(i) => Some(i) case Restarted(i) => Some(i) case _ => Durable(start, log) }
    ensures Pending(log + [entry]) ==
      match entry {
        case Done(_) => {}
        case Restarted(_) => {}
        case CutShort(i) => Pending(log) + {i}
        case _ => Pending(log)
      }
    ensures IsMounted(kind, log + [entry]) ==
      match entry {
        case Restarted(_) => true
        case RestartFailed => false
        case RestartExhausted => false
        case CutShort(_) => kind.retries && IsMounted(kind, log)
        case _ => IsMounted(kind, log)
      }
  {
    assert (log + [entry])[..|log|] == log;
  }

  lemma PossibleSame(kind: Kind, start: Option<seq<u8>>, log: seq<Entry>, entry: Entry, found: Option<seq<u8>>)
    requires Possible(kind, start, log, found)
    requires entry in {Skipped, Refused, RestartFailed, Exhausted, RestartExhausted}
    ensures Possible(kind, start, log + [entry], found)
  {
    AfterEntry(kind, start, log, entry);
  }

  /**
   When every failed update is followed by a restart, at most one image can be pending: a restart finds exactly
   the last durable image or the image of the single interrupted update.
   */
  lemma {:induction false} OnePending(kind: Kind, start: Option<seq<u8>>, script: seq<Command>, log: seq<Entry>)
    requires !kind.retries && LegalRun(kind, start, script, log)
    ensures |Pending(log)| <= 1 && (IsMounted(kind, log) ==> Pending(log) == {})
    decreases |log|
  {
    hide Durable, Possible;
    if log != [] {
      var k := |log| - 1;
      assert forall i :: 0 <= i < k ==> log[..k][..i] == log[..i];
      OnePending(kind, start, script[..k], log[..k]);
      assert Legal(kind, start, log[..k], script[k], log[k]);
    }
  }
}
