/**
 Runs of the wear leveller: sessions that go on after failed commits, with what they keep balanced and what a restart
 finds after them, and runs with a restart after each failed commit, which are those of an atomic store.
 */
module WearRun {
  import opened Bits
  import opened Words
  import opened Storage
  import opened SlotCommit
  import opened AtomicStore
  import opened WearLevel

  // ---------------------------------------------------------------- sessions

  /** An update with the device failure armed for it. */
  datatype Attempt = Attempt(change: Change, fault: Fault)

  /** The update succeeded, and a restart finds its image exactly unless a lower slot carries the same generation. */
  ghost predicate LastHolds(w: Leveller)
    requires w.Ready()
    reads w, w.raw.data
  {
    && (Newest(w.crc, w.g, w.raw.data[..], w.n, w.n) == Some(w.activeSlot) <==>
          LowestWith(w.crc, w.g, w.raw.data[..], w.n, w.generation, w.activeSlot))
    && (w.n == 2 ==> Newest(w.crc, w.g, w.raw.data[..], w.n, w.n) == Some(w.activeSlot))
  }

  /** No failed commit of the session has landed since its last success. */
  ghost predicate Clear(w: Leveller)
    requires w.Ready()
    reads w, w.raw.data
  {
    !Carried(w.crc, w.g, w.raw.data[..], w.n, Next(w.generation))
  }

  /** The image after the updates that succeeded. */
  function Updated(image: seq<u8>, attempts: seq<Attempt>, statuses: seq<Status>): seq<u8>
    requires |statuses| == |attempts|
  {
    if attempts == [] then image else
    var n := |attempts| - 1;
    var before := Updated(image, attempts[..n], statuses[..n]);
    if statuses[n] == Ok && InRange(|before|, attempts[n].change) then Apply(before, attempts[n].change) else before
  }

  lemma UpdatedNext(image: seq<u8>, attempts: seq<Attempt>, statuses: seq<Status>, a: Attempt, status: Status)
    requires |statuses| == |attempts|
    ensures var before := Updated(image, attempts, statuses);
      Updated(image, attempts + [a], statuses + [status]) ==
        if status == Ok && InRange(|before|, a.change) then Apply(before, a.change) else before
  {
    assert (attempts + [a])[..|attempts|] == attempts && (statuses + [status])[..|statuses|] == statuses;
  }

  function Failed(statuses: seq<Status>): nat {
    if statuses == [] then 0 else Failed(statuses[..|statuses| - 1]) + if statuses[|statuses| - 1] != Ok then 1 else 0
  }

  lemma FailedNext(statuses: seq<Status>, status: Status)
    ensures Failed(statuses + [status]) == Failed(statuses) + if status != Ok then 1 else 0
  {
    assert (statuses + [status])[..|statuses|] == statuses;
  }

  lemma NoAttempts(image: seq<u8>)
    ensures Updated(image, [], []) == image && Failed([]) == 0
  {
  }

  /** The session is alive after m commits: every valid slot is at most one generation ahead of the active one. */
  ghost predicate Alive(w: Leveller, m: nat)
    requires w.Ready()
    reads w, w.raw.data
  {
    Live(w.crc, w.g, w.raw.data[..], w.n, w.generation, w.activeSlot, m)
  }

  /** The last update succeeded, and so did the one before it, if there was one. */
  predicate TwoGood(statuses: seq<Status>) {
    statuses != [] && statuses[|statuses| - 1] == Ok && (|statuses| > 1 ==> statuses[|statuses| - 2] == Ok)
  }

  /** On a working device that endures, an update within the capacity succeeds, and a read then returns what it left. */
  method UpdateThenRead(w: Leveller, change: Change, offset: nat, length: nat) returns (status: Status, bytes: seq<u8>)
    requires w.Ready() && w.Open() && w.raw.Quiet() && w.AllWhole() && Endures(w.eraseCounts[..], w.activeSlot)
    requires Begin(change) + Extent(change) <= w.g.capacity && offset + length <= w.g.capacity
    modifies w, w.eraseCounts, w.raw`operationCount, w.raw.data
    ensures status == Ok && |bytes| == length && |old(w.committed)| == w.g.capacity
    ensures forall i :: 0 <= i < length ==> bytes[i] == ByteAfter(old(w.committed), change, offset + i)
  {
    hide Apply, InRange, Endures, LeastErased, FirstAround, Attempted, Leveller.Landed, Balanced, Leveller.AllWhole;
    ghost var was := w.committed;
    CommittedSize(w);
    ApplyBytes(was, change);
    var tried;
    ghost var target;
    status, tried, target := w.Update(change);
    status, bytes := w.Read(offset, length);
  }

  lemma CommittedSize(w: Leveller)
    requires w.Ready() && w.Open()
    ensures |w.committed| == w.g.capacity
  {
  }

  /**
   A session on a blank device: the format and any number of updates, a failure armed for each, and the session going on
   after every failed commit. The erase counts stay within one plus the failed commits of each other, and without
   failures the greatest is the ceiling of their mean. After a success a restart finds its image exactly unless a commit
   reported as failed had landed in a lower slot. It always does with two slots, and where no commit failed or the last
   two updates succeeded: a restart then finds the image of all updates that succeeded.
   */
  method Session(w: Leveller, format: Fault, attempts: seq<Attempt>) returns (started: bool, statuses: seq<Status>)
    requires w.Ready() && Recovered(w.crc, w.g, w.raw.data[..], w.n).None? && w.Unworn()
    modifies w, w.eraseCounts, w.raw, w.raw.data
    ensures started ==> |statuses| == |attempts| && w.Open() && w.failures <= Failed(statuses) <= |attempts|
    ensures started ==> w.committed == Updated(Blank(w.g.capacity), attempts, statuses)
    ensures started && |attempts| < 0x7fff_fff0 && (TwoGood(statuses) || w.failures == 0) ==>
      Recovered(w.crc, w.g, w.raw.data[..], w.n) == Some(w.committed)
    ensures started ==> Max(w.eraseCounts[..]) - Min(w.eraseCounts[..]) <= 1 + w.failures
    ensures started && w.failures == 0 ==> Max(w.eraseCounts[..]) == (Total(w.eraseCounts[..]) + w.n - 1) / w.n
    ensures started && |attempts| < 0x7fff_fff0 ==> Alive(w, |attempts| + 1)
    ensures started && 0 < |attempts| < 0x7fff_fff0 && statuses[|attempts| - 1] == Ok ==> LastHolds(w)
    ensures format.operation == 0 && w.AllWhole() ==> started
  {
    hide Balanced, Recovered, LastHolds, Clear, Found, Updated, Failed, Alive, Apply, InRange, Image, Slot,
         Leveller.Unworn, Leveller.AllWhole;
    statuses := [];
    var status;
    started := StartSession(w, format);
    if !started {
      return;
    }
    NoAttempts(Blank(w.g.capacity));
    var i := 0;
    assert attempts[..i] == [];
    while i < |attempts|
      invariant 0 <= i <= |attempts| && |statuses| == i && w.Ready() && w.Open() && w.failures <= Failed(statuses) <= i
      invariant w.committed == Updated(Blank(w.g.capacity), attempts[..i], statuses)
      invariant i < 0x7fff_fff0 && (i == 0 || statuses[i - 1] == Ok || w.failures == 0) ==> Clear(w)
      invariant i < 0x7fff_fff0 && (TwoGood(statuses) || w.failures == 0) ==> Found(w)
      invariant Balanced(w.eraseCounts[..], w.activeSlot, w.failures) && w.eraseCounts[w.activeSlot] > 0
      invariant i < 0x7fff_fff0 ==> Alive(w, i + 1)
      invariant 0 < i < 0x7fff_fff0 && statuses[i - 1] == Ok ==> LastHolds(w)
    {
      status := SessionStep(w, attempts[i], i + 1);
      UpdatedNext(Blank(w.g.capacity), attempts[..i], statuses, attempts[i], status);
      FailedNext(statuses, status);
      assert attempts[..i] + [attempts[i]] == attempts[..i + 1];
      statuses := statuses + [status];
      i := i + 1;
    }
    assert attempts[..i] == attempts;
    FoundIs(w);
    assert |w.eraseCounts[..]| == w.n && w.eraseCounts[..][w.activeSlot] > 0;
    WearSpread(w.eraseCounts[..], w.activeSlot, w.failures);
  }

  /** Formats a blank device. */
  method StartSession(w: Leveller, format: Fault) returns (started: bool)
    requires w.Ready() && Recovered(w.crc, w.g, w.raw.data[..], w.n).None? && w.Unworn()
    modifies w, w.eraseCounts, w.raw, w.raw.data
    ensures started ==> w.Open() && w.failures == 0 && w.committed == Blank(w.g.capacity)
    ensures started ==> Balanced(w.eraseCounts[..], w.activeSlot, 0) && w.eraseCounts[w.activeSlot] > 0
    ensures started ==> Alive(w, 1) && Clear(w) && Found(w)
    ensures format.operation == 0 && w.AllWhole() ==> started
  {
    hide Balanced, Recovered, Clear, Found, Alive, Mountable, Leveller.Unworn, Leveller.AllWhole, Leveller.Formatted,
         Leveller.WornOut, Leveller.Counted, Unused, Slot, Image, Leveller.Mounted;
    ghost var b := w.raw.data[..];
    UnwornIs(w);
    w.raw.FailAt(format);
    var status := w.Init();
    started := status == Ok;
    if started {
      FormattedIs(w, b);
      FormattedClear(w, b);
    }
  }

  /** A restart finds the active slot. */
  ghost predicate Found(w: Leveller)
    requires w.Ready()
    reads w, w.raw.data
  {
    Newest(w.crc, w.g, w.raw.data[..], w.n, w.n) == Some(w.activeSlot)
  }

  lemma FoundIs(w: Leveller)
    requires w.Ready() && w.Open()
    ensures Found(w) ==> Recovered(w.crc, w.g, w.raw.data[..], w.n) == Some(w.committed)
  {
    hide Newest, Image, Slot;
  }

  lemma UnwornIs(w: Leveller)
    requires w.Ready() && w.Unworn()
    ensures !w.WornOut() && Unused(w.crc, w.g, w.raw.data[..], w.n)
  {
  }

  ghost predicate Unused(crc: Checksum, g: Geometry, b: seq<u8>, n: nat)
    requires SlotFits(g) && n * g.size <= |b|
  {
    forall s :: 0 <= s < n ==> HeaderErases(crc, g, Slot(g, b, n, s)) == 0
  }

  lemma FormattedIs(w: Leveller, b: seq<u8>)
    requires w.Ready() && w.n * w.g.size <= |b| == w.raw.data.Length && w.Formatted(b) && Unused(w.crc, w.g, b, w.n)
    ensures w.activeSlot == 0 && w.generation == 1 && w.eraseCounts[0] == 1 && Balanced(w.eraseCounts[..], 0, 0)
    ensures forall s :: 0 < s < w.n ==> w.eraseCounts[s] == 0
    ensures Alive(w, 1)
  {
    hide HeaderErases, Slot, Live, Attempted;
  }

  /** A formatted device holds one valid slot. */
  lemma FormattedClear(w: Leveller, b: seq<u8>)
    requires w.Ready() && w.n * w.g.size <= |b| == w.raw.data.Length && w.Formatted(b)
    requires Recovered(w.crc, w.g, b, w.n).None?
    ensures Clear(w) && Found(w)
  {
    hide HeaderErases, Slot, ValidSlot, Generation, Newest, Attempted, Live;
    AttemptErases(w.crc, w.g, b, w.raw.data[..], w.n, 0, 1, HeaderErases(w.crc, w.g, Slot(w.g, b, w.n, 0)) + 1,
                  Blank(w.g.capacity));
    forall s | 0 < s < w.n ensures !Valid(w.crc, w.g, w.raw.data[..], w.n, s) {
      assert !Valid(w.crc, w.g, b, w.n, s);
    }
    LiveRecovers(w.crc, w.g, w.raw.data[..], w.n, 1, 0, 1);
  }

  method SessionStep(w: Leveller, a: Attempt, ghost m: nat) returns (status: Status)
    requires w.Ready() && w.Open()
    modifies w, w.eraseCounts, w.raw, w.raw.data
    ensures w.Open() && old(w.failures) <= w.failures <= old(w.failures) + (if status == Ok then 0 else 1)
    ensures status == Ok ==> InRange(|old(w.committed)|, a.change)
    ensures w.committed == if status == Ok then Apply(old(w.committed), a.change) else old(w.committed)
    ensures m < 0x7fff_fff0 && old(Alive(w, m)) ==>
      && (status == Ok ==> Clear(w)) && (status == Ok && old(Clear(w)) ==> Found(w))
      && (w.failures == old(w.failures) && old(Clear(w)) ==> Clear(w))
      && (w.failures == old(w.failures) && old(Clear(w)) && old(Found(w)) ==> Found(w))
    ensures old(Balanced(w.eraseCounts[..], w.activeSlot, w.failures)) ==>
      Balanced(w.eraseCounts[..], w.activeSlot, w.failures)
    ensures old(w.eraseCounts[w.activeSlot]) > 0 ==> w.eraseCounts[w.activeSlot] > 0
    ensures m < 0x7fff_fff0 && old(Alive(w, m)) ==> Alive(w, m + 1) && (status == Ok ==> LastHolds(w))
  {
    hide Balanced, Live, Newest, ValidSlot, Slot, Image, Generation, Leveller.Landed, Endures, FirstAround,
         LeastErased, Attempted;
    ghost var b, active, top, counts, was := w.raw.data[..], w.activeSlot, w.generation, w.eraseCounts[..], w.committed;
    w.raw.FailAt(a.fault);
    var tried;
    ghost var target;
    status, tried, target := w.Update(a.change);
    ghost var b' := w.raw.data[..];
    if m < 0x7fff_fff0 && Live(w.crc, w.g, b, w.n, top, active, m) {
      if status == Ok {
        TargetIs(counts, active, target);
        AfterSuccess(w.crc, w.g, b, b', w.n, target, active, top, Next(counts[target]), Apply(was, a.change), m);
        LiveRecovers(w.crc, w.g, b', w.n, w.generation, w.activeSlot, m + 1);
        SuccessFound(w, b, target, active, top, Next(counts[target]), Apply(was, a.change), m);
      } else if tried {
        TargetIs(counts, active, target);
        AfterFailure(w.crc, w.g, b, b', w.n, target, active, top, Next(counts[target]), Apply(was, a.change), m);
        LiveMore(w.crc, w.g, b', w.n, top, active, m);
      } else {
        LiveMore(w.crc, w.g, b', w.n, top, active, m);
      }
    }
  }

  lemma SuccessFound(w: Leveller, b: seq<u8>, target: nat, active: nat, top: u32, erases: u32, image: seq<u8>, m: nat)
    requires w.Ready() && w.n * w.g.size <= |b| == w.raw.data.Length && target != active && m < 0x7fff_ffff
    requires Live(w.crc, w.g, b, w.n, top, active, m) && w.activeSlot == target && w.generation == Next(top)
    requires Attempted(w.crc, w.g, b, w.raw.data[..], w.n, target, Next(top), erases, image, true)
    ensures Clear(w) && (!Carried(w.crc, w.g, b, w.n, Next(top)) ==> Found(w))
  {
    hide Live, ValidSlot, Slot, Image, Generation, Newest, Attempted;
    AttemptedParts(w.crc, w.g, b, w.raw.data[..], w.n, target, Next(top), erases, image, true);
    AfterSuccess(w.crc, w.g, b, w.raw.data[..], w.n, target, active, top, erases, image, m);
    if !Carried(w.crc, w.g, b, w.n, Next(top)) {
      assert forall s :: 0 <= s < target && Valid(w.crc, w.g, b, w.n, s) ==> Gen(w.g, b, w.n, s) != Next(top);
    }
  }

  lemma LiveMore(crc: Checksum, g: Geometry, b: seq<u8>, n: nat, top: u32, active: nat, m: nat)
    requires SlotFits(g) && n * g.size <= |b| && Live(crc, g, b, n, top, active, m)
    ensures Live(crc, g, b, n, top, active, m + 1)
  {
  }

  /**
   A success that a restart does not find. Three slots, written byte by byte: the first update fails at its last
   synchronisation although its commit byte has landed in slot 1, and the second goes to slot 2 and succeeds with the
   same generation. A restart keeps slot 1.
   */
  method LostUpdate(dev: Device, crc: Checksum, g: Geometry, first: u8, second: u8)
      returns (reported: Status, found: seq<u8>)
    requires SlotFits(g) && 3 * g.size <= dev.data.Length && dev.Unit() == 1 && g.capacity > 0 && first != second
    requires Recovered(crc, g, dev.data[..], 3).None? && Unused(crc, g, dev.data[..], 3)
    modifies dev, dev.data
    ensures reported == Ok && found == Apply(Blank(g.capacity), Write(0, [first])) && found[0] == first != second
  {
    hide Newest, ValidSlot, Slot, Image, Generation, HeaderErases, Attempted, Live, LeastErased, FirstAround, Endures,
         Balanced, LowestWith, Leveller.Landed, Leveller.AllWhole, Mountable, Unused;
    var w := new Leveller(dev, crc, g, 3);
    var image := Apply(Blank(g.capacity), Write(0, [first]));
    FirstLands(w, first);
    ghost var b1 := dev.data[..];
    EnduresAt(w.eraseCounts[..], 0, 2);
    var change := Write(0, [second]);
    dev.FailAt(NO_FAULT);
    UnitOne(w);
    var tried;
    ghost var target;
    reported, tried, target := w.Update(change);
    NextOfThree([1, 1, 0], target);
    RivalKept(crc, g, b1, dev.data[..], 3, 2, 0, 1, 1, Apply(Blank(g.capacity), change), 1, 1);
    found := ReadAfterRestart(dev, crc, g, 3);
    assert found == image;
  }

  /** What a restart finds on a device with valid slots. */
  method ReadAfterRestart(dev: Device, crc: Checksum, g: Geometry, n: nat) returns (found: seq<u8>)
    requires SlotFits(g) && 2 <= n <= MAX_SLOTS && n * g.size <= dev.data.Length
    requires Recovered(crc, g, dev.data[..], n).Some?
    modifies dev, dev.data
    ensures Some(found) == Recovered(crc, g, dev.data[..], n) && dev.data[..] == old(dev.data[..])
  {
    hide Recovered, Leveller.AllWhole, Leveller.WornOut, Leveller.Mounted, Mountable, Slot, Leveller.Formatted,
         Leveller.Counted;
    dev.FailAt(NO_FAULT);
    var w := new Leveller(dev, crc, g, n);
    var status := w.Init();
    status, found := w.Read(0, g.capacity);
    assert w.committed[0..g.capacity] == w.committed;
  }

  /** The formatting of three slots that were never erased. */
  method FormatThree(w: Leveller)
    requires w.Ready() && w.n == 3 && w.raw.Unit() == 1
    requires Recovered(w.crc, w.g, w.raw.data[..], 3).None? && Unused(w.crc, w.g, w.raw.data[..], 3)
    modifies w, w.eraseCounts, w.raw, w.raw.data
    ensures w.Open() && w.activeSlot == 0 && w.generation == 1 && w.committed == Blank(w.g.capacity)
    ensures w.eraseCounts[..] == [1, 0, 0]
    ensures Live(w.crc, w.g, w.raw.data[..], 3, 1, 0, 1)
  {
    hide Newest, ValidSlot, Slot, Image, Generation, HeaderErases, Attempted, Live, Leveller.AllWhole, Mountable,
         Leveller.Formatted, Leveller.WornOut, Recovered;
    UnitOne(w);
    ghost var b := w.raw.data[..];
    UnusedIs(w);
    w.raw.FailAt(NO_FAULT);
    var status := w.Init();
    FormattedIs(w, b);
    assert w.eraseCounts[..] == [1, 0, 0];
  }

  lemma UnusedIs(w: Leveller)
    requires w.Ready() && Unused(w.crc, w.g, w.raw.data[..], w.n)
    ensures !w.WornOut()
  {
  }

  /** The first update lands in slot 1 and is reported as failed. */
  method FirstLands(w: Leveller, first: u8)
    requires w.Ready() && w.n == 3 && w.raw.Unit() == 1 && w.g.capacity > 0
    requires Recovered(w.crc, w.g, w.raw.data[..], 3).None? && Unused(w.crc, w.g, w.raw.data[..], 3)
    modifies w, w.eraseCounts, w.raw, w.raw.data
    ensures w.Open() && w.activeSlot == 0 && w.generation == 1 && w.committed == Blank(w.g.capacity)
    ensures w.eraseCounts[..] == [1, 1, 0]
    ensures Live(w.crc, w.g, w.raw.data[..], 3, 1, 0, 1) && LowestWith(w.crc, w.g, w.raw.data[..], 3, Next(1), 1)
    ensures Image(w.g, Slot(w.g, w.raw.data[..], 3, 1)) == Apply(Blank(w.g.capacity), Write(0, [first]))
  {
    hide Newest, ValidSlot, Slot, Image, Generation, HeaderErases, Attempted, Live, LeastErased, FirstAround, Endures,
         Balanced, LowestWith, Leveller.AllWhole, Mountable, Unused, Leveller.Landed, Apply, InRange;
    FormatThree(w);
    ghost var b0 := w.raw.data[..];
    EnduresAt([1, 0, 0], 0, 1);
    w.raw.FailAt(Fault(7, 0, false));
    FirstInRange(w.g.capacity, first);
    var status, tried;
    ghost var target;
    status, tried, target := w.Update(Write(0, [first]));
    NextOfThree([1, 0, 0], target);
    ghost var image := Apply(Blank(w.g.capacity), Write(0, [first]));
    AfterFailure(w.crc, w.g, b0, w.raw.data[..], 3, 1, 0, 1, 1, image, 1);
    LandedIsAhead(w, [1, 0, 0], 1, 1, image);
    assert [1, 0, 0][1 := 1] == [1, 1, 0];
  }

  lemma FirstInRange(capacity: nat, first: u8)
    requires capacity > 0
    ensures InRange(capacity, Write(0, [first]))
  {
  }

  lemma UnitOne(w: Leveller)
    requires w.Ready() && w.raw.Unit() == 1
    ensures w.AllWhole()
  {
  }

  lemma EnduresAt(counts: seq<u32>, active: nat, s: nat)
    requires s < |counts| && s != active && counts[s] < U32_MAX
    ensures Endures(counts, active)
  {
  }

  lemma NextOfThree(counts: seq<u32>, target: nat)
    requires LeastErased(counts, 0, target) && FirstAround(counts, 0, target)
    ensures counts == [1, 0, 0] ==> target == 1
    ensures counts == [1, 1, 0] ==> target == 2
  {
    if counts == [1, 0, 0] {
      assert Around(0, 1, |counts|) == 1 && Around(0, 2, |counts|) == 2;
    }
    if counts == [1, 1, 0] {
      assert counts[target] <= counts[2];
    }
  }

  lemma LandedIsAhead(w: Leveller, counts: seq<u32>, target: nat, top: u32, image: seq<u8>)
    requires w.Ready() && |counts| == w.n && w.Landed(counts, target, Next(top), image)
    requires Live(w.crc, w.g, w.raw.data[..], w.n, top, 0, 1) && target == 1
    ensures LowestWith(w.crc, w.g, w.raw.data[..], w.n, Next(top), target)
    ensures Image(w.g, Slot(w.g, w.raw.data[..], w.n, target)) == image
    ensures counts[target] < U32_MAX && w.eraseCounts[..] == counts[target := counts[target] + 1]
  {
    hide ValidSlot, Slot, Generation, EncodeHeader, Image, Holds;
    CompleteIsValid(w.crc, w.g, Slot(w.g, w.raw.data[..], w.n, target), Next(top), Next(counts[target]), image);
    NextDiffers(top);
  }

  // ---------------------------------------------------------------- runs

  /** In a run a failed commit is followed by a restart, and erase counters and generations may be used up. */
  function Atomic(capacity: nat): Kind {
    Kind(capacity, false, true)
  }

  /** The state of device and leveller agrees with the log. */
  ghost predicate Agrees(w: Leveller, start: Option<seq<u8>>, log: seq<Entry>)
    requires w.Ready()
    reads w, w.eraseCounts, w.raw.data
  {
    && Mountable(w.crc, w.g, w.raw.data[..], w.n)
    && Possible(Atomic(w.g.capacity), start, log, Recovered(w.crc, w.g, w.raw.data[..], w.n))
    && (IsMounted(Atomic(w.g.capacity), log) ==>
          && w.Mounted() && w.Open() && w.Counted(w.raw.data[..])
          && Durable(start, log) == Some(w.committed) && Pending(log) == {})
  }

  lemma MountedIs(w: Leveller)
    requires w.Ready() && w.Mounted()
    ensures |w.committed| == w.g.capacity && Mountable(w.crc, w.g, w.raw.data[..], w.n)
    ensures Recovered(w.crc, w.g, w.raw.data[..], w.n) == Some(w.committed)
    ensures Ordered(w.crc, w.g, w.raw.data[..], w.n, w.generation)
    ensures TopAt(w.crc, w.g, w.raw.data[..], w.n, w.generation, w.activeSlot)
    ensures w.activeSlot < w.n && w.committed == Image(w.g, Slot(w.g, w.raw.data[..], w.n, w.activeSlot))
  {
    TopRecovers(w.crc, w.g, w.raw.data[..], w.n, w.generation, w.activeSlot);
  }

  /** No erase counter is left for the update, or the generations span half the range. */
  ghost predicate UsedUp(w: Leveller)
    requires w.Ready()
    reads w, w.eraseCounts, w.raw.data
  {
    !Endures(w.eraseCounts[..], w.activeSlot) || !SpanOk(w.crc, w.g, w.raw.data[..], w.n, w.generation)
  }

  /**
   The device is used up: every erase counter but that of the newest slot is spent, or the generations span half the
   range; without a valid slot, the counter of the slot to be formatted is spent.
   */
  ghost predicate SpentOn(crc: Checksum, g: Geometry, b: seq<u8>, n: nat)
    requires SlotFits(g) && 0 < n && n * g.size <= |b|
  {
    match Newest(crc, g, b, n, n)
    case None => HeaderErases(crc, g, Slot(g, b, n, 0)) == U32_MAX
    case Some(newest) =>
      || (forall s :: 0 <= s < n && s != newest ==> HeaderErases(crc, g, Slot(g, b, n, s)) == U32_MAX)
      || !SpanOk(crc, g, b, n, Gen(g, b, n, newest))
  }

  ghost predicate Spent(w: Leveller)
    requires w.Ready()
    reads w.raw.data
  {
    SpentOn(w.crc, w.g, w.raw.data[..], w.n)
  }

  /** What a mounted leveller knows to be used up is so on the device. */
  lemma UsedUpIsSpent(w: Leveller)
    requires w.Ready() && w.Mounted() && w.Counted(w.raw.data[..])
    ensures UsedUp(w) <==> Spent(w)
    ensures Newest(w.crc, w.g, w.raw.data[..], w.n, w.n) == Some(w.activeSlot)
  {
    hide HeaderErases, Slot, ValidSlot, Generation, Newest, Behind, Image;
    NewestIsTop(w.crc, w.g, w.raw.data[..], w.n, w.n, w.generation, w.activeSlot);
    assert forall s :: 0 <= s < w.n ==>
      w.eraseCounts[..][s] == HeaderErases(w.crc, w.g, Slot(w.g, w.raw.data[..], w.n, s));
  }

  lemma WornOutIsSpent(w: Leveller)
    requires w.Ready()
    ensures Recovered(w.crc, w.g, w.raw.data[..], w.n).None? ==> (w.WornOut() <==> Spent(w))
  {
    hide HeaderErases, Slot, Newest, Image;
  }

  /**
   Room for m more commits: every erase counter, on the device and in the session, and the span of generations. A run
   without failures then never finds the store used up.
   */
  ghost predicate Roomy(w: Leveller, mounted: bool, m: nat)
    requires w.Ready()
    reads w, w.eraseCounts, w.raw.data
  {
    && RoomyOn(w.crc, w.g, w.raw.data[..], w.n, m)
    && (mounted ==> forall s :: 0 <= s < w.n ==> w.eraseCounts[s] + m < U32_MAX)
  }

  ghost predicate RoomyOn(crc: Checksum, g: Geometry, b: seq<u8>, n: nat, m: nat)
    requires SlotFits(g) && n * g.size <= |b|
  {
    && m < 0x7fff_ffff && (forall s :: 0 <= s < n ==> HeaderErases(crc, g, Slot(g, b, n, s)) + m < U32_MAX)
    && var newest := Newest(crc, g, b, n, n);
       newest.Some? ==>
         forall s :: 0 <= s < n && Valid(crc, g, b, n, s) ==>
           Behind(Gen(g, b, n, newest.value), Gen(g, b, n, s)) + m < 0x7fff_ffff
  }

  /** Runs one command. The caller starts no update once the generations span half the 32-bit range. */
  method Step(w: Leveller, ghost start: Option<seq<u8>>, ghost log: seq<Entry>, mounted: bool, command: Command,
              ghost m: nat)
      returns (nowMounted: bool, ghost entry: Entry)
    requires w.Ready() && w.AllWhole() && Agrees(w, start, log) && mounted == IsMounted(Atomic(w.g.capacity), log)
    modifies w, w.eraseCounts, w.raw, w.raw.data
    ensures Legal(Atomic(w.g.capacity), start, log, command, entry) && Agrees(w, start, log + [entry])
    ensures nowMounted == IsMounted(Atomic(w.g.capacity), log + [entry])
    ensures entry in {Exhausted, RestartExhausted} ==> old(Spent(w))
    ensures old(Spent(w)) ==> w.raw.data[..] == old(w.raw.data[..])
    ensures command.fault.operation == 0 && old(Roomy(w, mounted, m + 1)) ==>
      entry != Exhausted && entry != RestartExhausted && Roomy(w, nowMounted, m)
  {
    hide Mountable, Recovered, Leveller.Mounted, Leveller.Open, Durable, Pending, IsMounted, Possible, Roomy, UsedUp,
         HeaderErases, Slot, Spent, Leveller.Counted;
    nowMounted := mounted;
    w.raw.FailAt(command.fault);
    if command.Restart? {
      nowMounted, entry := StepRestart(w, start, log, mounted, command.fault, m);
    } else if mounted {
      nowMounted, entry := StepUpdate(w, start, log, command.change, command.fault, m);
    } else {
      entry := Skipped;
      AfterEntry(Atomic(w.g.capacity), start, log, entry);
      PossibleSame(Atomic(w.g.capacity), start, log, entry, Recovered(w.crc, w.g, w.raw.data[..], w.n));
      RoomyLess(w, mounted, m);
    }
  }

  lemma RoomyLess(w: Leveller, mounted: bool, m: nat)
    requires w.Ready()
    ensures Roomy(w, mounted, m + 1) ==> Roomy(w, mounted, m)
  {
    hide HeaderErases, Slot, ValidSlot, Generation, Newest;
  }

  /** A completed commit leaves its erase count in the slot and the others as they were. */
  lemma AttemptErases(crc: Checksum, g: Geometry, b: seq<u8>, b': seq<u8>, n: nat, target: nat, generation: u32,
                      erases: u32, image: seq<u8>)
    requires SlotFits(g) && n * g.size <= |b| == |b'|
    requires Attempted(crc, g, b, b', n, target, generation, erases, image, true)
    ensures HeaderErases(crc, g, Slot(g, b', n, target)) == erases
    ensures forall s :: 0 <= s < n && s != target ==> Slot(g, b', n, s) == Slot(g, b, n, s)
    ensures Valid(crc, g, b', n, target) && Gen(g, b', n, target) == generation
  {
    hide ReadU32, EncodeHeader, Slot, OnlySlot;
    var s := Slot(g, b', n, target);
    UnchangedSlots(crc, g, b, b', n, target);
    HeaderReadsBack(crc, generation, erases, g.capacity, image);
    CompleteIsValid(crc, g, s, generation, erases, image);
    HeaderWords(s[..HEADER_SIZE], s);
  }

  lemma RoomyAfterFormat(crc: Checksum, g: Geometry, b: seq<u8>, b': seq<u8>, n: nat, erases: u32, image: seq<u8>,
                         m: nat)
    requires SlotFits(g) && 0 < n && n * g.size <= |b| == |b'| && Newest(crc, g, b, n, n).None?
    requires RoomyOn(crc, g, b, n, m + 1)
    requires erases == HeaderErases(crc, g, Slot(g, b, n, 0)) + 1
    requires Attempted(crc, g, b, b', n, 0, 1, erases, image, true)
    ensures RoomyOn(crc, g, b', n, m)
  {
    hide HeaderErases, Slot, ValidSlot, Generation, Newest, Attempted, Behind;
    AttemptErases(crc, g, b, b', n, 0, 1, erases, image);
    forall s | 0 < s < n ensures !Valid(crc, g, b', n, s) {
      assert !Valid(crc, g, b, n, s);
    }
    BehindSelf(1);
  }

  lemma BehindSelf(x: u32)
    ensures Behind(x, x) == 0
  {
  }

  lemma RoomyAfterCommit(crc: Checksum, g: Geometry, b: seq<u8>, b': seq<u8>, n: nat, target: nat, active: nat,
                         top: u32, erases: u32, image: seq<u8>, m: nat)
    requires SlotFits(g) && n * g.size <= |b| == |b'| && Ordered(crc, g, b, n, top) && TopAt(crc, g, b, n, top, active)
    requires target != active
    requires RoomyOn(crc, g, b, n, m + 1) && erases + m < U32_MAX
    requires Attempted(crc, g, b, b', n, target, Next(top), erases, image, true)
    ensures RoomyOn(crc, g, b', n, m)
  {
    hide HeaderErases, Slot, ValidSlot, Generation, Newest, Attempted, Behind, Next;
    AttemptErases(crc, g, b, b', n, target, Next(top), erases, image);
    NewestIsTop(crc, g, b, n, n, top, active);
    assert SpanOk(crc, g, b, n, top);
    AttemptedParts(crc, g, b, b', n, target, Next(top), erases, image, true);
    TargetNext(crc, g, b, b', n, target, top);
    NewestIsTop(crc, g, b', n, n, Next(top), target);
    NextBehindZero(top);
    forall s | 0 <= s < n && Valid(crc, g, b', n, s) ensures Behind(Next(top), Gen(g, b', n, s)) + m < 0x7fff_ffff {
      if s != target {
        BehindNext(top, Gen(g, b, n, s));
      }
    }
  }

  lemma AttemptedParts(crc: Checksum, g: Geometry, b: seq<u8>, b': seq<u8>, n: nat, target: nat, generation: u32,
                       erases: u32, image: seq<u8>, complete: bool)
    requires SlotFits(g) && n * g.size <= |b| == |b'|
    requires Attempted(crc, g, b, b', n, target, generation, erases, image, complete)
    ensures target < n && SlotBase(g, target) + g.size <= |b| && OnlySlot(b, b', SlotBase(g, target), g.size)
    ensures |image| == g.capacity
    ensures Outcome(g, Slot(g, b, n, target), Slot(g, b', n, target),
                    EncodeHeader(crc, generation, erases, g.capacity, image), image, complete)
  {
  }

  method StepRestart(w: Leveller, ghost start: Option<seq<u8>>, ghost log: seq<Entry>, mounted: bool, fault: Fault,
                     ghost m: nat)
      returns (nowMounted: bool, ghost entry: Entry)
    requires w.Ready() && w.AllWhole() && Agrees(w, start, log) && (fault.operation == 0 ==> w.raw.Quiet())
    modifies w, w.eraseCounts, w.raw`operationCount, w.raw.data
    ensures || (entry.Restarted? && Possible(Atomic(w.g.capacity), start, log, Some(entry.image)))
            || (fault.operation != 0 && entry == RestartFailed) || entry == RestartExhausted
    ensures Agrees(w, start, log + [entry]) && nowMounted == IsMounted(Atomic(w.g.capacity), log + [entry])
    ensures entry == RestartExhausted ==> old(Spent(w))
    ensures old(Spent(w)) ==> w.raw.data[..] == old(w.raw.data[..])
    ensures fault.operation == 0 && old(Roomy(w, mounted, m + 1)) ==>
      entry != RestartExhausted && Roomy(w, nowMounted, m)
  {
    hide Mountable, Leveller.Mounted, Leveller.Open, Durable, Pending, IsMounted, HeaderErases, Slot, ValidSlot, Image,
         Attempted, Newest,
         Balanced, Generation, RoomyOn, Live, Leveller.Formatted, Leveller.Counted, Ordered, TopAt, Spent;
    ghost var b := w.raw.data[..];
    WornOutIsSpent(w);
    ghost var roomy := Roomy(w, mounted, m + 1);
    var status := w.Init();
    nowMounted := status == Ok;
    entry := if status == Ok then Restarted(w.committed) else if fault.operation != 0 then RestartFailed
             else RestartExhausted;
    AfterEntry(Atomic(w.g.capacity), start, log, entry);
    if status == Ok {
      MountedIs(w);
      InitCounts(w, b);
    }
    if fault.operation == 0 && roomy {
      RoomyRestart(w, b, m);
    }
  }

  /** After mounting, the erase counts are those on the device. */
  lemma InitCounts(w: Leveller, b: seq<u8>)
    requires w.Ready() && w.n * w.g.size <= |b| == w.raw.data.Length
    requires (w.raw.data[..] == b && w.Counted(b)) || w.Formatted(b)
    ensures w.Counted(w.raw.data[..])
  {
    hide HeaderErases, Slot, Attempted, Live;
    if w.Formatted(b) {
      AttemptErases(w.crc, w.g, b, w.raw.data[..], w.n, 0, 1, HeaderErases(w.crc, w.g, Slot(w.g, b, w.n, 0)) + 1,
                    Blank(w.g.capacity));
    }
  }

  lemma RoomyRestart(w: Leveller, b: seq<u8>, m: nat)
    requires w.Ready() && w.n * w.g.size <= |b| == w.raw.data.Length && RoomyOn(w.crc, w.g, b, w.n, m + 1)
    ensures HeaderErases(w.crc, w.g, Slot(w.g, b, w.n, 0)) < U32_MAX
    ensures Newest(w.crc, w.g, b, w.n, w.n).Some? && w.raw.data[..] == b && w.Counted(b) ==> Roomy(w, true, m)
    ensures Newest(w.crc, w.g, b, w.n, w.n).None? && w.Formatted(b) ==> Roomy(w, true, m)
  {
    hide HeaderErases, Slot, ValidSlot, Generation, Newest, RoomyOn, Attempted, Live;
    RoomyFits(w.crc, w.g, b, w.n, m);
    if Newest(w.crc, w.g, b, w.n, w.n).None? && w.Formatted(b) {
      RoomyAfterFormat(w.crc, w.g, b, w.raw.data[..], w.n, HeaderErases(w.crc, w.g, Slot(w.g, b, w.n, 0)) + 1,
                       Blank(w.g.capacity), m);
    }
  }

  lemma RoomyFits(crc: Checksum, g: Geometry, b: seq<u8>, n: nat, m: nat)
    requires SlotFits(g) && n * g.size <= |b| && RoomyOn(crc, g, b, n, m + 1)
    ensures RoomyOn(crc, g, b, n, m)
    ensures forall s :: 0 <= s < n ==> HeaderErases(crc, g, Slot(g, b, n, s)) + m + 1 < U32_MAX
  {
    hide HeaderErases, Slot, ValidSlot, Generation, Newest;
  }

  lemma RoomyUsable(w: Leveller, m: nat)
    requires w.Ready() && w.Mounted() && Roomy(w, true, m + 1)
    ensures !UsedUp(w) && RoomyOn(w.crc, w.g, w.raw.data[..], w.n, m + 1)
    ensures forall s :: 0 <= s < w.n ==> w.eraseCounts[s] + m + 1 < U32_MAX
  {
    hide HeaderErases, Slot, ValidSlot, Generation, Newest, Behind, Image;
    NewestIsTop(w.crc, w.g, w.raw.data[..], w.n, w.n, w.generation, w.activeSlot);
    EnduresAt(w.eraseCounts[..], w.activeSlot, if w.activeSlot == 0 then 1 else 0);
  }

  lemma RoomyUpdate(w: Leveller, b: seq<u8>, counts: seq<u32>, active: nat, top: u32, target: nat, image: seq<u8>,
                    m: nat)
    requires w.Ready() && w.n * w.g.size <= |b| == w.raw.data.Length && RoomyOn(w.crc, w.g, b, w.n, m + 1)
    requires |counts| == w.n && target < w.n && target != active
    requires forall s :: 0 <= s < w.n ==> counts[s] + m + 1 < U32_MAX
    requires w.eraseCounts[..] == counts[target := counts[target] + 1]
    requires Ordered(w.crc, w.g, b, w.n, top) && TopAt(w.crc, w.g, b, w.n, top, active)
    requires Attempted(w.crc, w.g, b, w.raw.data[..], w.n, target, Next(top), Next(counts[target]), image, true)
    ensures Roomy(w, true, m)
  {
    hide RoomyOn, Ordered, TopAt, Attempted;
    RoomyAfterCommit(w.crc, w.g, b, w.raw.data[..], w.n, target, active, top, Next(counts[target]), image, m);
    forall s | 0 <= s < w.n ensures w.eraseCounts[s] + m < U32_MAX {
      assert w.eraseCounts[s] == w.eraseCounts[..][s];
    }
  }

  /** After an update, however it ended, a restart finds the old image or the new one. */
  lemma UpdateRecovers(crc: Checksum, g: Geometry, b: seq<u8>, b': seq<u8>, n: nat, target: nat, active: nat, top: u32,
                       erases: u32, image: seq<u8>, complete: bool)
    requires SlotFits(g) && n * g.size <= |b| == |b'| && target != active
    requires Ordered(crc, g, b, n, top) && TopAt(crc, g, b, n, top, active) && SpanOk(crc, g, b, n, top)
    requires Attempted(crc, g, b, b', n, target, Next(top), erases, image, complete)
    ensures complete ==> Ordered(crc, g, b', n, Next(top)) && TopAt(crc, g, b', n, Next(top), target)
    ensures Mountable(crc, g, b', n) && Recovered(crc, g, b', n).Some?
    ensures Recovered(crc, g, b', n).value in {Image(g, Slot(g, b, n, active)), image}
  {
    hide ValidSlot, OnlySlot, Generation, Slot, Ordered, SpanOk, EncodeHeader, Image, Outcome, Mountable, Recovered,
         SlotBase, Attempted;
    AttemptedParts(crc, g, b, b', n, target, Next(top), erases, image, complete);
    CommitRecovers(crc, g, b, b', n, target, active, top, erases, image, complete);
  }

  method StepUpdate(w: Leveller, ghost start: Option<seq<u8>>, ghost log: seq<Entry>, change: Change, fault: Fault,
                    ghost m: nat)
      returns (nowMounted: bool, ghost entry: Entry)
    requires w.Ready() && w.AllWhole() && Agrees(w, start, log) && IsMounted(Atomic(w.g.capacity), log)
    requires (fault.operation == 0 ==> w.raw.Quiet())
    modifies w, w.eraseCounts, w.raw`operationCount, w.raw.data
    ensures Durable(start, log).Some?
    ensures if InRange(|Durable(start, log).value|, change)
            then var image := Apply(Durable(start, log).value, change);
              entry in {Done(image), Exhausted} || (fault.operation != 0 && entry in {CutShort(image), Refused})
            else entry == Refused
    ensures Agrees(w, start, log + [entry]) && nowMounted == IsMounted(Atomic(w.g.capacity), log + [entry])
    ensures entry == Exhausted ==> old(Spent(w))
    ensures old(Spent(w)) ==> w.raw.data[..] == old(w.raw.data[..])
    ensures fault.operation == 0 && old(Roomy(w, true, m + 1)) ==> entry != Exhausted && nowMounted && Roomy(w, true, m)
  {
    hide Mountable, Recovered, Durable, Pending, IsMounted, SpanOk, Slot, ValidSlot, Image, Endures, RoomyOn, Roomy,
         Generation, Ordered, TopAt, Leveller.Mounted, Leveller.Open, Leveller.AllWhole, Spent, Leveller.Counted;
    MountedIs(w);
    UsedUpIsSpent(w);
    if Roomy(w, true, m + 1) {
      RoomyUsable(w, m);
    }
    if SpanOk(w.crc, w.g, w.raw.data[..], w.n, w.generation) {
      nowMounted, entry := TryUpdate(w, change, fault, m);
      if nowMounted {
        MountedIs(w);
      }
    } else {
      nowMounted := true;
      entry := if InRange(w.g.capacity, change) then Exhausted else Refused;
    }
    AfterEntry(Atomic(w.g.capacity), start, log, entry);
  }

  /** An update, with the entry it makes in the log of an atomic store. */
  method TryUpdate(w: Leveller, change: Change, fault: Fault, ghost m: nat)
      returns (nowMounted: bool, ghost entry: Entry)
    requires w.Ready() && w.AllWhole() && w.Open() && w.Mounted() && w.Counted(w.raw.data[..])
    requires SpanOk(w.crc, w.g, w.raw.data[..], w.n, w.generation)
    requires fault.operation == 0 ==> w.raw.Quiet()
    modifies w, w.eraseCounts, w.raw`operationCount, w.raw.data
    ensures !InRange(w.g.capacity, change) ==> entry == Refused
    ensures InRange(w.g.capacity, change) ==>
      || entry in {Done(Apply(old(w.committed), change)), Exhausted}
      || (fault.operation != 0 && entry in {CutShort(Apply(old(w.committed), change)), Refused})
    ensures nowMounted <==> !entry.CutShort?
    ensures nowMounted ==> w.Open() && w.Mounted() && w.Counted(w.raw.data[..])
    ensures !old(Endures(w.eraseCounts[..], w.activeSlot)) ==> w.raw.data[..] == old(w.raw.data[..])
    ensures Mountable(w.crc, w.g, w.raw.data[..], w.n) && Recovered(w.crc, w.g, w.raw.data[..], w.n).Some?
    ensures entry.Done? ==> Recovered(w.crc, w.g, w.raw.data[..], w.n) == Some(entry.image)
    ensures entry.CutShort? ==> Recovered(w.crc, w.g, w.raw.data[..], w.n).value in {old(w.committed), entry.image}
    ensures !entry.Done? && !entry.CutShort? ==>
      Recovered(w.crc, w.g, w.raw.data[..], w.n) == old(Recovered(w.crc, w.g, w.raw.data[..], w.n))
    ensures entry == Exhausted ==> !old(Endures(w.eraseCounts[..], w.activeSlot))
    ensures nowMounted && old(Roomy(w, true, m + 1)) ==> Roomy(w, true, m)
  {
    hide Mountable, Recovered, SpanOk, Slot, ValidSlot, Image, Attempted, LeastErased, Balanced, FirstAround,
         Leveller.Landed, Endures,
         RoomyOn, Roomy, Generation, Ordered, TopAt, Leveller.AllWhole, Leveller.Mounted, Next, Apply, Device.Quiet,
         SlotFits, HeaderErases, Leveller.Counted;
    MountedIs(w);
    ghost var roomy := Roomy(w, true, m + 1);
    ghost var b, before, counts := w.raw.data[..], w.committed, w.eraseCounts[..];
    ghost var active, top := w.activeSlot, w.generation;
    CountsAre(w);
    if roomy {
      RoomyUsable(w, m);
    }
    var endures := Endures(w.eraseCounts[..], w.activeSlot);
    var status, tried;
    ghost var target;
    status, tried, target := w.Update(change);
    nowMounted := status == Ok || !tried || !endures;
    entry := if status == Ok then Done(w.committed) else if !tried then Refused
             else if endures then CutShort(Apply(before, change)) else Exhausted;
    if status == Ok || !nowMounted {
      TargetIs(counts, active, target);
      UpdateRecovers(w.crc, w.g, b, w.raw.data[..], w.n, target, active, top, Next(counts[target]),
                     Apply(before, change), status == Ok);
    }
    if nowMounted {
      NowMounted(w);
      MountedIs(w);
      CountsKept(w, b, counts, target, top, w.committed, status == Ok);
    }
    if roomy && status == Ok {
      RoomyUpdate(w, b, counts, active, top, target, Apply(before, change), m);
    } else if roomy && nowMounted {
      RoomyKept(w, b, counts, m);
    }
  }

  lemma CountsAre(w: Leveller)
    requires w.Ready() && w.Counted(w.raw.data[..])
    ensures forall s :: 0 <= s < w.n ==>
      w.eraseCounts[..][s] == HeaderErases(w.crc, w.g, Slot(w.g, w.raw.data[..], w.n, s))
  {
  }

  lemma CountsKept(w: Leveller, b: seq<u8>, counts: seq<u32>, target: nat, top: u32, image: seq<u8>, complete: bool)
    requires w.Ready() && w.n * w.g.size <= |b| == w.raw.data.Length && |counts| == w.n
    requires forall s :: 0 <= s < w.n ==> counts[s] == HeaderErases(w.crc, w.g, Slot(w.g, b, w.n, s))
    requires !complete ==> w.raw.data[..] == b && w.eraseCounts[..] == counts
    requires complete ==>
      && target < w.n && counts[target] < U32_MAX
      && w.eraseCounts[..] == counts[target := counts[target] + 1]
    requires complete ==>
      Attempted(w.crc, w.g, b, w.raw.data[..], w.n, target, Next(top), Next(counts[target]), image, true)
    ensures w.Counted(w.raw.data[..])
  {
    hide HeaderErases, Slot, Attempted;
    if complete {
      AttemptErases(w.crc, w.g, b, w.raw.data[..], w.n, target, Next(top), Next(counts[target]), image);
    }
    forall s | 0 <= s < w.n ensures w.eraseCounts[s] == HeaderErases(w.crc, w.g, Slot(w.g, w.raw.data[..], w.n, s)) {
      assert w.eraseCounts[s] == w.eraseCounts[..][s];
    }
  }

  lemma RoomyKept(w: Leveller, b: seq<u8>, counts: seq<u32>, m: nat)
    requires w.Ready() && b == w.raw.data[..] && counts == w.eraseCounts[..] && RoomyOn(w.crc, w.g, b, w.n, m + 1)
    requires forall s :: 0 <= s < w.n ==> counts[s] + m + 1 < U32_MAX
    ensures Roomy(w, true, m)
  {
    hide RoomyOn;
    RoomyFits(w.crc, w.g, b, w.n, m);
    forall s | 0 <= s < w.n ensures w.eraseCounts[s] + m < U32_MAX {
      assert w.eraseCounts[s] == counts[s];
    }
  }

  lemma NowMounted(w: Leveller)
    requires w.Ready() && w.Open() && w.activeSlot < w.n
    requires w.committed == Image(w.g, Slot(w.g, w.raw.data[..], w.n, w.activeSlot))
    requires Ordered(w.crc, w.g, w.raw.data[..], w.n, w.generation)
    requires TopAt(w.crc, w.g, w.raw.data[..], w.n, w.generation, w.activeSlot)
    ensures w.Mounted()
  {
    hide Ordered, TopAt, Image, Slot;
  }

  /**
   Any run of updates and restarts, with a failure at any operation of any of them and a restart after each failed
   commit, is a legal run of an atomic store. A command is answered as exhausted only on a device that is used up and
   stays so; without failures, and with room for as many commits, nothing is refused.
   */
  method Run(dev: Device, crc: Checksum, capacity: nat, slots: nat, script: seq<Command>)
      returns (ghost log: seq<Entry>)
    requires capacity <= U32_MAX && Layout(HEADER_SIZE, capacity, dev.eraseSize, dev.Unit()).Some?
    requires 2 <= slots <= MAX_SLOTS
    requires var g := Layout(HEADER_SIZE, capacity, dev.eraseSize, dev.Unit()).value;
      SlotFits(g) && slots * g.size <= dev.data.Length && Mountable(crc, g, dev.data[..], slots)
    modifies dev, dev.data
    ensures var g := Layout(HEADER_SIZE, capacity, dev.eraseSize, dev.Unit()).value;
      var start := old(Recovered(crc, g, dev.data[..], slots));
      && LegalRun(Atomic(capacity), start, script, log)
      && Mountable(crc, g, dev.data[..], slots)
      && Possible(Atomic(capacity), start, log, Recovered(crc, g, dev.data[..], slots))
    ensures var g := Layout(HEADER_SIZE, capacity, dev.eraseSize, dev.Unit()).value;
      (forall c :: c in script ==> c.fault.operation == 0) && old(RoomyOn(crc, g, dev.data[..], slots, |script|)) ==>
        Exhausted !in log && RestartExhausted !in log
    ensures var g := Layout(HEADER_SIZE, capacity, dev.eraseSize, dev.Unit()).value;
      Exhausted in log || RestartExhausted in log ==> SpentOn(crc, g, dev.data[..], slots)
  {
    hide Mountable, Recovered, Legal, Durable, Pending, SlotFits, RoundUp, RoomyOn, Roomy, UsedUp, WholeUnits,
         SpentOn;
    var g := Layout(HEADER_SIZE, capacity, dev.eraseSize, dev.Unit()).value;
    ghost var start := Recovered(crc, g, dev.data[..], slots);
    var w := new Leveller(dev, crc, g, slots);
    WholeSlots(w, capacity);
    var mounted := false;
    log := [];
    StartsPossible(start, crc, g, dev.data[..], slots);
    StartsRoomy(w, |script|);
    ghost var healthy := (forall c :: c in script ==> c.fault.operation == 0)
      && RoomyOn(crc, g, dev.data[..], slots, |script|);
    var i := 0;
    while i < |script|
      invariant 0 <= i <= |script| && |log| == i && fresh(w) && fresh(w.eraseCounts)
      invariant w.raw == dev && w.crc == crc && w.g == g && w.n == slots && w.Ready() && w.AllWhole()
      invariant mounted == IsMounted(Atomic(capacity), log) && Agrees(w, start, log)
      invariant LegalRun(Atomic(capacity), start, script[..i], log)
      invariant healthy ==> Roomy(w, mounted, |script| - i) && Exhausted !in log && RestartExhausted !in log
      invariant Exhausted in log || RestartExhausted in log ==> Spent(w)
    {
      ghost var entry;
      mounted, entry := Step(w, start, log, mounted, script[i], |script| - i - 1);
      LegalExtends(Atomic(capacity), start, script, log, entry);
      log := log + [entry];
      i := i + 1;
    }
    assert script[..i] == script;
  }

  lemma WholeSlots(w: Leveller, capacity: nat)
    requires w.Ready() && Layout(HEADER_SIZE, capacity, w.raw.eraseSize, w.raw.Unit()) == Some(w.g)
    ensures w.AllWhole()
  {
    hide WholeUnits, Layout;
    forall s | 0 <= s < w.n ensures WholeUnits(w.raw, SlotBase(w.g, s), w.g.size) {
      LayoutWhole(w.raw, HEADER_SIZE, capacity, s);
    }
  }

  lemma StartsRoomy(w: Leveller, m: nat)
    requires w.Ready()
    ensures RoomyOn(w.crc, w.g, w.raw.data[..], w.n, m) ==> Roomy(w, false, m)
  {
  }

  lemma StartsPossible(start: Option<seq<u8>>, crc: Checksum, g: Geometry, b: seq<u8>, n: nat)
    requires SlotFits(g) && n * g.size <= |b| && start == Recovered(crc, g, b, n)
    ensures Possible(Atomic(g.capacity), start, [], start) && !IsMounted(Atomic(g.capacity), [])
  {
  }
}
