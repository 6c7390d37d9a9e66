/**
 The commit protocol shared by the flash mirror and the wear leveller: erase the slot, write header and
 payload, synchronise, and write one commit byte last.

 A power cut or a device error may stop it anywhere. The contracts below say what the slot can look like
 then: as it was, unmistakably not committed, or complete.
 */
module SlotCommit {
  import opened Bits
  import opened Storage

  const COMMITTED: u8 := 0xa5

  datatype Option<T> = None | Some(value: T)

  /** Is the candidate generation ahead of the reference, the signed 32-bit difference being positive? */
  predicate Newer(candidate: u32, reference: u32) {
    0 < (candidate - reference) % 0x1_0000_0000 < 0x8000_0000
  }

  function Next(generation: u32): u32 {
    (generation + 1) % 0x1_0000_0000
  }

  lemma NewerNext(a: u32)
    ensures Newer(Next(a), a) && !Newer(a, Next(a))
  {
  }

  /** How far x lies ahead of a base, counting modulo 2^32. */
  function Distance(base: u32, x: u32): nat {
    (x - base) % 0x1_0000_0000
  }

  lemma DistanceDifference(a: u32, b: u32, base: u32)
    requires Distance(base, a) < 0x8000_0000 && Distance(base, b) < 0x8000_0000
    ensures var x: int, y: int := Distance(base, a), Distance(base, b);
      (a - b) % 0x1_0000_0000 == if x >= y then x - y else x - y + 0x1_0000_0000
  {
    var x: int, y: int := Distance(base, a), Distance(base, b);
    var q := (a - b - (x - y)) / 0x1_0000_0000;
    assert (a - b - (x - y)) % 0x1_0000_0000 == 0;
    if x >= y {
      DivModUnique(a - b, 0x1_0000_0000, q, x - y);
    } else {
      DivModUnique(a - b, 0x1_0000_0000, q - 1, x - y + 0x1_0000_0000);
    }
  }

  /** Within half the number range the wrap-around comparison is an order. */
  lemma NewerIsOrder(a: u32, b: u32, base: u32)
    requires Distance(base, a) < 0x8000_0000 && Distance(base, b) < 0x8000_0000
    ensures Newer(a, b) <==> Distance(base, a) > Distance(base, b)
  {
    hide Distance;
    DistanceDifference(a, b, base);
  }

  /** Offsets within a slot: header at 0, then the commit unit, then the payload. */
  datatype Geometry = Geometry(header: nat, commit: nat, payload: nat, capacity: nat, size: nat)

  predicate Fits(g: Geometry) {
    4 <= g.header <= g.commit < g.payload && g.payload + g.capacity <= g.size
  }

  function Layout(header: nat, capacity: nat, eraseSize: nat, writeSize: nat): Option<Geometry> {
    if capacity == 0 || eraseSize == 0 || writeSize == 0 || writeSize > eraseSize || eraseSize % writeSize != 0
       || writeSize > MAX_WRITE_SIZE then
      None
    else
      var commit := RoundUp(header, writeSize);
      var payload := RoundUp(commit + writeSize, writeSize);
      Some(Geometry(header, commit, payload, capacity, RoundUp(payload + capacity, eraseSize)))
  }

  /** There is a layout exactly for whole write units in an erase block, of 256 bytes at most. */
  lemma LayoutIff(header: nat, capacity: nat, eraseSize: nat, writeSize: nat)
    ensures Layout(header, capacity, eraseSize, writeSize).Some? <==>
      capacity > 0 && 0 < writeSize <= 256 && eraseSize > 0 && Aligned(eraseSize, writeSize)
  {
    hide RoundUp;
    if 0 < eraseSize < writeSize {
      DivModUnique(eraseSize, writeSize, 0, eraseSize);
    }
  }

  /** Header, commit unit and payload never share a write unit, and a slot is a whole number of erase blocks. */
  lemma LayoutIs(header: nat, capacity: nat, eraseSize: nat, writeSize: nat)
    requires header >= 4 && Layout(header, capacity, eraseSize, writeSize).Some?
    ensures var g := Layout(header, capacity, eraseSize, writeSize).value;
      && Fits(g) && g.header == header && g.capacity == capacity
      && g.header <= g.commit < g.header + writeSize && g.payload == g.commit + writeSize
      && RoundUp(g.header, writeSize) <= g.commit && g.size < g.payload + capacity + eraseSize
      && Aligned(g.commit, writeSize) && Aligned(g.payload, writeSize) && Aligned(g.size, eraseSize)
  {
    hide RoundUp, Aligned;
    var commit := RoundUp(header, writeSize);
    RoundUpIs(header, writeSize);
    RoundUpNext(commit, writeSize);
    RoundUpIs(commit + writeSize + capacity, eraseSize);
  }

  lemma RoundUpNext(x: nat, m: nat)
    requires m > 0 && Aligned(x, m)
    ensures RoundUp(x + m, m) == x + m && Aligned(x + m, m)
  {
    DivModUnique(x + m, m, x / m + 1, 0);
    RoundUpIs(x + m, m);
    RoundUpWithin(x + m, x + m, m);
  }

  function Region(b: seq<u8>, base: nat, size: nat): (s: seq<u8>)
    requires base + size <= |b|
    ensures |s| == size
  {
    b[base..base + size]
  }

  lemma SliceOfSlice(s: seq<u8>, a: nat, n: nat, o: nat, l: nat)
    requires a + n <= |s| && o + l <= n
    ensures s[a..a + n][o..o + l] == s[a + o..a + o + l]
  {
    var x, y := s[a..a + n][o..o + l], s[a + o..a + o + l];
    assert |x| == |y|;
    forall i | 0 <= i < l ensures x[i] == y[i] {
      assert x[i] == s[a..a + n][o + i] == s[a + (o + i)];
    }
  }

  /** The slot carries this header and payload, and its commit byte. */
  predicate Holds(g: Geometry, s: seq<u8>, header: seq<u8>, image: seq<u8>)
    requires Fits(g) && |s| == g.size && |header| == g.header && |image| == g.capacity
  {
    s[..g.header] == header && s[g.commit] == COMMITTED && s[g.payload..g.payload + g.capacity] == image
  }

  /** The first header byte is gone, or the commit byte is missing. */
  predicate Dead(g: Geometry, s: seq<u8>, first: u8)
    requires Fits(g) && |s| == g.size
  {
    s[0] != first || s[g.commit] != COMMITTED
  }

  /** What a commit attempt may leave in the slot. */
  predicate Outcome(g: Geometry, was: seq<u8>, now: seq<u8>, header: seq<u8>, image: seq<u8>, complete: bool)
    requires Fits(g) && |was| == |now| == g.size && |header| == g.header && |image| == g.capacity
  {
    && (complete ==> Holds(g, now, header, image))
    && (now == was || Dead(g, now, header[0]) || Holds(g, now, header, image))
  }

  /** A failed erase, a refusal, or a filled slot: each is an outcome of a commit. */
  lemma OutcomeCases(g: Geometry, was: seq<u8>, now: seq<u8>, header: seq<u8>, image: seq<u8>, complete: bool)
    requires Fits(g) && |was| == |now| == g.size && |header| == g.header && |image| == g.capacity && header[0] != ERASED
    requires complete ==> Holds(g, now, header, image)
    requires now == was || now[0] == ERASED || now[g.commit] != COMMITTED || Holds(g, now, header, image)
    ensures Outcome(g, was, now, header, image, complete)
  {
  }

  /** Everything outside the slot is as before. */
  predicate OnlySlot(was: seq<u8>, now: seq<u8>, base: nat, size: nat)
    requires base + size <= |was| == |now|
  {
    now[..base] == was[..base] && now[base + size..] == was[base + size..]
  }

  lemma SpliceInSlot(b: seq<u8>, base: nat, size: nat, at: nat, t: seq<u8>)
    requires base + size <= |b| && at + |t| <= size
    ensures OnlySlot(b, Splice(b, base + at, t), base, size)
    ensures Region(Splice(b, base + at, t), base, size) == Splice(Region(b, base, size), at, t)
  {
  }

  lemma SpliceApart(s: seq<u8>, at: nat, t: seq<u8>, from: nat, n: nat)
    requires at + |t| <= |s| && from + n <= |s| && (from + n <= at || at + |t| <= from)
    ensures Splice(s, at, t)[from..from + n] == s[from..from + n]
  {
    var r := Splice(s, at, t);
    assert forall i :: from <= i < from + n ==> r[i] == s[i];
  }

  /** A range that does not meet the slot is as before. */
  lemma OutsideSlot(b: seq<u8>, b': seq<u8>, base: nat, size: nat, from: nat, length: nat)
    requires base + size <= |b| == |b'| && OnlySlot(b, b', base, size) && from + length <= |b|
    requires from + length <= base || base + size <= from
    ensures Region(b', from, length) == Region(b, from, length)
  {
    forall i | from <= i < from + length ensures b'[i] == b[i] {
      if i < base {
        assert b'[..base][i] == b[..base][i];
      } else {
        assert b'[base + size..][i - base - size] == b[base + size..][i - base - size];
      }
    }
  }

  lemma OnlySlotTransitive(a: seq<u8>, b: seq<u8>, c: seq<u8>, base: nat, size: nat)
    requires base + size <= |a| == |b| == |c| && OnlySlot(a, b, base, size) && OnlySlot(b, c, base, size)
    ensures OnlySlot(a, c, base, size)
  {
  }

  method ReadSlot(dev: Device, base: nat, size: nat, at: nat, n: nat) returns (status: Status, bytes: seq<u8>)
    requires base + size <= dev.data.Length && at + n <= size
    modifies dev`operationCount
    ensures old(dev.Quiet()) ==> dev.Quiet() && status == Ok
    ensures status == Ok ==> bytes == Region(dev.data[..], base, size)[at..at + n]
    ensures status != Ok ==> bytes == []
    ensures dev.operationCount == old(dev.operationCount) + 1 && (status == Ok <==> !dev.Failing())
    ensures (old(dev.Off()) ==> dev.Off() && status != Ok) && (dev.cut && status != Ok ==> dev.Off())
  {
    status, bytes := dev.Read(base + at, n);
    SliceOfSlice(dev.data[..], base, size, at, n);
    assert dev.data[..][base + at..base + at + n] == dev.data[base + at..base + at + n];
  }

  lemma ProgrammableInSlot(b: seq<u8>, base: nat, size: nat, at: nat, t: seq<u8>)
    requires base + size <= |b| && at + |t| <= size && Programmable(Region(b, base, size), at, t)
    ensures Programmable(b, base + at, t)
  {
    hide RaisesBit;
    forall i | 0 <= i < |t| ensures !RaisesBit(b[base + at + i], t[i]) {
      assert !RaisesBit(Region(b, base, size)[at + i], t[i]);
    }
  }

  /** A slot that ends on a write unit of the device. */
  predicate WholeUnits(dev: Device, base: nat, size: nat) {
    dev.Unit() <= MAX_WRITE_SIZE && Aligned(base + size, dev.Unit())
  }

  /** Every slot of a laid-out device ends on a write unit. */
  lemma LayoutWhole(dev: Device, header: nat, capacity: nat, slot: nat)
    requires header >= 4 && Layout(header, capacity, dev.eraseSize, dev.Unit()).Some?
    ensures var g := Layout(header, capacity, dev.eraseSize, dev.Unit()).value;
      WholeUnits(dev, slot * g.size, g.size)
  {
    var g := Layout(header, capacity, dev.eraseSize, dev.Unit()).value;
    hide RoundUp;
    LayoutIs(header, capacity, dev.eraseSize, dev.Unit());
    AlignedMultiple(g.size, dev.eraseSize, dev.Unit(), slot + 1);
  }

  lemma AlignedMultiple(x: nat, a: nat, b: nat, n: nat)
    requires a > 0 && b > 0 && Aligned(x, a) && Aligned(a, b)
    ensures Aligned(n * x, b)
  {
    var p, q := x / a, a / b;
    assert x == a * p && a == b * q;
    assert n * x == (n * (p * q)) * b by {
      MulAssoc(b, q, p);
      MulAssoc(n, p * q, b);
    }
    DivModUnique(n * x, b, n * (p * q), 0);
  }

  lemma RegionAt(b: seq<u8>, base: nat, size: nat, at: nat)
    requires base + size <= |b| && at < size
    ensures |Region(b, base, size)| == size && Region(b, base, size)[at] == b[base + at]
  {
  }

  /** Programs part of a slot: only a prefix of the target can change, and on a quiet device all of it does. */
  method ProgramSlot(dev: Device, base: nat, size: nat, at: nat, src: seq<u8>)
      returns (status: Status, ghost done: nat)
    requires base + size <= dev.data.Length && at + |src| <= size
    modifies dev`operationCount, dev.data
    ensures old(dev.Quiet()) ==> dev.Quiet()
    ensures done <= |src| && (status == Ok ==> done == |src|)
    ensures OnlySlot(old(dev.data[..]), dev.data[..], base, size)
    ensures Region(dev.data[..], base, size) == Splice(old(Region(dev.data[..], base, size)), at, src[..done])
    ensures (old(dev.Quiet()) && dev.Unit() <= MAX_WRITE_SIZE
             && RoundUp(base + at + |src|, dev.Unit()) <= dev.data.Length
             && Programmable(old(Region(dev.data[..], base, size)), at, src)) ==> status == Ok
    ensures old(dev.Off()) ==> dev.Off() && done == 0
    ensures dev.Unit() == 1 && |src| > 0 ==> dev.operationCount == old(dev.operationCount) + 1
    ensures dev.Unit() == 1 && |src| > 0 && Programmable(old(Region(dev.data[..], base, size)), at, src) ==>
      dev.Failing() || status == Ok
    ensures |src| == 1 && status == Ok && src[0] != old(Region(dev.data[..], base, size))[at] ==>
      dev.operationCount == old(dev.operationCount) + dev.ByteCost()
    ensures (|src| == 1 && old(dev.Calm(dev.ByteCost())) && dev.Unit() <= MAX_WRITE_SIZE
             && RoundUp(base + at + 1, dev.Unit()) <= dev.data.Length
             && Programmable(old(Region(dev.data[..], base, size)), at, src)) ==> status == Ok
  {
    hide Programmable, RoundUp, Aligned, Splice, OnlySlot, Region;
    ghost var was := dev.data[..];
    if |src| == 1 {
      RegionAt(was, base, size, at);
    }
    if Programmable(Region(was, base, size), at, src) {
      ProgrammableInSlot(was, base, size, at, src);
    }
    status, done := dev.Program(base + at, src);
    SpliceInSlot(was, base, size, at, src[..done]);
  }

  /** Erased bytes can be programmed. */
  lemma BlankProgrammable(s: seq<u8>, at: nat, t: seq<u8>)
    requires at + |t| <= |s| && forall i :: at <= i < at + |t| ==> s[i] == ERASED
    ensures Programmable(s, at, t)
  {
    hide RaisesBit;
    forall i | 0 <= i < |t| ensures !RaisesBit(s[at + i], t[i]) {
      ErasedTakesAll(t[i]);
    }
  }

  /** Erases the slot: a cut leaves it as it was, or without its first byte. */
  method EraseSlot(dev: Device, base: nat, g: Geometry) returns (status: Status)
    requires Fits(g) && base + g.size <= dev.data.Length
    modifies dev`operationCount, dev.data
    ensures old(dev.Quiet()) ==> dev.Quiet() && status == Ok
    ensures OnlySlot(old(dev.data[..]), dev.data[..], base, g.size)
    ensures status == Ok ==> Region(dev.data[..], base, g.size) == Blank(g.size)
    ensures var was, now := old(Region(dev.data[..], base, g.size)), Region(dev.data[..], base, g.size);
      now == was || now[0] == ERASED
    ensures dev.operationCount == old(dev.operationCount) + 1 && (status == Ok <==> !dev.Failing())
  {
    ghost var erased;
    ghost var was := dev.data[..];
    status, erased := dev.Erase(base, g.size);
    SpliceInSlot(was, base, g.size, 0, Blank(erased));
  }

  lemma UnitsSuffice(dev: Device, base: nat, g: Geometry)
    requires Fits(g)
    ensures WholeUnits(dev, base, g.size) ==>
      && dev.Unit() <= MAX_WRITE_SIZE
      && RoundUp(base + g.header, dev.Unit()) <= base + g.size
      && RoundUp(base + g.payload + g.capacity, dev.Unit()) <= base + g.size
      && RoundUp(base + g.commit + 1, dev.Unit()) <= base + g.size
  {
    hide RoundUp, Aligned;
    if WholeUnits(dev, base, g.size) {
      RoundUpWithin(base + g.header, base + g.size, dev.Unit());
      RoundUpWithin(base + g.payload + g.capacity, base + g.size, dev.Unit());
      RoundUpWithin(base + g.commit + 1, base + g.size, dev.Unit());
    }
  }

  /** Header and payload, into a slot just erased: the commit byte stays erased. */
  method FillBody(dev: Device, base: nat, g: Geometry, header: seq<u8>, image: seq<u8>) returns (status: Status)
    requires Fits(g) && base + g.size <= dev.data.Length && |header| == g.header && |image| == g.capacity
    requires Region(dev.data[..], base, g.size) == Blank(g.size)
    modifies dev`operationCount, dev.data
    ensures old(dev.Quiet()) ==> dev.Quiet()
    ensures OnlySlot(old(dev.data[..]), dev.data[..], base, g.size)
    ensures var now := Region(dev.data[..], base, g.size);
      && now[g.commit] == ERASED
      && (status == Ok ==> now[..g.header] == header && now[g.payload..g.payload + g.capacity] == image)
    ensures old(dev.Quiet()) && WholeUnits(dev, base, g.size) ==> status == Ok
    ensures dev.Unit() == 1 && g.capacity > 0 && dev.failOperation > old(dev.operationCount) + 2 ==>
      status == Ok && dev.operationCount == old(dev.operationCount) + 2
  {
    hide Region, OnlySlot, Splice, RoundUp, WholeUnits, Programmable, Device.Unit;
    UnitsSuffice(dev, base, g);
    ghost var b0 := dev.data[..];
    ghost var s0 := Region(b0, base, g.size);
    ghost var done;
    BlankProgrammable(s0, 0, header);
    status, done := ProgramSlot(dev, base, g.size, 0, header);
    ghost var b1 := dev.data[..];
    if status != Ok {
      return;
    }
    assert header[..done] == header;
    ghost var s1 := Region(b1, base, g.size);
    BlankProgrammable(s1, g.payload, image);
    status, done := ProgramSlot(dev, base, g.size, g.payload, image);
    OnlySlotTransitive(b0, b1, dev.data[..], base, g.size);
    if status == Ok {
      assert image[..done] == image;
      BothSpliced(s0, header, g.payload, image);
    }
  }

  /** The header stays when the payload is written behind it. */
  lemma BothSpliced(s: seq<u8>, header: seq<u8>, payload: nat, image: seq<u8>)
    requires |header| <= payload && payload + |image| <= |s|
    ensures var full := Splice(Splice(s, 0, header), payload, image);
      full[..|header|] == header && full[payload..payload + |image|] == image
  {
  }

  /** Header, payload, sync, commit byte, sync, into a slot just erased. */
  method FillSlot(dev: Device, base: nat, g: Geometry, header: seq<u8>, image: seq<u8>) returns (status: Status)
    requires Fits(g) && base + g.size <= dev.data.Length && |header| == g.header && |image| == g.capacity
    requires Region(dev.data[..], base, g.size) == Blank(g.size)
    modifies dev`operationCount, dev.data
    ensures old(dev.Quiet()) ==> dev.Quiet()
    ensures OnlySlot(old(dev.data[..]), dev.data[..], base, g.size)
    ensures var now := Region(dev.data[..], base, g.size);
      && (status == Ok ==> Holds(g, now, header, image))
      && (now[g.commit] != COMMITTED || Holds(g, now, header, image))
      && (dev.Unit() == 1 && g.capacity > 0 && dev.failOperation == old(dev.operationCount) + 5 ==>
            status != Ok && Holds(g, now, header, image))
    ensures old(dev.Quiet()) && WholeUnits(dev, base, g.size) ==> status == Ok
  {
    hide Region, OnlySlot, Splice, RoundUp, WholeUnits, Programmable, Device.Unit;
    UnitsSuffice(dev, base, g);
    ghost var b0 := dev.data[..];
    status := FillBody(dev, base, g, header, image);
    if status != Ok {
      return;
    }
    ghost var b2 := dev.data[..];
    ghost var s2 := Region(b2, base, g.size);
    status := dev.Sync();
    if status != Ok {
      return;
    }
    BlankProgrammable(s2, g.commit, [COMMITTED]);
    ghost var done;
    status, done := ProgramSlot(dev, base, g.size, g.commit, [COMMITTED]);
    OnlySlotTransitive(b0, b2, dev.data[..], base, g.size);
    SpliceApart(s2, g.commit, [COMMITTED][..done], 0, g.header);
    SpliceApart(s2, g.commit, [COMMITTED][..done], g.payload, g.capacity);
    if status != Ok {
      return;
    }
    status := dev.Sync();
  }

  /** The whole commit: whatever stops it, the slot is as it was, dead, or complete. */
  method CommitSlot(dev: Device, base: nat, g: Geometry, header: seq<u8>, image: seq<u8>) returns (status: Status)
    requires Fits(g) && base + g.size <= dev.data.Length && |header| == g.header && |image| == g.capacity
    requires header[0] != ERASED
    modifies dev`operationCount, dev.data
    ensures old(dev.Quiet()) ==> dev.Quiet()
    ensures OnlySlot(old(dev.data[..]), dev.data[..], base, g.size)
    ensures Outcome(g, old(Region(dev.data[..], base, g.size)), Region(dev.data[..], base, g.size), header, image,
                    status == Ok)
    ensures old(dev.Quiet()) && WholeUnits(dev, base, g.size) ==> status == Ok
  {
    hide Region, OnlySlot, WholeUnits;
    ghost var b0 := dev.data[..];
    status := EraseSlot(dev, base, g);
    if status != Ok {
      return;
    }
    ghost var b1 := dev.data[..];
    status := FillSlot(dev, base, g, header, image);
    OnlySlotTransitive(b0, b1, dev.data[..], base, g.size);
  }
}
