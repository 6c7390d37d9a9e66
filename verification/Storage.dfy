/**
 The storage backend: a byte array that can be read, written and erased, together with the failure model of
 the simulator (an interrupted write or erase takes effect on a prefix of its range), and the flash-style
 `Program` operation built on it.
 */
module Storage {
  import opened Bits

  const MAX_WRITE_SIZE: nat := 256
  const ERASED: u8 := 0xff

  /** CRC-32 stays abstract: every statement holds for every checksum function. */
  type Checksum = seq<u8> -> u32

  datatype Status = Ok | Einval | Enospace | Eio | Ecorrupt | Eagain | Ebusy | Enotsup | Eoverflow | Eauth

  /** s with t written over it at position `at`. */
  function Splice(s: seq<u8>, at: nat, t: seq<u8>): (r: seq<u8>)
    requires at + |t| <= |s|
    ensures |r| == |s|
    ensures forall i :: 0 <= i < |s| ==> r[i] == if at <= i < at + |t| then t[i - at] else s[i]
  {
    s[..at] + t + s[at + |t|..]
  }

  function Blank(n: nat): (s: seq<u8>)
    ensures |s| == n && forall i :: 0 <= i < n ==> s[i] == ERASED
  {
    seq(n, _ => ERASED)
  }

  /** True when programming v over a would have to raise a bit. */
  predicate RaisesBit(a: u8, v: u8) {
    And(v, 0xff - a) != 0
  }

  predicate Programmable(s: seq<u8>, at: nat, t: seq<u8>)
    requires at + |t| <= |s|
  {
    forall i :: 0 <= i < |t| ==> !RaisesBit(s[at + i], t[i])
  }

  /** No bit has risen. */
  predicate Falls(was: seq<u8>, now: seq<u8>) {
    |now| == |was| && forall i :: 0 <= i < |was| ==> And(was[i], now[i]) == now[i]
  }

  /** If no bit must be raised, and-ing the old value in changes nothing. */
  lemma {:induction false} NoRaise(a: nat, v: nat, k: nat)
    requires a < Pow2(k) && v < Pow2(k)
    ensures And(v, Pow2(k) - 1 - a) == 0 <==> And(a, v) == v
    decreases k
  {
    hide And;
    if k > 0 {
      NoRaise(a / 2, v / 2, k - 1);
      NoRaiseBit(a % 2, v % 2, a / 2, v / 2, Pow2(k - 1) - 1 - a / 2);
      assert Pow2(k) - 1 - a == 1 - a % 2 + 2 * (Pow2(k - 1) - 1 - a / 2);
      assert a == a % 2 + 2 * (a / 2) && v == v % 2 + 2 * (v / 2);
    } else {
      AndNone();
    }
  }

  lemma AndNone()
    ensures And(0, 0) == 0
  {
  }

  lemma NoRaiseBit(p: nat, q: nat, a: nat, v: nat, rest: nat)
    requires p < 2 && q < 2 && (And(v, rest) == 0 <==> And(a, v) == v)
    ensures And(q + 2 * v, 1 - p + 2 * rest) == 0 <==> And(p + 2 * a, q + 2 * v) == q + 2 * v
  {
    hide And;
    AndCons(q, 1 - p, v, rest);
    AndCons(p, q, a, v);
  }

  lemma ProgramKeeps(a: u8, v: u8)
    ensures !RaisesBit(a, v) <==> And(a, v) == v
  {
    PowerTable();
    NoRaise(a, v, 8);
  }

  lemma {:induction false} AndSame(a: nat)
    ensures And(a, a) == a
  {
    if a > 0 {
      AndSame(a / 2);
    }
  }

  /** An erased byte takes any value, and a byte takes its own value again. */
  lemma ErasedTakesAll(v: u8)
    ensures !RaisesBit(ERASED, v) && !RaisesBit(v, v)
  {
    AndZero(v);
    AndSame(v);
    ProgramKeeps(v, v);
  }

  /** Writing what can be programmed raises no bit. */
  lemma ProgrammedFalls(s: seq<u8>, at: nat, t: seq<u8>)
    requires at + |t| <= |s| && Programmable(s, at, t)
    ensures Falls(s, Splice(s, at, t))
  {
    hide RaisesBit, And;
    var r := Splice(s, at, t);
    forall i | 0 <= i < |s| ensures And(s[i], r[i]) == r[i] {
      if at <= i < at + |t| {
        assert !RaisesBit(s[at + (i - at)], t[i - at]);
        ProgramKeeps(s[i], t[i - at]);
      } else {
        AndSame(s[i]);
      }
    }
  }

  lemma BlankSlice(d: seq<u8>, from: nat, count: nat)
    requires from + count <= |d|
    ensures d[from..from + count] == Blank(count) <==> forall j :: from <= j < from + count ==> d[j] == ERASED
  {
    var s := d[from..from + count];
    if s == Blank(count) {
      forall j | from <= j < from + count ensures d[j] == ERASED {
        assert d[j] == s[j - from];
      }
    }
  }

  /**
   A failure: the operation it hits, counted from arming it (none for 0), how many bytes of it still take effect, and
   whether it is a power cut, after which nothing takes effect any more.
   */
  datatype Fault = Fault(operation: nat, bytes: nat, cut: bool)

  const NO_FAULT := Fault(0, 0, false)

  class Device {
    const data: array<u8>
    const writeSize: nat
    const eraseSize: nat
    const enforceNor: bool
    var operationCount: nat
    var failOperation: nat
    var partialBytes: nat
    var cut: bool

    /** No failure is due any more. */
    predicate Quiet()
      reads this
    {
      failOperation == 0 || (failOperation <= operationCount && !cut)
    }

    /** The operation just counted fails. */
    predicate Failing()
      reads this
    {
      failOperation != 0 && (operationCount == failOperation || (cut && operationCount > failOperation))
    }

    /** Power is gone: every operation from here on fails without effect. */
    predicate Off()
      reads this
    {
      cut && failOperation != 0 && failOperation <= operationCount
    }

    /** None of the next n operations fails. */
    predicate Calm(n: nat)
      reads this
    {
      failOperation == 0 || failOperation > operationCount + n || (failOperation <= operationCount && !cut)
    }

    /** The operation of this number fails, and power stays on. */
    predicate Glitches(operation: nat)
      reads this
    {
      failOperation == operation && !cut
    }

    /** How many operations it takes to change one byte. */
    function ByteCost(): (cost: nat)
      ensures cost > 0
    {
      if Unit() == 1 then 1 else 2
    }

    function Unit(): (unit: nat)
      ensures unit > 0
    {
      if writeSize == 0 then 1 else writeSize
    }

    constructor (size: nat, writeUnit: nat, eraseUnit: nat, nor: bool)
      ensures data.Length == size && writeSize == writeUnit && eraseSize == eraseUnit && enforceNor == nor
      ensures Quiet() && fresh(data)
    {
      data := new u8[size](_ => ERASED);
      writeSize, eraseSize, enforceNor := writeUnit, eraseUnit, nor;
      operationCount, failOperation, partialBytes, cut := 0, 0, 0, false;
    }

    /** Switches the device on again with a failure armed. */
    method FailAt(fault: Fault)
      modifies this
      ensures operationCount == 0 && failOperation == fault.operation && partialBytes == fault.bytes && cut == fault.cut
      ensures fault.operation == 0 ==> Quiet()
    {
      operationCount, failOperation, partialBytes, cut := 0, fault.operation, fault.bytes, fault.cut;
    }

    method Fail() returns (failed: bool)
      modifies this`operationCount
      ensures operationCount == old(operationCount) + 1
      ensures failed <==> Failing()
      ensures failed ==> !old(Quiet())
      ensures old(Quiet()) ==> Quiet()
      ensures old(Off()) ==> Off() && failed
      ensures cut && failed ==> Off()
    {
      operationCount := operationCount + 1;
      failed := Failing();
    }

    /** How much of an operation on that many bytes takes effect. */
    function Effect(length: nat): (count: nat)
      reads this
      ensures count <= length
    {
      if !Failing() then length
      else if operationCount > failOperation then 0
      else if partialBytes < length then partialBytes
      else length
    }

    method Read(offset: nat, length: nat) returns (status: Status, bytes: seq<u8>)
      modifies this`operationCount
      ensures old(Quiet()) ==> Quiet()
      ensures status == Ok ==> offset + length <= data.Length && bytes == data[offset..offset + length]
      ensures old(Quiet()) && offset + length <= data.Length ==> status == Ok
      ensures status != Ok ==> bytes == [] && (status == Eio || (status == Einval && offset + length > data.Length))
      ensures offset + length <= data.Length ==>
        operationCount == old(operationCount) + 1 && (status == Ok <==> !Failing())
      ensures (old(Off()) ==> Off() && status != Ok) && (cut && status == Eio ==> Off())
    {
      if offset + length > data.Length {
        return Einval, [];
      }
      var failed := Fail();
      if failed {
        return Eio, [];
      }
      return Ok, data[offset..offset + length];
    }

    /** Writes src, or a prefix of it when the operation is interrupted. */
    method Write(offset: nat, src: seq<u8>) returns (status: Status, ghost written: nat)
      modifies this`operationCount, data
      ensures old(Quiet()) ==> Quiet()
      ensures status == Einval <==> offset + |src| > data.Length
      ensures written <= |src| && (status == Ok ==> written == |src|)
      ensures offset + |src| <= data.Length ==> data[..] == Splice(old(data[..]), offset, src[..written])
      ensures offset + |src| > data.Length ==> data[..] == old(data[..])
      ensures old(Quiet()) && offset + |src| <= data.Length && (enforceNor ==> Programmable(old(data[..]), offset, src))
              ==> status == Ok
      ensures offset + |src| <= data.Length ==> operationCount == old(operationCount) + 1
      ensures offset + |src| <= data.Length && (enforceNor ==> Programmable(old(data[..]), offset, src)) ==>
        Failing() || status == Ok
      ensures enforceNor && offset + |src| <= data.Length ==> Programmable(old(data[..]), offset, src[..written])
      ensures old(Off()) ==> Off() && status != Ok && written == 0
    {
      written := 0;
      if offset + |src| > data.Length {
        return Einval, 0;
      }
      hide RaisesBit;
      var interrupted := Fail();
      var count := Effect(|src|);
      var blocked := false;
      if enforceNor {
        blocked := Blocked(offset, src[..count]);
      }
      if blocked {
        return Eio, 0;
      }
      Put(offset, src[..count]);
      written := count;
      status := if interrupted then Eio else Ok;
    }

    /** Stores the bytes, and-ing them into the old ones under the NOR rule. */
    method Put(offset: nat, src: seq<u8>)
      requires offset + |src| <= data.Length
      requires enforceNor ==> Programmable(data[..], offset, src)
      modifies data
      ensures data[..] == Splice(old(data[..]), offset, src)
    {
      hide RaisesBit;
      var i := 0;
      while i < |src|
        invariant 0 <= i <= |src|
        invariant forall j :: 0 <= j < data.Length && !(offset <= j < offset + i) ==> data[j] == old(data[j])
        invariant forall j :: 0 <= j < i ==> data[offset + j] == src[j]
      {
        assert enforceNor ==> !RaisesBit(old(data[..])[offset + i], src[i]);
        ProgramKeeps(data[offset + i], src[i]);
        data[offset + i] := if enforceNor then And(data[offset + i], src[i]) else src[i];
        i := i + 1;
      }
    }

    /** The NOR rule: is some byte of src asking for a raised bit? */
    method Blocked(offset: nat, src: seq<u8>) returns (blocked: bool)
      requires offset + |src| <= data.Length
      ensures blocked <==> !Programmable(data[..], offset, src)
    {
      var i := 0;
      while i < |src|
        invariant 0 <= i <= |src|
        invariant forall j :: 0 <= j < i ==> !RaisesBit(data[offset + j], src[j])
      {
        if RaisesBit(data[offset + i], src[i]) {
          assert RaisesBit(data[..][offset + i], src[i]);
          return true;
        }
        i := i + 1;
      }
      return false;
    }

    /** Erases the range, or a prefix of it when the operation is interrupted. */
    method Erase(offset: nat, length: nat) returns (status: Status, ghost erased: nat)
      modifies this`operationCount, data
      ensures old(Quiet()) ==> Quiet()
      ensures status == Einval <==> offset + length > data.Length
      ensures erased <= length && (status == Ok ==> erased == length)
      ensures offset + length <= data.Length ==> data[..] == Splice(old(data[..]), offset, Blank(erased))
      ensures offset + length > data.Length ==> data[..] == old(data[..])
      ensures old(Quiet()) && offset + length <= data.Length ==> status == Ok
      ensures offset + length <= data.Length ==>
        operationCount == old(operationCount) + 1 && (status == Ok <==> !Failing())
      ensures old(Off()) ==> Off() && status != Ok && erased == 0
    {
      erased := 0;
      if offset + length > data.Length {
        return Einval, 0;
      }
      var interrupted := Fail();
      var count := Effect(length);
      var i := 0;
      while i < count
        invariant 0 <= i <= count
        invariant forall j :: 0 <= j < data.Length ==>
          data[j] == if offset <= j < offset + i then ERASED else old(data[j])
        modifies data
      {
        data[offset + i] := ERASED;
        i := i + 1;
      }
      erased := count;
      status := if interrupted then Eio else Ok;
    }

    method Sync() returns (status: Status)
      modifies this`operationCount
      ensures old(Quiet()) ==> Quiet() && status == Ok
      ensures status == Ok || status == Eio
      ensures operationCount == old(operationCount) + 1 && (status == Ok <==> !Failing())
      ensures old(Off()) ==> Off() && status != Ok
    {
      var failed := Fail();
      status := if failed then Eio else Ok;
    }

    /** Bits can only fall: the device sees to it, or programming in units of several bytes does. */
    predicate Guarded() {
      enforceNor || Unit() > 1
    }

    /**
     Programs src at offset: bits may only fall. When it fails, a prefix of src has landed and nothing else has
     changed; units already written are not rolled back. On a quiet device with room for the units, it succeeds exactly
     if no bit must rise, where bits are guarded at all.
     */
    method Program(offset: nat, src: seq<u8>) returns (status: Status, ghost done: nat)
      modifies this`operationCount, data
      ensures old(Quiet()) ==> Quiet()
      ensures done <= |src| && (status == Ok ==> done == |src|)
      ensures offset + |src| <= data.Length ==> data[..] == Splice(old(data[..]), offset, src[..done])
      ensures offset + |src| > data.Length ==> status == Einval && data[..] == old(data[..])
      ensures (old(Quiet()) && offset + |src| <= data.Length && Programmable(old(data[..]), offset, src)
               && Unit() <= MAX_WRITE_SIZE && RoundUp(offset + |src|, Unit()) <= data.Length) ==> status == Ok
      ensures src != [] && offset + |src| <= data.Length && Unit() > 256 ==> status == Enotsup && done == 0
      ensures (src != [] && offset + |src| <= data.Length && 1 < Unit() <= 256
               && RoundUp(offset + |src|, Unit()) > data.Length) ==> status == Enospace && done == 0
      ensures Guarded() ==> Falls(old(data[..]), data[..])
      ensures Guarded() && status == Ok ==> Programmable(old(data[..]), offset, src)
      ensures old(Off()) ==> Off() && done == 0
      ensures Unit() == 1 && |src| > 0 && offset + |src| <= data.Length ==> operationCount == old(operationCount) + 1
      ensures Unit() == 1 && |src| > 0 && offset + |src| <= data.Length && Programmable(old(data[..]), offset, src) ==>
        Failing() || status == Ok
      ensures |src| == 1 && status == Ok && src[0] != old(data[..])[offset] ==>
        operationCount == old(operationCount) + ByteCost()
      ensures (|src| == 1 && old(Calm(ByteCost())) && offset < data.Length && Programmable(old(data[..]), offset, src)
               && Unit() <= MAX_WRITE_SIZE && RoundUp(offset + 1, Unit()) <= data.Length) ==> status == Ok
    {
      hide RaisesBit;
      done := 0;
      ghost var was := data[..];
      ProgrammedFalls(was, 0, []);
      if offset + |src| > data.Length {
        return Einval, 0;
      }
      if |src| == 0 {
        return Ok, 0;
      }
      var size := Unit();
      if size > MAX_WRITE_SIZE {
        return Enotsup, 0;
      }
      if size == 1 {
        status, done := Write(offset, src);
      } else {
        status, done := ProgramUnits(offset, src, size);
      }
      assert status == Ok ==> src[..done] == src;
      if Guarded() {
        ProgrammedFalls(was, offset, src[..done]);
      }
    }

    /** Reads the range in chunks and looks for a byte that is not erased. */
    method IsErased(offset: nat, length: nat) returns (status: Status, erased: bool)
      modifies this`operationCount
      ensures old(Quiet()) ==> Quiet()
      ensures status == Ok ==>
        offset + length <= data.Length && (erased <==> data[offset..offset + length] == Blank(length))
      ensures status == Ok || status == Eio || (status == Einval && offset + length > data.Length)
      ensures old(Quiet()) && offset + length <= data.Length ==> status == Ok
    {
      erased := false;
      if offset + length > data.Length {
        return Einval, false;
      }
      var at := 0;
      while at < length
        invariant 0 <= at <= length
        invariant forall j :: offset <= j < offset + at ==> data[..][j] == ERASED
        invariant old(Quiet()) ==> Quiet()
      {
        var count := if length - at > MAX_WRITE_SIZE then MAX_WRITE_SIZE else length - at;
        var bytes;
        status, bytes := Read(offset + at, count);
        if status != Ok {
          return;
        }
        erased := AllErased(bytes);
        BlankSlice(data[..], offset + at, count);
        if !erased {
          BlankSlice(data[..], offset, length);
          return Ok, false;
        }
        at := at + count;
      }
      BlankSlice(data[..], offset, length);
      return Ok, true;
    }

    /** Looks for a byte that is not erased. */
    static method AllErased(bytes: seq<u8>) returns (erased: bool)
      ensures erased <==> bytes == Blank(|bytes|)
    {
      var i := 0;
      while i < |bytes|
        invariant 0 <= i <= |bytes| && forall j :: 0 <= j < i ==> bytes[j] == ERASED
      {
        if bytes[i] != ERASED {
          return false;
        }
        i := i + 1;
      }
      return true;
    }

    /** Read-modify-write, one write unit after the other. */
    method ProgramUnits(offset: nat, src: seq<u8>, size: nat) returns (status: Status, ghost done: nat)
      requires offset + |src| <= data.Length && |src| > 0 && size > 1
      modifies this`operationCount, data
      ensures old(Quiet()) ==> Quiet()
      ensures done <= |src| && (status == Ok ==> done == |src|)
      ensures data[..] == Splice(old(data[..]), offset, src[..done])
      ensures Programmable(old(data[..]), offset, src[..done])
      ensures RoundUp(offset + |src|, size) > data.Length ==> status == Enospace && done == 0
      ensures old(Quiet()) && Programmable(old(data[..]), offset, src) && RoundUp(offset + |src|, size) <= data.Length
              ==> status == Ok
      ensures old(Off()) ==> Off() && done == 0
      ensures |src| == 1 && status == Ok && src[0] != old(data[..])[offset] ==>
        operationCount == old(operationCount) + 2
      ensures (|src| == 1 && old(Calm(2)) && Programmable(old(data[..]), offset, src)
               && RoundUp(offset + 1, size) <= data.Length) ==>
        status == Ok
    {
      hide Programmable, Aligned, RoundUp, RoundDown, Splice;
      done := 0;
      status := Ok;
      var last := RoundUp(offset + |src|, size);
      NothingProgrammed(data[..], offset, src);
      if last > data.Length {
        return Enospace, 0;
      }
      var at := RoundDown(offset, size);
      RoundDownIs(offset, size);
      RoundUpIs(offset + |src|, size);
      ghost var was := data[..];
      while at < last
        invariant Aligned(at, size) && at <= last && offset < at + size
        invariant done == Progress(at, offset, |src|)
        invariant data[..] == Splice(was, offset, src[..done]) && Programmable(was, offset, src[..done])
        invariant status == Ok && (old(Quiet()) ==> Quiet())
        invariant old(Off()) ==> Off() && done == 0
        invariant at <= offset ==> operationCount == old(operationCount)
        invariant |src| == 1 && at > offset && src[0] != was[offset] ==> operationCount == old(operationCount) + 2
        decreases last - at
      {
        NextMultiple(at, last, size);
        status, done := ProgramNext(at, size, offset, src, was, done);
        if status != Ok {
          return;
        }
        at := at + size;
      }
    }

    /** The loop body: programs what falls into the unit at `at`. */
    method ProgramNext(at: nat, size: nat, offset: nat, src: seq<u8>, ghost was: seq<u8>, ghost landed: nat)
        returns (status: Status, ghost done: nat)
      requires offset + |src| <= data.Length == |was| && at + size <= data.Length && at < offset + |src|
      requires offset < at + size
      requires landed == Progress(at, offset, |src|) && data[..] == Splice(was, offset, src[..landed])
      requires Programmable(was, offset, src[..landed])
      modifies this`operationCount, data
      ensures old(Quiet()) ==> Quiet()
      ensures done <= |src| && (status == Ok ==> done == Progress(at + size, offset, |src|))
      ensures data[..] == Splice(was, offset, src[..done]) && Programmable(was, offset, src[..done])
      ensures old(Quiet()) && Programmable(was, offset, src) ==> status == Ok
      ensures old(Off()) ==> Off() && done == landed && status != Ok
      ensures |src| == 1 && at <= offset && status == Ok && src[0] != was[offset] ==>
        operationCount == old(operationCount) + 2
      ensures |src| == 1 && at <= offset && old(Calm(2)) && Programmable(was, offset, src) ==> status == Ok
    {
      hide Programmable, Splice;
      var begin := if offset > at then offset else at;
      var end := if offset + |src| < at + size then offset + |src| else at + size;
      var part := src[begin - offset..end - offset];
      if |src| == 1 && at <= offset {
        WholePart(was, offset, src, part);
      }
      ghost var more;
      status, more := ProgramUnit(at, size, begin, part);
      JoinPart(was, offset, src, landed, part, more);
      JoinProgrammable(was, offset, src, landed, part, more);
      done := landed + more;
    }

    /** One unit: read it, check that no bit rises, and write it back if it changed. */
    method ProgramUnit(at: nat, size: nat, begin: nat, src: seq<u8>) returns (status: Status, ghost done: nat)
      requires at <= begin && begin + |src| <= at + size && at + size <= data.Length
      modifies this`operationCount, data
      ensures old(Quiet()) ==> Quiet()
      ensures done <= |src| && (status == Ok ==> done == |src|)
      ensures data[..] == Splice(old(data[..]), begin, src[..done])
      ensures Programmable(old(data[..]), begin, src[..done])
      ensures old(Quiet()) && Programmable(old(data[..]), begin, src) ==> status == Ok
      ensures old(Off()) ==> Off() && done == 0 && status != Ok
      ensures |src| == 1 && status == Ok && src[0] != old(data[..])[begin] ==> operationCount == old(operationCount) + 2
      ensures old(Calm(2)) && Programmable(old(data[..]), begin, src) ==> status == Ok
    {
      hide Programmable, Splice;
      done := 0;
      NothingProgrammed(data[..], begin, src);
      var unit;
      status, unit := Read(at, size);
      if status != Ok {
        return;
      }
      var blocked := Blocked(begin, src);
      if blocked {
        return Eio, 0;
      }
      PrefixProgrammable(data[..], begin, src);
      var programmed := Splice(unit, begin - at, src);
      if programmed == unit {
        UnitUnchanged(data[..], at, begin, src, unit);
        done := |src|;
        return;
      }
      UnitProgrammable(data[..], at, begin, src, unit);
      ghost var written;
      ghost var now := data[..];
      status, written := Write(at, programmed);
      done := if written <= begin - at then 0 else if written < begin - at + |src| then written - (begin - at)
              else |src|;
      UnitWritten(now, at, begin, src, unit, written, done);
    }
  }

  // ---------------------------------------------------------------- splices and multiples

  predicate Aligned(x: nat, m: nat)
    requires m > 0
  {
    x % m == 0
  }

  function RoundDown(x: nat, m: nat): nat
    requires m > 0
  {
    x - x % m
  }

  function RoundUp(x: nat, m: nat): nat
    requires m > 0
  {
    (x + m - 1) / m * m
  }

  lemma RoundDownIs(x: nat, m: nat)
    requires m > 0
    ensures RoundDown(x, m) <= x < RoundDown(x, m) + m && Aligned(RoundDown(x, m), m)
  {
    assert x == m * (x / m) + x % m;
    DivModUnique(x - x % m, m, x / m, 0);
  }

  lemma RoundUpIs(x: nat, m: nat)
    requires m > 0
    ensures x <= RoundUp(x, m) < x + m && Aligned(RoundUp(x, m), m)
  {
    var y := x + m - 1;
    var q, r := y / m, y % m;
    assert y == q * m + r && RoundUp(x, m) == q * m;
    DivModUnique(q * m, m, q, 0);
  }

  lemma NextMultiple(x: nat, y: nat, m: nat)
    requires m > 0 && Aligned(x, m) && Aligned(y, m) && x < y
    ensures x + m <= y && Aligned(x + m, m)
  {
    var a, b := x / m, y / m;
    assert x == m * a && y == m * b;
    if b <= a {
      MulMono(b, a, m);
    }
    MulMono(a + 1, b, m);
    DivModUnique(x + m, m, a + 1, 0);
  }

  lemma RoundUpWithin(x: nat, y: nat, m: nat)
    requires m > 0 && x <= y && Aligned(y, m)
    ensures RoundUp(x, m) <= y
  {
    hide RoundUp, Aligned;
    RoundUpIs(x, m);
    if RoundUp(x, m) > y {
      NextMultiple(y, RoundUp(x, m), m);
    }
  }

  /** How much of the n bytes at `offset` lies below `at`. */
  function Progress(at: nat, offset: nat, n: nat): nat {
    if at <= offset then 0 else if at < offset + n then at - offset else n
  }

  /** Two adjacent prefixes of one write. */
  lemma SpliceJoin(s: seq<u8>, at: nat, t: seq<u8>, done: nat, more: nat)
    requires at + |t| <= |s| && done + more <= |t|
    ensures Splice(Splice(s, at, t[..done]), at + done, t[done..done + more]) == Splice(s, at, t[..done + more])
  {
  }

  lemma WholePart(s: seq<u8>, at: nat, t: seq<u8>, part: seq<u8>)
    requires at + |t| <= |s| && part == t[0..|t|]
    ensures part == t && Splice(s, at, t[..0]) == s
  {
  }

  /** The next part of a write, itself cut short, and what it needs to succeed. */
  lemma JoinPart(s: seq<u8>, at: nat, t: seq<u8>, done: nat, part: seq<u8>, more: nat)
    requires at + |t| <= |s| && done + |part| <= |t| && more <= |part| && part == t[done..done + |part|]
    ensures Splice(Splice(s, at, t[..done]), at + done, part[..more]) == Splice(s, at, t[..done + more])
    ensures Programmable(s, at, t) ==> Programmable(Splice(s, at, t[..done]), at + done, part)
  {
    assert part[..more] == t[done..done + more];
    SpliceJoin(s, at, t, done, more);
    hide RaisesBit;
    if Programmable(s, at, t) {
      forall i | 0 <= i < |part| ensures !RaisesBit(Splice(s, at, t[..done])[at + done + i], part[i]) {
        assert !RaisesBit(s[at + (done + i)], t[done + i]);
      }
    }
  }

  lemma JoinProgrammable(s: seq<u8>, at: nat, t: seq<u8>, done: nat, part: seq<u8>, more: nat)
    requires at + |t| <= |s| && done + |part| <= |t| && more <= |part| && part == t[done..done + |part|]
    requires Programmable(s, at, t[..done]) && Programmable(Splice(s, at, t[..done]), at + done, part[..more])
    ensures Programmable(s, at, t[..done + more])
  {
    hide RaisesBit;
    var first, all := t[..done], t[..done + more];
    forall i | 0 <= i < |all| ensures !RaisesBit(s[at + i], all[i]) {
      if i < done {
        assert !RaisesBit(s[at + i], first[i]);
      } else {
        assert !RaisesBit(Splice(s, at, first)[at + done + (i - done)], part[..more][i - done]);
      }
    }
  }

  lemma NothingProgrammed(s: seq<u8>, at: nat, t: seq<u8>)
    requires at + |t| <= |s|
    ensures Programmable(s, at, t[..0])
  {
  }

  lemma PrefixProgrammable(s: seq<u8>, at: nat, t: seq<u8>)
    requires at + |t| <= |s| && Programmable(s, at, t)
    ensures forall n :: 0 <= n <= |t| ==> Programmable(s, at, t[..n])
  {
    hide RaisesBit;
    forall n | 0 <= n <= |t| ensures Programmable(s, at, t[..n]) {
      forall i | 0 <= i < n ensures !RaisesBit(s[at + i], t[..n][i]) {
        assert !RaisesBit(s[at + i], t[i]);
      }
    }
  }

  lemma UnitUnchanged(s: seq<u8>, at: nat, begin: nat, src: seq<u8>, unit: seq<u8>)
    requires at <= begin && begin + |src| <= at + |unit| && at + |unit| <= |s|
    requires unit == s[at..at + |unit|] && Splice(unit, begin - at, src) == unit
    ensures Splice(s, begin, src) == s
  {
    forall i | begin <= i < begin + |src| ensures src[i - begin] == s[i] {
      assert unit[i - at] == Splice(unit, begin - at, src)[i - at];
    }
  }

  /** Writing a unit back raises no bit if the new part of it does not. */
  lemma UnitProgrammable(s: seq<u8>, at: nat, begin: nat, src: seq<u8>, unit: seq<u8>)
    requires at <= begin && begin + |src| <= at + |unit| && at + |unit| <= |s|
    requires unit == s[at..at + |unit|] && Programmable(s, begin, src)
    ensures Programmable(s, at, Splice(unit, begin - at, src))
  {
    hide RaisesBit;
    var t := Splice(unit, begin - at, src);
    forall i | 0 <= i < |t| ensures !RaisesBit(s[at + i], t[i]) {
      var j := i - (begin - at);
      if 0 <= j < |src| {
        assert !RaisesBit(s[begin + j], src[j]);
      } else {
        ErasedTakesAll(t[i]);
      }
    }
  }

  lemma UnitWritten(s: seq<u8>, at: nat, begin: nat, src: seq<u8>, unit: seq<u8>, written: nat, done: nat)
    requires at <= begin && begin + |src| <= at + |unit| && at + |unit| <= |s| && written <= |unit|
    requires unit == s[at..at + |unit|]
    requires done == if written <= begin - at then 0 else if written < begin - at + |src| then written - (begin - at)
      else |src|
    ensures Splice(s, at, Splice(unit, begin - at, src)[..written]) == Splice(s, begin, src[..done])
  {
  }
}
