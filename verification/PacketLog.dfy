/** The device as its users see it: an unbounded log of packets of which the
    last ten are readable, plus the bytes still waiting for a newline.
    Everything the driver does with rings, slots and pointers is measured
    against the definitions in this module. */
module PacketLog {
  import opened Bytes

  const MAX_WRITES: nat := 10

  // ----- Which packets are still readable -----

  function Retained<T>(log: seq<T>): (w: seq<T>)
    ensures |w| <= MAX_WRITES
  {
    if |log| <= MAX_WRITES then log else log[|log| - MAX_WRITES..]
  }

  /** What one more packet does to the readable ones. */
  function Push<T>(w: seq<T>, x: T): seq<T> {
    (if |w| >= MAX_WRITES then w[1..] else w) + [x]
  }

  lemma RetainedPush<T>(log: seq<T>, x: T)
    ensures Retained(log + [x]) == Push(Retained(log), x)
  {
  }

  /** Bytes of the log that can no longer be read. */
  function Evicted(log: seq<Packet>): nat {
    |Flatten(log[..|log| - |Retained(log)|])|
  }

  /** The readable bytes are the log from the evicted ones onward. */
  lemma RetainedBytes(log: seq<Packet>)
    ensures Evicted(log) + |Flatten(Retained(log))| == |Flatten(log)|
    ensures Flatten(log)[Evicted(log)..] == Flatten(Retained(log))
  {
    var k := |log| - |Retained(log)|;
    FlattenSplit(log, k);
    assert log[k..] == Retained(log);
  }

  /** Appending to the log keeps its bytes in place and never un-evicts any. */
  lemma LogGrows(log: seq<Packet>, p: Packet)
    ensures Flatten(log + [p]) == Flatten(log) + p
    ensures Evicted(log) <= Evicted(log + [p])
  {
    FlattenConcat(log, [p]);
    FlattenOne(p);
    var log' := log + [p];
    var k, k' := |log| - |Retained(log)|, |log'| - |Retained(log')|;
    FlattenSplit(log'[..k'], k);
    assert log'[..k'][..k] == log[..k];
  }

  // ----- Positions -----

  /** Byte `off` of item `k` is byte `pos` of the whole. */
  ghost predicate IsAt(sizes: seq<nat>, k: int, off: int, pos: int) {
    0 <= k < |sizes| && 0 <= off < sizes[k] && Sum(sizes[..k]) + off == pos
  }

  lemma AtIsInRange(sizes: seq<nat>, k: nat, off: nat, pos: nat)
    requires IsAt(sizes, k, off, pos)
    ensures pos < Sum(sizes)
  {
    SumNext(sizes, k);
    SumMonotone(sizes, k + 1, |sizes|);
    assert sizes[..|sizes|] == sizes;
  }

  /** Two places with the same position are the same place. */
  lemma AtIsUnique(sizes: seq<nat>, k: nat, off: nat, k': nat, off': nat, pos: nat)
    requires IsAt(sizes, k, off, pos) && IsAt(sizes, k', off', pos)
    ensures k == k' && off == off'
  {
    if k < k' {
      SumNext(sizes, k);
      SumMonotone(sizes, k + 1, k');
    } else if k' < k {
      SumNext(sizes, k');
      SumMonotone(sizes, k' + 1, k);
    }
  }

  /** Every position below the total is the position of some place. */
  lemma {:induction false} AtExists(sizes: seq<nat>, pos: nat) returns (k: nat, off: nat)
    requires pos < Sum(sizes)
    ensures IsAt(sizes, k, off, pos)
  {
    if pos < sizes[0] {
      assert sizes[..0] == [];
      k, off := 0, pos;
    } else {
      k, off := AtExists(sizes[1..], pos - sizes[0]);
      assert sizes[..k + 1][1..] == sizes[1..][..k];
      k := k + 1;
    }
  }

  /** A place inside a packet holds the flattened byte at its position, and so
      does everything after it in that packet. */
  lemma PlaceHoldsBytes(ps: seq<Packet>, k: nat, off: nat, pos: nat)
    requires IsAt(Sizes(ps), k, off, pos)
    ensures pos + |ps[k]| - off <= |Flatten(ps)|
    ensures Flatten(ps)[pos..pos + |ps[k]| - off] == ps[k][off..]
  {
    FlattenSplit(ps, k);
    FlattenLength(ps[..k]);
    assert Sizes(ps[..k]) == Sizes(ps)[..k];
    assert Flatten(ps[k..]) == ps[k] + Flatten(ps[k..][1..]);
  }

  // ----- Reading -----

  /** Bytes from `pos` to the end of the packet that `pos` lies in. */
  function RestOfPacket(ps: seq<Packet>, pos: nat): (n: nat)
    requires pos < |Flatten(ps)|
    ensures 0 < n <= |Flatten(ps)| - pos
  {
    if pos < |ps[0]| then |ps[0]| - pos else RestOfPacket(ps[1..], pos - |ps[0]|)
  }

  lemma {:induction false} RestOfPacketAt(ps: seq<Packet>, k: nat, off: nat, pos: nat)
    requires IsAt(Sizes(ps), k, off, pos)
    requires pos < |Flatten(ps)|
    ensures RestOfPacket(ps, pos) == |ps[k]| - off
  {
    var sizes := Sizes(ps);
    assert sizes[1..] == Sizes(ps[1..]);
    if k == 0 {
      assert sizes[..0] == [];
    } else {
      assert sizes[..k][1..] == sizes[1..][..k - 1];
      RestOfPacketAt(ps[1..], k - 1, off, pos - |ps[0]|);
    }
  }

  function Min(a: nat, b: nat): nat {
    if a <= b then a else b
  }

  /** What a read of at most `count` bytes at `pos` hands over. */
  function Served(ps: seq<Packet>, pos: nat, count: nat): (d: seq<Byte>)
    ensures |d| <= count
    ensures pos + |d| <= |Flatten(ps)| || d == []
    ensures d == [] <==> count == 0 || |Flatten(ps)| <= pos
  {
    if |Flatten(ps)| <= pos then []
    else Flatten(ps)[pos..pos + Min(count, RestOfPacket(ps, pos))]
  }

  /** A read inside packet `k` hands over bytes of that packet. */
  lemma ServedAt(ps: seq<Packet>, k: nat, off: nat, pos: nat, count: nat)
    requires IsAt(Sizes(ps), k, off, pos)
    ensures pos < |Flatten(ps)|
    ensures Served(ps, pos, count) == ps[k][off..off + Min(count, |ps[k]| - off)]
  {
    hide Flatten, RestOfPacket;
    PlaceHoldsBytes(ps, k, off, pos);
    RestOfPacketAt(ps, k, off, pos);
    var rest := |ps[k]| - off;
    var n := Min(count, rest);
    assert Flatten(ps)[pos..pos + n] == Flatten(ps)[pos..pos + rest][..n] == ps[k][off..][..n];
    assert ps[k][off..][..n] == ps[k][off..off + n];
  }

  // ----- The device as a value -----

  datatype Errno = ENOMEM | EFAULT | EINVAL | ENOTTY

  datatype Ret = Done(n: nat) | Fail(error: Errno)

  /** `capacity` is what the accumulator has room for, zero before its first
      allocation; `wedged` says that the device mutex was left locked. */
  datatype Model = Model(log: seq<Packet>, pending: seq<Byte>, capacity: nat, wedged: bool)

  const EMPTY: Model := Model([], [], 0, false)

  /** Which of the calls into the kernel succeed during one write. */
  datatype WriteEnv = WriteEnv(growOk: bool, copyOk: bool, commitOk: bool)

  const ALL_OK: WriteEnv := WriteEnv(true, true, true)

  predicate NeedsRoom(m: Model, count: nat) {
    m.capacity == 0 || m.capacity < |m.pending| + count
  }

  function Grown(m: Model, count: nat): nat {
    if NeedsRoom(m, count) then |m.pending| + count + 50 else m.capacity
  }

  function WriteTo(m: Model, data: seq<Byte>, env: WriteEnv): (Model, Ret) {
    if NeedsRoom(m, |data|) && !env.growOk then
      (m, Fail(ENOMEM))
    else
      var room := Grown(m, |data|);
      var all := m.pending + data;
      if !env.copyOk then
        (m.(pending := [], capacity := room), Fail(EFAULT))
      else if NEWLINE !in all then
        (m.(pending := all, capacity := room), Done(|data|))
      else if !env.commitOk then
        (m.(pending := all, capacity := room), Fail(ENOMEM))
      else
        (m.(log := m.log + [all], pending := [], capacity := room), Done(|data|))
  }

  function ReadFrom(m: Model, pos: nat, count: nat, copyOk: bool): (Ret, seq<Byte>, nat) {
    var d := Served(Retained(m.log), pos, count);
    if |Flatten(Retained(m.log))| <= pos then (Done(0), [], pos)
    else if !copyOk then (Fail(EFAULT), [], pos)
    else (Done(|d|), d, pos + |d|)
  }

  /** The arguments of a seek are 32-bit. */
  type U32 = x: nat | x < 0x1_0000_0000

  predicate Accepts(m: Model, cmd: nat, off: nat) {
    cmd < |Retained(m.log)| && off < |Retained(m.log)[cmd]|
  }

  /** A refused seek returns with the device mutex still locked. */
  function SeekTo(m: Model, cmd: nat, off: nat, copyOk: bool, pos: nat): (Model, Ret, nat) {
    if !copyOk then (m, Fail(EFAULT), pos)
    else if Accepts(m, cmd, off) then (m, Done(0), |Flatten(Retained(m.log)[..cmd])| + off)
    else (m.(wedged := true), Fail(EINVAL), pos)
  }

  // ----- Seeking and finding -----

  /** An accepted seek lands on the byte it names, and finding that position
      again gives back the packet and the offset. */
  lemma SeekThenFind(m: Model, cmd: nat, off: nat, pos: nat, k: nat, o: nat)
    requires Accepts(m, cmd, off)
    ensures IsAt(Sizes(Retained(m.log)), cmd, off, SeekTo(m, cmd, off, true, pos).2)
    ensures IsAt(Sizes(Retained(m.log)), k, o, SeekTo(m, cmd, off, true, pos).2) ==> k == cmd && o == off
  {
    var w := Retained(m.log);
    FlattenLength(w[..cmd]);
    assert Sizes(w[..cmd]) == Sizes(w)[..cmd];
    var p := SeekTo(m, cmd, off, true, pos).2;
    if IsAt(Sizes(w), k, o, p) {
      AtIsUnique(Sizes(w), k, o, cmd, off, p);
    }
  }

  /** Every readable position is where exactly one accepted seek lands; the
      32-bit arguments express that seek just when the offset fits. */
  lemma FindThenSeek(m: Model, pos: nat, from: nat) returns (cmd: nat, off: nat)
    requires pos < |Flatten(Retained(m.log))|
    ensures Accepts(m, cmd, off) && SeekTo(m, cmd, off, true, from).2 == pos
    ensures forall c: nat, o: nat :: Accepts(m, c, o) && SeekTo(m, c, o, true, from).2 == pos ==> c == cmd && o == off
    ensures (exists c: U32, o: U32 :: Accepts(m, c, o) && SeekTo(m, c, o, true, from).2 == pos) <==> off < 0x1_0000_0000
  {
    var w := Retained(m.log);
    FlattenLength(w);
    cmd, off := AtExists(Sizes(w), pos);
    SeekThenFind(m, cmd, off, from, cmd, off);
    forall c: nat, o: nat | Accepts(m, c, o) && SeekTo(m, c, o, true, from).2 == pos
      ensures c == cmd && o == off
    {
      SeekThenFind(m, c, o, from, cmd, off);
    }
  }

  // ----- Reading on -----

  /** Reads with the given counts, one after the other. */
  function ReadMany(m: Model, pos: nat, counts: seq<nat>): (seq<Byte>, nat)
    decreases |counts|
  {
    if counts == [] then ([], pos)
    else
      var (_, d, pos1) := ReadFrom(m, pos, counts[0], true);
      var (rest, pos') := ReadMany(m, pos1, counts[1..]);
      (d + rest, pos')
  }

  /** One read moves the position by what it delivers, and stands still only at
      the end or when asked for nothing. */
  lemma ReadAdvances(m: Model, pos: nat, count: nat)
    requires pos <= |Flatten(Retained(m.log))|
    ensures var (_, d, pos1) := ReadFrom(m, pos, count, true);
            && pos <= pos1 <= |Flatten(Retained(m.log))|
            && d == Flatten(Retained(m.log))[pos..pos1]
            && (0 < count && pos < |Flatten(Retained(m.log))| ==> pos < pos1)
  {
  }

  /** Reading on delivers the readable bytes in order without gap or overlap,
      and enough reads of at least one byte each deliver them all. */
  lemma {:induction false} ReadsDeliverInOrder(m: Model, pos: nat, counts: seq<nat>)
    requires pos <= |Flatten(Retained(m.log))|
    ensures var (d, pos') := ReadMany(m, pos, counts);
            && pos <= pos' <= |Flatten(Retained(m.log))|
            && d == Flatten(Retained(m.log))[pos..pos']
    ensures (forall i :: 0 <= i < |counts| ==> 0 < counts[i]) && |counts| >= |Flatten(Retained(m.log))| - pos ==>
              ReadMany(m, pos, counts).1 == |Flatten(Retained(m.log))|
    decreases |counts|
  {
    if counts == [] {
    } else {
      hide ReadFrom, Flatten, Retained;
      var all := Flatten(Retained(m.log));
      ReadAdvances(m, pos, counts[0]);
      var pos1 := ReadFrom(m, pos, counts[0], true).2;
      ReadsDeliverInOrder(m, pos1, counts[1..]);
      var pos' := ReadMany(m, pos1, counts[1..]).1;
      assert all[pos..pos1] + all[pos1..pos'] == all[pos..pos'];
    }
  }

  lemma {:induction false} ReadManySnoc(m: Model, pos: nat, counts: seq<nat>, count: nat)
    ensures var (d, pos1) := ReadMany(m, pos, counts);
            var (_, d', pos') := ReadFrom(m, pos1, count, true);
            ReadMany(m, pos, counts + [count]) == (d + d', pos')
    decreases |counts|
  {
    hide ReadFrom;
    if counts == [] {
      var d := ReadFrom(m, pos, count, true).1;
      assert counts + [count] == [count] && [count][1..] == [];
      assert [] + d == d == d + [];
    } else {
      var (_, d0, pos0) := ReadFrom(m, pos, counts[0], true);
      ReadManySnoc(m, pos0, counts[1..], count);
      assert (counts + [count])[1..] == counts[1..] + [count];
      var (d1, pos1) := ReadMany(m, pos0, counts[1..]);
      var d' := ReadFrom(m, pos1, count, true).1;
      assert d0 + (d1 + d') == d0 + d1 + d';
    }
  }

  /** At the end, and only there, a read for at least one byte returns zero. */
  lemma ReadEndsAtEnd(m: Model, pos: nat, count: nat)
    requires 0 < count
    ensures ReadFrom(m, pos, count, true).0 == Done(0) <==> |Flatten(Retained(m.log))| <= pos
  {
  }

  // ----- Writing -----

  /** A write that fails adds nothing to the log, and one that succeeds adds
      its bytes exactly once: to the log or to the pending bytes. */
  lemma WriteConserves(m: Model, data: seq<Byte>, env: WriteEnv)
    ensures var (m', r) := WriteTo(m, data, env);
            && (r.Fail? ==> m'.log == m.log)
            && (r.Done? ==> r.n == |data|)
            && (r.Done? ==> Flatten(m'.log) + m'.pending == Flatten(m.log) + m.pending + data)
            && m.log <= m'.log
            && Evicted(m.log) <= Evicted(m'.log)
            && m'.wedged == m.wedged
  {
    LogGrows(m.log, m.pending + data);
    var (m', r) := WriteTo(m, data, env);
    assert Flatten(m.log) + (m.pending + data) == Flatten(m.log) + m.pending + data;
  }

  // ----- What the calls return -----

  /** A write succeeds exactly when every call it makes into the kernel does, and
      the error says which one did not. */
  lemma WriteReturns(m: Model, data: seq<Byte>, env: WriteEnv)
    ensures var (m', r) := WriteTo(m, data, env);
            var room := NeedsRoom(m, |data|) ==> env.growOk;
            var stored := NEWLINE in m.pending + data ==> env.commitOk;
            && (r == Done(|data|) <==> room && env.copyOk && stored)
            && (r == Fail(EFAULT) <==> room && !env.copyOk)
            && (r == Fail(ENOMEM) <==> !room || (env.copyOk && !stored))
            && (!room ==> m' == m)
  {
  }

  /** When the accumulator was enlarged, fifty bytes more than this write fit in it
      before the next allocation; otherwise its room is what it was. */
  lemma RoomAfterWrite(m: Model, data: seq<Byte>, env: WriteEnv, count: nat)
    ensures var m' := WriteTo(m, data, env).0;
            if NeedsRoom(m, |data|) && env.growOk then
              NeedsRoom(m', count) <==> |m'.pending| + count > |m.pending| + |data| + 50
            else m'.capacity == m.capacity
  {
  }

  /** A read below the end fails, and hands over nothing, exactly when its copy
      does; at or behind the end it returns zero and copies nothing. */
  lemma ReadReturns(m: Model, pos: nat, count: nat, copyOk: bool)
    ensures var (ret, d, pos') := ReadFrom(m, pos, count, copyOk);
            var below := pos < |Flatten(Retained(m.log))|;
            && (ret == Fail(EFAULT) <==> below && !copyOk)
            && (ret.Fail? ==> ret == Fail(EFAULT) && d == [] && pos' == pos)
            && (ret.Done? ==> ret.n == |d| && pos' == pos + |d|)
            && (ret.Done? && d == [] <==> !below || (copyOk && count == 0))
  {
  }

  /** A seek fails with EINVAL exactly when it names no readable byte; a seek that
      fails leaves the file where it was. */
  lemma SeekReturns(m: Model, cmd: nat, off: nat, copyOk: bool, pos: nat)
    ensures var (m', ret, pos') := SeekTo(m, cmd, off, copyOk, pos);
            && (ret == Fail(EFAULT) <==> !copyOk)
            && (ret == Fail(EINVAL) <==> copyOk && !Accepts(m, cmd, off))
            && (ret == Done(0) <==> copyOk && Accepts(m, cmd, off))
            && (ret.Fail? ==> pos' == pos)
            && m' == m.(wedged := m.wedged || ret == Fail(EINVAL))
  {
  }
}
