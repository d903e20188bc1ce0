/** The character device: the ring, the accumulator in front of it, and the
    memory both of them own. */
module CharDevice {
  import opened Bytes
  import opened PacketLog
  import opened CircularBuffer
  import opened KernelMemory

  datatype TempBuf = TempBuf(data: Addr, size: nat, capacity: nat)

  const NO_TEMP: TempBuf := TempBuf(NULL, 0, 0)

  // ----- Ownership of memory -----

  ghost predicate OwnsSlots(slots: seq<Entry>, temp: TempBuf, live: Blocks) {
    && (forall e :: e in slots && e.buffptr != NULL ==>
          e.buffptr in live && |live[e.buffptr]| == e.size && e.buffptr != temp.data)
    && (forall i, j :: 0 <= i < j < |slots| && slots[i].buffptr != NULL ==>
          slots[i].buffptr != slots[j].buffptr)
  }

  ghost predicate OwnsTemp(temp: TempBuf, live: Blocks) {
    && (temp.data != NULL ==> temp.data in live && |live[temp.data]| == temp.capacity)
    && (temp.data == NULL <==> temp.capacity == 0)
    && temp.size <= temp.capacity
  }

  ghost predicate Stored(slots: seq<Entry>, p: Addr) {
    exists e :: e in slots && e.buffptr == p
  }

  /** The live blocks are exactly the distinct pointers in the slots and the
      accumulator's, and each has the length its owner has on record. */
  ghost predicate Owns(slots: seq<Entry>, temp: TempBuf, live: Blocks) {
    && OwnsSlots(slots, temp, live)
    && OwnsTemp(temp, live)
    && (forall p :: p in live ==> p != NULL && (p == temp.data || Stored(slots, p)))
  }

  /** Growing the accumulator, or only rewriting its bytes, concerns no slot. */
  lemma OwnsAfterGrowth(slots: seq<Entry>, temp: TempBuf, live: Blocks, temp': TempBuf, live': Blocks)
    requires Owns(slots, temp, live)
    requires temp'.data != NULL && (temp'.data == temp.data || temp'.data !in live)
    requires temp'.data in live' && live' == (live - {temp.data})[temp'.data := live'[temp'.data]]
    requires |live'[temp'.data]| == temp'.capacity > 0 && temp'.size <= temp'.capacity
    ensures Owns(slots, temp', live')
    ensures forall e :: e in slots && e.buffptr in live && e.buffptr != NULL ==>
      e.buffptr in live' && live'[e.buffptr] == live[e.buffptr]
  {
  }

  /** Storing a new block over a slot, and freeing what the slot pointed to. */
  lemma OwnsAfterStore(slots: seq<Entry>, temp: TempBuf, live: Blocks, at: nat, p: Addr, bytes: seq<Byte>)
    requires Owns(slots, temp, live) && at < |slots|
    requires p != NULL && p !in live
    ensures Owns(slots[at := Entry(p, |bytes|)], temp, live[p := bytes] - {slots[at].buffptr})
  {
    var slots' := slots[at := Entry(p, |bytes|)];
    var live' := live[p := bytes] - {slots[at].buffptr};
    forall q | q in live' ensures q == temp.data || Stored(slots', q) {
      if q == p {
        assert slots'[at].buffptr == q;
      } else if q != temp.data {
        var i :| 0 <= i < |slots| && slots[i].buffptr == q;
        assert slots'[i] == slots[i];
      }
    }
  }

  /** Giving up the accumulator, or a slot once the accumulator is gone. */
  lemma OwnsAfterFree(slots: seq<Entry>, temp: TempBuf, live: Blocks, at: nat)
    requires Owns(slots, temp, live) && at < |slots|
    ensures temp.data != NULL ==> temp.data in live
    ensures temp.data == NULL ==> temp == NO_TEMP
    ensures temp.data != NULL ==> Owns(slots, NO_TEMP, live - {temp.data})
    ensures slots[at].buffptr != NULL ==>
      slots[at].buffptr in live && Owns(slots[at := VACANT], temp, live - {slots[at].buffptr})
  {
    var slots', p := slots[at := VACANT], slots[at].buffptr;
    forall q | q in live - {p} && q != temp.data ensures Stored(slots', q) {
      var i :| 0 <= i < |slots| && slots[i].buffptr == q;
      assert slots'[i] == slots[i];
    }
  }

  lemma NothingOwned(slots: seq<Entry>, live: Blocks, fates: Fates)
    requires Owns(slots, NO_TEMP, live) && Accounted(fates, live)
    requires forall i :: 0 <= i < |slots| ==> slots[i].buffptr == NULL
    ensures live == map[]
    ensures forall n :: 0 <= n < |fates| ==> fates[n] == None
  {
    forall n | 0 <= n < |fates| ensures fates[n] == None {
      assert fates[n] in fates;
    }
  }

  // ----- What the pointers hold -----

  ghost predicate Reachable(es: seq<Entry>, live: Blocks) {
    forall i :: 0 <= i < |es| ==> es[i].buffptr in live
  }

  /** The packets that a list of entries points to. */
  ghost function Contents(es: seq<Entry>, live: Blocks): seq<Packet>
    requires Reachable(es, live)
  {
    seq(|es|, i requires 0 <= i < |es| => live[es[i].buffptr])
  }

  /** What the device's fields stand for: the entries in reading order hold the
      readable part of the log, and nothing else is allocated. */
  ghost predicate Represents(slots: seq<Entry>, es: seq<Entry>, temp: TempBuf, live: Blocks, log: seq<Packet>) {
    && Owns(slots, temp, live)
    && (forall e :: e in es ==> e in slots)
    && Reachable(es, live)
    && Contents(es, live) == Retained(log)
  }

  lemma RepresentsAfterGrowth(slots: seq<Entry>, es: seq<Entry>, temp: TempBuf, live: Blocks, log: seq<Packet>,
                              temp': TempBuf, live': Blocks)
    requires Represents(slots, es, temp, live, log)
    requires temp'.data != NULL && (temp'.data == temp.data || temp'.data !in live)
    requires temp'.data in live' && live' == (live - {temp.data})[temp'.data := live'[temp'.data]]
    requires |live'[temp'.data]| == temp'.capacity > 0 && temp'.size <= temp'.capacity
    ensures Represents(slots, es, temp', live', log)
  {
    OwnsAfterGrowth(slots, temp, live, temp', live');
    forall i | 0 <= i < |es| ensures es[i].buffptr in live' && live'[es[i].buffptr] == live[es[i].buffptr] {
      assert es[i] in slots && es[i].buffptr != NULL;
    }
    assert Contents(es, live') == Contents(es, live);
  }

  /** An entry that is still stored after a slot was overwritten is stored in
      another slot, so it has another pointer. */
  lemma StoredOnce(slots: seq<Entry>, at: nat, add: Entry, e: Entry)
    requires at < |slots| && e.buffptr != NULL && e != add && e in slots[at := add]
    requires forall i, j :: 0 <= i < j < |slots| && slots[i].buffptr != NULL ==> slots[i].buffptr != slots[j].buffptr
    ensures e.buffptr != slots[at].buffptr
  {
    var i :| 0 <= i < |slots| && slots[at := add][i] == e;
    assert i != at && slots[i] == e;
  }

  /** The entries that stay keep their bytes when the slot of another is reused. */
  lemma KeptContents(slots: seq<Entry>, temp: TempBuf, live: Blocks, at: nat, p: Addr, bytes: seq<Byte>, kept: seq<Entry>)
    requires Owns(slots, temp, live) && at < |slots|
    requires p != NULL && p !in live
    requires Reachable(kept, live)
    requires forall e :: e in kept ==> e in slots[at := Entry(p, |bytes|)]
    ensures Reachable(kept, live[p := bytes] - {slots[at].buffptr})
    ensures Contents(kept, live[p := bytes] - {slots[at].buffptr}) == Contents(kept, live)
  {
    forall i | 0 <= i < |kept| ensures kept[i].buffptr != slots[at].buffptr {
      assert kept[i] in kept;
      StoredOnce(slots, at, Entry(p, |bytes|), kept[i]);
    }
  }

  /** Storing the new block in the next slot pushes its bytes onto the log. */
  lemma RepresentsAfterStore(slots: seq<Entry>, es: seq<Entry>, temp: TempBuf, live: Blocks, log: seq<Packet>,
                             at: nat, p: Addr, bytes: seq<Byte>, es': seq<Entry>)
    requires Represents(slots, es, temp, live, log) && at < |slots|
    requires p != NULL && p !in live
    requires es' == Push(es, Entry(p, |bytes|))
    requires forall e :: e in es' ==> e in slots[at := Entry(p, |bytes|)]
    ensures Represents(slots[at := Entry(p, |bytes|)], es', temp.(size := 0),
                       live[p := bytes] - {slots[at].buffptr}, log + [bytes])
    ensures slots[at].buffptr != NULL ==> slots[at].buffptr in live
  {
    hide OwnsSlots, OwnsTemp, Stored;
    var live' := live[p := bytes] - {slots[at].buffptr};
    assert Owns(slots[at := Entry(p, |bytes|)], temp.(size := 0), live') by {
      SlotIsOwned(slots, temp, live, at, p, bytes);
    }
    assert slots[at].buffptr != NULL ==> slots[at].buffptr in live by {
      SlotIsOwned(slots, temp, live, at, p, bytes);
    }
    RetainedPush(log, bytes);
    var kept := if |es| >= MAX_WRITES then es[1..] else es;
    assert es' == kept + [Entry(p, |bytes|)];
    forall e | e in kept ensures e in slots[at := Entry(p, |bytes|)] {
      assert e in es';
    }
    KeptContents(slots, temp, live, at, p, bytes, kept);
    assert live'[p] == bytes;
    assert Contents(es', live') == Contents(kept, live') + [bytes];
  }

  lemma SlotIsOwned(slots: seq<Entry>, temp: TempBuf, live: Blocks, at: nat, p: Addr, bytes: seq<Byte>)
    requires Owns(slots, temp, live) && at < |slots|
    requires p != NULL && p !in live
    ensures slots[at].buffptr != NULL ==> slots[at].buffptr in live
    ensures slots[at].buffptr != p
    ensures Owns(slots[at := Entry(p, |bytes|)], temp.(size := 0), live[p := bytes] - {slots[at].buffptr})
  {
    OwnsAfterStore(slots, temp, live, at, p, bytes);
  }

  /** The sizes on record are the sizes of the readable packets. */
  lemma {:induction false} SizesOnRecord(slots: seq<Entry>, es: seq<Entry>, temp: TempBuf, live: Blocks, log: seq<Packet>)
    requires Represents(slots, es, temp, live, log)
    ensures |es| == |Retained(log)|
    ensures EntrySizes(es) == Sizes(Retained(log))
    ensures forall i :: 0 <= i < |es| ==> es[i].buffptr != NULL && es[i].size == |Retained(log)[i]| && live[es[i].buffptr] == Retained(log)[i]
    ensures Held(es) == |Retained(log)| && HeldBytes(es) == |Flatten(Retained(log))|
  {
    assert |Contents(es, live)| == |es|;
    forall i | 0 <= i < |es|
      ensures es[i].buffptr != NULL && es[i].size == |Retained(log)[i]| && live[es[i].buffptr] == Retained(log)[i]
    {
      assert es[i] in es;
      assert Contents(es, live)[i] == live[es[i].buffptr];
    }
    AllHeld(es);
    FlattenLength(Retained(log));
    assert EntrySizes(es) == Sizes(Retained(log));
  }

  ghost function PendingIn(temp: TempBuf, live: Blocks): seq<Byte>
    requires OwnsTemp(temp, live)
  {
    if temp.data == NULL then [] else live[temp.data][..temp.size]
  }

  class Device {
    const ring: Ring
    const mem: Kmem
    var temp: TempBuf
    var locked: bool
    ghost var log: seq<Packet>

    ghost predicate Valid()
      reads this, ring, ring.entry, mem
    {
      && ring.Valid() && mem.Valid()
      && Represents(ring.Slots(), ring.Logical(), temp, mem.live, log)
    }

    ghost function Abs(): Model
      requires Valid()
      reads this, ring, ring.entry, mem
    {
      Model(log, PendingIn(temp, mem.live), temp.capacity, locked)
    }

    constructor ()
      ensures Valid() && Abs() == EMPTY
      ensures fresh(ring) && fresh(ring.entry) && fresh(mem)
    {
      ring := new Ring();
      mem := new Kmem();
      temp := NO_TEMP;
      locked := false;
      log := [];
    }

    /** Makes room for `count` more bytes behind the pending ones. */
    method MakeRoom(count: nat, ok: bool) returns (done: bool)
      requires Valid()
      modifies `temp, mem
      ensures Valid()
      ensures done == (ok || !NeedsRoom(old(Abs()), count))
      ensures Abs() == old(Abs()).(capacity := if done then Grown(old(Abs()), count) else old(Abs()).capacity)
      ensures done ==> temp.data != NULL && temp.size + count <= temp.capacity
    {
      hide Accounted, OwnsSlots, Contents, Reachable, InOrder;
      ghost var before: Blocks := mem.live;
      var grown := temp;
      if temp.data == NULL {
        var p := mem.Kmalloc(count + 50, ok);
        grown := TempBuf(p, 0, count + 50);
      } else if temp.capacity < temp.size + count {
        var p := mem.Krealloc(temp.data, temp.size + count + 50, ok);
        grown := TempBuf(p, temp.size, temp.size + count + 50);
      }
      if grown.data == NULL {
        return false;
      }
      RepresentsAfterGrowth(ring.Slots(), ring.Logical(), temp, before, log, grown, mem.live);
      temp := grown;
      return true;
    }

    /** Moves the pending bytes into the ring as one packet, and frees the packet
        that this pushes out. */
    method Commit(ok: bool) returns (done: bool)
      requires Valid() && temp.data != NULL
      modifies this`temp, this`log, ring, ring.entry, mem
      ensures Valid() && done == ok
      ensures !ok ==> Abs() == old(Abs()) && unchanged(ring) && unchanged(ring.entry)
      ensures ok ==> Abs() == old(Abs()).(log := old(log) + [old(PendingIn(temp, mem.live))], pending := [])
    {
      hide Accounted, OwnsSlots, Stored, Contents, Reachable, InOrder, Push, Retained, BlockAt;
      ghost var slots, es, before := ring.Slots(), ring.Logical(), mem.live;
      var bytes := mem.live[temp.data][..temp.size];
      var p := mem.Duplicate(bytes, ok);
      if p == NULL {
        return false;
      }
      var oldEntry := ring.AddEntry(Entry(p, temp.size));
      InOrderIsStored(ring.Slots(), ring.inOffs, ring.outOffs, ring.full);
      RepresentsAfterStore(slots, es, temp, before, log, old(ring.inOffs), p, bytes, ring.Logical());
      if oldEntry != NULL {
        mem.Kfree(oldEntry);
      }
      assert mem.live == before[p := bytes] - {oldEntry};
      temp := temp.(size := 0);
      log := log + [bytes];
      return true;
    }

    /** Appends to the pending bytes, and commits them once they hold a newline. */
    method Write(buf: seq<Byte>, env: WriteEnv, pos: nat) returns (ret: Ret, pos': nat)
      requires Valid() && !locked
      modifies this, ring, ring.entry, mem
      ensures Valid()
      ensures (Abs(), ret) == WriteTo(old(Abs()), buf, env)
      ensures ret == Done(|buf|) <==>
        && (NeedsRoom(old(Abs()), |buf|) ==> env.growOk) && env.copyOk
        && (NEWLINE in old(Abs()).pending + buf ==> env.commitOk)
      ensures pos' == if ret.Done? then pos + |buf| else pos
      ensures ret.Fail? ==> unchanged(ring) && unchanged(ring.entry)
    {
      hide Accounted, OwnsSlots, Stored, Contents, Reachable, InOrder;
      WriteReturns(Abs(), buf, env);
      locked := true;
      ret, pos' := WriteLocked(buf, env, pos);
      locked := false;
    }

    /** The same with the mutex held. */
    method WriteLocked(buf: seq<Byte>, env: WriteEnv, pos: nat) returns (ret: Ret, pos': nat)
      requires Valid() && locked
      modifies `temp, `log, ring, ring.entry, mem
      ensures Valid()
      ensures (Abs(), ret) == WriteTo(old(Abs()), buf, env)
      ensures pos' == if ret.Done? then pos + |buf| else pos
      ensures ret.Fail? ==> unchanged(ring) && unchanged(ring.entry)
    {
      hide Accounted, OwnsSlots, Stored, Contents, Reachable, InOrder;
      var room := MakeRoom(|buf|, env.growOk);
      if !room {
        return Fail(ENOMEM), pos;
      }
      Append(buf, env.copyOk);
      if !env.copyOk {
        return Fail(EFAULT), pos;
      }
      if NEWLINE in mem.live[temp.data][..temp.size] {
        var committed := Commit(env.commitOk);
        if !committed {
          return Fail(ENOMEM), pos;
        }
      }
      return Done(|buf|), pos + |buf|;
    }

    /** Copies the user's bytes behind the pending ones; a faulting copy drops them all. */
    method Append(buf: seq<Byte>, ok: bool)
      requires Valid() && temp.data != NULL && temp.size + |buf| <= temp.capacity
      modifies `temp, mem
      ensures Valid() && temp.data == old(temp.data)
      ensures Abs() == old(Abs()).(pending := if ok then old(Abs()).pending + buf else [])
    {
      hide Accounted, OwnsSlots, Contents, Reachable, InOrder;
      ghost var before: Blocks := mem.live;
      mem.CopyIn(temp.data, temp.size, buf, ok);
      assert mem.live == (before - {temp.data})[temp.data := mem.live[temp.data]];
      var temp' := temp.(size := if ok then temp.size + |buf| else 0);
      RepresentsAfterGrowth(ring.Slots(), ring.Logical(), temp, before, log, temp', mem.live);
      assert ok ==> mem.live[temp.data][..temp'.size] == before[temp.data][..temp.size] + buf;
      temp := temp';
    }

    /** Hands over at most `count` bytes at the file position, all from one packet. */
    method Read(pos: nat, count: nat, copyOk: bool) returns (ret: Ret, data: seq<Byte>, pos': nat)
      requires Valid() && !locked
      modifies `locked
      ensures Valid() && Abs() == old(Abs())
      ensures (ret, data, pos') == ReadFrom(old(Abs()), pos, count, copyOk)
    {
      hide Accounted, OwnsSlots, Stored, Contents, Reachable, InOrder;
      locked := true;
      ret, data, pos' := ReadLocked(pos, count, copyOk);
      locked := false;
    }

    /** The same with the mutex held. */
    method ReadLocked(pos: nat, count: nat, copyOk: bool) returns (ret: Ret, data: seq<Byte>, pos': nat)
      requires Valid() && locked
      ensures (ret, data, pos') == ReadFrom(Abs(), pos, count, copyOk)
    {
      hide Accounted, OwnsSlots, Stored, Contents, InOrder, Flatten, Served, Retained, Sizes, Sum;
      ghost var w := Retained(log);
      SizesOnRecord(ring.Slots(), ring.Logical(), temp, mem.live, log);
      FlattenLength(w);
      var slot, offset, k := ring.FindEntryOffsetForFpos(pos);
      if slot == None {
        return Done(0), [], pos;
      }
      ServedAt(w, k, offset, pos, count);
      var entry := ring.entry[slot.value];
      var bytesToCopy := Min(count, entry.size - offset);
      if !copyOk {
        return Fail(EFAULT), [], pos;
      }
      data := mem.live[entry.buffptr][offset..offset + bytesToCopy];
      return Done(bytesToCopy), data, pos + bytesToCopy;
    }

    /** The size that a seek from user space is bounded by. */
    method LlseekSize() returns (total: nat)
      requires Valid() && !locked
      modifies `locked
      ensures Valid() && Abs() == old(Abs())
      ensures total == |Flatten(Retained(log))|
    {
      hide Accounted, OwnsSlots, Stored, Contents, InOrder;
      locked := true;
      total := SizeLocked();
      locked := false;
    }

    method SizeLocked() returns (total: nat)
      requires Valid() && locked
      ensures total == |Flatten(Retained(log))|
    {
      hide Accounted, OwnsSlots, Stored, Contents, InOrder;
      SizesOnRecord(ring.Slots(), ring.Logical(), temp, mem.live, log);
      total := ring.TotalSize();
    }

    /** Moves the file position to a byte of a packet. A refusal keeps the mutex. */
    method UnlockedIoctl(isSeekTo: bool, cmd: U32, off: U32, copyOk: bool, pos: nat) returns (ret: Ret, pos': nat)
      requires Valid() && (isSeekTo && copyOk ==> !locked)
      modifies `locked
      ensures Valid()
      ensures !isSeekTo ==> Abs() == old(Abs()) && ret == Fail(ENOTTY) && pos' == pos
      ensures isSeekTo ==> (Abs(), ret, pos') == SeekTo(old(Abs()), cmd, off, copyOk, pos)
    {
      hide Accounted, OwnsSlots, Stored, Contents, Reachable, InOrder;
      if !isSeekTo {
        return Fail(ENOTTY), pos;
      }
      if !copyOk {
        return Fail(EFAULT), pos;
      }
      locked := true;
      var start := FindPacket(cmd, off);
      if start == None {
        return Fail(EINVAL), pos;
      }
      locked := false;
      return Done(0), start.value + off;
    }

    /** Where packet `cmd` starts, if there is one with a byte at `off`. */
    method FindPacket(cmd: U32, off: U32) returns (start: Option<nat>)
      requires Valid() && locked
      ensures start.Some? == Accepts(Abs(), cmd, off)
      ensures start.Some? ==> start.value == |Flatten(Retained(log)[..cmd])|
    {
      hide Accounted, OwnsSlots, Stored, Contents, InOrder;
      SizesOnRecord(ring.Slots(), ring.Logical(), temp, mem.live, log);
      var size := ring.Size();
      if cmd >= size {
        return None;
      }
      ring.WalkIsLogical(cmd);
      if off >= ring.entry[ring.Slot(cmd)].size {
        return None;
      }
      var n := SizesBefore(cmd);
      return Some(n);
    }

    /** The bytes in the first `cmd` packets. */
    method SizesBefore(cmd: nat) returns (start: nat)
      requires Valid() && cmd <= |ring.Logical()|
      ensures cmd <= |Retained(log)| && start == |Flatten(Retained(log)[..cmd])|
    {
      hide Accounted, OwnsSlots, Stored, Contents, InOrder;
      SizesOnRecord(ring.Slots(), ring.Logical(), temp, mem.live, log);
      ghost var sizes := Sizes(Retained(log));
      start := 0;
      for i := 0 to cmd
        invariant start == Sum(sizes[..i])
      {
        ring.WalkIsLogical(i);
        SumNext(sizes, i);
        start := start + ring.entry[ring.Slot(i)].size;
      }
      FlattenLength(Retained(log)[..cmd]);
      assert Sizes(Retained(log)[..cmd]) == sizes[..cmd];
    }

    /** What the ring holds, walked from the read pointer, and what is pending. */
    method Snapshot() returns (packets: seq<Packet>, pending: seq<Byte>)
      requires Valid()
      ensures packets == Retained(log) && pending == Abs().pending
    {
      hide Accounted, OwnsSlots, Stored, InOrder;
      SizesOnRecord(ring.Slots(), ring.Logical(), temp, mem.live, log);
      packets := [];
      var count := if ring.full then MAX_WRITES else ring.inOffs;
      for i := 0 to count
        invariant packets == Retained(log)[..i]
      {
        ring.WalkIsLogical(i);
        packets := packets + [mem.live[ring.entry[ring.Slot(i)].buffptr]];
      }
      pending := if temp.data == NULL then [] else mem.live[temp.data][..temp.size];
    }

    /** Frees the accumulator and then every slot that holds a pointer. */
    method Cleanup()
      requires Valid()
      modifies `temp, ring.entry, mem
      ensures mem.live == map[]
      ensures mem.Valid() && forall n :: 0 <= n < |mem.fates| ==> mem.fates[n] == None
      ensures temp == NO_TEMP
      ensures forall i :: 0 <= i < ring.entry.Length ==> ring.entry[i].buffptr == NULL
    {
      hide Accounted, OwnsSlots, OwnsTemp, Stored, Contents, Reachable, InOrder;
      OwnsAfterFree(ring.Slots(), temp, mem.live, 0);
      if temp.data != NULL {
        mem.Kfree(temp.data);
        temp := NO_TEMP;
      }
      for index := 0 to MAX_WRITES
        invariant mem.Valid()
        invariant temp == NO_TEMP
        invariant Owns(ring.Slots(), temp, mem.live)
        invariant forall i :: 0 <= i < index ==> ring.entry[i].buffptr == NULL
      {
        ghost var slots := ring.Slots();
        OwnsAfterFree(slots, temp, mem.live, index);
        if ring.entry[index].buffptr != NULL {
          mem.Kfree(ring.entry[index].buffptr);
          ring.entry[index] := VACANT;
          assert ring.Slots() == slots[index := VACANT];
        }
      }
      NothingOwned(ring.Slots(), mem.live, mem.fates);
    }
  }
}
