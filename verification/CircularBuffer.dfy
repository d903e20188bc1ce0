/** The ring of the ten most recent packets. */
module CircularBuffer {
  import opened Bytes
  import opened PacketLog

  /** An address in kernel memory; zero is the null pointer. */
  type Addr = nat

  const NULL: Addr := 0

  datatype Entry = Entry(buffptr: Addr, size: nat)

  const VACANT: Entry := Entry(NULL, 0)

  datatype Option<T> = None | Some(value: T)

  function EntrySizes(es: seq<Entry>): seq<nat> {
    seq(|es|, i requires 0 <= i < |es| => es[i].size)
  }

  /** How many entries hold a pointer. */
  function Held(es: seq<Entry>): nat {
    if es == [] then 0 else (if es[0].buffptr != NULL then 1 else 0) + Held(es[1..])
  }

  /** The bytes in the entries that hold a pointer. */
  function HeldBytes(es: seq<Entry>): nat {
    if es == [] then 0 else (if es[0].buffptr != NULL then es[0].size else 0) + HeldBytes(es[1..])
  }

  lemma {:induction false} HeldConcat(a: seq<Entry>, b: seq<Entry>)
    ensures Held(a + b) == Held(a) + Held(b)
    ensures HeldBytes(a + b) == HeldBytes(a) + HeldBytes(b)
  {
    if a == [] {
      assert a + b == b;
    } else {
      HeldConcat(a[1..], b);
      assert (a + b)[1..] == a[1..] + b;
    }
  }

  lemma {:induction false} VacantHoldNothing(es: seq<Entry>)
    requires forall i :: 0 <= i < |es| ==> es[i] == VACANT
    ensures Held(es) == 0 && HeldBytes(es) == 0
  {
    if es == [] {
    } else {
      VacantHoldNothing(es[1..]);
    }
  }

  /** When every entry holds a pointer, the counts are the plain ones. */
  lemma {:induction false} AllHeld(es: seq<Entry>)
    requires forall i :: 0 <= i < |es| ==> es[i].buffptr != NULL
    ensures Held(es) == |es|
    ensures HeldBytes(es) == Sum(EntrySizes(es))
  {
    if es == [] {
    } else {
      AllHeld(es[1..]);
      assert EntrySizes(es)[1..] == EntrySizes(es[1..]);
    }
  }

  /** The slots from oldest to newest packet, as the read pointer walks them. */
  function InOrder(slots: seq<Entry>, inOffs: nat, outOffs: nat, full: bool): seq<Entry>
    requires inOffs <= |slots| && outOffs <= |slots|
  {
    if full then slots[outOffs..] + slots[..outOffs] else slots[..inOffs]
  }

  /** Nothing is read that is not stored. */
  lemma InOrderIsStored(slots: seq<Entry>, inOffs: nat, outOffs: nat, full: bool)
    requires inOffs <= |slots| && outOffs <= |slots|
    ensures forall e :: e in InOrder(slots, inOffs, outOffs, full) ==> e in slots
  {
  }

  /** Scanning the slots in storage order counts the same as in reading order. */
  lemma ScanOrderIrrelevant(slots: seq<Entry>, inOffs: nat, outOffs: nat, full: bool)
    requires inOffs <= |slots| && outOffs <= |slots|
    requires !full ==> forall i :: inOffs <= i < |slots| ==> slots[i] == VACANT
    ensures Held(slots) == Held(InOrder(slots, inOffs, outOffs, full))
    ensures HeldBytes(slots) == HeldBytes(InOrder(slots, inOffs, outOffs, full))
  {
    var cut := if full then outOffs else inOffs;
    assert slots == slots[..cut] + slots[cut..];
    HeldConcat(slots[..cut], slots[cut..]);
    if full {
      HeldConcat(slots[cut..], slots[..cut]);
    } else {
      VacantHoldNothing(slots[cut..]);
    }
  }

  /** Overwriting the oldest slot of a full ring moves it behind the others. */
  lemma RotateIsPush(slots: seq<Entry>, at: nat, add: Entry)
    requires |slots| == MAX_WRITES && at < MAX_WRITES
    ensures var start := if at + 1 == MAX_WRITES then 0 else at + 1;
            slots[at := add][start..] + slots[at := add][..start]
            == slots[at + 1..] + slots[..at] + [add]
    ensures (slots[at..] + slots[..at])[1..] == slots[at + 1..] + slots[..at]
  {
    assert slots[at := add] == slots[..at] + [add] + slots[at + 1..];
  }

  /** Writing the slot at the write pointer and stepping the pointers pushes the
      new entry behind the others; a ring that was full drops its oldest. */
  lemma StoreIsPush(slots: seq<Entry>, inOffs: nat, outOffs: nat, full: bool, add: Entry)
    requires |slots| == MAX_WRITES && inOffs < MAX_WRITES
    requires if full then inOffs == outOffs else outOffs == 0
    ensures var next := if inOffs + 1 == MAX_WRITES then 0 else inOffs + 1;
            var start := if full then next else outOffs;
            InOrder(slots[inOffs := add], next, start, full || next == start)
            == Push(InOrder(slots, inOffs, outOffs, full), add)
    ensures full ==> InOrder(slots, inOffs, outOffs, full)[0] == slots[outOffs]
  {
    if full {
      RotateIsPush(slots, inOffs, add);
    } else {
      var slots' := slots[inOffs := add];
      assert slots'[..inOffs + 1] == slots[..inOffs] + [add];
      assert slots' == slots'[..MAX_WRITES];
      assert slots' == slots'[0..] + slots'[..0];
    }
  }

  class Ring {
    const entry: array<Entry>
    var inOffs: nat
    var outOffs: nat
    var full: bool

    ghost predicate Valid()
      reads this, entry
    {
      && entry.Length == MAX_WRITES
      && inOffs < MAX_WRITES
      && outOffs < MAX_WRITES
      && (full ==> inOffs == outOffs)
      && (!full ==> outOffs == 0)
      && (!full ==> forall i :: inOffs <= i < MAX_WRITES ==> entry[i] == VACANT)
    }

    /** The slots in storage order. */
    ghost function Slots(): seq<Entry>
      reads entry
    {
      entry[..]
    }

    /** The stored entries, oldest first. */
    ghost function Logical(): (es: seq<Entry>)
      requires Valid()
      reads this, entry
      ensures |es| == if full then MAX_WRITES else inOffs
    {
      InOrder(Slots(), inOffs, outOffs, full)
    }

    /** The slot that is `i` steps past the read pointer. */
    function Slot(i: nat): (s: nat)
      requires outOffs < MAX_WRITES && i <= MAX_WRITES
      reads this
      ensures s < MAX_WRITES && s == (outOffs + i) % MAX_WRITES
    {
      if outOffs + i < MAX_WRITES then outOffs + i else outOffs + i - MAX_WRITES
    }

    /** The modular walk from the read pointer visits the stored entries in order. */
    lemma WalkIsLogical(i: nat)
      requires Valid() && i < |Logical()|
      ensures Logical()[i] == entry[Slot(i)]
    {
    }

    constructor ()
      ensures Valid() && Logical() == []
      ensures fresh(entry) && Slots() == seq(MAX_WRITES, _ => VACANT)
    {
      entry := new Entry[MAX_WRITES](_ => VACANT);
      inOffs, outOffs, full := 0, 0, false;
    }

    /** Stores an entry after the newest one, over the oldest one when the ring
        is full, and returns the pointer that was overwritten. */
    method AddEntry(add: Entry) returns (overwritten: Addr)
      requires Valid()
      modifies this, entry
      ensures Valid()
      ensures Logical() == Push(old(Logical()), add)
      ensures Slots() == old(Slots())[old(inOffs) := add]
      ensures overwritten == if |old(Logical())| == MAX_WRITES then old(Logical())[0].buffptr else NULL
      ensures overwritten == old(Slots()[inOffs].buffptr)
    {
      hide InOrder;
      StoreIsPush(Slots(), inOffs, outOffs, full, add);
      overwritten := NULL;
      if !full {
        entry[inOffs] := add;
        inOffs := (inOffs + 1) % MAX_WRITES;
      } else {
        overwritten := entry[outOffs].buffptr;
        entry[outOffs] := entry[outOffs].(buffptr := NULL);
        entry[inOffs] := add;
        inOffs := (inOffs + 1) % MAX_WRITES;
        outOffs := (outOffs + 1) % MAX_WRITES;
      }
      if inOffs == outOffs {
        full := true;
      }
      assert Slots() == old(Slots())[old(inOffs) := add];
    }

    /** The slot and the offset inside it of the byte that `charOffset` names
        when all entries are laid end to end; none past the last byte. */
    method FindEntryOffsetForFpos(charOffset: nat) returns (slot: Option<nat>, offset: nat, ghost k: nat)
      requires Valid()
      ensures slot.Some? <==> charOffset < Sum(EntrySizes(Logical()))
      ensures slot.Some? ==>
        && IsAt(EntrySizes(Logical()), k, offset, charOffset)
        && slot.value < MAX_WRITES
        && entry[slot.value] == Logical()[k]
    {
      hide InOrder;
      ghost var es := Logical();
      ghost var sizes := EntrySizes(es);
      var iter: nat := outOffs;
      var charCount: nat := 0;
      var totalEntries := if full then MAX_WRITES else inOffs;
      var i: nat := 0;
      while i < totalEntries
        invariant i <= totalEntries == |es| && iter < MAX_WRITES
        invariant iter == Slot(i)
        invariant charCount == Sum(sizes[..i]) <= charOffset
      {
        SumNext(sizes, i);
        WalkIsLogical(i);
        if charOffset < charCount + entry[iter].size {
          AtIsInRange(sizes, i, charOffset - charCount, charOffset);
          return Some(iter), charOffset - charCount, i;
        }
        charCount := charCount + entry[iter].size;
        iter := (iter + 1) % MAX_WRITES;
        i := i + 1;
      }
      assert sizes[..totalEntries] == sizes;
      slot, offset, k := None, 0, 0;
    }

    /** The number of stored entries that hold a pointer. */
    method Size() returns (size: nat)
      requires Valid()
      ensures size == Held(Logical())
    {
      size := 0;
      for i := 0 to MAX_WRITES
        invariant size == Held(entry[..i])
      {
        assert entry[..i + 1] == entry[..i] + [entry[i]];
        HeldConcat(entry[..i], [entry[i]]);
        if entry[i].buffptr != NULL {
          size := size + 1;
        }
      }
      assert entry[..MAX_WRITES] == entry[..];
      ScanOrderIrrelevant(Slots(), inOffs, outOffs, full);
    }

    /** The number of bytes in the stored entries that hold a pointer. */
    method TotalSize() returns (total: nat)
      requires Valid()
      ensures total == HeldBytes(Logical())
    {
      total := 0;
      for i := 0 to MAX_WRITES
        invariant total == HeldBytes(entry[..i])
      {
        assert entry[..i + 1] == entry[..i] + [entry[i]];
        HeldConcat(entry[..i], [entry[i]]);
        if entry[i].buffptr != NULL {
          total := total + entry[i].size;
        }
      }
      assert entry[..MAX_WRITES] == entry[..];
      ScanOrderIrrelevant(Slots(), inOffs, outOffs, full);
    }
  }
}
