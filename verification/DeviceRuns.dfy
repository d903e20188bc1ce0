/** Whole runs of the device: any number of open files, any interleaving of
    their calls, any pattern of failing allocations and copies. */
module DeviceRuns {
  import opened Bytes
  import opened PacketLog
  import opened WriteHistory
  import CharDevice
  import CircularBuffer

  type Handle = nat

  datatype Event =
    | Write(h: Handle, data: seq<Byte>, env: WriteEnv)
    | Read(h: Handle, count: nat, copyOk: bool)
    | Seek(h: Handle, cmd: U32, off: U32, copyOk: bool)
    | OtherIoctl(h: Handle)
    | AskSize

  datatype Out = Returned(ret: Ret, data: seq<Byte>) | Blocked

  datatype Sys = Sys(dev: Model, pos: map<Handle, nat>) {
    /** A file that was not used yet stands at its beginning. */
    function Pos(h: Handle): nat {
      if h in pos then pos[h] else 0
    }
  }

  const START: Sys := Sys(EMPTY, map[])

  /** The call needs the device mutex and will not get it. */
  predicate Blocks(s: Sys, e: Event) {
    s.dev.wedged && !e.OtherIoctl? && !(e.Seek? && !e.copyOk)
  }

  function Step(s: Sys, e: Event): (Sys, Out) {
    if Blocks(s, e) then (s, Blocked)
    else
      match e
      case Write(h, data, env) =>
        var (dev, ret) := WriteTo(s.dev, data, env);
        (Sys(dev, s.pos[h := s.Pos(h) + if ret.Done? then |data| else 0]), Returned(ret, []))
      case Read(h, count, copyOk) =>
        var (ret, data, pos') := ReadFrom(s.dev, s.Pos(h), count, copyOk);
        (s.(pos := s.pos[h := pos']), Returned(ret, data))
      case Seek(h, cmd, off, copyOk) =>
        var (dev, ret, pos') := SeekTo(s.dev, cmd, off, copyOk, s.Pos(h));
        (Sys(dev, s.pos[h := pos']), Returned(ret, []))
      case OtherIoctl(_) => (s, Returned(Fail(ENOTTY), []))
      case AskSize => (s, Returned(Done(|Flatten(Retained(s.dev.log))|), []))
  }

  function After(es: seq<Event>): Sys {
    if es == [] then START else Step(After(es[..|es| - 1]), es[|es| - 1]).0
  }

  function Outs(es: seq<Event>): (os: seq<Out>)
    ensures |os| == |es|
  {
    if es == [] then []
    else Outs(es[..|es| - 1]) + [Step(After(es[..|es| - 1]), es[|es| - 1]).1]
  }

  // ----- The driver itself, from set-up to teardown -----

  /** The ring, the accumulator and the pointers of a new device, driven through a
      whole run, return to every caller what the unbounded log says, and are then
      what that log says. */
  method RunDriver(dev: CharDevice.Device, es: seq<Event>) returns (outs: seq<Out>)
    requires dev.Valid() && dev.Abs() == EMPTY
    modifies dev, dev.ring, dev.ring.entry, dev.mem
    ensures dev.Valid() && dev.Abs() == After(es).dev
    ensures outs == Outs(es)
  {
    hide Step, CharDevice.Represents, Flatten, Retained;
    var pos: map<Handle, nat> := map[];
    outs := [];
    for i := 0 to |es|
      invariant dev.Valid()
      invariant Sys(dev.Abs(), pos) == After(es[..i])
      invariant outs == Outs(es[..i])
    {
      assert es[..i + 1][..i] == es[..i] && es[..i + 1][i] == es[i];
      var out;
      pos, out := Call(dev, pos, es[i]);
      outs := outs + [out];
    }
    assert es[..|es|] == es;
  }

  /** From set-up to teardown: at the end the ring holds the last ten packets of
      that log and the accumulator what is pending, and then no block is left. */
  method WholeLife(dev: CharDevice.Device, es: seq<Event>)
    returns (outs: seq<Out>, packets: seq<Packet>, pending: seq<Byte>)
    requires dev.Valid() && dev.Abs() == EMPTY
    modifies dev, dev.ring, dev.ring.entry, dev.mem
    ensures outs == Outs(es)
    ensures packets == Retained(After(es).dev.log) && pending == After(es).dev.pending
    ensures dev.mem.live == map[] && dev.temp == CharDevice.NO_TEMP
    ensures forall i :: 0 <= i < dev.ring.entry.Length ==> dev.ring.entry[i].buffptr == CircularBuffer.NULL
  {
    hide Step, CharDevice.Represents, Flatten, Retained;
    outs := RunDriver(dev, es);
    packets, pending := dev.Snapshot();
    dev.Cleanup();
  }

  method Call(dev: CharDevice.Device, pos: map<Handle, nat>, e: Event) returns (pos': map<Handle, nat>, out: Out)
    requires dev.Valid()
    modifies dev, dev.ring, dev.ring.entry, dev.mem
    ensures dev.Valid()
    ensures (Sys(dev.Abs(), pos'), out) == Step(Sys(old(dev.Abs()), pos), e)
  {
    hide WriteTo, ReadFrom, SeekTo, Flatten, Retained;
    ghost var s := Sys(dev.Abs(), pos);
    if dev.locked && !e.OtherIoctl? && !(e.Seek? && !e.copyOk) {
      return pos, Blocked;
    }
    match e
    case Write(h, data, env) =>
      var at := if h in pos then pos[h] else 0;
      var ret, at' := dev.Write(data, env, at);
      return pos[h := at'], Returned(ret, []);
    case Read(h, count, copyOk) =>
      var at := if h in pos then pos[h] else 0;
      var ret, data, at' := dev.Read(at, count, copyOk);
      return pos[h := at'], Returned(ret, data);
    case Seek(h, cmd, off, copyOk) =>
      var at := if h in pos then pos[h] else 0;
      var ret, at' := dev.UnlockedIoctl(true, cmd, off, copyOk, at);
      return pos[h := at'], Returned(ret, []);
    case OtherIoctl(h) =>
      var ret, _ := dev.UnlockedIoctl(false, 0, 0, true, 0);
      return pos, Returned(ret, []);
    case AskSize =>
      var total := dev.LlseekSize();
      return pos, Returned(Done(total), []);
  }

  // ----- The log over a run -----

  ghost predicate NothingFails(es: seq<Event>) {
    forall i :: 0 <= i < |es| && es[i].Write? ==> es[i].env == ALL_OK
  }

  /** The chunks that writes handed over; a blocked write hands over nothing. */
  function Chunks(es: seq<Event>): seq<seq<Byte>> {
    if es == [] then []
    else
      var before, e := es[..|es| - 1], es[|es| - 1];
      if e.Write? && !Blocks(After(before), e) then Chunks(before) + [e.data] else Chunks(before)
  }

  /** What one event that does not fail does to the log and the pending bytes. */
  lemma EventOnLog(s: Sys, e: Event)
    requires e.Write? ==> e.env == ALL_OK
    ensures var dev := Step(s, e).0.dev;
            if e.Write? && !Blocks(s, e) then
              var all := s.dev.pending + e.data;
              if NEWLINE in all then dev.log == s.dev.log + [all] && dev.pending == []
              else dev.log == s.dev.log && dev.pending == all
            else dev.log == s.dev.log && dev.pending == s.dev.pending
  {
  }

  /** After any run in which nothing fails, the log is the history of writes cut
      behind every chunk with a newline, and what is pending is the rest. */
  lemma {:induction false} RunCutsTheHistory(es: seq<Event>)
    requires NothingFails(es)
    ensures After(es).dev.log == Cut(Chunks(es))
    ensures After(es).dev.pending == Tail(Chunks(es))
  {
    hide Cut, Tail, Flatten, Step;
    if es == [] {
      NoCut([]);
      FlattenOne([]);
    } else {
      var before, e := es[..|es| - 1], es[|es| - 1];
      RunCutsTheHistory(before);
      EventOnLog(After(before), e);
      CutConserves(Chunks(before));
      if e.Write? {
        CutSnoc(Chunks(before), e.data);
      }
    }
  }

  function WriteEvents(chunks: seq<seq<Byte>>): seq<Event> {
    seq(|chunks|, i requires 0 <= i < |chunks| => Write(0, chunks[i], ALL_OK))
  }

  /** Writing chunks to a new device is a run of it. */
  lemma {:induction false} WritesAreARun(chunks: seq<seq<Byte>>)
    ensures After(WriteEvents(chunks)).dev == WriteAll(EMPTY, chunks)
    ensures !After(WriteEvents(chunks)).dev.wedged
    decreases |chunks|
  {
    if chunks == [] {
    } else {
      hide WriteTo;
      var before, es := chunks[..|chunks| - 1], WriteEvents(chunks);
      WritesAreARun(before);
      assert es[..|es| - 1] == WriteEvents(before);
      WriteConserves(WriteAll(EMPTY, before), chunks[|chunks| - 1], ALL_OK);
    }
  }

  /** No step shortens the log, or brings back what was evicted. */
  lemma StepKeepsLog(s: Sys, e: Event)
    ensures s.dev.log <= Step(s, e).0.dev.log
    ensures Evicted(s.dev.log) <= Evicted(Step(s, e).0.dev.log)
    ensures Flatten(s.dev.log) <= Flatten(Step(s, e).0.dev.log)
  {
    hide Flatten, Evicted, Retained;
    if e.Write? {
      LogGrows(s.dev.log, s.dev.pending + e.data);
    }
  }

  // ----- One reader among any number of writers -----

  /** Event `e` moves file `h` by a seek; a seek that fails does not. */
  predicate SeeksTo(s: Sys, e: Event, h: Handle) {
    e.Seek? && e.h == h && e.copyOk && !s.dev.wedged && Accepts(s.dev, e.cmd, e.off)
  }

  /** From event `k` on, no seek moves file `h`. */
  ghost predicate NoSeek(es: seq<Event>, k: nat, h: Handle) {
    forall i :: k <= i < |es| ==> !SeeksTo(After(es[..i]), es[i], h)
  }

  /** Bytes that reached the reader: where they are in the whole log, and how
      many bytes had been evicted and had been written by this same file then. */
  datatype Delivery = Delivery(lo: nat, data: seq<Byte>, evicted: nat, own: nat) {
    function Hi(): nat { lo + |data| }
  }

  /** The bytes that event `e` hands to file `h`, and those it takes from it. */
  function Handed(s: Sys, e: Event, h: Handle): seq<Byte> {
    var out := Step(s, e).1;
    if e.Read? && e.h == h && out.Returned? then out.data else []
  }

  function Taken(s: Sys, e: Event, h: Handle): nat {
    var out := Step(s, e).1;
    if e.Write? && e.h == h && out.Returned? && out.ret.Done? then |e.data| else 0
  }

  /** A read hands over the log at the evicted bytes plus the position. */
  lemma ReadIsFromLog(m: Model, pos: nat, count: nat, copyOk: bool)
    ensures var (ret, d, pos') := ReadFrom(m, pos, count, copyOk);
            && pos' == pos + |d|
            && (d != [] ==> Evicted(m.log) + pos' <= |Flatten(m.log)|
                            && d == Flatten(m.log)[Evicted(m.log) + pos..Evicted(m.log) + pos'])
  {
    hide Flatten, RestOfPacket, Evicted, Retained;
    var (_, d, pos') := ReadFrom(m, pos, count, copyOk);
    RetainedBytes(m.log);
    if d == [] {
    } else {
      assert d == Flatten(Retained(m.log))[pos..pos'];
      SliceOfRest(Flatten(m.log), Evicted(m.log), pos, pos');
    }
  }

  /** What is handed over is the log at the evicted bytes plus the position, and
      the position moves by what was handed over or taken. */
  lemma StepMovesReader(s: Sys, e: Event, h: Handle)
    requires !SeeksTo(s, e, h)
    ensures Step(s, e).0.Pos(h) == s.Pos(h) + |Handed(s, e, h)| + Taken(s, e, h)
    ensures Handed(s, e, h) != [] ==> Step(s, e).0.dev == s.dev && Taken(s, e, h) == 0
    ensures var lo, d := Evicted(s.dev.log) + s.Pos(h), Handed(s, e, h);
            d != [] ==> lo + |d| <= |Flatten(s.dev.log)| && d == Flatten(s.dev.log)[lo..lo + |d|]
  {
    hide ReadFrom, WriteTo, Evicted, Flatten, Retained, Accepts;
    if e.Read? {
      ReadIsFromLog(s.dev, s.Pos(e.h), e.count, e.copyOk);
    }
  }

  /** What file `h` wrote from event `k` on. */
  function OwnBytes(es: seq<Event>, k: nat, h: Handle): nat
    requires k <= |es|
    decreases |es|
  {
    if |es| == k then 0
    else
      var before, e := es[..|es| - 1], es[|es| - 1];
      OwnBytes(before, k, h) + Taken(After(before), e, h)
  }

  /** What was handed to file `h` from event `k` on. */
  function Deliveries(es: seq<Event>, k: nat, h: Handle): seq<Delivery>
    requires k <= |es|
    decreases |es|
  {
    if |es| == k then []
    else
      var before, e := es[..|es| - 1], es[|es| - 1];
      var s := After(before);
      var data := Handed(s, e, h);
      if data == [] then Deliveries(before, k, h)
      else Deliveries(before, k, h) + [Delivery(Cursor(before, h), data, Evicted(s.dev.log), OwnBytes(before, k, h))]
  }

  /** Where the reader stands in the whole log. */
  function Cursor(es: seq<Event>, h: Handle): nat {
    Evicted(After(es).dev.log) + After(es).Pos(h)
  }

  /** Where the reader's file stood before event `k`. */
  function StartPos(es: seq<Event>, k: nat, h: Handle): nat
    requires k <= |es|
  {
    After(es[..k]).Pos(h)
  }

  /** What the reader passed over without reading since its last delivery. */
  ghost predicate CursorExplained(es: seq<Event>, k: nat, h: Handle)
    requires k <= |es|
  {
    var ds := Deliveries(es, k, h);
    var evicted, own := Evicted(After(es).dev.log), OwnBytes(es, k, h);
    if ds == [] then Cursor(es, h) == evicted + StartPos(es, k, h) + own
    else
      var d := ds[|ds| - 1];
      && d.evicted <= evicted && d.own <= own
      && Cursor(es, h) == d.Hi() + (evicted - d.evicted) + (own - d.own)
  }

  lemma NoEvents(es: seq<Event>, h: Handle)
    ensures OwnBytes(es, |es|, h) == 0 && Deliveries(es, |es|, h) == []
    ensures StartPos(es, |es|, h) == After(es).Pos(h)
  {
    assert es[..|es|] == es;
  }

  /** A run is its beginning and one more event. */
  lemma LastEvent(es: seq<Event>, k: nat, h: Handle) returns (before: seq<Event>, e: Event, s: Sys)
    requires k < |es|
    ensures before == es[..|es| - 1] && e == es[|es| - 1] && s == After(before)
    ensures After(es) == Step(s, e).0 && StartPos(before, k, h) == StartPos(es, k, h)
    ensures OwnBytes(es, k, h) == OwnBytes(before, k, h) + Taken(s, e, h)
    ensures Deliveries(es, k, h) == Deliveries(before, k, h) +
      if Handed(s, e, h) == [] then []
      else [Delivery(Cursor(before, h), Handed(s, e, h), Evicted(s.dev.log), OwnBytes(before, k, h))]
    ensures NoSeek(es, k, h) ==> NoSeek(before, k, h) && !SeeksTo(s, e, h)
  {
    hide Step, SeeksTo, Handed, Taken, Evicted;
    before, e, s := es[..|es| - 1], es[|es| - 1], After(es[..|es| - 1]);
    assert before[..k] == es[..k];
    if NoSeek(es, k, h) {
      forall i | k <= i < |before| ensures !SeeksTo(After(before[..i]), before[i], h) {
        assert before[..i] == es[..i] && before[i] == es[i];
      }
    }
  }

  lemma {:induction false} CursorIsExplained(es: seq<Event>, k: nat, h: Handle)
    requires k <= |es| && NoSeek(es, k, h)
    ensures CursorExplained(es, k, h)
    decreases |es|
  {
    hide Step, Handed, Taken, Evicted, After, OwnBytes, Deliveries, NoSeek, SeeksTo, StartPos;
    if |es| == k {
      NoEvents(es, h);
    } else {
      var before, e, s := LastEvent(es, k, h);
      CursorIsExplained(before, k, h);
      StepKeepsLog(s, e);
      StepMovesReader(s, e, h);
    }
  }

  /** Each delivery is the bytes at its place. */
  ghost predicate AreBytesOf(ds: seq<Delivery>, bytes: seq<Byte>) {
    forall i :: 0 <= i < |ds| ==> ds[i].Hi() <= |bytes| && ds[i].data == bytes[ds[i].lo..ds[i].Hi()]
  }

  lemma BytesStay(ds: seq<Delivery>, bytes: seq<Byte>, bytes': seq<Byte>)
    requires AreBytesOf(ds, bytes) && bytes <= bytes'
    ensures AreBytesOf(ds, bytes')
  {
    forall i | 0 <= i < |ds| ensures ds[i].data == bytes'[ds[i].lo..ds[i].Hi()] {
      assert bytes[ds[i].lo..ds[i].Hi()] == bytes'[ds[i].lo..ds[i].Hi()];
    }
  }

  /** The gap between one delivery and the next is exactly what was evicted, or
      written through the same file, in between. */
  ghost predicate GapExplained(d: Delivery, next: Delivery) {
    && d.evicted <= next.evicted
    && d.own <= next.own
    && next.lo == d.Hi() + (next.evicted - d.evicted) + (next.own - d.own)
  }

  ghost predicate GapsExplained(ds: seq<Delivery>) {
    forall i, j :: 0 <= i < j < |ds| && j == i + 1 ==> GapExplained(ds[i], ds[j])
  }

  lemma OneMoreDelivery(ds: seq<Delivery>, d: Delivery, bytes: seq<Byte>)
    ensures AreBytesOf(ds, bytes) && AreBytesOf([d], bytes) ==> AreBytesOf(ds + [d], bytes)
    ensures GapsExplained(ds) && (ds != [] ==> GapExplained(ds[|ds| - 1], d)) ==> GapsExplained(ds + [d])
  {
    assert [d][0] == d;
  }

  lemma {:induction false} GapsAreExplained(es: seq<Event>, k: nat, h: Handle)
    requires k <= |es| && NoSeek(es, k, h)
    ensures GapsExplained(Deliveries(es, k, h))
    decreases |es|
  {
    hide Step, Handed, Taken, Evicted, After, OwnBytes, Deliveries, NoSeek, SeeksTo, StartPos;
    if |es| == k {
      NoEvents(es, h);
    } else {
      var before, e, s := LastEvent(es, k, h);
      GapsAreExplained(before, k, h);
      CursorIsExplained(before, k, h);
    }
  }

  lemma {:induction false} DeliveriesAreLogBytes(es: seq<Event>, k: nat, h: Handle)
    requires k <= |es| && NoSeek(es, k, h)
    ensures AreBytesOf(Deliveries(es, k, h), Flatten(After(es).dev.log))
    decreases |es|
  {
    hide Step, Handed, Taken, Evicted, Flatten, After, OwnBytes, Deliveries, NoSeek, SeeksTo, StartPos;
    if |es| == k {
      NoEvents(es, h);
    } else {
      var before, e, s := LastEvent(es, k, h);
      DeliveriesAreLogBytes(before, k, h);
      StepKeepsLog(s, e);
      StepMovesReader(s, e, h);
      BytesStay(Deliveries(before, k, h), Flatten(s.dev.log), Flatten(After(es).dev.log));
    }
  }

  /** Before its first delivery the reader missed what was evicted, or skipped by
      its own writes, until then. */
  lemma {:induction false} FirstGapIsExplained(es: seq<Event>, k: nat, h: Handle)
    requires k <= |es| && NoSeek(es, k, h) && Deliveries(es, k, h) != []
    ensures var d := Deliveries(es, k, h)[0]; d.lo == d.evicted + StartPos(es, k, h) + d.own
    decreases |es|
  {
    hide Step, Handed, Taken, Evicted, After, OwnBytes, Deliveries, NoSeek, SeeksTo, StartPos;
    if |es| == k {
      NoEvents(es, h);
    } else {
      var before, e, s := LastEvent(es, k, h);
      CursorIsExplained(before, k, h);
      if Deliveries(before, k, h) != [] {
        FirstGapIsExplained(before, k, h);
      }
    }
  }

  /** The reader's view of a run from event `k` on, while no seek moves it: what it
      gets is the log, in order and without repetition, and it misses nothing but
      what is in front of where it stood, what was evicted and what was skipped by
      its own writes. */
  lemma {:induction false} ReaderSeesTheLog(es: seq<Event>, k: nat, h: Handle)
    requires k <= |es| && NoSeek(es, k, h)
    ensures var ds := Deliveries(es, k, h);
            && AreBytesOf(ds, Flatten(After(es).dev.log))
            && GapsExplained(ds)
            && (ds != [] ==> ds[0].lo == ds[0].evicted + StartPos(es, k, h) + ds[0].own)
            && forall i, j :: 0 <= i < j < |ds| ==> ds[i].Hi() <= ds[j].lo
  {
    hide After, OwnBytes, Deliveries, Flatten, NoSeek, StartPos;
    DeliveriesAreLogBytes(es, k, h);
    GapsAreExplained(es, k, h);
    if Deliveries(es, k, h) != [] {
      FirstGapIsExplained(es, k, h);
    }
    var ds := Deliveries(es, k, h);
    forall i, j | 0 <= i < j < |ds| ensures ds[i].Hi() <= ds[j].lo {
      DeliveriesAreDisjoint(ds, i, j);
    }
  }

  /** So the places in the log only go up, and no byte is delivered twice. */
  lemma {:induction false} DeliveriesAreDisjoint(ds: seq<Delivery>, i: nat, j: nat)
    requires GapsExplained(ds) && i < j < |ds|
    ensures ds[i].Hi() <= ds[j].lo
    decreases j
  {
    if j == i + 1 {
    } else {
      DeliveriesAreDisjoint(ds, i, j - 1);
    }
  }

  // ----- Seeking -----

  /** A read behind an accepted seek hands over the bytes from the one that was
      named, up to the end of that packet. */
  lemma SeekThenRead(s: Sys, h: Handle, cmd: U32, off: U32, count: nat)
    requires !s.dev.wedged && Accepts(s.dev, cmd, off)
    ensures var w := Retained(s.dev.log);
            var n := Min(count, |w[cmd]| - off);
            Step(Step(s, Seek(h, cmd, off, true)).0, Read(h, count, true)).1 == Returned(Done(n), w[cmd][off..off + n])
  {
    hide Flatten, Served, Retained, Sizes, Sum;
    var w := Retained(s.dev.log);
    var pos := |Flatten(w[..cmd])| + off;
    SeekThenFind(s.dev, cmd, off, 0, cmd, off);
    ServedAt(w, cmd, off, pos, count);
    assert Step(s, Seek(h, cmd, off, true)).0 == Sys(s.dev, s.pos[h := pos]);
  }

  /** A file whose last seek was event `k - 1` reads from the byte that was named:
      its first delivery starts there, further on only by what was evicted, or
      written through the file, in between. */
  lemma {:induction false} SeekerSeesTheLog(es: seq<Event>, k: nat, h: Handle)
    requires 0 < k <= |es| && NoSeek(es, k, h) && SeeksTo(After(es[..k - 1]), es[k - 1], h)
    ensures var e, log, ds := es[k - 1], After(es[..k - 1]).dev.log, Deliveries(es, k, h);
            && AreBytesOf(ds, Flatten(After(es).dev.log)) && GapsExplained(ds)
            && (ds != [] ==> ds[0].lo == ds[0].evicted + |Flatten(Retained(log)[..e.cmd])| + e.off + ds[0].own)
            && (ds != [] && ds[0].evicted == Evicted(log) && ds[0].own == 0 ==>
                  ds[0].lo < |Flatten(log)| && Flatten(log)[ds[0].lo] == Retained(log)[e.cmd][e.off])
  {
    hide After, OwnBytes, Deliveries, Flatten, NoSeek, StartPos, Retained, Evicted;
    SeekSetsPos(es, k, h);
    SoughtPlace(After(es[..k - 1]).dev, es[k - 1].cmd, es[k - 1].off);
    ReaderSeesTheLog(es, k, h);
  }

  lemma SeekSetsPos(es: seq<Event>, k: nat, h: Handle)
    requires 0 < k <= |es| && SeeksTo(After(es[..k - 1]), es[k - 1], h)
    ensures StartPos(es, k, h) == |Flatten(Retained(After(es[..k - 1]).dev.log)[..es[k - 1].cmd])| + es[k - 1].off
  {
    assert es[..k][..k - 1] == es[..k - 1] && es[..k][k - 1] == es[k - 1];
    hide Flatten, Retained;
  }

  /** The byte that a seek names lies behind the evicted bytes at its position. */
  lemma SoughtPlace(m: Model, cmd: nat, off: nat)
    requires Accepts(m, cmd, off)
    ensures var w := Retained(m.log);
            var place := Evicted(m.log) + |Flatten(w[..cmd])| + off;
            place < |Flatten(m.log)| && Flatten(m.log)[place] == w[cmd][off]
  {
    hide Flatten, Evicted, Retained, Sizes, Sum;
    var w := Retained(m.log);
    var pos := |Flatten(w[..cmd])| + off;
    SeekThenFind(m, cmd, off, 0, cmd, off);
    PlaceHoldsBytes(w, cmd, off, pos);
    RetainedBytes(m.log);
    assert Flatten(w)[pos] == w[cmd][off..][0];
    assert Flatten(m.log)[Evicted(m.log)..][pos] == Flatten(m.log)[Evicted(m.log) + pos];
  }

  // ----- What the callers of a run get -----

  lemma {:induction false} OutAt(es: seq<Event>, i: nat)
    requires i < |es|
    ensures Outs(es)[i] == Step(After(es[..i]), es[i]).1 && After(es[..i + 1]) == Step(After(es[..i]), es[i]).0
    decreases |es|
  {
    hide Step;
    assert es[..i + 1][..i] == es[..i] && es[..i + 1][i] == es[i];
    var before := es[..|es| - 1];
    if i < |before| {
      OutAt(before, i);
      assert before[..i] == es[..i];
    }
  }

  /** In a run in which nothing fails and the device works to the end, every write
      returns its length and moves its file by that. */
  lemma {:induction false} WritesReturnTheirLength(es: seq<Event>, i: nat)
    requires NothingFails(es) && !After(es).dev.wedged && i < |es| && es[i].Write?
    ensures Outs(es)[i] == Returned(Done(|es[i].data|), [])
    ensures After(es[..i + 1]).Pos(es[i].h) == After(es[..i]).Pos(es[i].h) + |es[i].data|
  {
    hide WriteTo, After, Outs;
    OutAt(es, i);
    WedgedForEver(es, i, |es|);
    assert es[..|es|] == es;
    WriteReturns(After(es[..i]).dev, es[i].data, es[i].env);
  }

  lemma StepWedges(s: Sys, e: Event)
    ensures s.dev.wedged ==> Step(s, e).0.dev == s.dev
    ensures Step(s, e).0.dev.wedged <==> s.dev.wedged || (e.Seek? && e.copyOk && !Accepts(s.dev, e.cmd, e.off))
  {
    hide Flatten, Retained;
    if e.Write? {
      WriteConserves(s.dev, e.data, e.env);
    }
  }

  /** Once the device mutex is left locked, the device stays as it is. */
  lemma {:induction false} WedgedForEver(es: seq<Event>, i: nat, j: nat)
    requires i <= j <= |es|
    ensures After(es[..i]).dev.wedged ==> After(es[..j]).dev == After(es[..i]).dev
    decreases j
  {
    hide Step, After, Outs;
    if i == j {
    } else {
      WedgedForEver(es, i, j - 1);
      OutAt(es, j - 1);
      StepWedges(After(es[..j - 1]), es[j - 1]);
    }
  }

  /** Event `i` is a seek that names no readable byte. */
  ghost predicate Refuses(es: seq<Event>, i: nat)
    requires i < |es|
  {
    es[i].Seek? && es[i].copyOk && !Accepts(After(es[..i]).dev, es[i].cmd, es[i].off)
  }

  /** The device mutex is left locked exactly in the runs in which a seek named no
      readable byte. */
  lemma {:induction false} WedgedIffRefused(es: seq<Event>)
    ensures After(es).dev.wedged <==> exists i :: 0 <= i < |es| && Refuses(es, i)
    decreases |es|
  {
    hide Step, After, Outs, Accepts;
    if es == [] {
      NothingHappened();
    } else {
      var before, n := es[..|es| - 1], |es| - 1;
      WedgedIffRefused(before);
      OutAt(es, n);
      assert es[..n + 1] == es;
      StepWedges(After(before), es[n]);
      assert forall i {:trigger before[..i]} :: 0 <= i < n ==> before[..i] == es[..i] && before[i] == es[i];
      assert forall i :: 0 <= i < n ==> Refuses(before, i) == Refuses(es, i);
      if After(es).dev.wedged && !After(before).dev.wedged {
        assert Refuses(es, n);
      }
    }
  }

  lemma NothingHappened()
    ensures After([]) == START
  {
  }

  /** After that, a call returns only if it fails before it asks for the mutex, and
      nothing changes any more. */
  lemma {:induction false} AfterRefusal(es: seq<Event>, i: nat, j: nat)
    requires i < j < |es| && Refuses(es, i)
    ensures After(es).dev == After(es[..i + 1]).dev
    ensures Outs(es)[j] ==
      if es[j].OtherIoctl? then Returned(Fail(ENOTTY), [])
      else if es[j].Seek? && !es[j].copyOk then Returned(Fail(EFAULT), [])
      else Blocked
  {
    hide After, Outs, Accepts;
    OutAt(es, i);
    StepWedges(After(es[..i]), es[i]);
    WedgedForEver(es, i + 1, |es|);
    WedgedForEver(es, i + 1, j);
    assert es[..|es|] == es;
    OutAt(es, j);
  }

  /** The size that the device tells is the number of bytes that reads from the
      beginning deliver. */
  lemma SizeIsWhatReadsDeliver(s: Sys, counts: seq<nat>)
    requires !s.dev.wedged && (forall i :: 0 <= i < |counts| ==> 0 < counts[i])
    requires |counts| >= |Flatten(Retained(s.dev.log))|
    ensures Step(s, AskSize) == (s, Returned(Done(|ReadMany(s.dev, 0, counts).0|), []))
  {
    hide ReadMany, Flatten, Retained;
    ReadsDeliverInOrder(s.dev, 0, counts);
  }
}
