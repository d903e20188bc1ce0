/** Why the seek argument must be copied without a fault: a fault makes the
    server unlock its mutex twice while the device goes on working, and then a
    reply can mix two states of the device, or start at another byte than the one
    that was sought. */
module TornReply {
  import opened Bytes
  import opened PacketLog
  import opened CircularBuffer
  import opened Receiver
  import opened WriteHistory
  import opened ServerProtocol
  import DeviceRuns

  lemma {:induction false} ShortPackets(ps: seq<Packet>)
    requires forall i :: 0 <= i < |ps| ==> |ps[i]| <= 2
    ensures |Flatten(ps)| <= 2 * |ps|
  {
    if ps == [] {
    } else {
      ShortPackets(ps[1..]);
    }
  }

  function Long(): (p: Packet)
    ensures |p| == 31 && p[0] == 88
  {
    seq(30, _ => 88) + [NEWLINE]
  }

  /** A full ring: one long packet and nine short ones. */
  function FullLog(): (log: seq<Packet>)
    ensures |log| == 10 && log[0] == Long() && forall i :: 0 < i < 10 ==> log[i] == [NEWLINE]
  {
    [Long()] + seq(9, _ => [NEWLINE])
  }

  function NextLog(): seq<Packet> {
    FullLog() + [[66, NEWLINE]]
  }

  /** The readable bytes start with the long packet, and after the next commit
      they are fewer than its length and start with a newline. */
  lemma TwoRings()
    ensures Retained(FullLog()) == FullLog()
    ensures Flatten(FullLog())[..31] == Long() && |Flatten(FullLog())| > 31
    ensures RestOfPacket(FullLog(), 0) == 31
    ensures 0 < |Flatten(Retained(NextLog()))| <= 20 && Flatten(Retained(NextLog()))[0] == NEWLINE
  {
    var w, w' := FullLog(), Retained(NextLog());
    assert Flatten(w) == w[0] + Flatten(w[1..]) && Flatten(w[1..]) == w[1] + Flatten(w[1..][1..]);
    assert w' == w[1..] + [[66, NEWLINE]];
    ShortPackets(w');
    assert Flatten(w') == w'[0] + Flatten(w'[1..]);
  }

  /** The first read of a reply sends the long packet; a read where that one
      ended finds nothing once the next packet is in. */
  lemma TwoReads(d: Model)
    ensures d.log == FullLog() ==> ReadFrom(d, 0, 100, true) == (Ret.Done(31), Long(), 31)
    ensures d.log == NextLog() ==> ReadFrom(d, 31, 100, true) == (Ret.Done(0), [], 31)
  {
    TwoRings();
    hide FullLog, NextLog, Long, Flatten, RestOfPacket, Retained;
    if d.log == FullLog() {
      assert Served(Retained(d.log), 0, 100) == Flatten(FullLog())[..31];
    }
  }

  /** A device to which the ten packets were written. */
  function Device(): Model {
    WriteAll(EMPTY, FullLog())
  }

  lemma DeviceIsReachable()
    ensures Device() == DeviceRuns.After(DeviceRuns.WriteEvents(FullLog())).dev
    ensures Device().log == FullLog() && Device().pending == [] && !Device().wedged
  {
    assert NEWLINE in Long() by { assert Long()[30] == NEWLINE; }
    PacketsWritten(FullLog());
    DeviceRuns.WritesAreARun(FullLog());
  }

  lemma StoreByte(m: Model)
    requires m.pending == []
    ensures var d := WriteTo(m, [66], ALL_OK).0;
            d.log == m.log && d.pending == [66] && d.wedged == m.wedged
  {
    assert [] + [66] == [66];
  }

  lemma CommitByte(m: Model)
    requires m.log == FullLog() && m.pending == [66]
    ensures var d := WriteTo(m, [NEWLINE], ALL_OK).0;
            d.log == NextLog() && |d.log| == 11 && d.wedged == m.wedged
  {
    assert [66] + [NEWLINE] == [66, NEWLINE];
  }

  lemma NeitherRing()
    ensures Flatten(Retained(FullLog())) != Long() && Flatten(Retained(NextLog())) != Long()
  {
    TwoRings();
  }

  const SEEKER: Tid := 1
  const READER: Tid := 2
  const WRITER: Tid := 3

  datatype Run = Run(states: seq<Server>, steps: seq<Step>)

  /** A run on that device that ends in `s`, with one of two logs throughout. */
  ghost predicate RunTo(r: Run, s: Server) {
    && IsRun(r.states, r.steps) && r.states[|r.steps|] == s && r.states[0].shared.dev == Device()
    && forall j :: 0 <= j < |r.states| ==> EitherLog(r.states[j])
  }

  ghost predicate EitherLog(s: Server) {
    s.shared.dev.log == FullLog() || s.shared.dev.log == NextLog()
  }

  lemma Go(r: Run, s: Server, t: Tid, act: Act, sh: Shared, pc: Pc) returns (r': Run, s': Server)
    requires RunTo(r, s) && (sh.dev.log == FullLog() || sh.dev.log == NextLog())
    requires Does(s.shared, t, s.At(t), act) == Some((sh, pc))
    ensures s' == Server(sh, s.threads[t := pc]) && RunTo(r', s')
  {
    hide Does, Device, FullLog, NextLog;
    s' := Server(sh, s.threads[t := pc]);
    r' := Run(r.states + [s'], r.steps + [Step(t, act)]);
  }

  lemma NothingYet(s: Server)
    requires s.threads == map[] && s.shared == Shared(Device(), None)
    requires s.shared.dev.log == FullLog() && !s.shared.dev.wedged
    ensures RunTo(Run([s], []), s)
  {
    hide Device, FullLog, NextLog;
  }

  /** The seek faults and gives the mutex back, once so far. */
  lemma SeekFaults(m: Model) returns (r: Run, s: Server)
    requires m == Device() && m.log == FullLog() && !m.wedged
    ensures RunTo(r, s) && s.shared == Shared(m, None)
    ensures s.At(SEEKER) == RefusedOnce && s.At(READER) == s.At(WRITER) == Fresh
  {
    hide RunTo, Device, FullLog, NextLog, Long, Flatten, WriteTo, ReadFrom, SeekTo;
    var held := Shared(m, Some(SEEKER));
    s := Server(Shared(m, None), map[]);
    r := Run([s], []);
    NothingYet(s);
    r, s := Go(r, s, SEEKER, LockToReceive, held, Receiving);
    r, s := Go(r, s, SEEKER, FinishReceiving(SEEK_PREFIX), held, Got(SEEK_PREFIX));
    r, s := Go(r, s, SEEKER, FaultInSeek, held, Refused);
    r, s := Go(r, s, SEEKER, FirstUnlock, Shared(m, None), RefusedOnce);
  }

  /** Another thread stores a byte without a newline. */
  lemma ReaderStores(r: Run, s: Server, m: Model) returns (r': Run, s': Server, d: Model)
    requires RunTo(r, s) && s.shared == Shared(m, None)
    requires m.log == FullLog() && m.pending == [] && !m.wedged
    requires s.At(SEEKER) == RefusedOnce && s.At(READER) == s.At(WRITER) == Fresh
    ensures RunTo(r', s') && s'.shared == Shared(d, None)
    ensures d.log == m.log && d.pending == [66] && !d.wedged
    ensures s'.At(SEEKER) == RefusedOnce && s'.At(WRITER) == Fresh && s'.At(READER) == Between(Uncommitted)
  {
    hide RunTo, Device, FullLog, NextLog, Long, Flatten, WriteTo, ReadFrom, SeekTo;
    StoreByte(m);
    d := WriteTo(m, [66], ALL_OK).0;
    var held := Shared(m, Some(READER));
    r', s' := Go(r, s, READER, LockToReceive, held, Receiving);
    r', s' := Go(r', s', READER, FinishReceiving([66]), held, Got([66]));
    r', s' := Go(r', s', READER, WriteMessage(ALL_OK), Shared(d, Some(READER)), Wrote(Uncommitted));
    r', s' := Go(r', s', READER, UnlockAfterWrite, Shared(d, None), Between(Uncommitted));
  }

  /** It takes the mutex to reply, and sends the oldest packet. */
  lemma ReplyBegins(r: Run, s: Server, d: Model) returns (r': Run, s': Server)
    requires RunTo(r, s) && s.shared == Shared(d, None)
    requires d.log == FullLog() && !d.wedged
    requires s.At(SEEKER) == RefusedOnce && s.At(WRITER) == Fresh && s.At(READER) == Between(Uncommitted)
    ensures RunTo(r', s') && s'.shared.dev == d
    ensures s'.At(SEEKER) == RefusedOnce && s'.At(WRITER) == Fresh
    ensures s'.At(READER) == Replying(Uncommitted, 10, 0, 31, Long())
  {
    hide RunTo, Device, FullLog, NextLog, Long, Flatten, WriteTo, ReadFrom, SeekTo;
    TwoReads(d);
    assert [] + Long() == Long();
    r', s' := Go(r, s, READER, LockToReply(true), Shared(d, Some(READER)), Replying(Uncommitted, 10, 0, 0, []));
    r', s' := Go(r', s', READER, SendSome(100, true), Shared(d, Some(READER)), Replying(Uncommitted, 10, 0, 31, Long()));
  }

  /** The second unlock takes the mutex from the reply, and a third thread
      commits a packet. */
  lemma WriterCommits(r: Run, s: Server, m: Model) returns (r': Run, s': Server, d: Model)
    requires RunTo(r, s) && s.shared.dev == m
    requires m.log == FullLog() && m.pending == [66] && !m.wedged
    requires s.At(SEEKER) == RefusedOnce && s.At(WRITER) == Fresh
    requires s.At(READER) == Replying(Uncommitted, 10, 0, 31, Long())
    ensures RunTo(r', s') && s'.shared.dev == d && d.log == NextLog() && !d.wedged
    ensures s'.At(READER) == s.At(READER)
  {
    hide RunTo, Device, FullLog, NextLog, Long, Flatten, WriteTo, ReadFrom, SeekTo;
    CommitByte(m);
    d := WriteTo(m, [NEWLINE], ALL_OK).0;
    r', s' := Go(r, s, SEEKER, SecondUnlock, Shared(m, None), Gone);
    var held := Shared(m, Some(WRITER));
    r', s' := Go(r', s', WRITER, LockToReceive, held, Receiving);
    r', s' := Go(r', s', WRITER, FinishReceiving([NEWLINE]), held, Got([NEWLINE]));
    r', s' := Go(r', s', WRITER, WriteMessage(ALL_OK), Shared(d, Some(WRITER)), Wrote(Committed([NEWLINE], 10)));
  }

  /** The reply ends at a position that means something else now. */
  lemma ReplyEnds(r: Run, s: Server, d: Model) returns (r': Run, s': Server)
    requires RunTo(r, s) && s.shared.dev == d && d.log == NextLog() && !d.wedged
    requires s.At(READER) == Replying(Uncommitted, 10, 0, 31, Long())
    ensures RunTo(r', s') && s'.At(READER) == Closed(Uncommitted, 10, 0, Long(), true)
  {
    hide RunTo, Device, FullLog, NextLog, Long, Flatten, WriteTo, ReadFrom, SeekTo;
    TwoReads(d);
    r', s' := Go(r, s, READER, SendSome(100, true), s.shared, Replied(Uncommitted, 10, 0, Long(), true));
    r', s' := Go(r', s', READER, UnlockAfterReply, Shared(d, None), Closed(Uncommitted, 10, 0, Long(), true));
  }

  lemma FaultyRun() returns (r: Run, s: Server)
    ensures RunTo(r, s) && s.At(READER) == Closed(Uncommitted, 10, 0, Long(), true)
  {
    DeviceIsReachable();
    hide RunTo, Device, FullLog, NextLog, Long, Flatten, Device;
    var m := Device();
    r, s := SeekFaults(m);
    r, s, m := ReaderStores(r, s, m);
    r, s := ReplyBegins(r, s, m);
    r, s, m := WriterCommits(r, s, m);
    r, s := ReplyEnds(r, s, m);
  }

  /** With a fault in a seek, a run on a device that the driver does reach exists
      in which a reply is not what the device held in any state of the run. */
  lemma FaultTearsReply() returns (states: seq<Server>, steps: seq<Step>, t: Tid, es: seq<DeviceRuns.Event>)
    ensures IsRun(states, steps) && states[0].shared.dev == DeviceRuns.After(es).dev
    ensures states[|steps|].At(t).Closed? && states[|steps|].At(t).whole
    ensures !states[|steps|].At(t).receipt.Sought?
    ensures forall j :: 0 <= j < |states| ==>
              states[|steps|].At(t).sent != Flatten(Retained(states[j].shared.dev.log))
  {
    hide FullLog, NextLog, Long, Flatten, Retained, Next, Device;
    NeitherRing();
    DeviceIsReachable();
    var r, s := FaultyRun();
    states, steps, t, es := r.states, r.steps, READER, DeviceRuns.WriteEvents(FullLog());
    forall j | 0 <= j < |states| ensures Long() != Flatten(Retained(states[j].shared.dev.log)) {
      assert EitherLog(states[j]);
    }
  }

  // ----- A seek whose byte moves away -----

  /** Byte 9 is inside the long packet; after the next commit it is the first byte
      of the new one. */
  lemma NinthByte()
    ensures Flatten(Retained(NextLog())[..9]) == Flatten(FullLog()[1..]) && |Flatten(FullLog()[1..])| == 9
    ensures Flatten(Retained(NextLog())) == Flatten(FullLog()[1..]) + [66, NEWLINE]
  {
    var short := FullLog()[1..];
    NewlinesOnly(short);
    assert Retained(NextLog()) == short + [[66, NEWLINE]];
    FlattenConcat(short, [[66, NEWLINE]]);
    FlattenOne([66, NEWLINE]);
    assert Retained(NextLog())[..9] == short;
  }

  lemma {:induction false} NewlinesOnly(ps: seq<Packet>)
    requires forall i :: 0 <= i < |ps| ==> ps[i] == [NEWLINE]
    ensures |Flatten(ps)| == |ps|
  {
    if ps == [] {
    } else {
      NewlinesOnly(ps[1..]);
    }
  }

  lemma LongIsFirst()
    ensures Retained(FullLog()) == FullLog() && |FullLog()[0]| == 31 && Flatten(FullLog()[..0]) == []
  {
  }

  lemma SeekIsAccepted(d: Model)
    requires d.log == FullLog()
    ensures SeekTo(d, 0, 9, true, 0) == (d, Ret.Done(0), 9)
  {
    hide FullLog, Flatten, Retained, Long;
    LongIsFirst();
  }

  lemma NewPacketIsLast()
    ensures |Retained(NextLog())| == 10 && Retained(NextLog())[9] == [66, NEWLINE]
    ensures IsAt(Sizes(Retained(NextLog())), 9, 0, 9) && |Flatten(Retained(NextLog()))| == 11
  {
    NinthByte();
    var w := Retained(NextLog());
    FlattenLength(w[..9]);
    assert Sizes(w)[..9] == Sizes(w[..9]);
  }

  lemma ReadNewPacket(d: Model)
    requires d.log == NextLog()
    ensures ReadFrom(d, 9, 100, true) == (Ret.Done(2), [66, NEWLINE], 11)
    ensures ReadFrom(d, 11, 100, true) == (Ret.Done(0), [], 11)
  {
    hide FullLog, NextLog, Flatten, RestOfPacket, Retained, Sizes, Served, IsAt;
    NewPacketIsLast();
    var p := [66, NEWLINE];
    ServedAt(Retained(NextLog()), 9, 0, 9, 100);
    assert p[0..2] == p;
  }

  lemma CommitTwo(m: Model)
    requires m.log == FullLog() && m.pending == []
    ensures var d := WriteTo(m, [66, NEWLINE], ALL_OK).0;
            d.log == NextLog() && |d.log| == 11 && d.wedged == m.wedged
  {
    assert [] + [66, NEWLINE] == [66, NEWLINE] && [66, NEWLINE][1] == NEWLINE;
  }

  /** The seek of another thread is accepted while one unlock is still to come. */
  lemma SeekAccepted(r: Run, s: Server, m: Model) returns (r': Run, s': Server)
    requires RunTo(r, s) && s.shared == Shared(m, None) && m.log == FullLog() && !m.wedged
    requires s.At(SEEKER) == RefusedOnce && s.At(READER) == s.At(WRITER) == Fresh
    ensures RunTo(r', s') && s'.shared.dev == m
    ensures s'.At(SEEKER) == RefusedOnce && s'.At(WRITER) == Fresh
    ensures s'.At(READER) == Replying(Sought(0, 9), 10, 9, 9, [])
  {
    hide RunTo, Device, FullLog, NextLog, Long, Flatten, WriteTo, ReadFrom, SeekTo;
    SeekIsAccepted(m);
    var held := Shared(m, Some(READER));
    r', s' := Go(r, s, READER, LockToReceive, held, Receiving);
    r', s' := Go(r', s', READER, FinishReceiving(SEEK_PREFIX), held, Got(SEEK_PREFIX));
    r', s' := Go(r', s', READER, SeekAndReply(0, 9), held, Replying(Sought(0, 9), 10, 9, 9, []));
  }

  /** The second unlock steals the mutex, and a third thread commits. */
  lemma ByteMovesAway(r: Run, s: Server, m: Model) returns (r': Run, s': Server, d: Model)
    requires RunTo(r, s) && s.shared.dev == m
    requires m.log == FullLog() && m.pending == [] && !m.wedged
    requires s.At(SEEKER) == RefusedOnce && s.At(WRITER) == Fresh
    requires s.At(READER) == Replying(Sought(0, 9), 10, 9, 9, [])
    ensures RunTo(r', s') && s'.shared.dev == d && d.log == NextLog() && !d.wedged
    ensures s'.At(READER) == s.At(READER)
  {
    hide RunTo, Device, FullLog, NextLog, Long, Flatten, WriteTo, ReadFrom, SeekTo;
    CommitTwo(m);
    d := WriteTo(m, [66, NEWLINE], ALL_OK).0;
    r', s' := Go(r, s, SEEKER, SecondUnlock, Shared(m, None), Gone);
    var held := Shared(m, Some(WRITER));
    r', s' := Go(r', s', WRITER, LockToReceive, held, Receiving);
    r', s' := Go(r', s', WRITER, FinishReceiving([66, NEWLINE]), held, Got([66, NEWLINE]));
    r', s' := Go(r', s', WRITER, WriteMessage(ALL_OK), Shared(d, Some(WRITER)), Wrote(Committed([66, NEWLINE], 10)));
  }

  /** Only now the seeking thread reads, and what it gets was not there before. */
  lemma ShiftedReplyEnds(r: Run, s: Server, d: Model) returns (r': Run, s': Server)
    requires RunTo(r, s) && s.shared.dev == d && d.log == NextLog() && !d.wedged
    requires s.At(READER) == Replying(Sought(0, 9), 10, 9, 9, [])
    ensures RunTo(r', s') && s'.At(READER) == Closed(Sought(0, 9), 10, 9, [66, NEWLINE], true)
  {
    hide RunTo, Device, FullLog, NextLog, Long, Flatten, WriteTo, ReadFrom, SeekTo;
    ReadNewPacket(d);
    var two := [66, NEWLINE];
    assert [] + two == two;
    r', s' := Go(r, s, READER, SendSome(100, true), s.shared, Replying(Sought(0, 9), 10, 9, 11, two));
    r', s' := Go(r', s', READER, SendSome(100, true), s'.shared, Replied(Sought(0, 9), 10, 9, two, true));
    r', s' := Go(r', s', READER, UnlockAfterReply, Shared(d, None), Closed(Sought(0, 9), 10, 9, two, true));
  }

  /** Neither ring answers the seek with these two bytes: one holds more behind
      byte 9, and the other does not accept the seek. */
  lemma NoRingAnswers()
    ensures !Answers(Sought(0, 9), Retained(FullLog()), 9, [66, NEWLINE], true)
    ensures !Answers(Sought(0, 9), Retained(NextLog()), 9, [66, NEWLINE], true)
  {
    TwoRings();
    assert Retained(NextLog())[0] == [NEWLINE];
    hide Flatten;
  }

  lemma ShiftedRun() returns (r: Run, s: Server)
    ensures RunTo(r, s) && s.At(READER) == Closed(Sought(0, 9), 10, 9, [66, NEWLINE], true)
  {
    hide RunTo, Device, FullLog, NextLog, Long, Flatten;
    DeviceIsReachable();
    var m := Device();
    r, s := SeekFaults(m);
    r, s := SeekAccepted(r, s, m);
    r, s, m := ByteMovesAway(r, s, m);
    r, s := ShiftedReplyEnds(r, s, m);
  }

  /** With a fault in another seek, an accepted seek can be answered, in full, with
      bytes that no state of the run held behind the byte sought. */
  lemma FaultShiftsSeek() returns (states: seq<Server>, steps: seq<Step>, t: Tid, es: seq<DeviceRuns.Event>)
    ensures IsRun(states, steps) && states[0].shared.dev == DeviceRuns.After(es).dev
    ensures var pc := states[|steps|].At(t);
            && pc.Closed? && pc.whole && pc.receipt.Sought? && pc.sent != []
            && forall j :: 0 <= j < |states| ==>
                 !Answers(pc.receipt, Retained(states[j].shared.dev.log), pc.start, pc.sent, pc.whole)
  {
    hide FullLog, NextLog, Long, Flatten, Retained, Next, Device, Answers, Does;
    NoRingAnswers();
    DeviceIsReachable();
    var r, s := ShiftedRun();
    states, steps, t, es := r.states, r.steps, READER, DeviceRuns.WriteEvents(FullLog());
    forall j | 0 <= j < |states|
      ensures !Answers(Sought(0, 9), Retained(states[j].shared.dev.log), 9, [66, NEWLINE], true)
    {
      assert EitherLog(states[j]);
    }
  }
}
