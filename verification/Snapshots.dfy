/** Exactly when a reply is what the device held when that reply began, in every
    run, thefts of the mutex included. */
module Snapshots {
  import opened Bytes
  import opened PacketLog
  import opened CircularBuffer
  import opened ServerProtocol
  import opened ServerRuns
  import opened ReplyPlaces
  import DeviceRuns

  // ----- Receipts in every run -----

  /** What a thread knows about its own message stays right, whatever happens to
      its reply. */
  ghost predicate KnowsItsMessage(pc: Pc, log: seq<Packet>) {
    && (pc.Wrote? || pc.Between? ==> ReceiptGood(pc.receipt, log, |log|) && !pc.receipt.Sought?)
    && (HasSeen(pc) ==> pc.seen <= |log| && ReceiptGood(pc.receipt, log, pc.seen))
  }

  lemma OwnStepKnows(s: Shared, t: Tid, pc: Pc, a: Act)
    requires KnowsItsMessage(pc, s.dev.log) && Does(s, t, pc, a).Some?
    ensures var (s', pc') := Does(s, t, pc, a).value; KnowsItsMessage(pc', s'.dev.log)
  {
    hide Flatten, Retained, Served;
    if pc.Got? && a.WriteMessage? {
      WriteIsGood(s, t, pc.msg, a.env);
    }
  }

  lemma {:induction false} KnowsItsMessageInRun(states: seq<Server>, steps: seq<Step>, t: Tid, n: nat)
    requires IsRun(states, steps) && n < |states|
    ensures KnowsItsMessage(states[n].At(t), Log(states[n]))
  {
    hide Does;
    if n == 0 {
    } else {
      KnowsItsMessageInRun(states, steps, t, n - 1);
      StepOf(states, steps, n - 1);
      var s, e := states[n - 1], steps[n - 1];
      if e.t == t {
        OwnStepKnows(s.shared, t, s.At(t), e.act);
      } else {
        StepAppends(s.shared, e.t, s.At(e.t), e.act);
      }
    }
  }

  // ----- A reply from its first step on -----

  /** The reply of `t` began in step `b` and is under way in state `n`. */
  ghost predicate UnderWay(states: seq<Server>, steps: seq<Step>, t: Tid, b: nat, n: nat)
    requires |states| == |steps| + 1 && b < n <= |steps|
  {
    var pc, log := states[n].At(t), Log(states[b]);
    && BeginsReply(steps[b], t) && !HasSeen(states[b].At(t))
    && states[b + 1].At(t).Replying? && states[b + 1].At(t).pos == states[b + 1].At(t).start
    && pc.Replying? && pc.seen == |log| && StartsAt(pc.receipt, Retained(log), pc.start)
    && forall i :: b < i <= n ==> IsReplyOf(states[i].At(t), pc)
  }

  predicate IsReplyOf(pc: Pc, last: Pc)
    requires last.Replying?
  {
    pc.Replying? && pc.receipt == last.receipt && pc.seen == last.seen && pc.start == last.start
  }

  lemma BeginStep(s: Server, e: Step, t: Tid)
    requires KnowsItsMessage(s.At(t), Log(s))
    requires Next(s, e).Some? && Next(s, e).value.At(t).Replying? && !s.At(t).Replying?
    ensures BeginsReply(e, t) && !HasSeen(s.At(t))
    ensures var pc := Next(s, e).value.At(t);
            pc.pos == pc.start && pc.seen == |Log(s)| && StartsAt(pc.receipt, Retained(Log(s)), pc.start)
  {
    hide Flatten, Retained, WriteTo, ReadFrom, ReceiptGood;
    if e.t == t && e.act.SeekAndReply? && Accepts(s.shared.dev, e.act.cmd, e.act.off) {
      SeekIsGood(s.shared.dev, e.act.cmd, e.act.off);
    }
  }

  lemma NextStep(s: Server, e: Step, t: Tid)
    requires Next(s, e).Some? && Next(s, e).value.At(t).Replying? && s.At(t).Replying?
    ensures IsReplyOf(s.At(t), Next(s, e).value.At(t))
  {
    hide Flatten, Retained, WriteTo, ReadFrom, SeekTo;
  }

  lemma {:induction false} BeganIn(states: seq<Server>, steps: seq<Step>, t: Tid, n: nat) returns (b: nat)
    requires IsRun(states, steps) && n <= |steps| && states[n].At(t).Replying?
    ensures b < n && UnderWay(states, steps, t, b, n)
  {
    hide Next, Does, BeginsReply, StartsAt, KnowsItsMessage;
    StepOf(states, steps, n - 1);
    if states[n - 1].At(t).Replying? {
      b := BeganIn(states, steps, t, n - 1);
      NextStep(states[n - 1], steps[n - 1], t);
    } else {
      b := n - 1;
      KnowsItsMessageInRun(states, steps, t, b);
      BeginStep(states[b], steps[b], t);
    }
  }

  // ----- Reads in place -----

  /** A read of `t` in `s` does what it would have done on `log`: among the readable
      bytes of `log` none is evicted yet, and behind them it finds the end. */
  ghost predicate InPlace(s: Server, t: Tid, log: seq<Packet>)
    requires s.At(t).Replying?
  {
    var pos := s.At(t).pos;
    if pos < |Flatten(Retained(log))| then Evicted(Log(s)) == Evicted(log)
    else |Flatten(Retained(Log(s)))| <= pos
  }

  predicate Reads(s: Server, e: Step, t: Tid) {
    e.t == t && e.act.SendSome? && s.At(t).Replying?
  }

  /** All reads of the reply of `t` behind step `b` and before step `n` are in place. */
  ghost predicate ReadsInPlace(states: seq<Server>, steps: seq<Step>, t: Tid, b: nat, n: nat)
    requires |states| == |steps| + 1 && b < n <= |steps|
  {
    forall i :: b < i < n && Reads(states[i], steps[i], t) ==> InPlace(states[i], t, Log(states[b]))
  }

  lemma {:induction false} RestOfPacketInFront(ps: seq<Packet>, more: seq<Packet>, pos: nat)
    requires pos < |Flatten(ps)| <= |Flatten(ps + more)|
    ensures RestOfPacket(ps + more, pos) == RestOfPacket(ps, pos)
  {
    assert (ps + more)[0] == ps[0] && (ps + more)[1..] == ps[1..] + more;
    if pos < |ps[0]| {
    } else {
      RestOfPacketInFront(ps[1..], more, pos - |ps[0]|);
    }
  }

  /** As long as nothing is evicted, what becomes readable is behind what was. */
  lemma ReadableBehind(log: seq<Packet>, log': seq<Packet>) returns (front: seq<Packet>, more: seq<Packet>)
    requires log <= log' && Evicted(log) == Evicted(log') && 0 < |Flatten(Retained(log))|
    ensures Retained(log') == front + more && Flatten(front) == Flatten(Retained(log))
  {
    hide Flatten;
    var k := |log'| - |Retained(log')|;
    RetainedBytes(log);
    var c := Min(k, |log|);
    FlattenSplit(log'[..k], c);
    assert log'[..k][..c] == log[..c] && log[..|log|] == log;
    FlattenSplit(log, k);
    assert log'[..k] == log[..k];
    front, more := log[k..], log'[|log|..];
  }

  lemma ReadStaysInFront(log: seq<Packet>, m: Model, pos: nat, count: nat, copyOk: bool)
    requires log <= m.log && Evicted(log) == Evicted(m.log) && pos < |Flatten(Retained(log))|
    ensures pos + |ReadFrom(m, pos, count, copyOk).1| <= |Flatten(Retained(log))|
  {
    var front, more := ReadableBehind(log, m.log);
    FlattenConcat(front, more);
    RestOfPacketInFront(front, more, pos);
  }

  // ----- The pieces of a reply -----

  lemma {:induction false} SentGrows(states: seq<Server>, steps: seq<Step>, t: Tid, i: nat, n: nat)
    requires |states| == |steps| + 1 && i <= n <= |steps|
    ensures Sent(states, steps, t, i) <= Sent(states, steps, t, n)
  {
    hide Piece;
    if i == n {
    } else {
      SentGrows(states, steps, t, i, n - 1);
    }
  }

  /** While the reply goes on, every read sends something. */
  lemma ReadSends(s: Server, e: Step, t: Tid)
    requires Next(s, e).Some? && Reads(s, e, t) && Next(s, e).value.At(t).Replying?
    ensures Piece(s, e, t) != [] && s.At(t).pos < |Flatten(Retained(Log(s)))|
    ensures Next(s, e).value.At(t).pos == s.At(t).pos + |Piece(s, e, t)|
  {
    hide Flatten, Retained;
  }

  lemma OnlyReadsSend(s: Server, e: Step, t: Tid)
    requires Next(s, e).Some? && s.At(t).Replying? && !Reads(s, e, t)
    ensures Piece(s, e, t) == [] && Next(s, e).value.At(t) == s.At(t)
  {
    hide Flatten, Retained, WriteTo, ReadFrom, SeekTo;
  }

  ghost predicate AllBefore(ds: seq<Delivery>, evicted: nat) {
    forall k :: 0 <= k < |ds| ==> ds[k].evicted == evicted
  }

  /** A read in place keeps to the bytes that were readable in `log`. */
  lemma ReadInPlace(s: Server, e: Step, t: Tid, log: seq<Packet>, ds: seq<Delivery>)
    requires Next(s, e).Some? && Next(s, e).value.At(t).Replying? && Reads(s, e, t)
    requires log <= Log(s) && InPlace(s, t, log) && AllBefore(ds, Evicted(log))
    ensures Next(s, e).value.At(t).pos <= |Flatten(Retained(log))|
    ensures AllBefore(Extended(ds, s, e, t), Evicted(log))
  {
    hide Flatten, Retained, Evicted, Next, ReadFrom;
    ReadSends(s, e, t);
    ReadStaysInFront(log, s.shared.dev, s.At(t).pos, e.act.count, e.act.copyOk);
  }

  lemma {:induction false} PiecesInPlace(states: seq<Server>, steps: seq<Step>, t: Tid, b: nat, n: nat)
    requires IsRun(states, steps) && b < n <= |steps|
    requires UnderWay(states, steps, t, b, n) && ReadsInPlace(states, steps, t, b, n)
    ensures states[n].At(t).pos <= |Flatten(Retained(Log(states[b])))|
    ensures AllBefore(Sent(states, steps, t, n), Evicted(Log(states[b])))
  {
    hide Next, Flatten, Retained, Evicted, InPlace, Extended, Piece, BeginsReply, Tracked;
    var log := Log(states[b]);
    StepOf(states, steps, n - 1);
    SentUnrolls(states, steps, t, n);
    var s, e := states[n - 1], steps[n - 1];
    if n == b + 1 {
      NothingSentYet(states, steps, t, b);
    } else {
      PiecesInPlace(states, steps, t, b, n - 1);
      LogsGrow(states, steps, b, n - 1);
      if Reads(s, e, t) {
        ReadInPlace(s, e, t, log, Sent(states, steps, t, n - 1));
      } else {
        OnlyReadsSend(s, e, t);
        SilentStep(s, e, t, Sent(states, steps, t, n - 1));
      }
    }
  }

  lemma SilentStep(s: Server, e: Step, t: Tid, ds: seq<Delivery>)
    requires Piece(s, e, t) == []
    ensures Extended(ds, s, e, t) == ds
  {
  }

  /** Nothing is sent before the reply begins, nor by the step that begins it. */
  lemma NothingSentYet(states: seq<Server>, steps: seq<Step>, t: Tid, b: nat)
    requires IsRun(states, steps) && b < |steps|
    requires BeginsReply(steps[b], t) && !HasSeen(states[b].At(t))
    ensures Sent(states, steps, t, b + 1) == []
  {
    hide Next, Flatten, Retained, Evicted, Sent;
    TrackedInRun(states, steps, t, b);
    SentUnrolls(states, steps, t, b + 1);
  }

  /** Pieces between which nothing was evicted are a first part of what was
      readable. */
  lemma PiecesAreFirstPart(pc: Pc, now: seq<Packet>, ds: seq<Delivery>, log: seq<Packet>)
    requires pc.Replying? && Tracked(pc, now, ds) && AllBefore(ds, Evicted(log))
    requires pc.pos <= |Flatten(Retained(log))|
    ensures IsFirstPart(ds, log, pc.start) && EndPlace(ds, log, pc.start) == Evicted(log) + pc.pos
  {
    RetainedBytes(log);
    DataOfNothing();
    hide Flatten, Retained, Evicted, Data, DeviceRuns.AreBytesOf;
    forall i, j | 0 <= i < j < |ds| && j == i + 1 ensures ds[i].Hi() == ds[j].lo {
      assert DeviceRuns.GapExplained(ds[i], ds[j]);
    }
  }

  lemma DataOfNothing()
    ensures Data([]) == []
  {
  }

  /** The other way round, with where the reply stands. */
  lemma FirstPartIsBefore(pc: Pc, now: seq<Packet>, ds: seq<Delivery>, log: seq<Packet>)
    requires pc.Replying? && Tracked(pc, now, ds) && IsFirstPart(ds, log, pc.start)
    ensures AllBefore(ds, Evicted(log)) && EndPlace(ds, log, pc.start) == Evicted(log) + pc.pos
    ensures pc.pos <= |Flatten(Retained(log))|
  {
    RetainedBytes(log);
    DataOfNothing();
    hide Flatten, Retained, Evicted, Data, DeviceRuns.AreBytesOf;
    forall i | 0 <= i < |ds| ensures ds[i].evicted == Evicted(log) {
      SameEviction(ds, i);
    }
  }

  /** The piece that an earlier read of the reply sent. */
  lemma PieceOf(states: seq<Server>, steps: seq<Step>, t: Tid, i: nat, n: nat) returns (k: nat)
    requires IsRun(states, steps) && i < n <= |steps|
    requires Reads(states[i], steps[i], t) && states[i + 1].At(t).Replying?
    ensures k == |Sent(states, steps, t, i)| < |Sent(states, steps, t, n)|
    ensures var d, evicted := Sent(states, steps, t, n)[k], Evicted(Log(states[i]));
            && d.lo == evicted + states[i].At(t).pos < d.Hi() == evicted + states[i + 1].At(t).pos
            && d.evicted == evicted
  {
    hide Next, Flatten, Retained, Evicted, Sent, ReadFrom;
    StepOf(states, steps, i);
    ReadSends(states[i], steps[i], t);
    SentUnrolls(states, steps, t, i + 1);
    SentGrows(states, steps, t, i + 1, n);
    k := |Sent(states, steps, t, i)|;
  }

  /** Each read of a first part was in place. */
  lemma EarlierReadInPlace(states: seq<Server>, steps: seq<Step>, t: Tid, b: nat, n: nat, i: nat)
    requires IsRun(states, steps) && b < i < n <= |steps| && UnderWay(states, steps, t, b, n)
    requires IsFirstPart(Sent(states, steps, t, n), Log(states[b]), states[n].At(t).start)
    requires Reads(states[i], steps[i], t)
    ensures InPlace(states[i], t, Log(states[b]))
  {
    hide Next, Flatten, Retained, Evicted, Sent, Tracked, BeginsReply, StartsAt, IsFirstPart;
    var pc, ds, log := states[n].At(t), Sent(states, steps, t, n), Log(states[b]);
    TrackedInRun(states, steps, t, n);
    FirstPartIsBefore(pc, Log(states[n]), ds, log);
    var k := PieceOf(states, steps, t, i, n);
    PlaceBeforeEnd(pc, Log(states[n]), ds, log, k);
  }

  lemma PlaceBeforeEnd(pc: Pc, now: seq<Packet>, ds: seq<Delivery>, log: seq<Packet>, k: nat)
    requires pc.Replying? && Tracked(pc, now, ds) && IsFirstPart(ds, log, pc.start) && k < |ds|
    ensures ds[k].Hi() <= Evicted(log) + |Flatten(Retained(log))|
  {
    RetainedBytes(log);
    hide Flatten, Retained, Evicted, Data, DeviceRuns.AreBytesOf;
    if k < |ds| - 1 {
      DeviceRuns.DeliveriesAreDisjoint(ds, k, |ds| - 1);
    }
  }

  /** While a reply is under way: what it has sent is a first part of what the
      device held when it began exactly when its reads were in place. */
  lemma {:induction false} FirstPartIff(states: seq<Server>, steps: seq<Step>, t: Tid, b: nat, n: nat)
    requires IsRun(states, steps) && b < n <= |steps| && UnderWay(states, steps, t, b, n)
    ensures IsFirstPart(Sent(states, steps, t, n), Log(states[b]), states[n].At(t).start)
            <==> ReadsInPlace(states, steps, t, b, n)
  {
    hide Next, Flatten, Retained, Evicted, Sent, Tracked, UnderWay, InPlace, IsFirstPart;
    ReplyingAt(states, steps, t, b, n);
    if IsFirstPart(Sent(states, steps, t, n), Log(states[b]), states[n].At(t).start) {
      forall i | b < i < n && Reads(states[i], steps[i], t) ensures InPlace(states[i], t, Log(states[b])) {
        EarlierReadInPlace(states, steps, t, b, n, i);
      }
    }
    if ReadsInPlace(states, steps, t, b, n) {
      PiecesInPlace(states, steps, t, b, n);
      TrackedInRun(states, steps, t, n);
      PiecesAreFirstPart(states[n].At(t), Log(states[n]), Sent(states, steps, t, n), Log(states[b]));
    }
  }

  lemma ReplyingAt(states: seq<Server>, steps: seq<Step>, t: Tid, b: nat, n: nat)
    requires |states| == |steps| + 1 && b < n <= |steps| && UnderWay(states, steps, t, b, n)
    ensures states[n].At(t).Replying?
  {
  }

  // ----- Replies that ended -----

  /** The pieces are, place by place, what was readable of `log` from `start` on:
      all of it, or a first part of it when a read failed. */
  ghost predicate IsInPlace(ds: seq<Delivery>, log: seq<Packet>, start: nat, whole: bool) {
    IsFirstPart(ds, log, start) && (whole ==> IsAllFrom(ds, log, start))
  }

  /** The last read of a reply that ends whole is in place exactly when all that
      was readable had been sent. */
  lemma LastReadInPlace(s: Server, t: Tid, ds: seq<Delivery>, log: seq<Packet>)
    requires s.At(t).Replying? && Tracked(s.At(t), Log(s), ds) && log <= Log(s)
    requires |Flatten(Retained(Log(s)))| <= s.At(t).pos && IsFirstPart(ds, log, s.At(t).start)
    ensures InPlace(s, t, log) <==> IsAllFrom(ds, log, s.At(t).start)
  {
    RetainedBytes(log);
    RetainedBytes(Log(s));
    LongerLog(log, Log(s));
    FirstPartIsBefore(s.At(t), Log(s), ds, log);
  }

  lemma LongerLog(log: seq<Packet>, log': seq<Packet>)
    requires log <= log'
    ensures Flatten(log) <= Flatten(log')
  {
    FlattenSplit(log', |log|);
  }

  lemma SliceInFront(all: seq<Byte>, now: seq<Byte>, evicted: nat, start: nat, hi: nat)
    requires all <= now && evicted + start <= hi <= |all|
    ensures now[evicted + start..hi] <= all[evicted..][start..]
    ensures hi == |all| ==> now[evicted + start..hi] == all[evicted..][start..]
  {
    var n := hi - evicted - start;
    assert now[evicted + start..hi] == all[evicted..][start..][..n];
  }

  /** Pieces in place are the bytes that were readable. */
  lemma InPlaceIsAnswer(pc: Pc, now: seq<Packet>, ds: seq<Delivery>, log: seq<Packet>, whole: bool)
    requires pc.Replying? && Tracked(pc, now, ds) && log <= now && StartsAt(pc.receipt, Retained(log), pc.start)
    requires IsInPlace(ds, log, pc.start, whole)
    ensures Answers(pc.receipt, Retained(log), pc.start, pc.sent, whole)
  {
    hide Retained, Evicted, Data, Flatten, DeviceRuns.GapsExplained;
    RetainedBytes(log);
    LongerLog(log, now);
    DataOfNothing();
    if ds == [] {
    } else {
      StretchOfLog(ds, Flatten(now));
      SliceInFront(Flatten(log), Flatten(now), Evicted(log), pc.start, ds[|ds| - 1].Hi());
    }
  }

  /** In every run, for every reply: it is, place by place, what the device held
      when the reply began (from the byte sought on, and a first part of that if a
      read failed) exactly when every read came before any eviction, or behind the
      last byte held then and found the end there. The read that fails does not
      matter. */
  lemma {:induction false} SnapshotIff(states: seq<Server>, steps: seq<Step>, t: Tid) returns (b: nat, e: nat)
    requires IsRun(states, steps) && states[|steps|].At(t).Closed?
    ensures b < e < |steps| && UnderWay(states, steps, t, b, e) && Reads(states[e], steps[e], t)
    ensures !states[e + 1].At(t).Replying? && SameReply(states[e].At(t), states[|steps|].At(t))
    ensures var pc, ds, log := states[|steps|].At(t), Sent(states, steps, t, |steps|), Log(states[b]);
            && pc.sent == Data(ds)
            && (IsInPlace(ds, log, pc.start, pc.whole)
                <==> ReadsInPlace(states, steps, t, b, if pc.whole then e + 1 else e))
            && (IsInPlace(ds, log, pc.start, pc.whole) ==> IsSnapshot(states, steps, t, b))
  {
    hide Next, Flatten, Retained, Evicted, Sent, InPlace, IsFirstPart, IsAllFrom;
    var pc, ds := states[|steps|].At(t), Sent(states, steps, t, |steps|);
    e := EndOfReply(states, steps, t, |steps|);
    b := BeganIn(states, steps, t, e);
    TrackedInRun(states, steps, t, e);
    LogsGrow(states, steps, b, e);
    FirstPartIff(states, steps, t, b, e);
    var log := Log(states[b]);
    if pc.whole && IsFirstPart(ds, log, pc.start) {
      LastReadInPlace(states[e], t, ds, log);
    }
    if IsInPlace(ds, log, pc.start, pc.whole) {
      InPlaceIsAnswer(states[e].At(t), Log(states[e]), ds, log, pc.whole);
    }
  }

  // ----- The thread's own packet -----

  /** A packet is evicted as a whole, and exactly when ten others follow it. */
  lemma EvictedAfterTen(log: seq<Packet>, i: nat)
    requires i < |log|
    ensures |log| - i > MAX_WRITES ==> |Flatten(log[..i + 1])| <= Evicted(log)
    ensures |log| - i <= MAX_WRITES ==> Evicted(log) <= |Flatten(log[..i])|
  {
    hide Flatten;
    var k := |log| - |Retained(log)|;
    if i < k {
      assert log[..k][..i + 1] == log[..i + 1];
      FlattenSplit(log[..k], i + 1);
    } else {
      assert log[..i][..k] == log[..k];
      FlattenSplit(log[..i], k);
    }
  }

  lemma EvictedGrows(log: seq<Packet>, log': seq<Packet>)
    requires log <= log'
    ensures Evicted(log) <= Evicted(log')
  {
    hide Flatten;
    var k, k' := |log| - |Retained(log)|, |log'| - |Retained(log')|;
    assert log'[..k'][..k] == log[..k];
    FlattenSplit(log'[..k'], k);
  }

  ghost predicate AllBehind(ds: seq<Delivery>, place: nat) {
    forall k :: 0 <= k < |ds| ==> place <= ds[k].lo
  }

  /** What was evicted when the reply began is not sent. */
  lemma {:induction false} PiecesBehind(states: seq<Server>, steps: seq<Step>, t: Tid, b: nat, n: nat)
    requires IsRun(states, steps) && b < n <= |steps|
    requires BeginsReply(steps[b], t) && !HasSeen(states[b].At(t))
    ensures AllBehind(Sent(states, steps, t, n), Evicted(Log(states[b])))
  {
    hide Next, Flatten, Retained, Evicted, Sent, Piece;
    if n == b + 1 {
      NothingSentYet(states, steps, t, b);
    } else {
      PiecesBehind(states, steps, t, b, n - 1);
      SentUnrolls(states, steps, t, n);
      LogsGrow(states, steps, b, n - 1);
      EvictedGrows(Log(states[b]), Log(states[n - 1]));
    }
  }

  /** In every run: a reply contains nothing of the thread's own packet when ten or
      more followed it before the reply began; with fewer, it contains it in one
      piece if it was read to the end with its reads in place. */
  lemma {:induction false} OwnPacketInEveryRun(states: seq<Server>, steps: seq<Step>, t: Tid) returns (b: nat, e: nat)
    requires IsRun(states, steps)
    requires states[|steps|].At(t).Closed? && states[|steps|].At(t).receipt.Committed?
    ensures b < e < |steps| && UnderWay(states, steps, t, b, e) && Reads(states[e], steps[e], t)
    ensures var pc, log := states[|steps|].At(t), Log(states[|steps|]);
            var i := pc.receipt.index;
            && i < pc.seen <= |log| && IsSuffix(pc.receipt.msg, log[i])
            && (pc.seen - i > MAX_WRITES ==>
                  AllBehind(Sent(states, steps, t, |steps|), |Flatten(log[..i + 1])|))
            && (pc.seen - i <= MAX_WRITES && pc.whole && ReadsInPlace(states, steps, t, b, e + 1) ==>
                  Holds(pc.sent, log, pc.seen, i))
  {
    hide Next, Flatten, Retained, Evicted, Sent, InPlace, IsInPlace, Holds, BeginsReply;
    KnowsItsMessageInRun(states, steps, t, |steps|);
    b, e := SnapshotIff(states, steps, t);
    LogsGrow(states, steps, b, |steps|);
    var pc, log := states[|steps|].At(t), Log(states[|steps|]);
    var i := pc.receipt.index;
    assert log[..pc.seen] == Log(states[b]);
    if pc.seen - i > MAX_WRITES {
      EvictedAfterTen(Log(states[b]), i);
      assert Log(states[b])[..i + 1] == log[..i + 1];
      PiecesBehind(states, steps, t, b, |steps|);
    } else {
      RecentPacketIsReadable(log, pc.seen, i);
    }
  }
}
