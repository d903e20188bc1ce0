/** Where in the log the bytes of a reply come from, in every run, thefts of the
    mutex included, and exactly when they are all that is readable of it at the end. */
module ReplyPlaces {
  import opened Bytes
  import opened PacketLog
  import opened CircularBuffer
  import opened ServerProtocol
  import opened ServerRuns
  import DeviceRuns

  type Delivery = DeviceRuns.Delivery

  /** What step `e` sends for thread `t`. */
  function Piece(s: Server, e: Step, t: Tid): (d: seq<Byte>)
    ensures d != [] ==> s.At(t).Replying?
  {
    var pc := s.At(t);
    if e.t == t && e.act.SendSome? && pc.Replying? then ReadFrom(s.shared.dev, pc.pos, e.act.count, e.act.copyOk).1
    else []
  }

  function Extended(ds: seq<Delivery>, s: Server, e: Step, t: Tid): seq<Delivery> {
    var d := Piece(s, e, t);
    if d == [] then ds
    else ds + [DeviceRuns.Delivery(Evicted(Log(s)) + s.At(t).pos, d, Evicted(Log(s)), 0)]
  }

  /** Everything sent for `t` in the first `n` steps, with its place in the log. */
  function Sent(states: seq<Server>, steps: seq<Step>, t: Tid, n: nat): seq<Delivery>
    requires |states| == |steps| + 1 && n <= |steps|
  {
    if n == 0 then [] else Extended(Sent(states, steps, t, n - 1), states[n - 1], steps[n - 1], t)
  }

  function Data(ds: seq<Delivery>): seq<Byte> {
    if ds == [] then [] else Data(ds[..|ds| - 1]) + ds[|ds| - 1].data
  }

  lemma DataSnoc(ds: seq<Delivery>, d: Delivery)
    ensures Data(ds + [d]) == Data(ds) + d.data && Data([]) == []
  {
    assert (ds + [d])[..|ds|] == ds;
  }

  ghost predicate Tracked(pc: Pc, log: seq<Packet>, ds: seq<Delivery>) {
    && DeviceRuns.AreBytesOf(ds, Flatten(log)) && DeviceRuns.GapsExplained(ds)
    && (forall i :: 0 <= i < |ds| ==> ds[i].own == 0 && ds[i].evicted <= Evicted(log))
    && (!HasSeen(pc) ==> ds == [])
    && (HasSeen(pc) ==> Data(ds) == pc.sent)
    && (HasSeen(pc) && ds != [] ==> ds[0].lo == ds[0].evicted + pc.start)
    && (pc.Replying? ==> pc.pos == pc.start + |pc.sent|)
    && (pc.Replying? && ds != [] ==> ds[|ds| - 1].Hi() == ds[|ds| - 1].evicted + pc.pos)
  }

  lemma TrackedAsLogGrows(pc: Pc, log: seq<Packet>, p: Packet, ds: seq<Delivery>)
    requires Tracked(pc, log, ds)
    ensures Tracked(pc, log + [p], ds)
  {
    LogGrows(log, p);
    hide Flatten, Evicted, Data;
    DeviceRuns.BytesStay(ds, Flatten(log), Flatten(log + [p]));
  }

  lemma PieceFits(pc: Pc, log: seq<Packet>, ds: seq<Delivery>, piece: Delivery)
    requires pc.Replying? && Tracked(pc, log, ds)
    requires piece.own == 0 && piece.evicted == Evicted(log) && piece.lo == Evicted(log) + pc.pos
    requires piece.Hi() <= |Flatten(log)| && piece.data == Flatten(log)[piece.lo..piece.Hi()]
    ensures DeviceRuns.AreBytesOf([piece], Flatten(log))
    ensures ds != [] ==> DeviceRuns.GapExplained(ds[|ds| - 1], piece)
  {
    hide Flatten, Evicted, Data, DeviceRuns.GapsExplained;
  }

  /** One piece more keeps track of the places. */
  lemma TrackedPiece(pc: Pc, log: seq<Packet>, ds: seq<Delivery>, d: seq<Byte>)
    requires pc.Replying? && Tracked(pc, log, ds) && d != []
    requires var lo := Evicted(log) + pc.pos;
             lo + |d| <= |Flatten(log)| && d == Flatten(log)[lo..lo + |d|]
    ensures Tracked(Replying(pc.receipt, pc.seen, pc.start, pc.pos + |d|, pc.sent + d), log,
                    ds + [DeviceRuns.Delivery(Evicted(log) + pc.pos, d, Evicted(log), 0)])
  {
    hide Flatten, Evicted, Data, DeviceRuns.AreBytesOf, DeviceRuns.GapsExplained, DeviceRuns.GapExplained;
    var piece := DeviceRuns.Delivery(Evicted(log) + pc.pos, d, Evicted(log), 0);
    DataSnoc(ds, piece);
    PieceFits(pc, log, ds, piece);
    DeviceRuns.OneMoreDelivery(ds, piece, Flatten(log));
    var ds' := ds + [piece];
    assert forall i :: 0 <= i < |ds| ==> ds'[i] == ds[i];
    assert ds'[|ds|] == piece;
  }

  lemma TrackedSend(s: Server, e: Step, t: Tid, ds: seq<Delivery>)
    requires s.At(t).Replying? && Tracked(s.At(t), Log(s), ds)
    requires Piece(s, e, t) != [] && Next(s, e).Some?
    ensures Tracked(Next(s, e).value.At(t), Log(s), Extended(ds, s, e, t)) && Log(Next(s, e).value) == Log(s)
  {
    hide Flatten, Evicted, ReadFrom, Tracked, WriteTo, SeekTo;
    var pc, d := s.At(t), Piece(s, e, t);
    DeviceRuns.ReadIsFromLog(s.shared.dev, pc.pos, e.act.count, e.act.copyOk);
    TrackedPiece(pc, Log(s), ds, d);
    assert Next(s, e).value.At(t) == Replying(pc.receipt, pc.seen, pc.start, pc.pos + |d|, pc.sent + d);
  }

  predicate SameReply(pc: Pc, pc': Pc)
    requires HasSeen(pc) && HasSeen(pc')
  {
    pc'.receipt == pc.receipt && pc'.seen == pc.seen && pc'.start == pc.start && pc'.sent == pc.sent
  }

  /** A step that sends nothing for `t`: it leaves the thread where it is, begins
      the reply, or moves on past it; a reply read to the end is at the end. */
  ghost predicate Quiet(pc: Pc, pc': Pc, log: seq<Packet>) {
    || pc' == pc
    || (!HasSeen(pc) && !HasSeen(pc'))
    || (!HasSeen(pc) && pc'.Replying? && pc'.sent == [] && pc'.pos == pc'.start)
    || (pc.Replying? && pc'.Replied? && SameReply(pc, pc') && (pc'.whole ==> |Flatten(Retained(log))| <= pc.pos))
    || (pc.Replied? && pc'.Closed? && SameReply(pc, pc') && pc'.whole == pc.whole)
  }

  lemma QuietStep(s: Server, e: Step, t: Tid)
    requires Next(s, e).Some? && Piece(s, e, t) == []
    ensures Quiet(s.At(t), Next(s, e).value.At(t), Log(s))
  {
    hide Flatten, Retained, WriteTo, SeekTo, Evicted;
    if e.t == t && s.At(t).Replying? {
      ReadEndsAtEnd(s.shared.dev, s.At(t).pos, e.act.count);
    }
  }

  lemma TrackedQuiet(pc: Pc, pc': Pc, log: seq<Packet>, ds: seq<Delivery>)
    requires Tracked(pc, log, ds) && Quiet(pc, pc', log)
    ensures Tracked(pc', log, ds)
  {
    hide Flatten, Evicted, Retained, DeviceRuns.AreBytesOf, DeviceRuns.GapsExplained;
  }

  lemma TrackedStep(s: Server, e: Step, t: Tid, ds: seq<Delivery>)
    requires Tracked(s.At(t), Log(s), ds) && Next(s, e).Some?
    ensures Tracked(Next(s, e).value.At(t), Log(Next(s, e).value), Extended(ds, s, e, t))
  {
    hide Tracked, Does, Quiet;
    var s' := Next(s, e).value;
    if Piece(s, e, t) != [] {
      TrackedSend(s, e, t, ds);
    } else {
      QuietStep(s, e, t);
      TrackedQuiet(s.At(t), s'.At(t), Log(s), ds);
      StepAppends(s.shared, e.t, s.At(e.t), e.act);
      if Log(s') != Log(s) {
        TrackedAsLogGrows(s'.At(t), Log(s), Log(s')[|Log(s')| - 1], ds);
      }
    }
  }

  lemma {:induction false} TrackedInRun(states: seq<Server>, steps: seq<Step>, t: Tid, n: nat)
    requires IsRun(states, steps) && n <= |steps|
    ensures Tracked(states[n].At(t), Log(states[n]), Sent(states, steps, t, n))
  {
    hide Next, Flatten, Evicted, Extended;
    if n == 0 {
    } else {
      TrackedInRun(states, steps, t, n - 1);
      StepOf(states, steps, n - 1);
      TrackedStep(states[n - 1], steps[n - 1], t, Sent(states, steps, t, n - 1));
    }
  }

  // ----- Replies that ended -----

  lemma SentUnrolls(states: seq<Server>, steps: seq<Step>, t: Tid, n: nat)
    requires |states| == |steps| + 1 && 0 < n <= |steps|
    ensures Sent(states, steps, t, n) == Extended(Sent(states, steps, t, n - 1), states[n - 1], steps[n - 1], t)
  {
  }

  /** A step that ends a reply, or comes later, sends nothing. */
  lemma NothingAfterReply(s: Server, e: Step, t: Tid)
    requires Next(s, e).Some? && !Next(s, e).value.At(t).Replying?
    ensures Piece(s, e, t) == []
  {
    hide Flatten, Retained, WriteTo, SeekTo, ReadFrom;
  }

  lemma OwnStep(s: Server, e: Step, t: Tid)
    requires Next(s, e).Some? && s.At(t).Replying? && !Next(s, e).value.At(t).Replying?
    ensures e.t == t && e.act.SendSome?
  {
    hide Flatten, Retained, WriteTo, SeekTo, ReadFrom;
  }

  /** The step that ended the reply, because nothing was left or a read failed;
      nothing is sent after it. */
  lemma {:induction false} EndOfReply(states: seq<Server>, steps: seq<Step>, t: Tid, n: nat) returns (e: nat)
    requires IsRun(states, steps) && n <= |steps|
    requires states[n].At(t).Replied? || states[n].At(t).Closed?
    ensures e < n && states[e].At(t).Replying? && steps[e].t == t && steps[e].act.SendSome?
    ensures !states[e + 1].At(t).Replying? && SameReply(states[e].At(t), states[n].At(t))
    ensures states[n].At(t).whole ==> |Flatten(Retained(Log(states[e])))| <= states[e].At(t).pos
    ensures Sent(states, steps, t, e) == Sent(states, steps, t, n)
  {
    hide Flatten, Retained, Next, Does, Sent;
    StepOf(states, steps, n - 1);
    SentUnrolls(states, steps, t, n);
    var s, step := states[n - 1], steps[n - 1];
    NothingAfterReply(s, step, t);
    QuietStep(s, step, t);
    if s.At(t).Replying? {
      e := n - 1;
      OwnStep(s, step, t);
    } else {
      e := EndOfReply(states, steps, t, n - 1);
    }
  }

  /** No byte of the log is missing between the pieces. */
  ghost predicate Adjoin(ds: seq<Delivery>) {
    forall i, j :: 0 <= i < j < |ds| && j == i + 1 ==> ds[i].Hi() == ds[j].lo
  }

  /** Where in the log a reply that starts at position `start` ends. */
  function EndPlace(ds: seq<Delivery>, log: seq<Packet>, start: nat): nat {
    if ds == [] then Evicted(log) + start else ds[|ds| - 1].Hi()
  }

  /** The pieces are, without a gap, a first part of what is readable of `log`
      from `start` on. */
  ghost predicate IsFirstPart(ds: seq<Delivery>, log: seq<Packet>, start: nat) {
    && (ds != [] ==> ds[0].lo == Evicted(log) + start)
    && Adjoin(ds)
    && EndPlace(ds, log, start) <= |Flatten(log)|
  }

  /** They are all of it. */
  ghost predicate IsAllFrom(ds: seq<Delivery>, log: seq<Packet>, start: nat) {
    IsFirstPart(ds, log, start) && EndPlace(ds, log, start) == |Flatten(log)|
  }

  /** Nothing was evicted from the first piece to the end. */
  ghost predicate NothingEvicted(ds: seq<Delivery>, log: seq<Packet>) {
    forall i :: 0 <= i < |ds| ==> ds[i].evicted == Evicted(log)
  }

  lemma {:induction false} SameEviction(ds: seq<Delivery>, i: nat)
    requires DeviceRuns.GapsExplained(ds) && i < |ds|
    requires forall k :: 0 <= k < |ds| ==> ds[k].own == 0
    requires Adjoin(ds)
    ensures ds[i].evicted == ds[0].evicted
  {
    if i == 0 {
    } else {
      SameEviction(ds, i - 1);
      assert DeviceRuns.GapExplained(ds[i - 1], ds[i]) && ds[i - 1].Hi() == ds[i].lo;
    }
  }

  lemma {:induction false} AllFromIffNothingEvicted(pc: Pc, log: seq<Packet>, ds: seq<Delivery>)
    requires pc.Replying? && Tracked(pc, log, ds) && ds != []
    requires |Flatten(Retained(log))| <= pc.pos
    ensures IsAllFrom(ds, log, pc.start) <==> NothingEvicted(ds, log)
  {
    RetainedBytes(log);
    hide Flatten, Retained, Evicted, Data;
    if IsAllFrom(ds, log, pc.start) {
      forall i | 0 <= i < |ds| ensures ds[i].evicted == Evicted(log) {
        SameEviction(ds, i);
      }
    }
    if NothingEvicted(ds, log) {
      forall i, j | 0 <= i < j < |ds| && j == i + 1 ensures ds[i].Hi() == ds[j].lo {
        assert DeviceRuns.GapExplained(ds[i], ds[j]);
      }
      assert ds[|ds| - 1].Hi() <= |Flatten(log)|;
    }
  }

  /** Pieces without a gap are one stretch of the log. */
  lemma {:induction false} StretchOfLog(ds: seq<Delivery>, bytes: seq<Byte>)
    requires ds != [] && DeviceRuns.AreBytesOf(ds, bytes)
    requires Adjoin(ds)
    ensures ds[0].lo <= ds[|ds| - 1].Hi() <= |bytes|
    ensures Data(ds) == bytes[ds[0].lo..ds[|ds| - 1].Hi()]
  {
    var before, d := ds[..|ds| - 1], ds[|ds| - 1];
    if before == [] {
      assert Data(before) == [];
    } else {
      StretchOfLog(before, bytes);
      assert ds[|ds| - 2].Hi() == d.lo;
      assert bytes[ds[0].lo..d.lo] + bytes[d.lo..d.Hi()] == bytes[ds[0].lo..d.Hi()];
    }
  }

  /** In every run: a reply that was read to the end consists of log bytes; between
      its pieces exactly the bytes evicted in the meantime are missing; and it is,
      piece by piece in the log, all that was readable when it ended exactly when
      nothing was evicted since its first piece. */
  lemma {:induction false} WholeIffNothingEvicted(states: seq<Server>, steps: seq<Step>, t: Tid) returns (e: nat)
    requires IsRun(states, steps)
    requires states[|steps|].At(t).Closed? && states[|steps|].At(t).whole
    requires Sent(states, steps, t, |steps|) != []
    ensures e < |steps| && states[e].At(t).Replying? && steps[e].t == t
    ensures var pc, ds, log := states[|steps|].At(t), Sent(states, steps, t, |steps|), Log(states[e]);
            && pc.sent == Data(ds)
            && DeviceRuns.AreBytesOf(ds, Flatten(log)) && DeviceRuns.GapsExplained(ds)
            && (forall i :: 0 <= i < |ds| ==> ds[i].own == 0)
            && ds[0].lo == ds[0].evicted + pc.start
            && (IsAllFrom(ds, log, pc.start) <==> NothingEvicted(ds, log))
            && (IsAllFrom(ds, log, pc.start) ==> pc.sent == Flatten(log)[Evicted(log) + pc.start..])
  {
    hide Next, Flatten, Retained, Evicted, Sent;
    e := EndOfReply(states, steps, t, |steps|);
    TrackedInRun(states, steps, t, e);
    var pc, ds, log := states[e].At(t), Sent(states, steps, t, |steps|), Log(states[e]);
    AllFromIffNothingEvicted(pc, log, ds);
    if IsAllFrom(ds, log, pc.start) {
      StretchOfLog(ds, Flatten(log));
    }
  }
}
