/** Exactly when a reply sends one given packet as a whole, in every run, thefts
    of the mutex included. */
module PacketDelivery {
  import opened Bytes
  import opened PacketLog
  import opened CircularBuffer
  import opened ServerProtocol
  import opened ServerRuns
  import opened ReplyPlaces
  import opened Snapshots
  import DeviceRuns

  /** Where packet `k` lies in the log. */
  function First(log: seq<Packet>, k: nat): nat
    requires k < |log|
  {
    |Flatten(log[..k])|
  }

  function Behind(log: seq<Packet>, k: nat): nat
    requires k < |log|
  {
    |Flatten(log[..k + 1])|
  }

  /** Where in the log a read of `t` in `s` starts. */
  function Place(s: Server, t: Tid): nat
    requires s.At(t).Replying?
  {
    Evicted(Log(s)) + s.At(t).pos
  }

  /** The pieces from `a` to `z` are, without a gap, the log from `lo` to `hi`. */
  ghost predicate IsStretch(ds: seq<Delivery>, a: nat, z: nat, lo: nat, hi: nat)
    requires a <= z < |ds|
  {
    ds[a].lo == lo && ds[z].Hi() == hi && Adjoin(ds[a..z + 1])
  }

  ghost predicate SentWhole(ds: seq<Delivery>, lo: nat, hi: nat) {
    exists a, z :: 0 <= a <= z < |ds| && IsStretch(ds, a, z, lo, hi)
  }

  /** From the read in step `r` on, no read below position `p` comes after an eviction. */
  ghost predicate StaysUntil(states: seq<Server>, steps: seq<Step>, t: Tid, r: nat, p: nat, n: nat)
    requires |states| == |steps| + 1 && r < n <= |steps|
  {
    forall i :: r <= i < n && Reads(states[i], steps[i], t) && states[i].At(t).pos < p ==>
      Evicted(Log(states[i])) == Evicted(Log(states[r]))
  }

  /** A read that starts in a packet does not leave it. */
  lemma ReadStaysInPacket(m: Model, k: nat, pos: nat, count: nat, copyOk: bool)
    requires k < |m.log| && First(m.log, k) <= Evicted(m.log) + pos < Behind(m.log, k)
    ensures Evicted(m.log) + pos + |ReadFrom(m, pos, count, copyOk).1| <= Behind(m.log, k)
  {
    hide Flatten, RestOfPacket;
    var w := Retained(m.log);
    var gone := |m.log| - |w|;
    EvictedAfterTen(m.log, k);
    var front, more := w[..k + 1 - gone], w[k + 1 - gone..];
    FlattenSplit(m.log[..k + 1], gone);
    assert m.log[..k + 1][..gone] == m.log[..gone] && m.log[..k + 1][gone..] == front;
    assert w == front + more;
    FlattenConcat(front, more);
    RestOfPacketInFront(front, more, pos);
  }

  /** Positions only go up during a reply. */
  lemma {:induction false} PosGrows(states: seq<Server>, steps: seq<Step>, t: Tid, b: nat, i: nat, n: nat)
    requires IsRun(states, steps) && b < i <= n <= |steps| && UnderWay(states, steps, t, b, n)
    ensures states[i].At(t).Replying? && states[i].At(t).pos <= states[n].At(t).pos
  {
    hide Next, Flatten, Retained, Piece, BeginsReply, StartsAt;
    if i == n {
    } else {
      PosGrows(states, steps, t, b, i, n - 1);
      StepOf(states, steps, n - 1);
      var s, e := states[n - 1], steps[n - 1];
      if Reads(s, e, t) {
        ReadSends(s, e, t);
      } else {
        OnlyReadsSend(s, e, t);
      }
    }
  }

  /** The read that sent a given piece. */
  lemma {:induction false} SentBy(states: seq<Server>, steps: seq<Step>, t: Tid, n: nat, a: nat) returns (r: nat)
    requires IsRun(states, steps) && n <= |steps| && a < |Sent(states, steps, t, n)|
    ensures r < n && Reads(states[r], steps[r], t) && states[r + 1].At(t).Replying?
    ensures var d := Sent(states, steps, t, n)[a];
            && d.lo == Place(states[r], t) && d.evicted == Evicted(Log(states[r]))
            && states[r + 1].At(t).pos == states[r].At(t).pos + |d.data|
  {
    hide Next, Flatten, Retained, Evicted, ReadFrom;
    StepOf(states, steps, n - 1);
    var s, e := states[n - 1], steps[n - 1];
    if a < |Sent(states, steps, t, n - 1)| {
      r := SentBy(states, steps, t, n - 1, a);
    } else {
      r := n - 1;
      if !states[n].At(t).Replying? {
        NothingAfterReply(s, e, t);
      }
      ReadSends(s, e, t);
    }
  }

  /** It comes behind the step that began the reply. */
  lemma SentAfterBegin(states: seq<Server>, steps: seq<Step>, t: Tid, b: nat, r: nat)
    requires IsRun(states, steps) && b < |steps| && r < |steps|
    requires BeginsReply(steps[b], t) && !HasSeen(states[b].At(t))
    requires Reads(states[r], steps[r], t) && states[r + 1].At(t).Replying?
    ensures b < r
  {
    hide Next, Flatten, Retained, Evicted, Sent, BeginsReply;
    if r <= b {
      var k := PieceOf(states, steps, t, r, b + 1);
      NothingSentYet(states, steps, t, b);
    }
  }

  lemma {:induction false} EvictedInOrder(ds: seq<Delivery>, a: nat, z: nat)
    requires DeviceRuns.GapsExplained(ds) && a <= z < |ds|
    ensures ds[a].evicted <= ds[z].evicted
    decreases z
  {
    if a == z {
    } else {
      EvictedInOrder(ds, a, z - 1);
      assert DeviceRuns.GapExplained(ds[z - 1], ds[z]);
    }
  }

  /** Pieces follow each other without a gap exactly when nothing is evicted in
      between. */
  lemma AdjoinIff(ds: seq<Delivery>, a: nat, z: nat)
    requires DeviceRuns.GapsExplained(ds) && a <= z < |ds|
    requires forall i :: 0 <= i < |ds| ==> ds[i].own == 0
    ensures Adjoin(ds[a..z + 1]) <==> ds[a].evicted == ds[z].evicted
  {
    var part := ds[a..z + 1];
    assert DeviceRuns.GapsExplained(part) by {
      forall i, j | 0 <= i < j < |part| && j == i + 1 ensures DeviceRuns.GapExplained(part[i], part[j]) {
        assert part[i] == ds[a + i] && part[j] == ds[a + j];
      }
    }
    hide DeviceRuns.GapsExplained;
    if Adjoin(part) {
      SameEviction(part, z - a);
    }
    if ds[a].evicted == ds[z].evicted {
      forall i, j | 0 <= i < j < |part| && j == i + 1 ensures part[i].Hi() == part[j].lo {
        EvictedInOrder(part, 0, i);
        EvictedInOrder(part, i, j);
        EvictedInOrder(part, j, z - a);
        NextPiece(part, i);
      }
    }
  }

  lemma NextPiece(ds: seq<Delivery>, i: nat)
    requires DeviceRuns.GapsExplained(ds) && i + 1 < |ds|
    ensures DeviceRuns.GapExplained(ds[i], ds[i + 1])
  {
  }

  /** The reply reaches byte `lo` of the log with the read in step `r`, and nothing is
      evicted until it has read `len` bytes from there. */
  ghost predicate ReachedAndKept(states: seq<Server>, steps: seq<Step>, t: Tid, r: nat, lo: nat, len: nat, n: nat)
    requires |states| == |steps| + 1 && r < n <= |steps|
  {
    && Reads(states[r], steps[r], t) && Place(states[r], t) == lo
    && StaysUntil(states, steps, t, r, states[r].At(t).pos + len, n)
  }

  ghost predicate ReachedAndKeptBy(states: seq<Server>, steps: seq<Step>, t: Tid, b: nat, lo: nat, len: nat, n: nat)
    requires |states| == |steps| + 1 && n <= |steps|
  {
    exists r :: b < r < n && ReachedAndKept(states, steps, t, r, lo, len, n)
  }

  /** The read that ends the packet. */
  lemma {:induction false} Crosses(states: seq<Server>, steps: seq<Step>, t: Tid, b: nat, n: nat, r: nat, k: nat)
    returns (q: nat)
    requires IsRun(states, steps) && b < r < n <= |steps| && UnderWay(states, steps, t, b, n)
    requires k < |Log(states[b])| && First(Log(states[b]), k) < Behind(Log(states[b]), k)
    requires var lo, hi := First(Log(states[b]), k), Behind(Log(states[b]), k);
             && ReachedAndKept(states, steps, t, r, lo, hi - lo, n)
             && states[r].At(t).pos + hi - lo <= states[n].At(t).pos
    ensures r <= q < n && Reads(states[q], steps[q], t) && Evicted(Log(states[q])) == Evicted(Log(states[r]))
    ensures states[q + 1].At(t).Replying?
    ensures Evicted(Log(states[q])) + states[q + 1].At(t).pos == Behind(Log(states[b]), k)
  {
    hide Next, Flatten, Retained, Evicted, Piece, BeginsReply, StartsAt, First, Behind;
    var log := Log(states[b]);
    var p := states[r].At(t).pos + Behind(log, k) - First(log, k);
    if p <= states[n - 1].At(t).pos {
      q := Crosses(states, steps, t, b, n - 1, r, k);
    } else {
      q := n - 1;
      PosGrows(states, steps, t, b, r, q);
      StepOf(states, steps, q);
      if !Reads(states[q], steps[q], t) {
        OnlyReadsSend(states[q], steps[q], t);
      }
      LogsGrow(states, steps, b, q);
      SamePlaces(log, Log(states[q]), k);
      SendStaysInPacket(states[q], steps[q], t, k);
    }
  }

  lemma SamePlaces(log: seq<Packet>, log': seq<Packet>, k: nat)
    requires log <= log' && k < |log|
    ensures First(log', k) == First(log, k) && Behind(log', k) == Behind(log, k)
  {
    assert log'[..k] == log[..k] && log'[..k + 1] == log[..k + 1];
  }

  lemma SendStaysInPacket(s: Server, e: Step, t: Tid, k: nat)
    requires Next(s, e).Some? && Next(s, e).value.At(t).Replying? && Reads(s, e, t)
    requires k < |Log(s)| && First(Log(s), k) <= Place(s, t) < Behind(Log(s), k)
    ensures Evicted(Log(s)) + Next(s, e).value.At(t).pos <= Behind(Log(s), k)
  {
    hide Flatten, Retained, Evicted, First, Behind, Next, ReadFrom;
    ReadSends(s, e, t);
    ReadStaysInPacket(s.shared.dev, k, s.At(t).pos, e.act.count, e.act.copyOk);
  }

  /** A packet that was reached and kept is sent whole. */
  lemma KeptIsSent(states: seq<Server>, steps: seq<Step>, t: Tid, b: nat, n: nat, r: nat, k: nat)
    requires IsRun(states, steps) && b < r < n <= |steps| && UnderWay(states, steps, t, b, n)
    requires k < |Log(states[b])| && First(Log(states[b]), k) < Behind(Log(states[b]), k)
    requires var lo, hi := First(Log(states[b]), k), Behind(Log(states[b]), k);
             && ReachedAndKept(states, steps, t, r, lo, hi - lo, n)
             && states[r].At(t).pos + hi - lo <= states[n].At(t).pos
    ensures SentWhole(Sent(states, steps, t, n), First(Log(states[b]), k), Behind(Log(states[b]), k))
  {
    hide Next, Flatten, Retained, Evicted, Sent, BeginsReply, StartsAt, First, Behind, Adjoin, StaysUntil;
    var ds := Sent(states, steps, t, n);
    var q := Crosses(states, steps, t, b, n, r, k);
    var a := PieceOf(states, steps, t, r, n);
    var z := PieceOf(states, steps, t, q, n);
    SentGrows(states, steps, t, r, q);
    GapsInRun(states, steps, t, n);
    AdjoinIff(ds, a, z);
    assert IsStretch(ds, a, z, First(Log(states[b]), k), Behind(Log(states[b]), k));
  }

  lemma GapsInRun(states: seq<Server>, steps: seq<Step>, t: Tid, n: nat)
    requires IsRun(states, steps) && n <= |steps|
    ensures var ds := Sent(states, steps, t, n);
            && DeviceRuns.GapsExplained(ds) && DeviceRuns.AreBytesOf(ds, Flatten(Log(states[n])))
            && forall i :: 0 <= i < |ds| ==> ds[i].own == 0
  {
    TrackedInRun(states, steps, t, n);
  }

  /** A stretch that was sent whole was reached and kept. */
  lemma SentIsKept(states: seq<Server>, steps: seq<Step>, t: Tid, b: nat, n: nat, lo: nat, hi: nat) returns (r: nat)
    requires IsRun(states, steps) && b < n <= |steps| && UnderWay(states, steps, t, b, n)
    requires SentWhole(Sent(states, steps, t, n), lo, hi)
    ensures b < r < n && lo <= hi && ReachedAndKept(states, steps, t, r, lo, hi - lo, n)
    ensures states[r].At(t).pos + hi - lo <= states[n].At(t).pos
  {
    hide Next, Flatten, Retained, Evicted, Sent, BeginsReply, StartsAt, Adjoin;
    var ds := Sent(states, steps, t, n);
    var a, z :| 0 <= a <= z < |ds| && IsStretch(ds, a, z, lo, hi);
    GapsInRun(states, steps, t, n);
    AdjoinIff(ds, a, z);
    r := SentBy(states, steps, t, n, a);
    SentAfterBegin(states, steps, t, b, r);
    var q := SentBy(states, steps, t, n, z);
    SentAfterBegin(states, steps, t, b, q);
    PosGrows(states, steps, t, b, q + 1, n);
    StretchLength(ds, a, z);
    forall i | r <= i < n && Reads(states[i], steps[i], t) && states[i].At(t).pos < states[r].At(t).pos + hi - lo
      ensures Evicted(Log(states[i])) == Evicted(Log(states[r]))
    {
      if q < i {
        PosGrows(states, steps, t, b, q + 1, n);
        EarlierPos(states, steps, t, b, q + 1, i, n);
      } else {
        EvictedOverTime(states, steps, r, i);
        EvictedOverTime(states, steps, i, q);
      }
    }
  }

  lemma StretchLength(ds: seq<Delivery>, a: nat, z: nat)
    requires DeviceRuns.GapsExplained(ds) && a <= z < |ds|
    ensures ds[a].lo <= ds[z].Hi()
  {
    if a < z {
      DeviceRuns.DeliveriesAreDisjoint(ds, a, z);
    }
  }

  lemma EarlierPos(states: seq<Server>, steps: seq<Step>, t: Tid, b: nat, i: nat, j: nat, n: nat)
    requires IsRun(states, steps) && b < i <= j <= n <= |steps| && UnderWay(states, steps, t, b, n)
    ensures states[i].At(t).Replying? && states[j].At(t).Replying? && states[i].At(t).pos <= states[j].At(t).pos
  {
    hide Next, Flatten, Retained, BeginsReply, StartsAt;
    assert UnderWay(states, steps, t, b, j);
    PosGrows(states, steps, t, b, i, j);
  }

  lemma EvictedOverTime(states: seq<Server>, steps: seq<Step>, i: nat, j: nat)
    requires IsRun(states, steps) && i <= j < |states|
    ensures Evicted(Log(states[i])) <= Evicted(Log(states[j]))
  {
    LogsGrow(states, steps, i, j);
    EvictedGrows(Log(states[i]), Log(states[j]));
  }

  /** A reply that found the end has passed a packet whose bytes stayed. */
  lemma EndIsBehind(states: seq<Server>, steps: seq<Step>, t: Tid, b: nat, e: nat, r: nat, k: nat)
    requires IsRun(states, steps) && b < r <= e < |steps| && UnderWay(states, steps, t, b, e)
    requires Reads(states[e], steps[e], t) && |Flatten(Retained(Log(states[e])))| <= states[e].At(t).pos
    requires k < |Log(states[b])| && First(Log(states[b]), k) < Behind(Log(states[b]), k)
    requires var lo, hi := First(Log(states[b]), k), Behind(Log(states[b]), k);
             ReachedAndKept(states, steps, t, r, lo, hi - lo, e + 1)
    ensures r < e && states[r].At(t).pos + Behind(Log(states[b]), k) - First(Log(states[b]), k) <= states[e].At(t).pos
  {
    hide Next, Flatten, Retained, Evicted, BeginsReply, StartsAt, First, Behind;
    var log := Log(states[e]);
    LogsGrow(states, steps, b, e);
    SamePlaces(Log(states[b]), log, k);
    RetainedBytes(log);
    PacketsFit(log, k);
  }

  lemma Middle(front: seq<Byte>, part: seq<Byte>, rest: seq<Byte>)
    ensures (front + part + rest)[|front|..|front| + |part|] == part
    ensures part <= (front + part + rest)[|front|..]
  {
    assert (front + part + rest)[|front|..] == part + rest;
  }

  lemma PacketsFit(log: seq<Packet>, k: nat)
    requires k < |log|
    ensures Behind(log, k) <= |Flatten(log)| && Behind(log, k) == First(log, k) + |log[k]|
    ensures Flatten(log)[First(log, k)..Behind(log, k)] == log[k]
  {
    hide Flatten;
    var before, p := log[..k], log[k];
    FlattenSplit(log, k + 1);
    assert log[..k + 1] == before + [p];
    FlattenConcat(before, [p]);
    FlattenOne(p);
    Middle(Flatten(before), p, Flatten(log[k + 1..]));
  }

  /** Data of consecutive pieces is consecutive. */
  lemma {:induction false} DataConcat(xs: seq<Delivery>, ys: seq<Delivery>)
    ensures Data(xs + ys) == Data(xs) + Data(ys)
    decreases |ys|
  {
    hide Data;
    DataOfNothing();
    if ys == [] {
      assert xs + ys == xs;
    } else {
      var last := ys[|ys| - 1];
      DataConcat(xs, ys[..|ys| - 1]);
      DataSnoc(ys[..|ys| - 1], last);
      DataSnoc(xs + ys[..|ys| - 1], last);
      assert ys == ys[..|ys| - 1] + [last] && xs + ys == xs + ys[..|ys| - 1] + [last];
    }
  }

  lemma PartIsBytes(ds: seq<Delivery>, bytes: seq<Byte>, a: nat, z: nat)
    requires DeviceRuns.AreBytesOf(ds, bytes) && a <= z < |ds|
    ensures DeviceRuns.AreBytesOf(ds[a..z + 1], bytes)
  {
  }

  lemma StretchIsInReply(ds: seq<Delivery>, bytes: seq<Byte>, lo: nat, hi: nat) returns (x: nat)
    requires DeviceRuns.AreBytesOf(ds, bytes) && SentWhole(ds, lo, hi)
    ensures lo <= hi <= |bytes| && x + hi - lo <= |Data(ds)| && bytes[lo..hi] <= Data(ds)[x..]
  {
    hide Data, Adjoin;
    var a, z :| 0 <= a <= z < |ds| && IsStretch(ds, a, z, lo, hi);
    var front, part, rest := ds[..a], ds[a..z + 1], ds[z + 1..];
    PartIsBytes(ds, bytes, a, z);
    hide DeviceRuns.AreBytesOf;
    StretchOfLog(part, bytes);
    assert ds == front + part + rest;
    DataConcat(front + part, rest);
    DataConcat(front, part);
    Middle(Data(front), Data(part), Data(rest));
    x := |Data(front)|;
  }

  lemma FewerReads(states: seq<Server>, steps: seq<Step>, t: Tid, r: nat, lo: nat, len: nat, e: nat)
    requires |states| == |steps| + 1 && r < e < |steps| && states[e].At(t).Replying?
    ensures ReachedAndKept(states, steps, t, r, lo, len, e + 1) ==> ReachedAndKept(states, steps, t, r, lo, len, e)
    ensures ReachedAndKept(states, steps, t, r, lo, len, e) && states[r].At(t).pos + len <= states[e].At(t).pos ==>
              ReachedAndKept(states, steps, t, r, lo, len, e + 1)
  {
    hide Evicted;
  }

  /** The same, with the steps in which the reply began and ended. */
  lemma {:induction false} KeptIff(states: seq<Server>, steps: seq<Step>, t: Tid, b: nat, e: nat, k: nat)
    requires IsRun(states, steps) && b < e < |steps| && UnderWay(states, steps, t, b, e)
    requires Reads(states[e], steps[e], t) && |Flatten(Retained(Log(states[e])))| <= states[e].At(t).pos
    requires k < |Log(states[b])| && First(Log(states[b]), k) < Behind(Log(states[b]), k)
    ensures var lo, hi := First(Log(states[b]), k), Behind(Log(states[b]), k);
            SentWhole(Sent(states, steps, t, e), lo, hi) <==>
            ReachedAndKeptBy(states, steps, t, b, lo, hi - lo, e + 1)
  {
    hide Next, Flatten, Retained, Evicted, Sent, UnderWay, First, Behind, SentWhole, ReachedAndKept;
    var lo, hi := First(Log(states[b]), k), Behind(Log(states[b]), k);
    if SentWhole(Sent(states, steps, t, e), lo, hi) {
      var r := SentIsKept(states, steps, t, b, e, lo, hi);
      FewerReads(states, steps, t, r, lo, hi - lo, e);
    }
    if ReachedAndKeptBy(states, steps, t, b, lo, hi - lo, e + 1) {
      var n := e + 1;
      var r :| b < r < n && ReachedAndKept(states, steps, t, r, lo, hi - lo, n);
      EndIsBehind(states, steps, t, b, e, r, k);
      FewerReads(states, steps, t, r, lo, hi - lo, e);
      KeptIsSent(states, steps, t, b, e, r, k);
    }
  }

  /** In every run, for every reply read to its end and every packet in the log when
      it began: the packet is sent whole exactly when some read of the reply starts
      at the packet's first byte and nothing is evicted until the packet is read. */
  lemma {:induction false} SentWholeIff(states: seq<Server>, steps: seq<Step>, t: Tid, k: nat) returns (b: nat, e: nat)
    requires IsRun(states, steps) && states[|steps|].At(t).Closed? && states[|steps|].At(t).whole
    requires k < states[|steps|].At(t).seen && k < |Log(states[|steps|])| && Log(states[|steps|])[k] != []
    ensures b < e < |steps| && UnderWay(states, steps, t, b, e) && Reads(states[e], steps[e], t)
    ensures !states[e + 1].At(t).Replying?
    ensures var sent, log, ds := states[|steps|].At(t).sent, Log(states[|steps|]), Sent(states, steps, t, |steps|);
            && (SentWhole(ds, First(log, k), Behind(log, k)) <==>
                ReachedAndKeptBy(states, steps, t, b, First(log, k), |log[k]|, e + 1))
            && (SentWhole(ds, First(log, k), Behind(log, k)) ==> Contains(sent, log[k]))
  {
    hide Next, Flatten, Retained, Evicted, Sent, BeginsReply, StartsAt, First, Behind, SentWhole, ReachedAndKeptBy;
    var pc, log, ds := states[|steps|].At(t), Log(states[|steps|]), Sent(states, steps, t, |steps|);
    e := EndOfReply(states, steps, t, |steps|);
    b := BeganIn(states, steps, t, e);
    LogsGrow(states, steps, b, |steps|);
    SamePlaces(Log(states[b]), log, k);
    PacketsFit(log, k);
    KeptIff(states, steps, t, b, e, k);
    if SentWhole(ds, First(log, k), Behind(log, k)) {
      TrackedInRun(states, steps, t, |steps|);
      var x := StretchIsInReply(ds, Flatten(log), First(log, k), Behind(log, k));
    }
  }

  ghost predicate Contains(sent: seq<Byte>, p: Packet) {
    exists x :: 0 <= x <= |sent| && p <= sent[x..]
  }
}
