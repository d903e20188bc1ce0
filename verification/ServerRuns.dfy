/** What holds of every run of the server. */
module ServerRuns {
  import opened Bytes
  import opened PacketLog
  import opened CircularBuffer
  import opened ServerProtocol

  function Log(s: Server): seq<Packet> {
    s.shared.dev.log
  }

  lemma StepOf(states: seq<Server>, steps: seq<Step>, n: nat)
    requires IsRun(states, steps) && n < |steps|
    ensures Next(states[n], steps[n]) == Some(states[n + 1])
  {
    assert states[n + 1] == states[n + 1];
  }

  /** Logs of a run only grow. */
  lemma {:induction false} LogsGrow(states: seq<Server>, steps: seq<Step>, j: nat, n: nat)
    requires IsRun(states, steps) && j <= n < |states|
    ensures Log(states[j]) <= Log(states[n])
  {
    if j == n {
    } else {
      hide Does;
      LogsGrow(states, steps, j, n - 1);
      StepOf(states, steps, n - 1);
      var s, e := states[n - 1], steps[n - 1];
      StepAppends(s.shared, e.t, s.At(e.t), e.act);
    }
  }

  predicate HasSeen(pc: Pc) {
    pc.Replying? || pc.Replied? || pc.Closed?
  }

  predicate BeginsReply(e: Step, t: Tid) {
    e.t == t && (e.act.LockToReply? || e.act.SeekAndReply?)
  }

  lemma SeenStep(s: Server, e: Step, t: Tid)
    requires Next(s, e).Some? && HasSeen(Next(s, e).value.At(t))
    ensures var pc, pc' := s.At(t), Next(s, e).value.At(t);
            || (HasSeen(pc) && pc'.seen == pc.seen)
            || (BeginsReply(e, t) && pc'.seen == |Log(s)|)
  {
    hide Flatten, Retained, WriteTo, ReadFrom, SeekTo;
  }

  /** What a thread saw was the log when it took the mutex to reply, or when its
      seek was accepted. */
  lemma {:induction false} SeenWhenReplyBegan(states: seq<Server>, steps: seq<Step>, t: Tid, n: nat) returns (j: nat)
    requires IsRun(states, steps) && n < |states| && HasSeen(states[n].At(t))
    ensures j < n && BeginsReply(steps[j], t) && |Log(states[j])| == states[n].At(t).seen
  {
    hide Next, Does, BeginsReply;
    StepOf(states, steps, n - 1);
    var s, e := states[n - 1], steps[n - 1];
    SeenStep(s, e, t);
    if HasSeen(s.At(t)) && states[n].At(t).seen == s.At(t).seen {
      j := SeenWhenReplyBegan(states, steps, t, n - 1);
    } else {
      j := n - 1;
    }
  }

  // ----- Undisturbed replies -----

  /** Nothing is committed while thread `t` is replying. */
  ghost predicate Undisturbed(states: seq<Server>, t: Tid, n: nat)
    requires n < |states|
  {
    forall i, j :: 0 <= i < j <= n && j == i + 1 && states[i].At(t).Replying? ==> Log(states[j]) == Log(states[i])
  }

  lemma {:induction false} GoodWhenUndisturbed(states: seq<Server>, steps: seq<Step>, t: Tid, n: nat)
    requires IsRun(states, steps) && n < |states| && Undisturbed(states, t, n)
    ensures Good(states[n].At(t), Log(states[n]))
  {
    if n == 0 {
    } else {
      hide Does, Good;
      GoodWhenUndisturbed(states, steps, t, n - 1);
      StepOf(states, steps, n - 1);
      var s, s', e := states[n - 1], states[n], steps[n - 1];
      if e.t == t {
        StepIsGood(s.shared, t, s.At(t), e.act);
      } else {
        StepAppends(s.shared, e.t, s.At(e.t), e.act);
        if Log(s') != Log(s) {
          GoodAsLogGrows(s.At(t), Log(s), Log(s')[|Log(s')| - 1]);
        }
      }
    }
  }

  /** A commit while a thread is replying means that the mutex was stolen before. */
  lemma {:induction false} DisturbanceNeedsTheft(states: seq<Server>, steps: seq<Step>, t: Tid, i: nat) returns (k: nat)
    requires IsRun(states, steps) && i < |steps|
    requires states[i].At(t).Replying? && Log(states[i + 1]) != Log(states[i])
    ensures k < i && Theft(states[k], steps[k])
    ensures steps[i].act.WriteMessage? && steps[i].t != t
  {
    StepOf(states, steps, i);
    ExclusiveUntilTheft(states, steps, i);
    var s, e := states[i], steps[i];
    StepAppends(s.shared, e.t, s.At(e.t), e.act);
    assert InCritical(s.At(t)) && InCritical(s.At(e.t)) && t in s.threads && e.t in s.threads;
    k :| 0 <= k < i && Theft(states[k], steps[k]);
  }

  lemma {:induction false} NoTheftNoDisturbance(states: seq<Server>, steps: seq<Step>, t: Tid)
    requires IsRun(states, steps) && NoTheft(states, steps)
    ensures Undisturbed(states, t, |steps|)
  {
    hide Does, Next, Theft;
    forall i, j | 0 <= i < j <= |steps| && j == i + 1 && states[i].At(t).Replying?
      ensures Log(states[j]) == Log(states[i])
    {
      if Log(states[j]) != Log(states[i]) {
        var k := DisturbanceNeedsTheft(states, steps, t, i);
      }
    }
  }

  /** Every state of a run without theft: exclusion while the device works, and
      every thread good. */
  ghost predicate Inv(s: Server) {
    Exclusive(s) && forall t :: t in s.threads ==> Good(s.threads[t], Log(s))
  }

  lemma {:induction false} RunKeepsInv(states: seq<Server>, steps: seq<Step>)
    requires IsRun(states, steps) && NoTheft(states, steps)
    ensures Inv(states[|steps|])
  {
    hide Does, Next, Theft, Good, Exclusive;
    ExclusiveUntilTheft(states, steps, |steps|);
    var s := states[|steps|];
    forall t | t in s.threads ensures Good(s.threads[t], Log(s)) {
      NoTheftNoDisturbance(states, steps, t);
      GoodWhenUndisturbed(states, steps, t, |steps|);
    }
  }

  // ----- Replies -----

  /** The reply of `t` is what the device held when that reply began: all of it,
      or all of it from the byte that was sought; or a first part of that when a
      read failed. */
  ghost predicate IsSnapshot(states: seq<Server>, steps: seq<Step>, t: Tid, j: nat)
    requires |states| == |steps| + 1 && j < |steps|
  {
    var pc := states[|steps|].At(t);
    && BeginsReply(steps[j], t)
    && pc.Closed? && Answers(pc.receipt, Retained(Log(states[j])), pc.start, pc.sent, pc.whole)
  }

  lemma {:induction false} UndisturbedIsSnapshot(states: seq<Server>, steps: seq<Step>, t: Tid) returns (j: nat)
    requires IsRun(states, steps) && Undisturbed(states, t, |steps|)
    requires states[|steps|].At(t).Closed?
    ensures j < |steps| && IsSnapshot(states, steps, t, j)
  {
    hide Does, Next, Answers;
    var last := states[|steps|];
    GoodWhenUndisturbed(states, steps, t, |steps|);
    j := SeenWhenReplyBegan(states, steps, t, |steps|);
    LogsGrow(states, steps, j, |steps|);
    assert Log(last)[..last.At(t).seen] == Log(states[j]);
  }

  /** As long as no second unlock finds the mutex held while the device works,
      every reply is a snapshot. */
  lemma {:induction false} RepliesAreSnapshots(states: seq<Server>, steps: seq<Step>, t: Tid) returns (j: nat)
    requires IsRun(states, steps) && NoTheft(states, steps)
    requires states[|steps|].At(t).Closed?
    ensures j < |steps| && IsSnapshot(states, steps, t, j)
  {
    NoTheftNoDisturbance(states, steps, t);
    j := UndisturbedIsSnapshot(states, steps, t);
  }

  /** In step `i` another thread commits a packet while `t` is replying. */
  ghost predicate CommitDuringReply(states: seq<Server>, steps: seq<Step>, t: Tid, i: nat)
    requires |states| == |steps| + 1 && i < |steps|
  {
    && steps[i].act.WriteMessage? && steps[i].t != t
    && states[i].At(t).Replying? && Log(states[i]) < Log(states[i + 1])
  }

  /** In every run, a reply that is no snapshot was preceded by a theft, and after
      that another thread committed a packet while the reply was under way. */
  lemma {:induction false} OnlyTheftThenCommitTears(states: seq<Server>, steps: seq<Step>, t: Tid)
    requires IsRun(states, steps) && states[|steps|].At(t).Closed?
    requires forall j :: 0 <= j < |steps| ==> !IsSnapshot(states, steps, t, j)
    ensures exists k, i :: 0 <= k < i < |steps| && Theft(states[k], steps[k]) && CommitDuringReply(states, steps, t, i)
  {
    hide Does, Next, Theft, IsSnapshot;
    if Undisturbed(states, t, |steps|) {
      var j := UndisturbedIsSnapshot(states, steps, t);
    } else {
      var i, j :| 0 <= i < j <= |steps| && j == i + 1 && states[i].At(t).Replying? && Log(states[j]) != Log(states[i]);
      var k := DisturbanceNeedsTheft(states, steps, t, i);
      LogsGrow(states, steps, i, j);
      assert CommitDuringReply(states, steps, t, i);
    }
  }

  /** Packet `i` lies in one piece in what is readable of the first `n` packets,
      unless ten or more of them come after it. */
  ghost predicate Holds(sent: seq<Byte>, log: seq<Packet>, n: nat, i: nat)
    requires i < n <= |log| && n - i <= MAX_WRITES
  {
    var first := n - |Retained(log[..n])|;
    var lo := |Flatten(log[first..i])|;
    lo + |log[i]| <= |sent| && sent[lo..lo + |log[i]|] == log[i]
  }

  lemma RecentPacketIsReadable(log: seq<Packet>, n: nat, i: nat)
    requires i < n <= |log| && n - i <= MAX_WRITES
    ensures Holds(BytesAt(log, n), log, n, i)
  {
    var w := Retained(log[..n]);
    var k := i - (n - |w|);
    assert w[k] == log[i] && w[..k] == log[n - |w|..i];
    FlattenSplit(w, k);
    assert w[k..][0] == w[k];
    assert Flatten(w[k..]) == w[k] + Flatten(w[k..][1..]);
  }

  /** A reply that was read to the end contains the thread's own message, in one
      piece and at the end of its packet, when at most nine packets were committed
      between that one and the reply. */
  lemma {:induction false} ReplyContainsOwnMessage(states: seq<Server>, steps: seq<Step>, t: Tid)
    requires IsRun(states, steps) && NoTheft(states, steps)
    requires states[|steps|].At(t).Closed? && states[|steps|].At(t).receipt.Committed?
    ensures var pc, log := states[|steps|].At(t), Log(states[|steps|]);
            var i := pc.receipt.index;
            && i < pc.seen <= |log| && IsSuffix(pc.receipt.msg, log[i])
            && (pc.whole && pc.seen - i - 1 <= 9 ==> Holds(pc.sent, log, pc.seen, i))
  {
    hide Does, Next, Theft, Flatten, Retained, Holds;
    NoTheftNoDisturbance(states, steps, t);
    GoodWhenUndisturbed(states, steps, t, |steps|);
    var pc, log := states[|steps|].At(t), Log(states[|steps|]);
    if pc.whole && pc.seen - pc.receipt.index - 1 <= 9 {
      RecentPacketIsReadable(log, pc.seen, pc.receipt.index);
      assert pc.sent == BytesAt(log, pc.seen);
    }
  }

  // ----- Refused seeks -----

  /** After a refused seek no device operation of any thread completes. */
  lemma {:induction false} RefusalStopsTheDevice(states: seq<Server>, steps: seq<Step>, j: nat, n: nat)
    requires IsRun(states, steps) && j <= n < |states|
    requires states[j].shared.dev.wedged
    ensures states[n].shared.dev == states[j].shared.dev
  {
    if j == n {
    } else {
      RefusalStopsTheDevice(states, steps, j, n - 1);
      StepOf(states, steps, n - 1);
    }
  }

  ghost predicate NoFaults(steps: seq<Step>) {
    forall i :: 0 <= i < |steps| ==> !steps[i].act.FaultInSeek?
  }

  ghost predicate RefusedMeansWedged(s: Server) {
    forall t :: t in s.threads && (s.threads[t].Refused? || s.threads[t].RefusedOnce?) ==> s.shared.dev.wedged
  }

  lemma {:induction false} RefusalsWedge(states: seq<Server>, steps: seq<Step>, n: nat)
    requires IsRun(states, steps) && NoFaults(steps) && n < |states|
    ensures RefusedMeansWedged(states[n])
  {
    if n == 0 {
    } else {
      RefusalsWedge(states, steps, n - 1);
      StepOf(states, steps, n - 1);
    }
  }

  /** A refused seek steals nothing although it unlocks twice: the device is
      wedged by then. Only a seek whose argument could not be copied can. */
  lemma {:induction false} RefusedSeeksAreHarmless(states: seq<Server>, steps: seq<Step>)
    requires IsRun(states, steps) && NoFaults(steps)
    ensures NoTheft(states, steps)
  {
    forall i | 0 <= i < |steps| ensures !Theft(states[i], steps[i]) {
      StepOf(states, steps, i);
      RefusalsWedge(states, steps, i);
    }
  }
}
