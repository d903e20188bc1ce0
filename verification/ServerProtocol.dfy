/** The connection threads of the server as one state machine: each stores its
    message under the server mutex, releases it, takes it again and sends back
    what the device holds. The threads interleave at every step. */
module ServerProtocol {
  import opened Bytes
  import opened PacketLog
  import opened CircularBuffer
  import opened Receiver

  type Tid = nat

  /** What became of a thread's own message: it is in the log at `index`, or it
      is not, or it was a seek command. */
  datatype Receipt = Uncommitted | Committed(msg: seq<Byte>, index: nat) | Sought(cmd: nat, off: nat)

  /** Where a thread is. `seen` is the length of the log when it started to read,
      and `whole` says that it read to the end. */
  datatype Pc =
    | Fresh
    | Receiving
    | Got(msg: seq<Byte>)
    | Wrote(receipt: Receipt)
    | Between(receipt: Receipt)
    | Replying(receipt: Receipt, seen: nat, start: nat, pos: nat, sent: seq<Byte>)
    | Replied(receipt: Receipt, seen: nat, start: nat, sent: seq<Byte>, whole: bool)
    | Closed(receipt: Receipt, seen: nat, start: nat, sent: seq<Byte>, whole: bool)
    | Refused
    | RefusedOnce
    | Gone

  datatype Act =
    | LockToReceive
    | FinishReceiving(msg: seq<Byte>)
    | FailToOpen
    | WriteMessage(env: WriteEnv)
    | UnlockAfterWrite
    | LockToReply(opens: bool)
    | SeekAndReply(cmd: U32, off: U32)
    | FaultInSeek
    | GiveUpSeek
    | SendSome(count: nat, copyOk: bool)
    | UnlockAfterReply
    | FirstUnlock
    | SecondUnlock

  /** `holder` is the thread that the server mutex is locked for. */
  datatype Shared = Shared(dev: Model, holder: Option<Tid>)

  /** What one thread does in one step; `None` when it cannot. Every operation on
      the device waits for the device mutex, so none happens once it is wedged.
      Unlocking does not ask who locked. */
  function Does(s: Shared, t: Tid, pc: Pc, a: Act): Option<(Shared, Pc)> {
    var free := s.(holder := None);
    match (pc, a)
    case (Fresh, LockToReceive) =>
      if s.holder == None then Some((s.(holder := Some(t)), Receiving)) else None
    case (Receiving, FinishReceiving(msg)) =>
      // A connection that sent nothing ends without unlocking.
      Some((s, if msg == [] then Gone else Got(msg)))
    case (Got(msg), FailToOpen) =>
      if SEEK_PREFIX <= msg then None else Some((free, Gone))
    case (Got(msg), WriteMessage(env)) =>
      if SEEK_PREFIX <= msg || s.dev.wedged then None
      else
        var dev' := WriteTo(s.dev, msg, env).0;
        Some((s.(dev := dev'),
              Wrote(if |dev'.log| > |s.dev.log| then Committed(msg, |s.dev.log|) else Uncommitted)))
    case (Wrote(r), UnlockAfterWrite) => Some((free, Between(r)))
    case (Between(r), LockToReply(opens)) =>
      if s.holder.Some? then None
      else if opens then Some((s.(holder := Some(t)), Replying(r, |s.dev.log|, 0, 0, [])))
      else Some((free, Gone))
    case (Got(msg), SeekAndReply(cmd, off)) =>
      if !(SEEK_PREFIX <= msg) || s.dev.wedged then None
      else
        var (dev', ret, pos) := SeekTo(s.dev, cmd, off, true, 0);
        Some((s.(dev := dev'),
              if ret.Done? then Replying(Sought(cmd, off), |s.dev.log|, pos, pos, []) else Refused))
    case (Got(msg), FaultInSeek) =>
      if SEEK_PREFIX <= msg then Some((s, Refused)) else None
    case (Got(msg), GiveUpSeek) =>
      if SEEK_PREFIX <= msg then Some((free, Gone)) else None
    case (Replying(r, seen, start, pos, sent), SendSome(count, copyOk)) =>
      if s.dev.wedged || count == 0 then None
      else
        var (ret, d, pos') := ReadFrom(s.dev, pos, count, copyOk);
        Some((s, if d == [] then Replied(r, seen, start, sent, ret.Done?)
                 else Replying(r, seen, start, pos', sent + d)))
    case (Replied(r, seen, start, sent, whole), UnlockAfterReply) => Some((free, Closed(r, seen, start, sent, whole)))
    case (Refused, FirstUnlock) => Some((free, RefusedOnce))
    case (RefusedOnce, SecondUnlock) => Some((free, Gone))
    case _ => None
  }

  datatype Server = Server(shared: Shared, threads: map<Tid, Pc>) {
    function At(t: Tid): Pc {
      if t in threads then threads[t] else Fresh
    }
  }

  datatype Step = Step(t: Tid, act: Act)

  function Next(s: Server, e: Step): Option<Server> {
    match Does(s.shared, e.t, s.At(e.t), e.act)
    case None => None
    case Some((shared, pc)) => Some(Server(shared, s.threads[e.t := pc]))
  }

  /** The server starts on a device that may have been used before. */
  ghost predicate Starts(s: Server) {
    s.threads == map[] && s.shared.holder == None && !s.shared.dev.wedged
  }

  ghost predicate IsRun(states: seq<Server>, steps: seq<Step>) {
    && |states| == |steps| + 1
    && Starts(states[0])
    && forall i, j :: 0 <= i < j < |states| && j == i + 1 ==> Next(states[i], steps[i]) == Some(states[j])
  }

  /** The second unlock after a failed seek takes the mutex from another thread,
      and the device goes on working. */
  predicate Theft(s: Server, e: Step) {
    e.act.SecondUnlock? && s.shared.holder.Some? && !s.shared.dev.wedged
  }

  ghost predicate NoTheft(states: seq<Server>, steps: seq<Step>)
    requires |states| == |steps| + 1
  {
    forall i :: 0 <= i < |steps| ==> !Theft(states[i], steps[i])
  }

  // ----- Mutual exclusion -----

  predicate InCritical(pc: Pc) {
    pc.Receiving? || pc.Got? || pc.Wrote? || pc.Replying? || pc.Replied? || pc.Refused?
  }

  /** As long as the device works, whoever is in a critical section holds the mutex. */
  ghost predicate Exclusive(s: Server) {
    !s.shared.dev.wedged ==>
      forall t :: t in s.threads && InCritical(s.threads[t]) ==> s.shared.holder == Some(t)
  }

  /** While the device works, a thread enters a critical section only by taking
      the free mutex, and leaves it only by giving the mutex back or keeping it. */
  lemma StepIsExclusive(s: Shared, t: Tid, pc: Pc, a: Act)
    requires Does(s, t, pc, a).Some?
    ensures var (s', pc') := Does(s, t, pc, a).value;
            && (s.dev.wedged ==> s'.dev == s.dev)
            && (!s'.dev.wedged && !(a.SecondUnlock? && s.holder.Some?) ==>
                  && (InCritical(pc') ==> s'.holder == Some(t) || (InCritical(pc) && s'.holder == s.holder))
                  && (s'.holder == s.holder || s.holder == None || InCritical(pc)))
  {
  }

  lemma StepKeepsExclusive(s: Server, e: Step)
    requires Exclusive(s) && Next(s, e).Some? && !Theft(s, e)
    ensures Exclusive(Next(s, e).value)
  {
    hide Does;
    StepIsExclusive(s.shared, e.t, s.At(e.t), e.act);
  }

  /** Exclusion holds in every state of every run until a theft. */
  lemma {:induction false} ExclusiveUntilTheft(states: seq<Server>, steps: seq<Step>, n: nat)
    requires IsRun(states, steps) && n < |states|
    ensures Exclusive(states[n]) || exists k :: 0 <= k < n && Theft(states[k], steps[k])
  {
    if n == 0 {
    } else {
      hide Next, Theft, Exclusive;
      ExclusiveUntilTheft(states, steps, n - 1);
      assert Next(states[n - 1], steps[n - 1]) == Some(states[n]);
      if Exclusive(states[n - 1]) && !Theft(states[n - 1], steps[n - 1]) {
        StepKeepsExclusive(states[n - 1], steps[n - 1]);
      }
    }
  }

  // ----- What a thread's own steps keep -----

  /** The readable bytes when the log had `n` packets. */
  function BytesAt(log: seq<Packet>, n: nat): seq<Byte>
    requires n <= |log|
  {
    Flatten(Retained(log[..n]))
  }

  ghost predicate IsSuffix(s: seq<Byte>, p: seq<Byte>) {
    |s| <= |p| && p[|p| - |s|..] == s
  }

  ghost predicate ReceiptGood(r: Receipt, log: seq<Packet>, n: nat) {
    r.Committed? ==> r.index < n <= |log| && IsSuffix(r.msg, log[r.index])
  }

  /** Where a reply from the packets `w` starts: at their beginning, or at the byte
      that an accepted seek named. */
  ghost predicate StartsAt(r: Receipt, w: seq<Packet>, start: nat) {
    && start <= |Flatten(w)|
    && (r.Sought? ==> r.cmd < |w| && r.off < |w[r.cmd]| && start == |Flatten(w[..r.cmd])| + r.off)
    && (!r.Sought? ==> start == 0)
  }

  /** Everything from there on, or when a read failed the first part of it. */
  ghost predicate Answers(r: Receipt, w: seq<Packet>, start: nat, sent: seq<Byte>, whole: bool) {
    && StartsAt(r, w, start)
    && sent <= Flatten(w)[start..]
    && (whole ==> sent == Flatten(w)[start..])
  }

  ghost predicate ReplyGood(r: Receipt, log: seq<Packet>, seen: nat, start: nat, sent: seq<Byte>, whole: bool) {
    && seen <= |log| && ReceiptGood(r, log, seen)
    && Answers(r, Retained(log[..seen]), start, sent, whole)
  }

  ghost predicate Good(pc: Pc, log: seq<Packet>) {
    match pc
    case Wrote(r) => ReceiptGood(r, log, |log|) && !r.Sought?
    case Between(r) => ReceiptGood(r, log, |log|) && !r.Sought?
    case Replying(r, seen, start, pos, sent) =>
      && seen == |log| && ReceiptGood(r, log, seen)
      && StartsAt(r, Retained(log), start)
      && start <= pos <= |Flatten(Retained(log))| && sent == Flatten(Retained(log))[start..pos]
    case Replied(r, seen, start, sent, whole) => ReplyGood(r, log, seen, start, sent, whole)
    case Closed(r, seen, start, sent, whole) => ReplyGood(r, log, seen, start, sent, whole)
    case _ => true
  }

  lemma GoodAsLogGrows(pc: Pc, log: seq<Packet>, p: Packet)
    requires Good(pc, log) && !pc.Replying?
    ensures Good(pc, log + [p])
  {
    if pc.Replied? || pc.Closed? {
      assert (log + [p])[..pc.seen] == log[..pc.seen];
    }
  }

  /** A step appends at most one packet, and only by a thread that is about to
      write, on a device that works. */
  lemma StepAppends(s: Shared, t: Tid, pc: Pc, a: Act)
    requires Does(s, t, pc, a).Some?
    ensures var log, log' := s.dev.log, Does(s, t, pc, a).value.0.dev.log;
            log' != log ==> pc.Got? && !s.dev.wedged && |log'| > 0 && log' == log + [log'[|log'| - 1]]
  {
  }

  /** One piece more is sent, or the reply ends. */
  lemma SendIsGood(s: Shared, t: Tid, pc: Pc, a: Act)
    requires pc.Replying? && Good(pc, s.dev.log) && Does(s, t, pc, a).Some?
    ensures Good(Does(s, t, pc, a).value.1, s.dev.log) && Does(s, t, pc, a).value.0 == s
  {
    var all := Flatten(Retained(s.dev.log));
    assert s.dev.log[..|s.dev.log|] == s.dev.log;
    ReadAdvances(s.dev, pc.pos, a.count);
    ReadEndsAtEnd(s.dev, pc.pos, a.count);
    hide Flatten, Retained, StartsAt, Served;
    var (ret, d, pos') := ReadFrom(s.dev, pc.pos, a.count, a.copyOk);
    assert all[pc.start..pc.pos] + all[pc.pos..pos'] == all[pc.start..pos'];
    assert all[pc.start..pc.pos] <= all[pc.start..];
    assert d == [] && ret.Done? ==> pc.pos == |all|;
  }

  lemma SeekIsGood(m: Model, cmd: nat, off: nat)
    requires Accepts(m, cmd, off)
    ensures StartsAt(Sought(cmd, off), Retained(m.log), SeekTo(m, cmd, off, true, 0).2)
  {
    var w := Retained(m.log);
    FlattenSplit(w, cmd);
    assert w[cmd..][0] == w[cmd];
    assert Flatten(w[cmd..]) == w[cmd] + Flatten(w[cmd..][1..]);
  }

  /** The message ends up at the end of a packet, if it is committed. */
  lemma WriteIsGood(s: Shared, t: Tid, msg: seq<Byte>, env: WriteEnv)
    requires Does(s, t, Got(msg), WriteMessage(env)).Some?
    ensures var (s', pc') := Does(s, t, Got(msg), WriteMessage(env)).value;
            Good(pc', s'.dev.log)
  {
    var packet := s.dev.pending + msg;
    assert packet[|packet| - |msg|..] == msg;
  }

  /** A reply that begins has sent nothing yet. */
  lemma BeginIsGood(r: Receipt, log: seq<Packet>, start: nat)
    requires ReceiptGood(r, log, |log|) && StartsAt(r, Retained(log), start)
    ensures Good(Replying(r, |log|, start, start, []), log)
  {
  }

  lemma StepIsGood(s: Shared, t: Tid, pc: Pc, a: Act)
    requires Good(pc, s.dev.log) && Does(s, t, pc, a).Some?
    ensures var (s', pc') := Does(s, t, pc, a).value; Good(pc', s'.dev.log)
  {
    if pc.Replying? {
      SendIsGood(s, t, pc, a);
    } else if pc.Got? && a.WriteMessage? {
      WriteIsGood(s, t, pc.msg, a.env);
    } else if pc.Got? && a.SeekAndReply? {
      if Accepts(s.dev, a.cmd, a.off) {
        SeekIsGood(s.dev, a.cmd, a.off);
        BeginIsGood(Sought(a.cmd, a.off), s.dev.log, SeekTo(s.dev, a.cmd, a.off, true, 0).2);
      }
    } else if pc.Between? && a.LockToReply? && a.opens {
      BeginIsGood(pc.receipt, s.dev.log, 0);
    }
  }
}
