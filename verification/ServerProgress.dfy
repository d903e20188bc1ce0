/** That connections can be served to their end, what they then leave behind, and
    what stops the server. */
module ServerProgress {
  import opened Bytes
  import opened PacketLog
  import opened CircularBuffer
  import opened Receiver
  import opened ServerProtocol
  import opened ServerRuns
  import opened ServerHistory

  /** The state after the steps, if all of them can be taken. */
  function Play(s: Server, es: seq<Step>): Option<Server>
    decreases |es|
  {
    if es == [] then Some(s)
    else
      match Next(s, es[0])
      case None => None
      case Some(s') => Play(s', es[1..])
  }

  lemma {:induction false} PlayConcat(s: Server, a: seq<Step>, b: seq<Step>)
    requires Play(s, a).Some?
    ensures Play(s, a + b) == Play(Play(s, a).value, b)
    decreases |a|
  {
    hide Next;
    if a == [] {
      assert a + b == b;
    } else {
      PlayConcat(Next(s, a[0]).value, a[1..], b);
      assert (a + b)[1..] == a[1..] + b;
    }
  }

  /** Thread `t` alone gets from `s` to `s'`. */
  ghost predicate Alone(s: Server, t: Tid, es: seq<Step>, s': Server) {
    Play(s, es) == Some(s') && forall i :: 0 <= i < |es| ==> es[i].t == t
  }

  lemma Still(s: Server, t: Tid)
    ensures Alone(s, t, [], s)
  {
  }

  /** One step more. */
  lemma Then(s: Server, t: Tid, es: seq<Step>, s1: Server, act: Act, sh: Shared, pc: Pc)
    returns (es': seq<Step>, s': Server)
    requires Alone(s, t, es, s1) && Does(s1.shared, t, s1.At(t), act) == Some((sh, pc))
    ensures s' == Server(sh, s1.threads[t := pc]) && Alone(s, t, es', s')
  {
    hide Does;
    var e := Step(t, act);
    s' := Server(sh, s1.threads[t := pc]);
    es' := es + [e];
    PlayConcat(s, es, [e]);
    assert Next(s1, e) == Some(s') && [e][1..] == [];
    assert Play(s', []) == Some(s');
  }

  lemma AndThen(s: Server, t: Tid, a: seq<Step>, s1: Server, b: seq<Step>, s2: Server)
    requires Alone(s, t, a, s1) && Alone(s1, t, b, s2)
    ensures Alone(s, t, a + b, s2)
  {
    hide Play;
    PlayConcat(s, a, b);
  }

  /** Nobody but `t` is touched, and `t` is at `pc`. */
  ghost predicate Reaches(s: Server, t: Tid, s': Server, sh: Shared, pc: Pc) {
    s' == Server(sh, s.threads[t := pc])
  }

  function RestAt(m: Model, pos: nat): seq<Byte> {
    var all := Flatten(Retained(m.log));
    if pos <= |all| then all[pos..] else []
  }

  /** What one read that can be copied does to a reply. */
  lemma SendStep(s: Shared, t: Tid, pc: Pc, count: nat)
    requires pc.Replying? && !s.dev.wedged && 0 < count
    ensures var all := Flatten(Retained(s.dev.log));
            var (_, d, pos') := ReadFrom(s.dev, pc.pos, count, true);
            && (pc.pos < |all| ==>
                  && pc.pos < pos' <= |all|
                  && pc.sent + d + RestAt(s.dev, pos') == pc.sent + RestAt(s.dev, pc.pos)
                  && Does(s, t, pc, SendSome(count, true)) ==
                       Some((s, Replying(pc.receipt, pc.seen, pc.start, pos', pc.sent + d))))
            && (|all| <= pc.pos ==>
                  && RestAt(s.dev, pc.pos) == []
                  && Does(s, t, pc, SendSome(count, true)) ==
                       Some((s, Replied(pc.receipt, pc.seen, pc.start, pc.sent, true))))
  {
    hide Flatten, Retained, RestOfPacket;
    var all := Flatten(Retained(s.dev.log));
    var (_, d, pos') := ReadFrom(s.dev, pc.pos, count, true);
    if pc.pos < |all| {
      SliceAndNext(all, pc.pos, pos', |all|);
      assert all[pc.pos..|all|] == all[pc.pos..] && all[pos'..|all|] == all[pos'..];
      assert pc.sent + d + all[pos'..] == pc.sent + (d + all[pos'..]);
    }
  }

  /** A reply can be read to the end, and then all that was left is sent. */
  lemma {:induction false} ReplyCompletes(s: Server, t: Tid, count: nat) returns (es: seq<Step>, s': Server)
    requires s.At(t).Replying? && !s.shared.dev.wedged && 0 < count
    ensures Alone(s, t, es, s')
    ensures var pc := s.At(t);
            Reaches(s, t, s', s.shared, Replied(pc.receipt, pc.seen, pc.start, pc.sent + RestAt(s.shared.dev, pc.pos), true))
    decreases |Flatten(Retained(s.shared.dev.log))| - s.At(t).pos
  {
    hide Flatten, Retained, Does, RestAt, ReadFrom, Alone;
    var pc, all := s.At(t), Flatten(Retained(s.shared.dev.log));
    SendStep(s.shared, t, pc, count);
    Still(s, t);
    if pc.pos < |all| {
      var (_, d, pos') := ReadFrom(s.shared.dev, pc.pos, count, true);
      var a, s1 := Then(s, t, [], s, SendSome(count, true), s.shared, Replying(pc.receipt, pc.seen, pc.start, pos', pc.sent + d));
      var b;
      b, s' := ReplyCompletes(s1, t, count);
      AndThen(s, t, a, s1, b, s');
      es := a + b;
    } else {
      es, s' := Then(s, t, [], s, SendSome(count, true), s.shared, Replied(pc.receipt, pc.seen, pc.start, pc.sent, true));
      assert pc.sent + [] == pc.sent;
    }
  }

  // ----- Whole connections -----

  /** From a free mutex to the message in hand. */
  lemma Receives(s: Server, t: Tid, msg: seq<Byte>) returns (es: seq<Step>, s': Server)
    requires s.shared.holder == None && s.At(t) == Fresh && msg != []
    ensures Alone(s, t, es, s') && Reaches(s, t, s', s.shared.(holder := Some(t)), Got(msg))
  {
    hide Alone, WriteTo, SeekTo, ReadFrom;
    Still(s, t);
    var held := s.shared.(holder := Some(t));
    es, s' := Then(s, t, [], s, LockToReceive, held, Receiving);
    es, s' := Then(s, t, es, s', FinishReceiving(msg), held, Got(msg));
  }

  /** From a reply that begins to its end. */
  lemma Replies(s: Server, t: Tid, count: nat) returns (es: seq<Step>, s': Server)
    requires s.At(t).Replying? && !s.shared.dev.wedged && 0 < count
    ensures Alone(s, t, es, s')
    ensures var pc := s.At(t);
            Reaches(s, t, s', s.shared.(holder := None),
                    Closed(pc.receipt, pc.seen, pc.start, pc.sent + RestAt(s.shared.dev, pc.pos), true))
  {
    hide Alone, WriteTo, SeekTo, ReadFrom, RestAt;
    var pc := s.At(t);
    es, s' := ReplyCompletes(s, t, count);
    var all := pc.sent + RestAt(s.shared.dev, pc.pos);
    es, s' := Then(s, t, es, s', UnlockAfterReply, s.shared.(holder := None), Closed(pc.receipt, pc.seen, pc.start, all, true));
  }

  /** A thread whose message is stored gets its reply: all that is readable. */
  lemma AnswersAfterWrite(s: Server, t: Tid, count: nat) returns (es: seq<Step>, s': Server)
    requires s.At(t).Between? && s.shared.holder == None && !s.shared.dev.wedged && 0 < count
    ensures Alone(s, t, es, s')
    ensures var log := Log(s);
            Reaches(s, t, s', s.shared, Closed(s.At(t).receipt, |log|, 0, Flatten(Retained(log)), true))
  {
    hide Alone, WriteTo, SeekTo, ReadFrom, Flatten, Retained;
    Still(s, t);
    var r, log := s.At(t).receipt, Log(s);
    var a, s1 := Then(s, t, [], s, LockToReply(true), s.shared.(holder := Some(t)), Replying(r, |log|, 0, 0, []));
    var b;
    b, s' := Replies(s1, t, count);
    AndThen(s, t, a, s1, b, s');
    es := a + b;
    assert [] + Flatten(Retained(log)) == Flatten(Retained(log));
  }

  lemma StoresMessage(s: Server, t: Tid, msg: seq<Byte>, env: WriteEnv) returns (es: seq<Step>, s': Server)
    requires s.At(t) == Got(msg) && s.shared.holder == Some(t) && !s.shared.dev.wedged && !(SEEK_PREFIX <= msg)
    ensures Alone(s, t, es, s')
    ensures var m := s.shared.dev;
            Reaches(s, t, s', Shared(WriteTo(m, msg, env).0, None),
                    Between(if Commits(m, msg, env) then Committed(msg, |m.log|) else Uncommitted))
  {
    hide Alone, WriteTo, SeekTo, ReadFrom, Commits, SEEK_PREFIX;
    Still(s, t);
    var m := s.shared.dev;
    ReceiptIff(s.shared, t, msg, env);
    var r := if Commits(m, msg, env) then Committed(msg, |m.log|) else Uncommitted;
    es, s' := Then(s, t, [], s, WriteMessage(env), s.shared.(dev := WriteTo(m, msg, env).0), Wrote(r));
    es, s' := Then(s, t, es, s', UnlockAfterWrite, Shared(WriteTo(m, msg, env).0, None), Between(r));
  }

  /** Whenever the mutex is free and the device works, a connection can be served to
      its end: its message is written to the device once, it is answered with all that
      is readable then, the mutex is free again, and no other thread is touched. */
  lemma ConnectionIsServed(s: Server, t: Tid, msg: seq<Byte>, env: WriteEnv, count: nat)
    returns (es: seq<Step>, s': Server)
    requires s.shared.holder == None && !s.shared.dev.wedged && s.At(t) == Fresh
    requires msg != [] && !(SEEK_PREFIX <= msg) && 0 < count
    ensures Alone(s, t, es, s')
    ensures var m, m' := s.shared.dev, WriteTo(s.shared.dev, msg, env).0;
            var receipt := if Commits(m, msg, env) then Committed(msg, |m.log|) else Uncommitted;
            Reaches(s, t, s', Shared(m', None), Closed(receipt, |m'.log|, 0, Flatten(Retained(m'.log)), true))
  {
    hide Alone, WriteTo, Does, Flatten, Retained, Commits, SEEK_PREFIX;
    var m := s.shared.dev;
    WriteKeepsWorking(m, msg, env);
    var a, s1 := Receives(s, t, msg);
    var b, s2 := StoresMessage(s1, t, msg, env);
    AndThen(s, t, a, s1, b, s2);
    var c;
    c, s' := AnswersAfterWrite(s2, t, count);
    AndThen(s, t, a + b, s2, c, s');
    es := a + b + c;
  }

  lemma WriteKeepsWorking(m: Model, msg: seq<Byte>, env: WriteEnv)
    ensures WriteTo(m, msg, env).0.wedged == m.wedged
  {
  }

  /** The same for a seek that names a readable byte: the device stays as it is, and
      the answer is the rest of that packet and the packets behind it. */
  lemma SeekIsAnswered(s: Server, t: Tid, msg: seq<Byte>, cmd: U32, off: U32, count: nat)
    returns (es: seq<Step>, s': Server)
    requires s.shared.holder == None && !s.shared.dev.wedged && s.At(t) == Fresh
    requires SEEK_PREFIX <= msg && Accepts(s.shared.dev, cmd, off) && 0 < count
    ensures Alone(s, t, es, s')
    ensures var w := Retained(Log(s));
            Reaches(s, t, s', s.shared, Closed(Sought(cmd, off), |Log(s)|, |Flatten(w[..cmd])| + off,
                                               w[cmd][off..] + Flatten(w[cmd + 1..]), true))
  {
    hide Alone, WriteTo, ReadFrom, Flatten, Retained;
    var w := Retained(Log(s));
    var a, s1 := Receives(s, t, msg);
    var pos := |Flatten(w[..cmd])| + off;
    var s2;
    a, s2 := Then(s, t, a, s1, SeekAndReply(cmd, off), s1.shared, Replying(Sought(cmd, off), |Log(s)|, pos, pos, []));
    var b;
    b, s' := Replies(s2, t, count);
    AndThen(s, t, a, s2, b, s');
    es := a + b;
    RestOfSeek(s.shared.dev, cmd, off);
  }

  lemma RestOfSeek(m: Model, cmd: nat, off: nat)
    requires Accepts(m, cmd, off)
    ensures var w := Retained(m.log);
            [] + RestAt(m, |Flatten(w[..cmd])| + off) == w[cmd][off..] + Flatten(w[cmd + 1..])
  {
    var w := Retained(m.log);
    FlattenSplit(w, cmd);
    assert w[cmd..][0] == w[cmd] && w[cmd..][1..] == w[cmd + 1..];
    assert Flatten(w[cmd..]) == w[cmd] + Flatten(w[cmd + 1..]);
    hide Flatten, Retained;
    var pos := |Flatten(w[..cmd])| + off;
    assert Flatten(w)[pos..] == (w[cmd] + Flatten(w[cmd + 1..]))[off..];
  }

  /** A seek that fails is not answered, and the mutex is free again; only one that
      names no readable byte leaves the device mutex locked. */
  lemma SeekFailsCleanly(s: Server, t: Tid, msg: seq<Byte>, cmd: U32, off: U32, copyOk: bool)
    returns (es: seq<Step>, s': Server)
    requires s.shared.holder == None && !s.shared.dev.wedged && s.At(t) == Fresh
    requires SEEK_PREFIX <= msg && (copyOk ==> !Accepts(s.shared.dev, cmd, off))
    ensures Alone(s, t, es, s')
    ensures Reaches(s, t, s', Shared(s.shared.dev.(wedged := copyOk), None), Gone)
  {
    hide Alone, WriteTo, ReadFrom, Flatten, Retained, Accepts;
    es, s' := Receives(s, t, msg);
    var m := s.shared.dev.(wedged := copyOk);
    if copyOk {
      es, s' := Then(s, t, es, s', SeekAndReply(cmd, off), Shared(m, Some(t)), Refused);
    } else {
      es, s' := Then(s, t, es, s', FaultInSeek, Shared(m, Some(t)), Refused);
    }
    es, s' := Then(s, t, es, s', FirstUnlock, Shared(m, None), RefusedOnce);
    es, s' := Then(s, t, es, s', SecondUnlock, Shared(m, None), Gone);
  }

  /** When the device cannot be opened, nothing is written, and the mutex is free again. */
  lemma OpenFailsCleanly(s: Server, t: Tid, msg: seq<Byte>) returns (es: seq<Step>, s': Server)
    requires s.shared.holder == None && s.At(t) == Fresh && msg != []
    ensures Alone(s, t, es, s') && Reaches(s, t, s', s.shared, Gone)
  {
    hide Alone, WriteTo, ReadFrom, SeekTo;
    es, s' := Receives(s, t, msg);
    var act := if SEEK_PREFIX <= msg then GiveUpSeek else FailToOpen;
    es, s' := Then(s, t, es, s', act, s.shared, Gone);
  }

  /** When it cannot be opened again, the message stays stored and is not answered. */
  lemma ReopenFailsCleanly(s: Server, t: Tid) returns (es: seq<Step>, s': Server)
    requires s.At(t).Between? && s.shared.holder == None
    ensures Alone(s, t, es, s') && Reaches(s, t, s', s.shared, Gone)
  {
    hide Alone, WriteTo, ReadFrom, SeekTo;
    Still(s, t);
    es, s' := Then(s, t, [], s, LockToReply(false), s.shared, Gone);
  }

  /** A read that fails ends the reply where it is, and the reply is not whole. */
  lemma ReadFailsCleanly(s: Server, t: Tid, count: nat) returns (es: seq<Step>, s': Server)
    requires s.At(t).Replying? && !s.shared.dev.wedged && 0 < count
    requires s.At(t).pos < |Flatten(Retained(Log(s)))|
    ensures Alone(s, t, es, s')
    ensures var pc := s.At(t);
            Reaches(s, t, s', s.shared.(holder := None), Closed(pc.receipt, pc.seen, pc.start, pc.sent, false))
  {
    hide Alone, WriteTo, SeekTo, Flatten, Retained;
    Still(s, t);
    var pc := s.At(t);
    es, s' := Then(s, t, [], s, SendSome(count, false), s.shared, Replied(pc.receipt, pc.seen, pc.start, pc.sent, false));
    es, s' := Then(s, t, es, s', UnlockAfterReply, s.shared.(holder := None), Closed(pc.receipt, pc.seen, pc.start, pc.sent, false));
  }

  // ----- No thread is stuck -----

  /** No connection ended without having sent anything. */
  ghost predicate NoEmptyMessage(steps: seq<Step>) {
    forall i :: 0 <= i < |steps| ==> steps[i].act != FinishReceiving([])
  }

  /** Whoever the mutex is locked for is inside. */
  ghost predicate HolderInside(s: Server) {
    !s.shared.dev.wedged && s.shared.holder.Some? ==> InCritical(s.At(s.shared.holder.value))
  }

  lemma StepKeepsHolder(s: Server, e: Step)
    requires Exclusive(s) && HolderInside(s) && Next(s, e).Some? && e.act != FinishReceiving([])
    requires !Theft(s, e)
    ensures HolderInside(Next(s, e).value)
  {
    hide WriteTo, ReadFrom, Flatten, Retained, Accepts;
  }

  lemma {:induction false} HolderInsideInRun(states: seq<Server>, steps: seq<Step>, n: nat)
    requires IsRun(states, steps) && NoTheft(states, steps) && NoEmptyMessage(steps) && n <= |steps|
    ensures HolderInside(states[n]) && Exclusive(states[n])
  {
    hide Next, Theft, Exclusive;
    ExclusiveUntilTheft(states, steps, n);
    if n == 0 {
    } else {
      HolderInsideInRun(states, steps, n - 1);
      StepOf(states, steps, n - 1);
      StepKeepsHolder(states[n - 1], steps[n - 1]);
    }
  }

  predicate IsOver(pc: Pc) {
    pc.Gone? || (pc.Closed? && pc.whole)
  }

  /** Where a thread that has left its critical section can be. */
  predicate Outside(pc: Pc) {
    pc.Between? || IsOver(pc)
  }

  /** A thread that is inside can leave, and then the mutex is free. */
  lemma {:induction false} HolderLeaves(s: Server, t: Tid) returns (es: seq<Step>, s': Server)
    requires s.shared.holder == Some(t) && InCritical(s.At(t)) && !s.shared.dev.wedged
    ensures Alone(s, t, es, s') && s'.shared.holder == None && !s'.shared.dev.wedged
    ensures Outside(s'.At(t)) || (s.At(t).Replied? && s'.At(t).Closed?)
    ensures forall u :: u != t ==> s'.At(u) == s.At(u)
  {
    hide Alone, ReadFrom, Flatten, Retained, RestAt;
    Still(s, t);
    var pc, free := s.At(t), s.shared.(holder := None);
    match pc
    case Receiving =>
      es, s' := Then(s, t, [], s, FinishReceiving([NEWLINE]), s.shared, Got([NEWLINE]));
      es, s' := StoreAndLeave(s, t, es, s', [NEWLINE]);
    case Got(msg) =>
      if SEEK_PREFIX <= msg {
        es, s' := Then(s, t, [], s, GiveUpSeek, free, Gone);
      } else {
        es, s' := StoreAndLeave(s, t, [], s, msg);
      }
    case Wrote(r) =>
      es, s' := Then(s, t, [], s, UnlockAfterWrite, free, Between(r));
    case Replying(_, _, _, _, _) =>
      es, s' := Replies(s, t, 1);
    case Replied(r, seen, start, sent, whole) =>
      es, s' := Then(s, t, [], s, UnlockAfterReply, free, Closed(r, seen, start, sent, whole));
    case Refused =>
      es, s' := Then(s, t, [], s, FirstUnlock, free, RefusedOnce);
      es, s' := Then(s, t, es, s', SecondUnlock, free, Gone);
    case _ =>
      assert false;
  }

  lemma StoreAndLeave(s: Server, t: Tid, es: seq<Step>, s1: Server, msg: seq<Byte>) returns (es': seq<Step>, s': Server)
    requires Alone(s, t, es, s1) && s1.At(t) == Got(msg) && !(SEEK_PREFIX <= msg)
    requires s1.shared.holder == Some(t) && !s1.shared.dev.wedged
    ensures Alone(s, t, es', s') && s'.shared.holder == None && !s'.shared.dev.wedged && s'.At(t).Between?
    ensures forall u :: u != t ==> s'.At(u) == s1.At(u)
  {
    hide Alone, WriteTo, Commits, SEEK_PREFIX;
    WriteKeepsWorking(s1.shared.dev, msg, ALL_OK);
    var b;
    b, s' := StoresMessage(s1, t, msg, ALL_OK);
    AndThen(s, t, es, s1, b, s');
    es' := es + b;
  }

  /** When the mutex is free, any thread can go on to its end. */
  lemma {:induction false} CanGoOn(s: Server, t: Tid) returns (es: seq<Step>, s': Server)
    requires s.shared.holder == None && !s.shared.dev.wedged && !InCritical(s.At(t))
    ensures Play(s, es) == Some(s') && s'.shared.holder == None && !s'.shared.dev.wedged
    ensures s'.At(t).Closed? || s'.At(t).Gone?
  {
    hide Play, WriteTo, ReadFrom, Flatten, Retained, Commits;
    Still(s, t);
    if s.At(t).Fresh? {
      WriteKeepsWorking(s.shared.dev, [NEWLINE], ALL_OK);
      es, s' := ConnectionIsServed(s, t, [NEWLINE], ALL_OK, 1);
    } else if s.At(t).Between? {
      es, s' := AnswersAfterWrite(s, t, 1);
    } else if s.At(t).RefusedOnce? {
      es, s' := Then(s, t, [], s, SecondUnlock, s.shared, Gone);
    } else {
      es, s' := [], s;
    }
  }

  /** As long as the device works, nothing was stolen and no connection was empty,
      the server cannot run into a state from which some thread has no way to its
      end: first the holder of the mutex leaves, and then the thread goes on. */
  lemma {:induction false} EveryThreadCanFinish(states: seq<Server>, steps: seq<Step>, t: Tid)
    returns (es: seq<Step>, s': Server)
    requires IsRun(states, steps) && NoTheft(states, steps) && NoEmptyMessage(steps)
    requires !states[|steps|].shared.dev.wedged
    ensures Play(states[|steps|], es) == Some(s') && s'.shared.holder == None && !s'.shared.dev.wedged
    ensures s'.At(t).Closed? || s'.At(t).Gone?
  {
    hide Next, Theft, Play, NoEmptyMessage;
    var s := states[|steps|];
    HolderInsideInRun(states, steps, |steps|);
    if s.shared.holder.Some? {
      var u := s.shared.holder.value;
      var a, s1 := HolderLeaves(s, u);
      NobodyInside(s, u);
      var b;
      b, s' := CanGoOn(s1, t);
      PlayConcat(s, a, b);
      es := a + b;
    } else {
      NobodyElse(s, t);
      es, s' := CanGoOn(s, t);
    }
  }

  lemma NobodyInside(s: Server, u: Tid)
    requires Exclusive(s) && !s.shared.dev.wedged && s.shared.holder == Some(u)
    ensures forall v :: v != u ==> !InCritical(s.At(v))
  {
  }

  lemma NobodyElse(s: Server, t: Tid)
    requires Exclusive(s) && !s.shared.dev.wedged && s.shared.holder == None
    ensures !InCritical(s.At(t))
  {
  }

  // ----- What stops the server -----

  /** The only step that any thread can take is to steal the mutex. */
  ghost predicate OnlyTheft(s: Server) {
    forall e :: Next(s, e).Some? ==> Theft(s, e)
  }

  /** A connection that sends nothing keeps the mutex: after it, no thread can take
      any step, unless one steals the mutex. */
  lemma {:induction false} EmptyMessageStopsTheServer(states: seq<Server>, steps: seq<Step>, j: nat)
    requires IsRun(states, steps) && NoTheft(states, steps) && j < |steps|
    requires steps[j].act == FinishReceiving([]) && !states[j].shared.dev.wedged
    ensures j + 1 == |steps|
    ensures OnlyTheft(states[j + 1])
  {
    hide Does, Exclusive, Theft;
    var s, s' := states[j], states[j + 1];
    StepOf(states, steps, j);
    ExclusiveUntilTheft(states, steps, j);
    ExclusiveUntilTheft(states, steps, j + 1);
    EmptyMessageStep(s, steps[j]);
    forall e | Next(s', e).Some? ensures Theft(s', e) {
      OnlyTheftIsLeft(s', steps[j].t, e);
    }
    if j + 1 < |steps| {
      StepOf(states, steps, j + 1);
    }
  }

  lemma EmptyMessageStep(s: Server, e: Step)
    requires Next(s, e).Some? && e.act == FinishReceiving([]) && Exclusive(s) && !s.shared.dev.wedged
    ensures Next(s, e).value.shared == s.shared && s.shared.holder == Some(e.t) && Next(s, e).value.At(e.t) == Gone
  {
    hide WriteTo, ReadFrom, SeekTo;
  }

  lemma OnlyTheftIsLeft(s: Server, t: Tid, e: Step)
    requires Exclusive(s) && !s.shared.dev.wedged && s.shared.holder == Some(t) && s.At(t) == Gone
    requires Next(s, e).Some?
    ensures Theft(s, e)
  {
    hide WriteTo, ReadFrom, SeekTo;
    NobodyInside(s, t);
  }
}
