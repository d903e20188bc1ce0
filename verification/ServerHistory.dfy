/** What the messages of a run of the server leave in the device. */
module ServerHistory {
  import opened Bytes
  import opened PacketLog
  import opened CircularBuffer
  import opened Receiver
  import opened ServerProtocol
  import opened ServerRuns
  import opened FailingWrites

  /** A message that a thread has got is one that it received. */
  lemma {:induction false} MessageWasReceived(states: seq<Server>, steps: seq<Step>, t: Tid, n: nat) returns (j: nat)
    requires IsRun(states, steps) && n <= |steps| && states[n].At(t).Got?
    ensures j < n && steps[j] == Step(t, FinishReceiving(states[n].At(t).msg))
  {
    hide Next;
    StepOf(states, steps, n - 1);
    var s, e := states[n - 1], steps[n - 1];
    GotStep(s, e, t);
    if s.At(t) == states[n].At(t) {
      j := MessageWasReceived(states, steps, t, n - 1);
    } else {
      j := n - 1;
    }
  }

  lemma GotStep(s: Server, e: Step, t: Tid)
    requires Next(s, e).Some? && Next(s, e).value.At(t).Got?
    ensures var pc := Next(s, e).value.At(t); s.At(t) == pc || e == Step(t, FinishReceiving(pc.msg))
  {
    hide WriteTo, ReadFrom, SeekTo;
  }

  /** Whether a write of `msg` commits a packet. */
  predicate Commits(m: Model, msg: seq<Byte>, env: WriteEnv) {
    && NEWLINE in m.pending + msg
    && (NeedsRoom(m, |msg|) ==> env.growOk) && env.copyOk && env.commitOk
  }

  /** A thread with a message can always store it while the device works; it counts
      it as its own packet exactly when one was committed, and that packet is what
      was pending with the message behind it. */
  lemma ReceiptIff(s: Shared, t: Tid, msg: seq<Byte>, env: WriteEnv)
    requires !s.dev.wedged && !(SEEK_PREFIX <= msg)
    ensures var m := s.dev;
            var committed := Commits(m, msg, env);
            && Does(s, t, Got(msg), WriteMessage(env)) ==
                 Some((s.(dev := WriteTo(m, msg, env).0),
                       Wrote(if committed then Committed(msg, |m.log|) else Uncommitted)))
            && WriteTo(m, msg, env).0.log == m.log + (if committed then [m.pending + msg] else [])
  {
  }

  /** What step `e` writes to the device, in a history of writes. */
  function WrittenBy(s: Server, e: Step): seq<Item> {
    if e.act.WriteMessage? && s.At(e.t).Got? then ItemOf(s.shared.dev, s.At(e.t).msg, e.act.env) else []
  }

  /** The history of the first `n` steps: what was pending at first, and the messages. */
  function History(states: seq<Server>, steps: seq<Step>, n: nat): seq<Item>
    requires |states| == |steps| + 1 && n <= |steps|
  {
    if n == 0 then [Took(states[0].shared.dev.pending, false)]
    else History(states, steps, n - 1) + WrittenBy(states[n - 1], steps[n - 1])
  }

  lemma NoOtherWrites(s: Server, e: Step)
    requires Next(s, e).Some?
    ensures var m, m' := s.shared.dev, Next(s, e).value.shared.dev;
            if e.act.WriteMessage? then s.At(e.t).Got? && m' == WriteTo(m, s.At(e.t).msg, e.act.env).0
            else m'.log == m.log && m'.pending == m.pending
  {
    hide WriteTo, ReadFrom, Flatten, Retained;
  }

  /** In every run, whatever fails in it, the device holds what its history of
      messages makes of it: nothing else reaches it and nothing is left out. */
  lemma {:induction false} RunStoresTheMessages(states: seq<Server>, steps: seq<Step>, n: nat)
    requires IsRun(states, steps) && n <= |steps|
    ensures Log(states[n]) == Log(states[0]) + Packets(History(states, steps, n))
    ensures states[n].shared.dev.pending == Rest(History(states, steps, n))
  {
    hide Packets, Rest, Next, WriteTo, ItemOf;
    if n == 0 {
      NoItems();
      FirstItem(states[0].shared.dev.pending);
    } else {
      RunStoresTheMessages(states, steps, n - 1);
      StepOf(states, steps, n - 1);
      var s, e := states[n - 1], steps[n - 1];
      NoOtherWrites(s, e);
      if e.act.WriteMessage? {
        WriteOnHistory(s.shared.dev, s.At(e.t).msg, e.act.env, Log(states[0]), History(states, steps, n - 1));
      } else {
        assert History(states, steps, n) == History(states, steps, n - 1);
      }
    }
  }

  lemma FirstItem(p: seq<Byte>)
    ensures Packets([Took(p, false)]) == [] && Rest([Took(p, false)]) == p
  {
    hide Packets, Rest;
    NoItems();
    PacketsSnoc([], Took(p, false));
    assert [] + [Took(p, false)] == [Took(p, false)] && [] + p == p;
  }

  /** The messages of the first `n` steps, laid end to end. */
  function Written(states: seq<Server>, steps: seq<Step>, n: nat): seq<Byte>
    requires |states| == |steps| + 1 && n <= |steps|
  {
    if n == 0 then []
    else
      var s, e := states[n - 1], steps[n - 1];
      Written(states, steps, n - 1) + if e.act.WriteMessage? && s.At(e.t).Got? then s.At(e.t).msg else []
  }

  /** All that the device ever committed, and what is pending. */
  function Held(s: Server): seq<Byte> {
    Flatten(Log(s)) + s.shared.dev.pending
  }

  ghost predicate WritesSucceed(steps: seq<Step>) {
    forall i :: 0 <= i < |steps| && steps[i].act.WriteMessage? ==> steps[i].act.env == ALL_OK
  }

  /** When no write fails, every message is in the device once, in the order in
      which they were written. */
  lemma {:induction false} MessagesInOrder(states: seq<Server>, steps: seq<Step>, n: nat)
    requires IsRun(states, steps) && n <= |steps| && WritesSucceed(steps)
    ensures Held(states[n]) == Held(states[0]) + Written(states, steps, n)
  {
    hide Next, WriteTo, Held;
    if n == 0 {
    } else {
      MessagesInOrder(states, steps, n - 1);
      StepOf(states, steps, n - 1);
      var s, e := states[n - 1], steps[n - 1];
      NoOtherWrites(s, e);
      if e.act.WriteMessage? {
        HeldAfterWrite(s, states[n], s.At(e.t).msg);
        var before := Written(states, steps, n - 1);
        assert Held(states[0]) + before + s.At(e.t).msg == Held(states[0]) + (before + s.At(e.t).msg);
      } else {
        SameHeld(s, states[n]);
      }
    }
  }

  lemma HeldAfterWrite(s: Server, s': Server, msg: seq<Byte>)
    requires s'.shared.dev == WriteTo(s.shared.dev, msg, ALL_OK).0
    ensures Held(s') == Held(s) + msg
  {
    hide Flatten;
    WriteConserves(s.shared.dev, msg, ALL_OK);
  }

  lemma SameHeld(s: Server, s': Server)
    requires Log(s') == Log(s) && s'.shared.dev.pending == s.shared.dev.pending
    ensures Held(s') == Held(s)
  {
  }
}
