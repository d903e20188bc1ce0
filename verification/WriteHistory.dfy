/** What a history of writes leaves in the log, said without running it. */
module WriteHistory {
  import opened Bytes
  import opened PacketLog

  predicate HasNewline(chunks: seq<seq<Byte>>) {
    exists i :: 0 <= i < |chunks| && NEWLINE in chunks[i]
  }

  function FirstWithNewline(chunks: seq<seq<Byte>>): (k: nat)
    requires HasNewline(chunks)
    ensures k < |chunks| && NEWLINE in chunks[k]
    ensures forall i :: 0 <= i < k ==> NEWLINE !in chunks[i]
  {
    if NEWLINE in chunks[0] then 0
    else
      assert exists i :: 0 <= i < |chunks[1..]| && NEWLINE in chunks[1..][i] by {
        var i :| 0 <= i < |chunks| && NEWLINE in chunks[i];
        assert NEWLINE in chunks[1..][i - 1];
      }
      1 + FirstWithNewline(chunks[1..])
  }

  /** The packets: the history cut behind every chunk that holds a newline. */
  function Cut(chunks: seq<seq<Byte>>): seq<Packet>
    decreases |chunks|
  {
    if !HasNewline(chunks) then []
    else
      var k := FirstWithNewline(chunks);
      [Flatten(chunks[..k + 1])] + Cut(chunks[k + 1..])
  }

  /** The bytes behind the last cut. */
  function Tail(chunks: seq<seq<Byte>>): seq<Byte>
    decreases |chunks|
  {
    if !HasNewline(chunks) then Flatten(chunks)
    else Tail(chunks[FirstWithNewline(chunks) + 1..])
  }

  lemma {:induction false} FirstIs(chunks: seq<seq<Byte>>, k: nat)
    requires k < |chunks| && NEWLINE in chunks[k]
    requires forall i :: 0 <= i < k ==> NEWLINE !in chunks[i]
    ensures HasNewline(chunks) && FirstWithNewline(chunks) == k
  {
    var j := FirstWithNewline(chunks);
    assert !(j < k) && !(k < j);
  }

  lemma {:induction false} FirstCut(chunks: seq<seq<Byte>>, k: nat)
    requires k < |chunks| && NEWLINE in chunks[k]
    requires forall i :: 0 <= i < k ==> NEWLINE !in chunks[i]
    ensures Cut(chunks) == [Flatten(chunks[..k + 1])] + Cut(chunks[k + 1..])
    ensures Tail(chunks) == Tail(chunks[k + 1..])
  {
    hide HasNewline, FirstWithNewline, Flatten;
    FirstIs(chunks, k);
  }

  lemma {:induction false} NoCut(chunks: seq<seq<Byte>>)
    requires forall i :: 0 <= i < |chunks| ==> NEWLINE !in chunks[i]
    ensures Cut(chunks) == [] && Tail(chunks) == Flatten(chunks)
  {
  }

  /** Cutting loses nothing, every packet holds a newline, and the tail none. */
  lemma {:induction false} CutConserves(chunks: seq<seq<Byte>>)
    ensures Flatten(Cut(chunks)) + Tail(chunks) == Flatten(chunks)
    ensures forall p :: p in Cut(chunks) ==> NEWLINE in p
    ensures NEWLINE !in Tail(chunks)
    decreases |chunks|
  {
    hide Cut, Tail, Flatten;
    FlattenMember(chunks, NEWLINE);
    if HasNewline(chunks) {
      var k := FirstWithNewline(chunks);
      var head, rest := chunks[..k + 1], chunks[k + 1..];
      FirstCut(chunks, k);
      CutConserves(rest);
      FlattenSplit(chunks, k + 1);
      FlattenMember(head, NEWLINE);
      assert NEWLINE in head[k];
      FlattenConcat([Flatten(head)], Cut(rest));
      FlattenOne(Flatten(head));
    } else {
      NoCut(chunks);
      FlattenOne([]);
    }
  }

  /** How one more chunk changes the cut. */
  lemma {:induction false} CutSnoc(chunks: seq<seq<Byte>>, c: seq<Byte>)
    ensures NEWLINE in c ==>
      Cut(chunks + [c]) == Cut(chunks) + [Tail(chunks) + c] && Tail(chunks + [c]) == []
    ensures NEWLINE !in c ==>
      Cut(chunks + [c]) == Cut(chunks) && Tail(chunks + [c]) == Tail(chunks) + c
    decreases |chunks|
  {
    hide Cut, Tail, Flatten;
    var longer := chunks + [c];
    if HasNewline(chunks) {
      var k := FirstWithNewline(chunks);
      CutSnoc(chunks[k + 1..], c);
      FirstCut(chunks, k);
      FirstCut(longer, k);
      assert longer[k + 1..] == chunks[k + 1..] + [c];
      assert longer[..k + 1] == chunks[..k + 1];
    } else {
      NoCut(chunks);
      FlattenConcat(chunks, [c]);
      FlattenOne(c);
      if NEWLINE in c {
        FirstCut(longer, |chunks|);
        assert longer[..|chunks| + 1] == longer;
        assert longer[|chunks| + 1..] == [];
        NoCut([]);
      } else {
        NoCut(longer);
      }
    }
  }

  /** The model after writing the chunks one by one, nothing failing. */
  function WriteAll(m: Model, chunks: seq<seq<Byte>>): Model
    decreases |chunks|
  {
    if chunks == [] then m
    else WriteTo(WriteAll(m, chunks[..|chunks| - 1]), chunks[|chunks| - 1], ALL_OK).0
  }

  /** The device cuts the history: from any state without an uncut newline, the
      log grows by the cut of the pending bytes and the new chunks, and the tail
      stays pending. */
  lemma {:induction false} WritesCutTheHistory(m: Model, chunks: seq<seq<Byte>>)
    requires NEWLINE !in m.pending
    ensures var m' := WriteAll(m, chunks);
            && m'.log == m.log + Cut([m.pending] + chunks)
            && m'.pending == Tail([m.pending] + chunks)
            && NEWLINE !in m'.pending
            && m'.wedged == m.wedged
    decreases |chunks|
  {
    hide Cut, Tail, Flatten;
    var whole := [m.pending] + chunks;
    CutConserves(whole);
    if chunks == [] {
      FlattenOne(m.pending);
      assert whole == [m.pending];
      NoCut(whole);
    } else {
      var before, c := chunks[..|chunks| - 1], chunks[|chunks| - 1];
      WritesCutTheHistory(m, before);
      CutConserves([m.pending] + before);
      CutSnoc([m.pending] + before, c);
      assert whole == [m.pending] + before + [c];
    }
  }

  /** Chunks that each hold a newline become the packets of the log. */
  lemma {:induction false} PacketsWritten(ps: seq<Packet>)
    requires forall i :: 0 <= i < |ps| ==> NEWLINE in ps[i]
    ensures var m := WriteAll(EMPTY, ps);
            m.log == ps && m.pending == [] && !m.wedged
    decreases |ps|
  {
    if ps == [] {
    } else {
      var before, p := ps[..|ps| - 1], ps[|ps| - 1];
      PacketsWritten(before);
      assert [] + p == p && before + [p] == ps;
    }
  }

  /** A line: bytes whose only newline is the last. */
  predicate IsLine(msg: seq<Byte>) {
    |msg| > 0 && msg[|msg| - 1] == NEWLINE && NEWLINE !in msg[..|msg| - 1]
  }

  /** However a line is split into writes, it becomes one packet, the same as
      when it is written at once. */
  lemma {:induction false} SplitWritesAgree(m: Model, chunks: seq<seq<Byte>>, line: seq<Byte>)
    requires IsLine(line) && Flatten(chunks) == line
    requires NEWLINE !in m.pending
    ensures var m' := WriteAll(m, chunks);
            && m'.log == m.log + [m.pending + line] == WriteTo(m, line, ALL_OK).0.log
            && m'.pending == [] == WriteTo(m, line, ALL_OK).0.pending
  {
    hide Cut, Tail, Flatten;
    WritesCutTheHistory(m, chunks);
    var whole := [m.pending] + chunks;
    FlattenMember(chunks, NEWLINE);
    var j :| 0 <= j < |chunks| && NEWLINE in chunks[j];
    assert whole[j + 1] == chunks[j];
    var k := FirstWithNewline(whole);
    var head, rest := whole[..k + 1], whole[k + 1..];
    FlattenConcat([m.pending], chunks);
    FlattenOne(m.pending);
    FlattenSplit(whole, k + 1);
    FlattenMember(head, NEWLINE);
    assert NEWLINE in head[k];
    NewlineEndsLine(m.pending + line, Flatten(head), Flatten(rest));
    FlattenMember(rest, NEWLINE);
    FirstCut(whole, k);
    NoCut(rest);
  }

  /** Once the only newline of a line has been passed, nothing is left of it. */
  lemma {:induction false} NewlineEndsLine(line: seq<Byte>, head: seq<Byte>, rest: seq<Byte>)
    requires IsLine(line) && line == head + rest && NEWLINE in head
    ensures rest == [] && head == line
  {
    var i :| 0 <= i < |head| && head[i] == NEWLINE;
    assert forall j :: 0 <= j < |line| - 1 && j < |head| ==> line[..|line| - 1][j] == head[j];
  }

  /** What was written first is in the log first: later writes only append. */
  lemma {:induction false} WritesAppend(m: Model, chunks: seq<seq<Byte>>, k: nat)
    requires k <= |chunks|
    ensures WriteAll(m, chunks[..k]).log <= WriteAll(m, chunks).log
    decreases |chunks|
  {
    if k == |chunks| {
      assert chunks[..k] == chunks;
    } else {
      var before := chunks[..|chunks| - 1];
      WritesAppend(m, before, k);
      assert before[..k] == chunks[..k];
    }
  }

  /** The first write of a history that leaves the device with pending bytes. */
  lemma {:induction false} FirstWrite(m: Model, chunks: seq<seq<Byte>>)
    requires chunks != []
    ensures WriteAll(m, chunks[..1]) == WriteTo(m, chunks[0], ALL_OK).0
  {
    assert chunks[..1][..0] == [] && chunks[..1][0] == chunks[0];
  }

  /** Empty writes on a device with nothing pending do nothing to its log. */
  lemma {:induction false} EmptyWrites(m: Model, chunks: seq<seq<Byte>>, k: nat)
    requires k <= |chunks| && forall i :: k <= i < |chunks| ==> chunks[i] == []
    requires WriteAll(m, chunks[..k]).pending == []
    ensures WriteAll(m, chunks).log == WriteAll(m, chunks[..k]).log
    ensures WriteAll(m, chunks).pending == []
    decreases |chunks|
  {
    if k == |chunks| {
      assert chunks[..k] == chunks;
    } else {
      var before := chunks[..|chunks| - 1];
      assert before[..k] == chunks[..k];
      EmptyWrites(m, before, k);
    }
  }

  /** When a split line gives what one write gives: exactly when no newline was
      left pending by an earlier failure, or the split has the whole line in its
      first part. */
  lemma {:induction false} SplitAgreesIff(m: Model, chunks: seq<seq<Byte>>, line: seq<Byte>)
    requires IsLine(line) && Flatten(chunks) == line
    ensures chunks != []
    ensures WriteAll(m, chunks).log == WriteTo(m, line, ALL_OK).0.log
            <==> NEWLINE !in m.pending || chunks[0] == line
  {
    if NEWLINE !in m.pending {
      SplitWritesAgree(m, chunks, line);
    } else {
      FirstWrite(m, chunks);
      WritesAppend(m, chunks, 1);
      var first := m.pending + chunks[0];
      assert WriteAll(m, chunks[..1]).log == m.log + [first];
      assert WriteTo(m, line, ALL_OK).0.log == m.log + [m.pending + line];
      if chunks[0] == line {
        NothingBehind(chunks);
        EmptyWrites(m, chunks, 1);
      } else {
        OtherPacket(m.pending, chunks[0], line);
        assert WriteAll(m, chunks).log[|m.log|] == first;
      }
    }
  }

  lemma {:induction false} OtherPacket(p: seq<Byte>, a: seq<Byte>, b: seq<Byte>)
    requires a != b
    ensures p + a != p + b
  {
    assert (p + a)[|p|..] == a && (p + b)[|p|..] == b;
  }

  /** When the first chunk is everything, the others are empty. */
  lemma {:induction false} NothingBehind(chunks: seq<seq<Byte>>)
    requires chunks != [] && Flatten(chunks) == chunks[0]
    ensures forall i :: 1 <= i < |chunks| ==> chunks[i] == []
  {
    var rest := chunks[1..];
    assert Flatten(chunks) == chunks[0] + Flatten(rest);
    assert Flatten(rest) == [];
    EmptyParts(rest);
    assert forall i :: 1 <= i < |chunks| ==> chunks[i] == rest[i - 1];
  }

  lemma {:induction false} EmptyParts(ps: seq<seq<Byte>>)
    requires Flatten(ps) == []
    ensures forall i :: 0 <= i < |ps| ==> ps[i] == []
  {
    if ps == [] {
    } else {
      assert Flatten(ps) == ps[0] + Flatten(ps[1..]);
      assert |ps[0]| == 0 && |Flatten(ps[1..])| == 0;
      EmptyParts(ps[1..]);
    }
  }

  /** A newline does stay pending: one byte, written to a new device whose
      allocation for the packet fails. */
  lemma {:induction false} CommitFailureKeepsNewline()
    ensures var (m, ret) := WriteTo(EMPTY, [NEWLINE], WriteEnv(true, true, false));
            && ret == Fail(ENOMEM) && m.pending == [NEWLINE] && m.log == []
            && WriteAll(m, [[65], [NEWLINE]]).log == [[NEWLINE, 65], [NEWLINE]]
            && WriteTo(m, [65, NEWLINE], ALL_OK).0.log == [[NEWLINE, 65, NEWLINE]]
  {
    var m := WriteTo(EMPTY, [NEWLINE], WriteEnv(true, true, false)).0;
    assert m.pending == [] + [NEWLINE] == [NEWLINE];
    var m1 := WriteTo(m, [65], ALL_OK).0;
    assert [NEWLINE] + [65] == [NEWLINE, 65] && NEWLINE in [NEWLINE, 65];
    assert m1.log == [] + [[NEWLINE, 65]] == [[NEWLINE, 65]];
    assert [[65], [NEWLINE]][..1] == [[65]] && [[65]][..0] == [];
    assert WriteAll(m, [[65]]) == m1;
    assert [] + [NEWLINE] == [NEWLINE];
    assert [NEWLINE] + [65, NEWLINE] == [NEWLINE, 65, NEWLINE];
  }
}
