/** One connection from the first byte received to the last byte sent, on the
    device itself. */
module Connection {
  import opened Bytes
  import opened PacketLog
  import opened CircularBuffer
  import opened CharDevice
  import opened WriteHistory
  import opened Receiver

  // ----- Reading back -----

  /** How a read-back ended: nothing was left, a read failed, a read was about to
      put more bytes into the buffer than it has room for, or the device could not
      be opened. */
  datatype End = Complete | Faulted | PastBuffer | Unopened

  /** Some read of at most `size` bytes, reading on from `pos`, returns more than
      `room` bytes. */
  predicate Overruns(w: seq<Packet>, pos: nat, size: nat, room: nat)
    requires size > 0
    decreases if pos < |Flatten(w)| then |Flatten(w)| - pos else 0
  {
    pos < |Flatten(w)| &&
    var d := Served(w, pos, size);
    |d| > room || Overruns(w, pos + |d|, size, room)
  }

  lemma {:induction false} NoOverrunWithRoom(w: seq<Packet>, pos: nat, size: nat, room: nat)
    requires 0 < size <= room
    ensures !Overruns(w, pos, size, room)
    decreases if pos < |Flatten(w)| then |Flatten(w)| - pos else 0
  {
    hide Flatten, RestOfPacket;
    if |Flatten(w)| <= pos {
    } else {
      NoOverrunWithRoom(w, pos + |Served(w, pos, size)|, size, room);
    }
  }

  /** From the start of packet `k` on, reads with more than there is room for
      overrun the buffer exactly when a packet that long is still to come. */
  lemma {:induction false} OverrunsFromPacket(w: seq<Packet>, k: nat, size: nat, room: nat)
    requires k <= |w| && room < size
    ensures Overruns(w, |Flatten(w[..k])|, size, room) <==> exists i :: k <= i < |w| && |w[i]| > room
    decreases |w| - k
  {
    hide Served, Flatten;
    var pos := |Flatten(w[..k])|;
    if k == |w| {
      assert w[..k] == w;
    } else {
      NextPacketStarts(w, k);
      OverrunsFromPacket(w, k + 1, size, room);
      if |w[k]| > 0 {
        ServedAt(w, k, 0, pos, size);
        assert Served(w, pos, size) == w[k][0..Min(size, |w[k]|)];
      }
    }
  }

  lemma NextPacketStarts(w: seq<Packet>, k: nat)
    requires k < |w|
    ensures |Flatten(w[..k + 1])| == |Flatten(w[..k])| + |w[k]|
    ensures |w[k]| > 0 ==> IsAt(Sizes(w), k, 0, |Flatten(w[..k])|)
  {
    assert w[..k + 1] == w[..k] + [w[k]];
    FlattenConcat(w[..k], [w[k]]);
    FlattenOne(w[k]);
    FlattenLength(w[..k]);
    assert Sizes(w[..k]) == Sizes(w)[..k];
  }

  /** Reading everything back overruns the buffer exactly when the reads ask for
      more than there is room for and some packet is longer than that. */
  lemma {:induction false} OverrunsIff(w: seq<Packet>, size: nat, room: nat)
    requires size > 0
    ensures Overruns(w, 0, size, room) <==> room < size && exists i :: 0 <= i < |w| && |w[i]| > room
  {
    if size <= room {
      NoOverrunWithRoom(w, 0, size, room);
    } else {
      assert w[..0] == [] && Flatten([]) == [];
      OverrunsFromPacket(w, 0, size, room);
    }
  }

  /** All of it, or a first part when the read-back ended early. */
  ghost predicate Replied(reply: seq<Byte>, end: End, all: seq<Byte>) {
    reply <= all && (end.Complete? ==> reply == all)
  }

  function RestFrom(all: seq<Byte>, start: nat): seq<Byte> {
    if start <= |all| then all[start..] else []
  }

  /** `n` reads of the same length. */
  function Times(n: nat, size: nat): seq<nat> {
    if n == 0 then [] else Times(n - 1, size) + [size]
  }

  /** How a read-back that sent `sent` went: the first `made` reads delivered just
      that, none of them failing; and the next one found the end, failed, or was too
      long for the buffer. Read `i` fails if there is something to copy and
      `faults[i]`. */
  ghost predicate ReadUntil(m: Model, start: nat, size: nat, room: nat, faults: seq<bool>,
                            made: nat, sent: seq<Byte>, end: End)
  {
    var w := Retained(m.log);
    var (d, pos) := ReadMany(m, start, Times(made, size));
    && sent == d && (forall i :: 0 <= i < made ==> !Fault(faults, i))
    && (end.Complete? <==> |Flatten(w)| <= pos)
    && (end.Faulted? <==> pos < |Flatten(w)| && Fault(faults, made))
    && (end.PastBuffer? <==> pos < |Flatten(w)| && !Fault(faults, made) && |Served(w, pos, size)| > room)
    && !end.Unopened?
  }

  /** Reads on until nothing comes, a read fails, or the buffer is too small,
      sending everything on. */
  method ReadBack(dev: Device, start: nat, buffer: array<Byte>, bufferSize: nat, faults: seq<bool>)
    returns (sent: seq<Byte>, end: End, made: nat)
    requires dev.Valid() && !dev.locked && bufferSize > 0
    modifies dev`locked, buffer
    ensures dev.Valid() && dev.Abs() == old(dev.Abs())
    ensures ReadUntil(dev.Abs(), start, bufferSize, buffer.Length, faults, made, sent, end)
    ensures Replied(sent, end, RestFrom(Flatten(Retained(dev.log)), start))
    ensures !end.Unopened? && (end.Faulted? ==> true in faults)
    ensures end.PastBuffer? ==> Overruns(Retained(dev.log), start, bufferSize, buffer.Length)
    ensures end.Complete? ==> !Overruns(Retained(dev.log), start, bufferSize, buffer.Length)
  {
    hide Represents, Flatten, Retained, Served, Overruns, ReadMany, Times;
    ghost var m := dev.Abs();
    ghost var w := Retained(m.log);
    ghost var all := Flatten(w);
    sent, end, made := [], Complete, 0;
    var pos := start;
    NoReads(m, start, bufferSize);
    while true
      invariant dev.Valid() && dev.Abs() == m && !dev.locked
      invariant start <= |all| ==> start <= pos <= |all| && sent == all[start..pos]
      invariant start > |all| ==> pos == start && sent == []
      invariant (sent, pos) == ReadMany(m, start, Times(made, bufferSize))
      invariant forall i :: 0 <= i < made ==> !Fault(faults, i)
      invariant Overruns(w, start, bufferSize, buffer.Length) == Overruns(w, pos, bufferSize, buffer.Length)
      decreases |all| - pos
    {
      if pos <= |all| {
        ReadOn(m, pos, bufferSize, !Fault(faults, made), buffer.Length);
      } else {
        ReadPastEnd(m, pos, bufferSize, !Fault(faults, made), buffer.Length);
      }
      OneReadMore(m, start, bufferSize, made);
      var ret, data, pos' := dev.Read(pos, bufferSize, !Fault(faults, made));
      if ret.Fail? {
        end := Faulted;
        break;
      }
      if ret.n == 0 {
        break;
      }
      if |data| > buffer.Length {
        end := PastBuffer;
        break;
      }
      forall i | 0 <= i < |data| {
        buffer[i] := data[i];
      }
      assert buffer[..|data|] == data;
      assert start <= pos <= pos' <= |all|;
      SliceAndNext(all, start, pos, pos');
      sent, pos, made := sent + buffer[..|data|], pos', made + 1;
    }
    if start <= |all| {
      SliceAndNext(all, start, pos, |all|);
    }
  }

  lemma NoReads(m: Model, start: nat, size: nat)
    ensures ReadMany(m, start, Times(0, size)) == ([], start)
  {
  }

  lemma OneReadMore(m: Model, start: nat, size: nat, made: nat)
    ensures var (d, pos) := ReadMany(m, start, Times(made, size));
            var (_, d', pos') := ReadFrom(m, pos, size, true);
            ReadMany(m, start, Times(made + 1, size)) == (d + d', pos')
  {
    ReadManySnoc(m, start, Times(made, size), size);
  }

  lemma {:induction false} ReadPastEnd(m: Model, pos: nat, size: nat, copyOk: bool, room: nat)
    requires size > 0 && pos > |Flatten(Retained(m.log))|
    ensures ReadFrom(m, pos, size, copyOk) == (Done(0), [], pos)
    ensures !Overruns(Retained(m.log), pos, size, room)
  {
  }

  /** What one read of a read-back returns, and what it says about the buffer. */
  lemma {:induction false} ReadOn(m: Model, pos: nat, size: nat, copyOk: bool, room: nat)
    requires size > 0 && pos <= |Flatten(Retained(m.log))|
    ensures var w := Retained(m.log);
            var (ret, d, pos') := ReadFrom(m, pos, size, copyOk);
            && pos' <= |Flatten(w)| && d == Flatten(w)[pos..pos']
            && (ret.Fail? <==> pos < |Flatten(w)| && !copyOk)
            && (pos < |Flatten(w)| && copyOk ==> d == Served(w, pos, size))
            && (ret.Done? ==> ret.n == |d|)
            && (ret == Done(0) ==> pos == |Flatten(w)| && !Overruns(w, pos, size, room))
            && (ret.Done? && ret.n > 0 ==> pos < pos')
            && (ret.Done? && ret.n > 0 ==>
                  Overruns(w, pos, size, room) == (|d| > room || Overruns(w, pos', size, room)))
  {
    hide Flatten, Retained, RestOfPacket;
  }

  // ----- A whole connection -----

  datatype Outcome =
    | Nothing                               // the peer sent nothing
    | NotOpened
    | Stored(reply: seq<Byte>, end: End)
    | Sought(reply: seq<Byte>, end: End)
    | RefusedSeek                           // it names no readable byte
    | FaultedSeek                           // its argument could not be copied
    | BadSeek                               // it could not be parsed

  /** What one connection cannot know: how its bytes arrive, and which calls succeed:
      opening the device, opening it again to read back, the write, copying the
      argument of a seek, and each read of the answer. */
  datatype Calls = Calls(net: Net, openOk: bool, reopenOk: bool, write: WriteEnv, seekOk: bool, faults: seq<bool>)

  /** The readable bytes from byte `off` of readable packet `cmd` on. */
  ghost function From(w: seq<Packet>, cmd: nat, off: nat): seq<Byte>
    requires cmd < |w| && off < |w[cmd]|
  {
    w[cmd][off..] + Flatten(w[cmd + 1..])
  }

  /** The size the answer is read with, and the room there is for it. */
  function ReadSize(n: nat, failed: bool): nat {
    if failed then 2 * (n + 1) else SizeAfter(Enlargements(n, 0))
  }

  function Room(n: nat, failed: bool): nat {
    if failed then n + 1 else ReadSize(n, failed)
  }

  /** Serves a peer that sends `stream` and closes; `n` bytes of it are received, in
      `pieces`, and `failed` says that the buffer could not be enlarged then. `parsed`
      is what a seek command was parsed to, if it could be. */
  method Serve(dev: Device, stream: seq<Byte>, calls: Calls, parsed: Option<(U32, U32)>)
    returns (out: Outcome, ghost n: nat, failed: bool, ghost pieces: seq<seq<Byte>>, ghost made: nat)
    requires dev.Valid() && !dev.locked
    modifies dev, dev.ring, dev.ring.entry, dev.mem
    ensures dev.Valid() && n <= |stream|
    // What is received.
    ensures Pieces(pieces, stream, n, calls.net.cuts) && (failed ==> true in calls.net.noMemory)
    ensures n == |stream| || IsComplete(stream[..n]) || failed
    ensures out.Nothing? <==> n == 0
    // A message is written once, and the reply is all that is readable then, unless
    // a read of it fails or does not fit.
    ensures out.Stored? <==> 0 < n && !(SEEK_PREFIX <= stream[..n]) && calls.openOk
    ensures out.Stored? ==> dev.Abs() == WriteTo(old(dev.Abs()), stream[..n], calls.write).0
    ensures out.Stored? ==> Replied(out.reply, out.end, Flatten(Retained(dev.log)))
    ensures out.Stored? ==> if calls.reopenOk then ReadUntil(dev.Abs(), 0, ReadSize(n, failed), Room(n, failed), calls.faults, made, out.reply, out.end) else out.end.Unopened?
    ensures out.Stored? && out.end.Faulted? ==> true in calls.faults
    // A line is received, and stored, in full.
    ensures IsTextLine(stream) && !failed ==> n == |stream| && (calls.openOk ==> out.Stored?)
    // The read-back leaves the buffer exactly when the buffer could not be enlarged
    // and some readable packet is longer than it is, unless a read failed before.
    ensures out.Stored? && out.end.PastBuffer? ==> failed && exists i :: 0 <= i < |Retained(dev.log)| && |Retained(dev.log)[i]| > n + 1
    ensures out.Stored? && out.end.Complete? ==> !failed || forall i :: 0 <= i < |Retained(dev.log)| ==> |Retained(dev.log)[i]| <= n + 1
    // Nothing else changes the device, but a refused seek keeps its mutex.
    ensures !out.Stored? ==> dev.Abs() == old(dev.Abs()).(wedged := out.RefusedSeek?)
    ensures 0 < n && SEEK_PREFIX <= stream[..n] ==> IsSeekOutcome(out, old(dev.Abs()), parsed, calls, ReadSize(n, failed), made)
    ensures 0 < n && !(SEEK_PREFIX <= stream[..n]) && !calls.openOk ==> out.NotOpened?
  {
    hide Represents, Flatten, Retained, WriteTo, IsLine, SeekTo, From, Overruns, Accepts;
    hide Pieces, IsComplete, Enlargements, SizeAfter, ReadUntil, IsSeekOutcome, IsTextLine, SEEK_PREFIX;
    var buffer, bufferSize, total, enlargeFailed, grown, ps := Receive(stream, calls.net);
    n, failed, pieces, made := total, enlargeFailed, ps, 0;
    NotALine(stream, total);
    if total == 0 {
      return Nothing, n, failed, pieces, made;
    }
    if SEEK_PREFIX <= buffer[..total] {
      var k;
      out, k := ServeSeek(dev, parsed, calls, bufferSize);
      return out, n, failed, pieces, k;
    }
    if !calls.openOk {
      return NotOpened, n, failed, pieces, made;
    }
    WriteKeepsMutex(dev.Abs(), buffer[..total], calls.write);
    var _, _ := dev.Write(buffer[..total], calls.write, 0);
    if !calls.reopenOk {
      return Stored([], Unopened), n, failed, pieces, made;
    }
    OverrunsIff(Retained(dev.log), bufferSize, buffer.Length);
    var sent, end, k := ReadBack(dev, 0, buffer, bufferSize, calls.faults);
    return Stored(sent, end), n, failed, pieces, k;
  }

  /** What becomes of a seek command on a device that is `m` before. */
  ghost predicate IsSeekOutcome(out: Outcome, m: Model, parsed: Option<(U32, U32)>, calls: Calls, size: nat, made: nat) {
    match parsed
    case None => out.BadSeek?
    case Some((cmd, off)) =>
      if !calls.openOk then out.NotOpened?
      else if !calls.seekOk then out.FaultedSeek?
      else if !Accepts(m, cmd, off) then out.RefusedSeek?
      else
        && out.Sought? && !out.end.PastBuffer? && !out.end.Unopened?
        && Replied(out.reply, out.end, From(Retained(m.log), cmd, off))
        && ReadUntil(m, |Flatten(Retained(m.log)[..cmd])| + off, size, size, calls.faults, made, out.reply, out.end)
        && (out.end.Faulted? ==> true in calls.faults)
  }

  /** Answers a seek command through a buffer of its own. The device mutex stays
      locked when the seek is refused, and only then. */
  method ServeSeek(dev: Device, parsed: Option<(U32, U32)>, calls: Calls, bufferSize: nat)
    returns (out: Outcome, made: nat)
    requires dev.Valid() && !dev.locked && bufferSize > 0
    modifies dev`locked
    ensures dev.Valid() && !out.Stored? && !out.Nothing?
    ensures IsSeekOutcome(out, old(dev.Abs()), parsed, calls, bufferSize, made)
    ensures dev.Abs() == old(dev.Abs()).(wedged := out.RefusedSeek?)
  {
    hide Represents, Flatten, Retained, WriteTo, SeekTo, From, Overruns, Accepts, ReadUntil;
    if parsed == None {
      return BadSeek, 0;
    }
    if !calls.openOk {
      return NotOpened, 0;
    }
    SeekInRange(dev.Abs(), parsed.value.0, parsed.value.1);
    var ret, pos := dev.UnlockedIoctl(true, parsed.value.0, parsed.value.1, calls.seekOk, 0);
    if ret.Fail? {
      return if calls.seekOk then RefusedSeek else FaultedSeek, 0;
    }
    assert dev.Abs() == old(dev.Abs());
    var sendBuffer := new Byte[bufferSize];
    NoOverrunWithRoom(Retained(dev.log), pos, bufferSize, bufferSize);
    var sent, end, n := ReadBack(dev, pos, sendBuffer, bufferSize, calls.faults);
    return Sought(sent, end), n;
  }

  lemma NotALine(stream: seq<Byte>, total: nat)
    requires total <= |stream|
    ensures IsTextLine(stream) ==> stream != []
    ensures SEEK_PREFIX <= stream[..total] ==> !IsTextLine(stream)
  {
  }

  lemma SeekInRange(m: Model, cmd: nat, off: nat)
    requires !m.wedged
    ensures SeekTo(m, cmd, off, false, 0) == (m, Fail(EFAULT), 0)
    ensures var (m', ret, pos) := SeekTo(m, cmd, off, true, 0);
            && (ret.Done? <==> Accepts(m, cmd, off))
            && m' == m.(wedged := ret.Fail?)
            && (Accepts(m, cmd, off) ==> cmd < |Retained(m.log)| && off < |Retained(m.log)[cmd]|)
            && (ret.Done? ==> pos == |Flatten(Retained(m.log)[..cmd])| + off <= |Flatten(Retained(m.log))|)
            && (ret.Done? ==> Flatten(Retained(m.log))[pos..] == From(Retained(m.log), cmd, off))
  {
    if Accepts(m, cmd, off) {
      var w := Retained(m.log);
      FlattenSplit(w, cmd);
      assert w[cmd..][0] == w[cmd] && w[cmd..][1..] == w[cmd + 1..];
      assert Flatten(w[cmd..]) == w[cmd] + Flatten(w[cmd + 1..]);
    }
  }

  lemma WriteKeepsMutex(m: Model, data: seq<Byte>, env: WriteEnv)
    ensures WriteTo(m, data, env).0.wedged == m.wedged
  {
  }
}
