/** How a connection's message is collected: a buffer that doubles, filled by
    however the network cuts the stream. */
module Receiver {
  import opened Bytes
  import opened PacketLog
  import opened WriteHistory

  /** "AESDCHAR_IOCSEEKTO:" */
  const SEEK_PREFIX: seq<Byte> :=
    [65, 69, 83, 68, 67, 72, 65, 82, 95, 73, 79, 67, 83, 69, 69, 75, 84, 79, 58]

  /** What string functions see of a buffer: the bytes before the first NUL. */
  function CString(b: seq<Byte>): (s: seq<Byte>)
    ensures s <= b && NUL !in s
    ensures |s| == |b| || b[|s|] == NUL
  {
    if b == [] || b[0] == NUL then [] else [b[0]] + CString(b[1..])
  }

  /** The first NUL decides; what lies behind it does not matter. */
  lemma {:induction false} CStringCut(b: seq<Byte>, rest: seq<Byte>)
    ensures CString(b + [NUL] + rest) == CString(b)
  {
    if b == [] || b[0] == NUL {
      assert (b + [NUL] + rest)[0] == NUL;
    } else {
      CStringCut(b[1..], rest);
      assert (b + [NUL] + rest)[1..] == b[1..] + [NUL] + rest;
    }
  }

  /** The test of the loop: a newline, or the prefix of a seek command, in what the
      string functions see. */
  predicate Stops(buffer: seq<Byte>) {
    NEWLINE in CString(buffer) || SEEK_PREFIX <= CString(buffer)
  }

  /** There is a newline with no NUL in front of it. */
  ghost predicate SeesNewline(b: seq<Byte>) {
    exists i :: 0 <= i < |b| && b[i] == NEWLINE && NUL !in b[..i]
  }

  /** A message that is complete: a newline that no NUL hides, or a seek command. */
  ghost predicate IsComplete(b: seq<Byte>) {
    SeesNewline(b) || SEEK_PREFIX <= b
  }

  /** The prefix, as text. */
  lemma PrefixText()
    ensures var text := "AESDCHAR_IOCSEEKTO:";
            |SEEK_PREFIX| == |text| && forall i :: 0 <= i < |text| ==> SEEK_PREFIX[i] as int == text[i] as int
    ensures NUL !in SEEK_PREFIX && NEWLINE !in SEEK_PREFIX
  {
  }

  /** The test finds exactly the complete messages: a newline behind the first NUL
      does not count, and a seek prefix always does. */
  lemma {:induction false} StopsIffComplete(b: seq<Byte>)
    ensures Stops(b) <==> IsComplete(b)
    ensures NUL !in b ==> (Stops(b) <==> NEWLINE in b || SEEK_PREFIX <= b)
  {
    hide CString;
    PrefixText();
    hide SEEK_PREFIX;
    var c := CString(b);
    assert c == b[..|c|];
    if NEWLINE in c {
      var i :| 0 <= i < |c| && c[i] == NEWLINE;
      assert b[i] == NEWLINE && forall x :: x in b[..i] ==> x in c;
    }
    if i :| 0 <= i < |b| && b[i] == NEWLINE && NUL !in b[..i] {
      assert forall x :: 0 <= x < i ==> b[x] in b[..i];
      assert c[i] == NEWLINE;
    }
    assert forall x :: 0 <= x < |SEEK_PREFIX| ==> SEEK_PREFIX[x] in SEEK_PREFIX;
    assert SEEK_PREFIX <= b ==> |SEEK_PREFIX| <= |c|;
  }

  /** A terminated buffer stops the loop just when the bytes received are complete. */
  lemma {:induction false} StopsAtTerminator(buffer: seq<Byte>, received: seq<Byte>)
    requires |received| < |buffer| && received <= buffer && buffer[|received|] == NUL
    ensures Stops(buffer) <==> IsComplete(received)
  {
    var rest := buffer[|received| + 1..];
    assert buffer == received + [NUL] + rest;
    CStringCut(received, rest);
    StopsIffComplete(received);
  }

  /** A line of text that is no seek command: what clients send to be stored. */
  predicate IsTextLine(msg: seq<Byte>) {
    IsLine(msg) && NUL !in msg && !(SEEK_PREFIX <= msg)
  }

  /** Nothing short of the whole line stops the loop. */
  lemma {:induction false} OnlyTheWholeLineStops(line: seq<Byte>, n: nat)
    requires IsTextLine(line) && n < |line|
    ensures !IsComplete(line[..n])
  {
    assert line[..n] == line[..|line| - 1][..n];
  }

  // ----- The receive loop -----

  /** What the loop cannot know: how many bytes each `recv` returns at most, and
      which enlargements of the buffer fail. */
  datatype Net = Net(cuts: seq<nat>, noMemory: seq<bool>)

  predicate Fault(faults: seq<bool>, i: nat) {
    i < |faults| && faults[i]
  }

  /** How many bytes `recv` number `i` returns: never more than asked for or than
      there are, and at least one if there are any. */
  function Handed(left: nat, asked: nat, cuts: seq<nat>, i: nat): nat {
    var n := Min(left, asked);
    if i < |cuts| && 0 < cuts[i] then Min(n, cuts[i]) else n
  }

  const FIRST_SIZE: nat := 1024

  /** The size of the buffer after `j` enlargements. */
  function SizeAfter(j: nat): (size: nat)
    ensures size >= FIRST_SIZE
  {
    if j == 0 then FIRST_SIZE else 2 * SizeAfter(j - 1)
  }

  /** How often the buffer must have been enlarged to leave room for a byte and the
      terminator behind `total` bytes. */
  function Enlargements(total: nat, j: nat): (k: nat)
    ensures j <= k && total + 1 < SizeAfter(k)
    ensures k > j ==> SizeAfter(k - 1) <= total + 1
    decreases if total + 1 < SizeAfter(j) then 0 else total + 2 - SizeAfter(j)
  {
    if total + 1 < SizeAfter(j) then j else Enlargements(total, j + 1)
  }

  lemma {:induction false} SizesGrow(j: nat, k: nat)
    requires j < k
    ensures 2 * SizeAfter(j) <= SizeAfter(k)
  {
    if j + 1 < k {
      SizesGrow(j, k - 1);
    }
  }

  /** That number is determined by the room there is. */
  lemma {:induction false} EnlargementsAre(total: nat, k: nat)
    requires total + 1 < SizeAfter(k) && (k > 0 ==> SizeAfter(k - 1) <= total + 1)
    ensures Enlargements(total, 0) == k
  {
    hide SizeAfter, Enlargements;
    var n := Enlargements(total, 0);
    if n < k && n < k - 1 {
      SizesGrow(n, k - 1);
    } else if k < n && k < n - 1 {
      SizesGrow(k, n - 1);
    }
  }

  /** The piece that comes behind `total` bytes: what is asked for is the room that
      is left, less the terminator. */
  function PieceLength(stream: seq<Byte>, total: nat, cuts: seq<nat>, i: nat): nat
    requires total <= |stream|
  {
    Handed(|stream| - total, SizeAfter(Enlargements(total, 0)) - total - 1, cuts, i)
  }

  /** The pieces that were received one by one: each as long as `recv` makes it, and
      only the last may have completed the message. */
  ghost predicate Pieces(pieces: seq<seq<Byte>>, stream: seq<Byte>, total: nat, cuts: seq<nat>)
    requires total <= |stream|
  {
    && Flatten(pieces) == stream[..total]
    && forall i :: 0 <= i < |pieces| ==> IsPiece(pieces, stream, cuts, i)
  }

  ghost predicate IsPiece(pieces: seq<seq<Byte>>, stream: seq<Byte>, cuts: seq<nat>, i: nat)
    requires i < |pieces|
  {
    var received := Flatten(pieces[..i]);
    && pieces[i] != [] && !IsComplete(received)
    && |received| <= |stream| && |pieces[i]| == PieceLength(stream, |received|, cuts, i)
  }

  lemma OnePieceMore(pieces: seq<seq<Byte>>, stream: seq<Byte>, total: nat, cuts: seq<nat>, piece: seq<Byte>)
    requires total <= |stream| && Pieces(pieces, stream, total, cuts) && !IsComplete(stream[..total])
    requires piece != [] && piece <= stream[total..] && |piece| == PieceLength(stream, total, cuts, |pieces|)
    ensures Pieces(pieces + [piece], stream, total + |piece|, cuts)
  {
    hide Flatten, IsComplete, PieceLength;
    FlattenConcat(pieces, [piece]);
    FlattenOne(piece);
    assert stream[..total + |piece|] == stream[..total] + piece;
    var more := pieces + [piece];
    forall i | 0 <= i < |more| ensures IsPiece(more, stream, cuts, i) {
      assert more[..i] == pieces[..i];
      if i == |pieces| {
        assert pieces[..i] == pieces;
      } else {
        assert IsPiece(pieces, stream, cuts, i);
      }
    }
  }

  /** Bytes of what the peer sends; none once it has closed. */
  method Recv(stream: seq<Byte>, at: nat, asked: nat, cuts: seq<nat>, i: nat) returns (piece: seq<Byte>)
    requires at <= |stream| && 0 < asked
    ensures piece <= stream[at..] && |piece| == Handed(|stream| - at, asked, cuts, i)
    ensures piece == [] <==> at == |stream|
  {
    piece := stream[at..at + Handed(|stream| - at, asked, cuts, i)];
  }

  /** The buffer holds what was received so far, terminated. */
  ghost predicate Holds(buffer: array<Byte>, stream: seq<Byte>, total: nat)
    reads buffer
  {
    && total <= |stream| && total < buffer.Length
    && buffer[..total] == stream[..total] && (total > 0 ==> buffer[total] == NUL)
  }

  /** Receives one piece behind the others; none when the peer has closed. */
  method TakePiece(stream: seq<Byte>, cuts: seq<nat>, buffer: array<Byte>, total: nat, calls: nat,
                   ghost pieces: seq<seq<Byte>>, ghost grown: nat)
    returns (total': nat, ghost pieces': seq<seq<Byte>>)
    requires Holds(buffer, stream, total) && total + 1 < buffer.Length == SizeAfter(grown)
    requires grown > 0 ==> SizeAfter(grown - 1) <= total + 1
    requires Pieces(pieces, stream, total, cuts) && !IsComplete(stream[..total]) && calls == |pieces|
    modifies buffer
    ensures Holds(buffer, stream, total') && Pieces(pieces', stream, total', cuts)
    ensures total' == total <==> total == |stream|
    ensures total <= total' && (total' > total ==> |pieces'| == calls + 1) && (total' == total ==> pieces' == pieces)
  {
    hide Pieces, SizeAfter, Enlargements, IsComplete, Handed;
    EnlargementsAre(total, grown);
    AtMostAsked(|stream| - total, buffer.Length - total - 1, cuts, calls);
    var piece := Recv(stream, total, buffer.Length - total - 1, cuts, calls);
    if piece == [] {
      return total, pieces;
    }
    OnePieceMore(pieces, stream, total, cuts, piece);
    Store(buffer, total, piece);
    assert stream[..total + |piece|] == stream[..total] + piece;
    return total + |piece|, pieces + [piece];
  }

  /** The receive loop on a connection over which the peer sends `stream` and then
      closes: what is in the buffer, how it was received, and why the loop ended.
      `grown` is how often the buffer was enlarged. */
  method Receive(stream: seq<Byte>, net: Net)
    returns (buffer: array<Byte>, bufferSize: nat, total: nat, failed: bool, grown: nat, ghost pieces: seq<seq<Byte>>)
    ensures fresh(buffer) && Holds(buffer, stream, total) && buffer.Length == SizeAfter(grown)
    ensures bufferSize == if failed then 2 * buffer.Length else buffer.Length
    // Every piece is what `recv` makes of the room there is, and the loop goes on
    // exactly until the message is complete.
    ensures Pieces(pieces, stream, total, net.cuts)
    ensures total == |stream| || IsComplete(stream[..total]) || failed
    ensures NUL !in stream[..total] ==> forall i :: 0 <= i < |pieces| ==> NEWLINE !in Flatten(pieces[..i])
    // The buffer is enlarged when it is full, and the loop fails just when that does.
    ensures forall i :: 0 <= i < grown ==> !Fault(net.noMemory, i)
    ensures failed <==> Fault(net.noMemory, grown) && total + 1 == buffer.Length
    ensures !failed ==> grown == Enlargements(total, 0)
    ensures IsTextLine(stream) && !failed ==> buffer[..total] == stream
  {
    hide CString, Flatten, Pieces, SizeAfter, Enlargements, IsComplete, Stops, Handed, IsTextLine, SEEK_PREFIX, Fault;
    bufferSize := FIRST_SIZE;
    buffer := new Byte[bufferSize];
    total, failed, grown, pieces := 0, false, 0, [];
    var calls := 0;
    Beginning(stream, net.cuts);
    while true
      invariant Holds(buffer, stream, total) && total + 1 < bufferSize == buffer.Length == SizeAfter(grown)
      invariant grown > 0 ==> SizeAfter(grown - 1) <= total + 1
      invariant Pieces(pieces, stream, total, net.cuts) && !IsComplete(stream[..total]) && calls == |pieces|
      invariant forall i :: 0 <= i < grown ==> !Fault(net.noMemory, i)
      invariant fresh(buffer) && !failed
      decreases |stream| - total
    {
      var total';
      total', pieces := TakePiece(stream, net.cuts, buffer, total, calls, pieces, grown);
      if total' == total {
        break;
      }
      total, calls := total', calls + 1;
      if total >= bufferSize - 1 {
        bufferSize := bufferSize * 2;
        if Fault(net.noMemory, grown) {
          failed := true;
          break;
        }
        OneSizeMore(grown);
        buffer := Enlarge(buffer, bufferSize, total);
        grown := grown + 1;
      }
      StopsAtTerminator(buffer[..], stream[..total]);
      if Stops(buffer[..]) {
        break;
      }
    }
    if !failed {
      EnlargementsAre(total, grown);
    }
    NoNewlineBefore(pieces, stream, total, net.cuts);
    WholeLine(stream, total);
  }

  lemma Beginning(stream: seq<Byte>, cuts: seq<nat>)
    ensures Pieces([], stream, 0, cuts) && !IsComplete(stream[..0]) && SizeAfter(0) == FIRST_SIZE
  {
  }

  lemma AtMostAsked(left: nat, asked: nat, cuts: seq<nat>, i: nat)
    ensures Handed(left, asked, cuts, i) <= Min(left, asked)
  {
  }

  lemma OneSizeMore(j: nat)
    ensures SizeAfter(j + 1) == 2 * SizeAfter(j)
  {
  }

  lemma WholeLine(stream: seq<Byte>, total: nat)
    requires total <= |stream|
    ensures IsTextLine(stream) && (total == |stream| || IsComplete(stream[..total])) ==> stream[..total] == stream
  {
    if IsTextLine(stream) && total < |stream| {
      OnlyTheWholeLineStops(stream, total);
    }
    assert stream[..|stream|] == stream;
  }

  /** Without a NUL, no piece but the last brought a newline. */
  lemma NoNewlineBefore(pieces: seq<seq<Byte>>, stream: seq<Byte>, total: nat, cuts: seq<nat>)
    requires total <= |stream| && Pieces(pieces, stream, total, cuts)
    ensures NUL !in stream[..total] ==> forall i :: 0 <= i < |pieces| ==> NEWLINE !in Flatten(pieces[..i])
  {
    hide Flatten, PieceLength;
    if NUL !in stream[..total] {
      forall i | 0 <= i < |pieces| ensures NEWLINE !in Flatten(pieces[..i]) {
        var r := Flatten(pieces[..i]);
        FlattenSplit(pieces, i);
        assert r == stream[..total][..|r|];
        assert IsPiece(pieces, stream, cuts, i) && NUL !in r;
        StopsIffComplete(r);
      }
    }
  }

  /** Puts a piece and a terminator behind the bytes received so far. */
  method Store(buffer: array<Byte>, at: nat, piece: seq<Byte>)
    requires at + |piece| < buffer.Length
    modifies buffer
    ensures buffer[..at + |piece|] == old(buffer[..at]) + piece
    ensures buffer[at + |piece|] == NUL
  {
    forall i | 0 <= i < |piece| {
      buffer[at + i] := piece[i];
    }
    buffer[at + |piece|] := NUL;
  }

  /** A larger buffer with the same terminated contents. */
  method Enlarge(buffer: array<Byte>, size: nat, total: nat) returns (larger: array<Byte>)
    requires total < buffer.Length <= size && buffer[total] == NUL
    ensures fresh(larger) && larger.Length == size
    ensures larger[..total] == buffer[..total] && larger[total] == NUL
  {
    larger := new Byte[size];
    forall i | 0 <= i < buffer.Length {
      larger[i] := buffer[i];
    }
  }
}
