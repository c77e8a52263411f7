/** The download direction of the relay's TCP session: the server's bytes, buffered, cut
    into segments, sent, resent and trimmed until the client has acknowledged them. */
module Session {
  import opened Values

  /** A segment for the client. */
  datatype Segment = Segment(start: nat, data: Bytes, fin: bool)

  /** What reading the server's socket gives. */
  datatype Received = Data(bytes: Bytes) | EndOfStream | WouldBlock

  const MAX_RETRIES: nat := 3
  const WINDOW_SCALE: nat := 2

  /** The session without its buffer: the server's stream, which starts at sequence number
      `base`, how far it was sent and acknowledged, and every segment written so far. */
  datatype Download = Download(
    open: bool, base: nat, stream: Bytes, finished: bool,
    unacknowledged: nat, next: nat, mss: nat, retries: nat, sent: seq<Segment>)
  {
    /** The sequence number after the last byte, and after the FIN once it is there. */
    function End(): nat { base + |stream| + if finished then 1 else 0 }

    predicate Complete() { finished && unacknowledged == End() }

    predicate Ordered() { base <= unacknowledged <= next <= End() && mss > 0 }
  }

  // ---- Segmentation ----

  /** The stream from sequence number `from`, in pieces of at most `mss` bytes; the FIN goes
      with the last byte, or alone. */
  function Segments(stream: Bytes, base: nat, finished: bool, mss: nat, from: nat): seq<Segment>
    requires mss > 0 && base <= from <= base + |stream| + if finished then 1 else 0
    decreases base + |stream| + 1 - from
  {
    var end := base + |stream|;
    if from > end || (from == end && !finished) then []
    else
      var len := if end - from < mss then end - from else mss;
      var last := finished && from + len == end;
      [Segment(from, stream[from - base..from - base + len], last)]
        + if from + len == end then [] else Segments(stream, base, finished, mss, from + len)
  }

  function SegmentEnd(s: Segment): nat { s.start + |s.data| + if s.fin then 1 else 0 }

  /** The segment carries the server's bytes at its own place in the stream, and a FIN only
      right after the last byte of a finished stream. */
  predicate Carries(s: Segment, d: Download) {
    && d.base <= s.start && SegmentEnd(s) <= d.next
    && (s.data != [] ==> s.start + |s.data| <= d.base + |d.stream|
                         && s.data == d.stream[s.start - d.base..s.start - d.base + |s.data|])
    && (s.fin ==> d.finished && s.start + |s.data| == d.base + |d.stream|)
  }

  /** Each segment starts where the one before ended, the first at `from`, the last ends at `to`. */
  predicate Contiguous(segments: seq<Segment>, from: nat, to: nat) {
    if segments == [] then from == to
    else segments[0].start == from && Contiguous(segments[1..], SegmentEnd(segments[0]), to)
  }

  /** The first of these segments and the rest. */
  lemma SegmentsUnfold(stream: Bytes, base: nat, finished: bool, mss: nat, from: nat)
    requires mss > 0 && base <= from < base + |stream| + if finished then 1 else 0
    ensures
      var end := base + |stream|;
      var len := if end - from < mss then end - from else mss;
      var last := finished && from + len == end;
      var first := Segment(from, stream[from - base..from - base + len], last);
      var ss := Segments(stream, base, finished, mss, from);
      && SegmentEnd(first) <= end + (if finished then 1 else 0)
      && ss == [first] + Segments(stream, base, finished, mss, SegmentEnd(first))
  {
  }

  lemma {:induction false} SegmentsCarry(stream: Bytes, base: nat, finished: bool, mss: nat, from: nat, d: Download)
    requires mss > 0 && base <= from <= base + |stream| + if finished then 1 else 0
    requires d.base == base && d.stream == stream && d.finished == finished && d.next == d.End()
    ensures var ss := Segments(stream, base, finished, mss, from);
      && Contiguous(ss, from, d.End())
      && (forall s :: s in ss ==> Carries(s, d) && |s.data| <= mss && SegmentEnd(s) > s.start)
      && (forall i :: 0 <= i < |ss| - 1 ==> |ss[i].data| == mss && !ss[i].fin)
    decreases base + |stream| + 1 - from
  {
    hide Segments;
    if from < d.End() {
      SegmentsUnfold(stream, base, finished, mss, from);
      var ss := Segments(stream, base, finished, mss, from);
      SegmentsCarry(stream, base, finished, mss, SegmentEnd(ss[0]), d);
      var rest := Segments(stream, base, finished, mss, SegmentEnd(ss[0]));
      assert ss[1..] == rest && forall i :: 0 < i < |ss| ==> ss[i] == rest[i - 1];
    } else {
      SegmentsEnd(stream, base, finished, mss, from);
    }
  }

  lemma SegmentsEnd(stream: Bytes, base: nat, finished: bool, mss: nat, from: nat)
    requires mss > 0 && base <= from == base + |stream| + if finished then 1 else 0
    ensures Segments(stream, base, finished, mss, from) == []
  {
  }

  // ---- The steps of the session ----

  /** Bytes or the end of the stream from the server. */
  function Arrived(d: Download, r: Received): Download
    requires d.finished ==> !r.Data?
  {
    match r
    case Data(bytes) => d.(stream := d.stream + bytes)
    case EndOfStream => d.(finished := true)
    case WouldBlock => d
  }

  /** All from `from` on is sent. */
  function SentFrom(d: Download, from: nat): Download
    requires d.mss > 0 && d.base <= from <= d.End()
  {
    d.(sent := d.sent + Segments(d.stream, d.base, d.finished, d.mss, from), next := d.End())
  }

  /** A flush closes the session as soon as the upload is complete. */
  function ClosedIf(d: Download, upStreamComplete: bool): Download {
    if upStreamComplete then d.(open := false) else d
  }

  /** flushDataToClient */
  function Flushed(d: Download, timedOut: bool, upStreamComplete: bool): Download
    requires d.open ==> d.Ordered()
  {
    if !d.open || d.Complete() then d
    else if d.unacknowledged < d.End() && timedOut then
      if d.retries == MAX_RETRIES then d.(open := false)
      else
        var retries := if d.unacknowledged < d.next then d.retries + 1 else d.retries;
        ClosedIf(SentFrom(d, d.unacknowledged).(retries := retries), upStreamComplete)
    else if (d.finished && d.next < d.End()) || d.End() - d.next > d.mss then
      ClosedIf(SentFrom(d, d.next), upStreamComplete)
    else ClosedIf(d, upStreamComplete)
  }

  /** An acknowledgement from the client. */
  function Acked(d: Download, ack: nat): Download {
    d.(unacknowledged := Max(d.unacknowledged, ack), retries := 0)
  }

  /** A segment without data. */
  function AckSent(d: Download): Download { d.(sent := d.sent + [Segment(d.next, [], false)]) }

  // ---- The buffer ----

  /** Where a buffer starts after trimming: nothing before what is acknowledged is kept, when
      that is at least a segment and no more than two segments are free. */
  function Trimmed(start: nat, unacknowledged: nat, end: nat, capacity: nat, mss: nat): (r: nat)
    requires start <= unacknowledged <= end <= start + capacity
    ensures unacknowledged - start >= mss && start + capacity - end <= 2 * mss ==> r == unacknowledged
    ensures unacknowledged - start < mss || start + capacity - end > 2 * mss ==> r == start
  {
    if unacknowledged - start < mss || capacity + start - end > mss * 2 then start else unacknowledged
  }

  /** The next read finds room when all that was sent is acknowledged and what is not yet sent
      does not exceed a segment. */
  lemma TrimmingMakesRoom(start: nat, unacknowledged: nat, end: nat, capacity: nat, mss: nat)
    requires start <= unacknowledged <= end <= start + capacity && mss > 0
    requires end - unacknowledged <= mss && capacity >= mss + (end - unacknowledged)
    ensures Trimmed(start, unacknowledged, end, capacity, mss) + capacity > end
  {
  }

  // ---- The session object ----

  datatype State = CLOSED | SYN_RECEIVED | SYN_ACK_SENT | ESTABLISHED

  /** generateSequenceNo: `rand() % 2 ^ 31` is an exclusive or. */
  function GenerateSequenceNo(random: nat): (r: nat)
    ensures r <= 31 && (r == 31 <==> random % 2 == 0) && (r == 30 <==> random % 2 == 1)
  {
    if random % 2 == 0 then 31 else 30
  }

  class TcpSession {
    var state: State
    var serverReadFinished: bool
    var mss: nat
    var sendBuffer: array<Byte>
    var sendLength: nat
    var sendSequence: nat
    var sendUnacknowledged: nat
    var sendNext: nat
    var sendNewDataSequence: nat
    var retryCount: nat
    /** The segments written to the tunnel since the session was opened, handshake aside. */
    var tunnel: seq<Segment>
    ghost var base: nat
    ghost var stream: Bytes

    /** The four pointers are in order within the buffer, which holds the server's bytes
        from `sendSequence` on. */
    ghost predicate Valid()
      reads this, sendBuffer
    {
      && base <= sendSequence <= sendUnacknowledged <= sendNext <= sendNewDataSequence <= sendSequence + sendLength
      && sendBuffer.Length == sendLength && (state != CLOSED ==> mss > 0)
      && (state == SYN_RECEIVED || state == SYN_ACK_SENT ==>
            sendNewDataSequence == base && !serverReadFinished && tunnel == [])
      && sendNewDataSequence == base + |stream| + (if serverReadFinished then 1 else 0)
      && Buffered()
    }

    ghost predicate Buffered()
      reads this`sendSequence, this`base, this`stream, this`sendBuffer, sendBuffer
    {
      base <= sendSequence <= base + |stream| ==>
        var n := base + |stream| - sendSequence;
        n <= sendBuffer.Length && sendBuffer[..n] == stream[sendSequence - base..]
    }

    ghost function View(): Download
      reads this
    {
      Download(state == ESTABLISHED, base, stream, serverReadFinished,
                       sendUnacknowledged, sendNext, mss, retryCount, tunnel)
    }

    constructor ()
      ensures Valid() && state == CLOSED && tunnel == []
    {
      state, serverReadFinished, mss, sendLength, retryCount, tunnel := CLOSED, false, 0, 0, 0, [];
      sendSequence, sendUnacknowledged, sendNext, sendNewDataSequence := 0, 0, 0, 0;
      base, stream := 0, [];
      sendBuffer := new Byte[0];
    }

    function GetSendAvailable(): nat
      requires sendNewDataSequence <= sendSequence + sendLength
      reads this
    {
      sendLength + sendSequence - sendNewDataSequence
    }

    predicate IsDownStreamComplete()
      reads this
    {
      serverReadFinished && sendUnacknowledged == sendNewDataSequence
    }

    /** A SYN from the client of a closed session: every pointer starts at the initial
        sequence number, and the buffer is replaced when it is too small. */
    method Open(random: nat, clientMss: nat, windowShift: nat, connected: bool)
      requires Valid() && state == CLOSED && 0 < clientMss <= 0xFFFF
      modifies this
      ensures Valid() && state == (if connected then SYN_ACK_SENT else SYN_RECEIVED)
      ensures sendUnacknowledged == GenerateSequenceNo(random) && mss == clientMss
      ensures sendLength >= BufferLength(windowShift) && sendLength >= 2 * mss
    {
      hide BufferLength, GenerateSequenceNo, Buffered;
      GrowBuffer(BufferLength(windowShift));
      var isn := GenerateSequenceNo(random);
      sendNewDataSequence, sendSequence, sendUnacknowledged, sendNext := isn, isn, isn, isn;
      base, stream, tunnel := isn, [], [];
      mss, serverReadFinished, retryCount := clientMss, false, 0;
      state := if connected then SYN_ACK_SENT else SYN_RECEIVED;
      NothingBuffered();
    }

    /** A new buffer when the one there is too small. */
    method GrowBuffer(newLen: nat)
      requires sendBuffer.Length == sendLength
      modifies this`sendBuffer, this`sendLength
      ensures sendBuffer.Length == sendLength >= newLen
    {
      if sendLength < newLen {
        sendBuffer := new Byte[newLen](_ => 0);
        sendLength := newLen;
      }
    }

    lemma NothingBuffered()
      requires |stream| == 0 && sendSequence == base
      ensures Buffered()
    {
    }

    /** The client's acknowledgement of the SYN: the stream starts after it. */
    method Establish(ack: nat) returns (accepted: bool)
      requires Valid() && state == SYN_ACK_SENT
      modifies this
      ensures Valid() && accepted == (ack == old(sendUnacknowledged) + 1)
      ensures !accepted ==> View() == old(View()) && state == old(state)
      ensures accepted ==>
        View() == Download(true, ack, [], false, ack, ack, old(mss), old(retryCount), [])
    {
      hide Buffered;
      if ack != sendUnacknowledged + 1 {
        return false;
      }
      StartAt(ack);
      state := ESTABLISHED;
      return true;
    }

    /** Every pointer at the number that the stream starts with. */
    method StartAt(sequence: nat)
      requires Valid() && |stream| == 0 && !serverReadFinished
      modifies this`sendSequence, this`sendUnacknowledged, this`sendNewDataSequence, this`sendNext, this`base
      ensures Valid() && sendUnacknowledged == sendNext == base == sequence
    {
      hide Buffered;
      sendSequence, sendUnacknowledged, sendNewDataSequence, sendNext := sequence, sequence, sequence, sequence;
      base := sequence;
      NothingBuffered();
    }

    method CloseSession()
      requires Valid()
      modifies this`state
      ensures Valid() && View() == old(View()).(open := false)
    {
      hide Buffered;
      state := CLOSED;
    }

    /** Where the buffer starts after trimming. */
    function TrimmedSequence(): nat
      requires sendSequence <= sendUnacknowledged <= sendNewDataSequence <= sendSequence + sendLength
      reads this
    {
      Trimmed(sendSequence, sendUnacknowledged, sendNewDataSequence, sendLength, mss)
    }

    /** trimSendBuffer: drops what is acknowledged when that is worth the move. What the
        session has sent and has still to send does not change. */
    method TrimSendBuffer()
      requires Valid() && state == ESTABLISHED
      modifies this`sendSequence, sendBuffer
      ensures Valid() && View() == old(View())
      ensures sendSequence ==
        if old(sendUnacknowledged - sendSequence >= mss && sendLength + sendSequence - sendNewDataSequence <= 2 * mss)
        then sendUnacknowledged else old(sendSequence)
    {
      var space := sendUnacknowledged - sendSequence;
      if space < mss || GetSendAvailable() > mss * 2 {
        return;
      }
      ShiftDown(sendBuffer, space, sendNewDataSequence - sendUnacknowledged);
      sendSequence := sendUnacknowledged;
    }

    /** Cuts the buffered data from `from` on into packets. */
    method SendDataStartingFrom(from: nat)
      requires Valid() && state == ESTABLISHED && sendUnacknowledged <= from <= sendNewDataSequence
      modifies this`tunnel
      ensures Valid()
      ensures tunnel == old(tunnel) + Segments(stream, base, serverReadFinished, mss, from)
    {
      hide Segments, Buffered;
      var at := from;
      while at < sendNewDataSequence
        invariant from <= at <= sendNewDataSequence && Valid()
        invariant tunnel + Segments(stream, base, serverReadFinished, mss, at)
               == old(tunnel) + Segments(stream, base, serverReadFinished, mss, from)
      {
        var unsent := sendNewDataSequence - at - if serverReadFinished then 1 else 0;
        var len := if unsent < mss then unsent else mss;
        BufferedData(at, len);
        SegmentsUnfold(stream, base, serverReadFinished, mss, at);
        var start := at;
        at := at + len;
        var fin := serverReadFinished && at == sendNewDataSequence - 1;
        if fin {
          at := at + 1;
        }
        tunnel := tunnel + [Segment(start, sendBuffer[start - sendSequence..start - sendSequence + len], fin)];
      }
      SegmentsEnd(stream, base, serverReadFinished, mss, at);
    }

    method SendAllFrom(from: nat)
      requires Valid() && state == ESTABLISHED && sendUnacknowledged <= from <= sendNewDataSequence
      modifies this`tunnel, this`sendNext
      ensures Valid() && View() == SentFrom(old(View()), from)
    {
      hide Buffered, Segments;
      SendDataStartingFrom(from);
      sendNext := sendNewDataSequence;
    }

    /** The buffer holds the stream at the offset from `sendSequence`. */
    lemma BufferedData(at: nat, len: nat)
      requires Valid() && sendSequence <= at && at + len <= base + |stream|
      ensures at - sendSequence + len <= sendBuffer.Length
      ensures sendBuffer[at - sendSequence..at - sendSequence + len] == stream[at - base..at - base + len]
    {
      var i := at - sendSequence;
      var held := sendBuffer[..base + |stream| - sendSequence];
      assert sendBuffer[i..i + len] == held[i..i + len];
      assert stream[sendSequence - base..][i..i + len] == stream[at - base..at - base + len];
    }

    /** flushDataToClient: resends everything unacknowledged after a timeout, or sends what is
        new once it fills a segment or the stream has ended. */
    method FlushDataToClient(timedOut: bool, upStreamComplete: bool)
      requires Valid()
      modifies this`tunnel, this`sendNext, this`retryCount, this`state
      ensures Valid() && View() == Flushed(old(View()), timedOut, upStreamComplete)
    {
      hide Buffered, Segments;
      if state != ESTABLISHED || IsDownStreamComplete() {
        return;
      }
      if sendUnacknowledged < sendNewDataSequence && timedOut {
        if retryCount == MAX_RETRIES {
          CloseSession();
          return;
        }
        if sendUnacknowledged < sendNext {
          retryCount := retryCount + 1;
        }
        SendAllFrom(sendUnacknowledged);
      } else if (serverReadFinished && sendNext < sendNewDataSequence) || sendNewDataSequence - sendNext > mss {
        SendAllFrom(sendNext);
      }
      if upStreamComplete {
        CloseSession();
      }
    }

    /** receiveFromServer: `received` is what a read of the free part of the buffer gives. */
    method ReceiveFromServer(received: Received, timedOut: bool, upStreamComplete: bool) returns (more: bool)
      requires Valid()
      requires received.Data? ==>
        !serverReadFinished && |received.bytes| <= sendLength + TrimmedSequence() - sendNewDataSequence
      modifies this, sendBuffer
      ensures Valid() && sendLength == old(sendLength)
      ensures old(state) == ESTABLISHED ==> sendSequence == old(TrimmedSequence())
      ensures old(state) == ESTABLISHED && old(sendUnacknowledged == sendNewDataSequence && sendLength >= mss) ==>
        View() == Flushed(Arrived(old(View()), received), timedOut, upStreamComplete)
      ensures old(state) != ESTABLISHED || sendLength + old(TrimmedSequence()) == old(sendNewDataSequence) ==>
        !more && View() == old(View())
      ensures old(state) == ESTABLISHED && sendLength + old(TrimmedSequence()) > old(sendNewDataSequence) ==>
        && View() == Flushed(Arrived(old(View()), received), timedOut, upStreamComplete)
        && more == (GetSendAvailable() > 0)
    {
      hide Buffered, Flushed;
      if state != ESTABLISHED {
        return false;
      }
      TrimSendBuffer();
      var amt := GetSendAvailable();
      if amt == 0 {
        return false;
      }
      match received {
      case Data(bytes) =>
        Store(bytes);
      case EndOfStream =>
        if !serverReadFinished {
          sendNewDataSequence := sendNewDataSequence + 1;
          serverReadFinished := true;
        }
      case WouldBlock =>
      }
      FlushDataToClient(timedOut, upStreamComplete);
      more := GetSendAvailable() > 0;
    }

    /** The bytes that the socket wrote after the buffered ones. */
    method Store(bytes: Bytes)
      requires Valid() && state == ESTABLISHED && !serverReadFinished && |bytes| <= GetSendAvailable()
      modifies this`sendNewDataSequence, this`stream, sendBuffer
      ensures Valid() && sendNewDataSequence == old(sendNewDataSequence) + |bytes| && stream == old(stream) + bytes
    {
      hide Buffered;
      HeldBytes();
      ghost var from := sendSequence - base;
      CopyInto(sendBuffer, sendNewDataSequence - sendSequence, bytes);
      sendNewDataSequence := sendNewDataSequence + |bytes|;
      assert stream[from..] + bytes == (stream + bytes)[from..];
      stream := stream + bytes;
      NowBuffered();
    }

    /** What the buffer holds while the server has not ended its stream. */
    lemma HeldBytes()
      requires Valid() && !serverReadFinished
      ensures sendNewDataSequence - sendSequence <= sendBuffer.Length && sendSequence - base <= |stream|
      ensures sendBuffer[..sendNewDataSequence - sendSequence] == stream[sendSequence - base..]
    {
    }

    lemma NowBuffered()
      requires base <= sendSequence <= base + |stream| <= sendSequence + sendBuffer.Length
      requires sendBuffer[..base + |stream| - sendSequence] == stream[sendSequence - base..]
      ensures Buffered()
    {
    }

    /** A segment without data, to acknowledge the client's. */
    method SendAck()
      requires Valid() && state == ESTABLISHED
      modifies this`tunnel
      ensures Valid()
      ensures View() == AckSent(old(View())) && tunnel == old(tunnel) + [Segment(sendNext, [], false)]
    {
      hide Buffered;
      tunnel := tunnel + [Segment(sendNext, [], false)];
    }

    /** The established branch of receiveFromClient: a segment in sequence is accepted and
        perhaps acknowledged, when enough has come or time has passed; any other only draws
        an acknowledgement. */
    method ReceiveFromClient(inSequence: bool, ack: nat, upStreamComplete: bool, delayed: bool)
      requires Valid() && state == ESTABLISHED && ack <= sendNext
      modifies this`sendUnacknowledged, this`retryCount, this`state, this`tunnel
      ensures Valid()
      ensures View() ==
        var d := Acked(old(View()), ack);
        if !inSequence then AckSent(old(View()))
        else if upStreamComplete && d.Complete() then d.(open := false)
        else if delayed then AckSent(d) else d
    {
      hide Buffered;
      if inSequence {
        AcceptAck(ack, upStreamComplete);
        if state == ESTABLISHED && delayed {
          SendAck();
        }
      } else {
        SendAck();
      }
    }

    /** What a segment in sequence acknowledges. */
    method AcceptAck(ack: nat, upStreamComplete: bool)
      requires Valid() && state == ESTABLISHED && ack <= sendNext
      modifies this`sendUnacknowledged, this`retryCount, this`state
      ensures Valid()
      ensures View() ==
        var d := Acked(old(View()), ack);
        ClosedIf(d, upStreamComplete && d.Complete())
      ensures retryCount == 0 && sendUnacknowledged >= ack && sendUnacknowledged >= old(sendUnacknowledged)
      ensures sendUnacknowledged == ack || sendUnacknowledged == old(sendUnacknowledged)
      ensures state == CLOSED <==> upStreamComplete && serverReadFinished && sendUnacknowledged == sendNewDataSequence
    {
      hide Buffered;
      sendUnacknowledged := Max(sendUnacknowledged, ack);
      retryCount := 0;
      if upStreamComplete && IsDownStreamComplete() {
        CloseSession();
      }
    }
  }

  /** `(65535 << windowShift) * SEND_WINDOW_SCALE` */
  function BufferLength(windowShift: nat): (r: nat)
    ensures r >= 131070
  {
    if windowShift == 0 then 65535 * WINDOW_SCALE else 2 * BufferLength(windowShift - 1)
  }

  /** Twice the largest window, for some of the shifts that a client may ask for. */
  lemma {:induction false} BufferLengths()
    ensures BufferLength(0) == 131070 && BufferLength(1) == 262140 && BufferLength(14) == 2147450880
  {
    assert BufferLength(4) == 16 * BufferLength(0) by { FourMore(0); }
    assert BufferLength(8) == 16 * BufferLength(4) by { FourMore(4); }
    assert BufferLength(12) == 16 * BufferLength(8) by { FourMore(8); }
    assert BufferLength(14) == 2 * BufferLength(13) && BufferLength(13) == 2 * BufferLength(12);
  }

  lemma {:induction false} FourMore(windowShift: nat)
    ensures BufferLength(windowShift + 4) == 16 * BufferLength(windowShift)
  {
    assert BufferLength(windowShift + 2) == 4 * BufferLength(windowShift);
    assert BufferLength(windowShift + 4) == 4 * BufferLength(windowShift + 2);
  }

  /** shiftElements to the left: `count` elements from `from` move to the start. */
  method ShiftDown(a: array<Byte>, from: nat, count: nat)
    requires from + count <= a.Length
    modifies a
    ensures a[..count] == old(a[from..from + count])
  {
    var i := 0;
    while i < count
      invariant 0 <= i <= count
      invariant a[..i] == old(a[from..from + i])
      invariant forall k :: from + i <= k < from + count ==> a[k] == old(a[k])
    {
      a[i] := a[from + i];
      i := i + 1;
    }
  }

  method CopyInto(a: array<Byte>, at: nat, bytes: Bytes)
    requires at + |bytes| <= a.Length
    modifies a
    ensures a[..at + |bytes|] == old(a[..at]) + bytes
  {
    var i := 0;
    while i < |bytes|
      invariant 0 <= i <= |bytes|
      invariant a[..at + i] == old(a[..at]) + bytes[..i]
    {
      a[at + i] := bytes[i];
      i := i + 1;
    }
  }
}
