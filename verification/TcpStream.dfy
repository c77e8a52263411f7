/** Whole runs of a download: the session, a network that may lose, repeat, delay and
    reorder what it carries, and a client that takes the bytes in order. */
module StreamRuns {
  import opened Values
  import opened Session

  /** The client: the next sequence number it expects, and what it has received. */
  datatype Client = Client(next: nat, received: Bytes, fin: bool)

  /** A segment that starts at or before the expected byte and reaches it is taken from
      there; any other is dropped. */
  function Deliver(c: Client, s: Segment): Client {
    if c.fin || s.start > c.next || s.start + |s.data| < c.next then c
    else Client(SegmentEnd(s), c.received + s.data[c.next - s.start..], s.fin)
  }

  function DeliverAll(c: Client, segments: seq<Segment>): Client
    decreases segments
  {
    if segments == [] then c else DeliverAll(Deliver(c, segments[0]), segments[1..])
  }

  /** Any segment ever sent may still arrive, any acknowledgement ever sent too. The session's
      buffer has room for `capacity` sequence numbers from `start` on. */
  datatype System = System(d: Download, client: Client, acks: set<nat>, start: nat, capacity: nat)
  {
    predicate Fits() {
      d.base <= start <= d.unacknowledged && d.Ordered() && d.End() <= start + capacity && capacity >= 2 * d.mss
    }

    /** Where the buffer starts when the session turns to the server. */
    function ReadStart(): nat
      requires Fits()
    {
      Trimmed(start, d.unacknowledged, d.End(), capacity, d.mss)
    }

    /** How much a read may return. */
    function Room(): int
      requires Fits()
    {
      capacity + ReadStart() - d.End()
    }
  }

  datatype Step =
    | Read(received: Received, timedOut: bool, upStreamComplete: bool)
    | Flush(timedOut: bool, upStreamComplete: bool)
    | AckArrives(ack: nat, upStreamComplete: bool)
    | AckTheClient
    | Close
    | SegmentArrives(segment: Segment)
    | ClientAcks

  /** A session reads only when its buffer has room, and no more than that. */
  predicate Enabled(s: System, step: Step)
    requires s.Fits()
  {
    match step
    case Read(received, _, _) =>
      && s.d.open && s.Room() > 0
      && (received.Data? ==> !s.d.finished && |received.bytes| <= s.Room())
    case Flush(_, _) => s.d.open
    case AckArrives(ack, _) => s.d.open && ack in s.acks
    case AckTheClient => s.d.open
    case Close => true
    case SegmentArrives(segment) => segment in s.d.sent
    case ClientAcks => true
  }

  function After(s: System, step: Step): System
    requires s.Fits() && Enabled(s, step)
  {
    match step
    case Read(received, timedOut, upStreamComplete) =>
      s.(d := Flushed(Arrived(s.d, received), timedOut, upStreamComplete), start := s.ReadStart())
    case Flush(timedOut, upStreamComplete) => s.(d := Flushed(s.d, timedOut, upStreamComplete))
    case AckArrives(ack, upStreamComplete) =>
      var d := Acked(s.d, ack);
      s.(d := ClosedIf(d, upStreamComplete && d.Complete()))
    case AckTheClient => s.(d := AckSent(s.d))
    case Close => s.(d := s.d.(open := false))
    case SegmentArrives(segment) => s.(client := Deliver(s.client, segment))
    case ClientAcks => s.(acks := s.acks + {s.client.next})
  }

  /** A session just established. */
  predicate Initial(s: System) {
    && s.d.open && s.d.Ordered() && s.d.stream == [] && !s.d.finished
    && s.d.unacknowledged == s.d.next == s.d.base && s.d.sent == []
    && s.client == Client(s.d.base, [], false) && s.acks == {}
    && s.start == s.d.base && s.capacity >= 2 * s.d.mss
  }

  /** The states of a run, one after each step. */
  ghost predicate IsRun(states: seq<System>, steps: seq<Step>) {
    && |states| == |steps| + 1 && Initial(states[0])
    && forall i :: 0 <= i < |steps| ==>
         states[i].Fits() && Enabled(states[i], steps[i]) && states[i + 1] == After(states[i], steps[i])
  }

  // ---- What every step keeps ----

  predicate ClientHasPrefix(c: Client, d: Download) {
    && c.next == d.base + |c.received| + (if c.fin then 1 else 0)
    && c.received <= d.stream && (c.fin ==> d.finished && c.received == d.stream)
  }

  ghost predicate Safe(s: System) {
    && s.Fits()
    && (forall g :: g in s.d.sent ==> Carries(g, s.d))
    && ClientHasPrefix(s.client, s.d)
    && s.d.unacknowledged <= s.client.next <= s.d.next
    && (forall a :: a in s.acks ==> a <= s.client.next)
  }

  lemma ReadIsSafe(s: System, step: Step)
    requires Safe(s) && step.Read? && Enabled(s, step)
    ensures Safe(After(s, step))
  {
    hide Segments;
    var a := Arrived(s.d, step.received);
    assert forall g :: g in s.d.sent ==> Carries(g, a) by {
      forall g | g in s.d.sent ensures Carries(g, a) {
        StillCarries(g, s.d, a);
      }
    }
    FlushIsSafe(s.(d := a, start := s.ReadStart()), step.timedOut, step.upStreamComplete);
  }

  /** A segment that is right stays right while the stream grows and more is sent. */
  lemma StillCarries(g: Segment, d: Download, d': Download)
    requires Carries(g, d) && d'.base == d.base && d.next <= d'.next && d.stream <= d'.stream
    requires d.finished ==> d'.finished && d'.stream == d.stream
    ensures Carries(g, d')
  {
    if g.data != [] {
      var at := g.start - d.base;
      assert d.stream == d'.stream[..|d.stream|];
      assert d'.stream[at..at + |g.data|] == d.stream[at..at + |g.data|];
    }
  }

  lemma FlushIsSafe(s: System, timedOut: bool, upStreamComplete: bool)
    requires Safe(s)
    ensures Safe(s.(d := Flushed(s.d, timedOut, upStreamComplete)))
  {
    hide Segments, Carries, ClientHasPrefix;
    if s.d.unacknowledged < s.d.End() {
      SendIsSafe(s, s.d.unacknowledged);
    }
    SendIsSafe(s, s.d.next);
    var d := Flushed(s.d, timedOut, upStreamComplete);
    var n := SentFrom(s.d, s.d.next);
    var u := SentFrom(s.d, s.d.unacknowledged);
    ClientAgrees(s.client, s.d, d);
    forall g | g in d.sent ensures Carries(g, d) {
      if d.next == s.d.next && d.sent == s.d.sent {
        CarriesAgrees(g, s.d, d);
      } else if d.sent == u.sent {
        CarriesAgrees(g, u, d);
      } else {
        CarriesAgrees(g, n, d);
      }
    }
  }

  lemma CarriesAgrees(g: Segment, d: Download, d': Download)
    requires Carries(g, d) && d'.base == d.base && d'.stream == d.stream && d'.finished == d.finished
      && d'.next == d.next
    ensures Carries(g, d')
  {
  }

  lemma ClientAgrees(c: Client, d: Download, d': Download)
    requires ClientHasPrefix(c, d) && d'.base == d.base && d'.stream == d.stream && d'.finished == d.finished
    ensures ClientHasPrefix(c, d')
  {
  }

  lemma SendIsSafe(s: System, from: nat)
    requires Safe(s) && s.d.unacknowledged <= from <= s.d.End()
    ensures var d := SentFrom(s.d, from);
      d.next == d.End() && forall g :: g in d.sent ==> Carries(g, d)
  {
    hide Segments;
    var d := SentFrom(s.d, from);
    SegmentsCarry(s.d.stream, s.d.base, s.d.finished, s.d.mss, from, d);
    forall g | g in d.sent ensures Carries(g, d) {
      if g in s.d.sent {
        StillCarries(g, s.d, d);
      }
    }
  }

  lemma DeliveryIsSafe(c: Client, g: Segment, d: Download)
    requires ClientHasPrefix(c, d) && Carries(g, d)
    ensures ClientHasPrefix(Deliver(c, g), d)
    ensures Deliver(c, g).next == if c.next < SegmentEnd(g) && g.start <= c.next then SegmentEnd(g) else c.next
  {
    var e := Deliver(c, g);
    if e != c && g.data != [] {
      var taken := g.data[c.next - g.start..];
      assert taken == d.stream[|c.received|..|c.received| + |taken|];
      assert e.received == d.stream[..|c.received| + |taken|];
    }
  }

  lemma StepIsSafe(s: System, step: Step)
    requires Safe(s) && Enabled(s, step)
    ensures Safe(After(s, step))
  {
    hide Segments, Carries, ClientHasPrefix;
    match step
    case Read(_, _, _) => ReadIsSafe(s, step);
    case Flush(timedOut, upStreamComplete) => FlushIsSafe(s, timedOut, upStreamComplete);
    case SegmentArrives(g) =>
      DeliveryIsSafe(s.client, g, s.d);
      CarriedEnds(g, s.d);
    case AckTheClient =>
      AckIsEmpty(s.d);
      SameStreamIsSafe(s, After(s, step).d);
    case AckArrives(_, _) => SameStreamIsSafe(s, After(s, step).d);
    case Close => SameStreamIsSafe(s, After(s, step).d);
    case ClientAcks =>
  }

  lemma CarriedEnds(g: Segment, d: Download)
    requires Carries(g, d)
    ensures SegmentEnd(g) <= d.next
  {
  }

  lemma AckIsEmpty(d: Download)
    requires d.Ordered()
    ensures Carries(Segment(d.next, [], false), d)
  {
  }

  /** What was sent and received stays right while the stream does. */
  lemma SameStreamIsSafe(s: System, d: Download)
    requires Safe(s) && d.base == s.d.base && d.stream == s.d.stream && d.finished == s.d.finished && d.next == s.d.next
    ensures ClientHasPrefix(s.client, d)
    ensures forall g :: Carries(g, s.d) ==> Carries(g, d)
  {
    hide Carries, ClientHasPrefix;
    ClientAgrees(s.client, s.d, d);
    forall g | Carries(g, s.d) ensures Carries(g, d) {
      CarriesAgrees(g, s.d, d);
    }
  }

  /** In every state of every run the pointers are in order; every segment ever sent, first
      or again, carries the server's bytes at its place; and the client holds a prefix of
      the stream. No acknowledgement exceeds what was sent. */
  lemma {:induction false} RunsAreSafe(states: seq<System>, steps: seq<Step>, i: nat)
    requires IsRun(states, steps) && i < |states|
    ensures Safe(states[i])
  {
    hide Safe;
    if i == 0 {
      InitiallySafe(states[0]);
    } else {
      RunsAreSafe(states, steps, i - 1);
      assert states[i - 1 + 1] == After(states[i - 1], steps[i - 1]);
      StepIsSafe(states[i - 1], steps[i - 1]);
    }
  }

  lemma InitiallySafe(s: System)
    requires Initial(s)
    ensures Safe(s)
  {
  }

  /** What was sent stays sent, what the server wrote stays written, nothing follows its end,
      and what the client has taken stays taken. */
  ghost predicate Extends(s: System, s': System) {
    && s'.d.base == s.d.base && s'.d.mss == s.d.mss && s'.capacity == s.capacity
    && s.d.sent <= s'.d.sent && s.d.stream <= s'.d.stream && s.client.received <= s'.client.received
    && (s.d.finished ==> s'.d.finished && s'.d.stream == s.d.stream) && (!s.d.open ==> !s'.d.open && s'.d == s.d)
  }

  lemma {:induction false} RunsExtend(states: seq<System>, steps: seq<Step>, i: nat, j: nat)
    requires IsRun(states, steps) && i <= j < |states|
    ensures Extends(states[i], states[j])
  {
    hide Extends, After, Enabled, Safe, System.Fits;
    if i < j {
      RunsExtend(states, steps, i, j - 1);
      RunsAreSafe(states, steps, j - 1);
      assert states[j - 1 + 1] == After(states[j - 1], steps[j - 1]);
      SafeFits(states[j - 1]);
      StepExtends(states[j - 1], steps[j - 1]);
      ExtendsFurther(states[i], states[j - 1], states[j]);
    } else {
      ExtendsItself(states[i]);
    }
  }

  lemma SafeFits(s: System)
    requires Safe(s)
    ensures s.Fits()
  {
    hide Carries, ClientHasPrefix;
  }

  lemma ExtendsItself(s: System)
    ensures Extends(s, s)
  {
  }

  lemma ExtendsFurther(a: System, b: System, c: System)
    requires Extends(a, b) && Extends(b, c)
    ensures Extends(a, c)
  {
  }

  lemma StepExtends(s: System, step: Step)
    requires s.Fits() && Enabled(s, step)
    ensures Extends(s, After(s, step))
  {
    hide Flushed;
    match step
    case Read(received, timedOut, upStreamComplete) =>
      FlushExtends(Arrived(s.d, received), timedOut, upStreamComplete);
    case Flush(timedOut, upStreamComplete) => FlushExtends(s.d, timedOut, upStreamComplete);
    case _ =>
  }

  lemma FlushExtends(d: Download, timedOut: bool, upStreamComplete: bool)
    requires d.Ordered()
    ensures var d' := Flushed(d, timedOut, upStreamComplete);
      && d'.base == d.base && d'.stream == d.stream && d'.finished == d.finished && d.sent <= d'.sent && d'.mss == d.mss
  {
    hide Segments;
  }

  // ---- What the runs guarantee ----

  /** Across any trims and resends, a segment sent at any time of the run carries the bytes
      that the server's stream has at its place at the end of the run, and a FIN sent at any
      time sits right after the last byte. */
  lemma SegmentsMatchTheStream(states: seq<System>, steps: seq<Step>, i: nat, g: Segment)
    requires IsRun(states, steps) && i < |states| && g in states[i].d.sent
    ensures var d := states[|states| - 1].d;
      && d.base <= g.start
      && (forall k :: 0 <= k < |g.data| ==>
        g.start - d.base + k < |d.stream| && g.data[k] == d.stream[g.start - d.base + k])
      && (g.fin ==> d.finished && g.start + |g.data| == d.base + |d.stream|)
  {
    hide After, Enabled, Initial;
    RunsExtend(states, steps, i, |states| - 1);
    RunsAreSafe(states, steps, |states| - 1);
    var d := states[|states| - 1].d;
    assert Carries(g, d);
  }

  /** When the session counts the download as complete, the client has the whole stream and
      its end; and a client that has seen the end has the whole stream. */
  lemma CompleteMeansReceived(states: seq<System>, steps: seq<Step>, i: nat)
    requires IsRun(states, steps) && i < |states|
    ensures var s := states[i];
      && (s.d.Complete() ==> s.client.fin)
      && (s.client.fin ==> s.d.finished && s.client.received == s.d.stream)
      && s.client.received <= s.d.stream
  {
    RunsAreSafe(states, steps, i);
  }

  /** A resend from the oldest unacknowledged byte, delivered in order, brings the client
      up to date, whatever it had before. */
  lemma ResendCatchesUp(states: seq<System>, steps: seq<Step>, i: nat)
    requires IsRun(states, steps) && i < |states|
    ensures var s := states[i];
      && s.d.Ordered()
      && var c := DeliverAll(s.client, Segments(s.d.stream, s.d.base, s.d.finished, s.d.mss, s.d.unacknowledged));
         c.received == s.d.stream && c.fin == s.d.finished
  {
    hide Segments, After, Enabled;
    RunsAreSafe(states, steps, i);
    var d := states[i].d;
    var sent := SentFrom(d, d.unacknowledged);
    var segments := Segments(d.stream, d.base, d.finished, d.mss, d.unacknowledged);
    SegmentsCarry(d.stream, d.base, d.finished, d.mss, d.unacknowledged, sent);
    ClientAgrees(states[i].client, d, sent);
    InOrder(states[i].client, segments, d.unacknowledged, sent);
  }

  lemma {:induction false} InOrder(c: Client, segments: seq<Segment>, from: nat, d: Download)
    requires Contiguous(segments, from, d.End()) && from <= c.next <= d.End() && ClientHasPrefix(c, d)
    requires forall g :: g in segments ==> Carries(g, d)
    ensures var e := DeliverAll(c, segments); ClientHasPrefix(e, d) && e.next == d.End()
    decreases |segments|
  {
    if segments != [] {
      var g := segments[0];
      assert Carries(g, d);
      DeliveryIsSafe(c, g, d);
      InOrder(Deliver(c, g), segments[1..], SegmentEnd(g), d);
    }
  }

  // ---- When the session closes ----

  /** What a read or a flush has to send. */
  function ToSend(s: System, step: Step): Download
    requires s.Fits() && (step.Read? || step.Flush?) && Enabled(s, step)
  {
    if step.Read? then Arrived(s.d, step.received) else s.d
  }

  /** A read or a flush closes an open session whose download is not complete in exactly two
      cases: the fourth timeout in a row, or the end of the upload. */
  lemma FlushCloses(s: System, step: Step)
    requires Safe(s) && (step.Read? || step.Flush?) && Enabled(s, step)
    ensures var a := ToSend(s, step);
      !After(s, step).d.open <==>
        && !a.Complete()
        && (step.upStreamComplete || (a.unacknowledged < a.End() && step.timedOut && a.retries == 3))
  {
    hide Segments, Carries;
  }

  /** What stays unsent in a session that stays open: at most a segment, and nothing when the
      server has ended its stream. */
  lemma FlushLeaves(s: System, step: Step)
    requires Safe(s) && (step.Read? || step.Flush?) && Enabled(s, step) && After(s, step).d.open
    ensures var d := After(s, step).d; d.next == d.End() || (!d.finished && d.End() - d.next <= d.mss)
  {
    hide Flushed, Segments, Carries, ClientHasPrefix;
    FlushedLeaves(ToSend(s, step), step.timedOut, step.upStreamComplete);
  }

  lemma FlushedLeaves(d: Download, timedOut: bool, upStreamComplete: bool)
    requires d.Ordered() && Flushed(d, timedOut, upStreamComplete).open
    ensures var f := Flushed(d, timedOut, upStreamComplete);
      f.next == f.End() || (!f.finished && f.End() - f.next <= f.mss)
  {
    hide Segments;
  }

  /** After a timeout everything not acknowledged is sent again. */
  lemma TimeoutResends(s: System, step: Step)
    requires Safe(s) && (step.Read? || step.Flush?) && Enabled(s, step) && After(s, step).d.open
    requires step.timedOut && s.d.unacknowledged < ToSend(s, step).End()
    ensures var d := After(s, step).d;
      && d.next == d.End() && s.d.sent <= d.sent
      && d.retries == (if s.d.unacknowledged < s.d.next then s.d.retries + 1 else s.d.retries)
      && Contiguous(d.sent[|s.d.sent|..], d.unacknowledged, d.End())
  {
    hide Segments, Carries, Contiguous;
    var a := ToSend(s, step);
    var sent := SentFrom(a, a.unacknowledged);
    SegmentsCarry(a.stream, a.base, a.finished, a.mss, a.unacknowledged, sent);
    assert sent.sent[|s.d.sent|..] == Segments(a.stream, a.base, a.finished, a.mss, a.unacknowledged);
  }

  /** An acknowledgement never takes back another, and ends a row of timeouts. */
  lemma AckAdvances(s: System, step: Step)
    requires Safe(s) && step.AckArrives? && Enabled(s, step)
    ensures var d := After(s, step).d;
      && step.ack <= d.unacknowledged && s.d.unacknowledged <= d.unacknowledged && d.retries == 0
      && (d.unacknowledged == step.ack || d.unacknowledged == s.d.unacknowledged)
      && (!d.open <==> step.upStreamComplete && d.finished && d.unacknowledged == d.End())
  {
  }

  /** A step that closes the session although not all was sent: a read or a flush, at the fourth
      timeout in a row, or at the end of the upload while what is left neither fills a segment
      nor ends the stream; or a reset. An acknowledgement closes only a complete download. */
  predicate Loses(s: System, step: Step)
    requires s.Fits() && Enabled(s, step)
  {
    if step.Read? || step.Flush? then
      var a := ToSend(s, step);
      && a.next < a.End()
      && if step.timedOut then a.retries == 3
         else step.upStreamComplete && !a.finished && a.End() - a.next <= a.mss
    else step.Close? && s.d.open && s.d.next < s.d.End()
  }

  /** In every safe state, a step closes an open session with something unsent in exactly these
      cases. */
  lemma StepLoses(s: System, step: Step)
    requires Safe(s) && Enabled(s, step)
    ensures var d := After(s, step).d; s.d.open && !d.open && d.next < d.End() <==> Loses(s, step)
  {
    hide Segments, Carries, ClientHasPrefix;
  }

  /** What a closed session has not sent is in no segment of any continuation, and the client
      never gets past it. */
  lemma {:induction false} ClosedSendsNoMore(states: seq<System>, steps: seq<Step>, i: nat, j: nat)
    requires IsRun(states, steps) && i <= j < |states| && !states[i].d.open
    ensures states[j].d == states[i].d && states[j].client.next <= states[i].d.next
    ensures forall g :: g in states[j].d.sent ==> SegmentEnd(g) <= states[i].d.next
  {
    hide After, Enabled, Initial;
    RunsExtend(states, steps, i, j);
    RunsAreSafe(states, steps, j);
    forall g | g in states[j].d.sent ensures SegmentEnd(g) <= states[i].d.next {
      assert Carries(g, states[j].d);
    }
  }

  /** So in every run such a step cuts the download short: the bytes from `next` on, or the FIN,
      are lost, whatever happens afterwards. */
  lemma LossIsFinal(states: seq<System>, steps: seq<Step>, i: nat, j: nat)
    requires IsRun(states, steps) && i < j < |states|
    requires i < |steps| && Enabled(states[i], steps[i]) && Loses(states[i], steps[i])
    ensures var d := states[j].d;
      && d.base <= d.next < d.End() && d.stream == states[i + 1].d.stream
      && (forall g :: g in d.sent ==> SegmentEnd(g) <= d.next)
      && |states[j].client.received| <= d.next - d.base && !states[j].client.fin
  {
    hide Segments, Arrived, IsRun;
    RunsAreSafe(states, steps, i);
    StepOfRun(states, steps, i);
    StepLoses(states[i], steps[i]);
    ClosedSendsNoMore(states, steps, i + 1, j);
    RunsAreSafe(states, steps, j);
  }

  /** As when the upload has ended and the server answers with one byte: it is never sent. */
  lemma UploadEndTruncates(s: System)
    requires Initial(s)
    ensures var step := Read(Data([7]), false, true);
      && Enabled(s, step) && Loses(s, step) && IsRun([s, After(s, step)], [step])
      && After(s, step).d.stream == [7] && After(s, step).d.sent == []
  {
  }

  lemma StepOfRun(states: seq<System>, steps: seq<Step>, i: nat)
    requires IsRun(states, steps) && i < |steps|
    ensures |states| == |steps| + 1
    ensures states[i].Fits() && Enabled(states[i], steps[i]) && states[i + 1] == After(states[i], steps[i])
  {
  }
}
