/** What becomes of a download when its session has ended: the network still carries what was
    sent, and the client still takes it. */
module StreamEnds {
  import opened Values
  import opened Session
  import opened StreamRuns

  // ---- Every byte sent is in some segment ----

  predicate Holds(g: Segment, x: nat) { g.start <= x < SegmentEnd(g) }

  ghost predicate IsSent(segments: seq<Segment>, x: nat) { exists g :: g in segments && Holds(g, x) }

  ghost predicate Covered(d: Download) {
    forall x: nat :: d.base <= x < d.next ==> IsSent(d.sent, x)
  }

  lemma {:induction false} ContiguousCovers(segments: seq<Segment>, from: nat, to: nat, x: nat)
    requires Contiguous(segments, from, to) && from <= x < to
    ensures IsSent(segments, x)
    decreases |segments|
  {
    var g := segments[0];
    if x < SegmentEnd(g) {
      assert Holds(g, x);
    } else {
      ContiguousCovers(segments[1..], SegmentEnd(g), to, x);
      SentAmong(segments[1..], segments, x);
    }
  }

  lemma SentAmong(segments: seq<Segment>, more: seq<Segment>, x: nat)
    requires IsSent(segments, x) && forall g :: g in segments ==> g in more
    ensures IsSent(more, x)
  {
    var g :| g in segments && Holds(g, x);
    assert g in more;
  }

  /** What is sent from a byte already sent on leaves no gap. */
  lemma SendCovers(d: Download, from: nat)
    requires d.Ordered() && Covered(d) && d.base <= from <= d.next
    ensures Covered(SentFrom(d, from))
  {
    hide Segments, Contiguous, Carries, IsSent;
    var d' := SentFrom(d, from);
    var segments := Segments(d.stream, d.base, d.finished, d.mss, from);
    SegmentsCarry(d.stream, d.base, d.finished, d.mss, from, d');
    forall x: nat | d.base <= x < d'.next ensures IsSent(d'.sent, x) {
      if x < from {
        SentAmong(d.sent, d'.sent, x);
      } else {
        ContiguousCovers(segments, from, d.End(), x);
        SentAmong(segments, d'.sent, x);
      }
    }
  }

  lemma FlushCovers(d: Download, timedOut: bool, upStreamComplete: bool)
    requires d.Ordered() && Covered(d)
    ensures Covered(Flushed(d, timedOut, upStreamComplete))
  {
    hide Segments, IsSent;
    SendCovers(d, d.next);
    SendCovers(d, d.unacknowledged);
  }

  lemma StepCovers(s: System, step: Step)
    requires s.Fits() && Enabled(s, step) && Covered(s.d)
    ensures Covered(After(s, step).d)
  {
    hide Segments, Flushed, IsSent;
    match step
    case Read(received, timedOut, upStreamComplete) =>
      FlushCovers(Arrived(s.d, received), timedOut, upStreamComplete);
    case Flush(timedOut, upStreamComplete) => FlushCovers(s.d, timedOut, upStreamComplete);
    case AckTheClient =>
      forall x: nat | s.d.base <= x < s.d.next ensures IsSent(AckSent(s.d).sent, x) {
        SentAmong(s.d.sent, AckSent(s.d).sent, x);
      }
    case _ =>
  }

  /** In every state of every run each byte sent, and the FIN, is in a segment that the network
      may still carry. */
  lemma {:induction false} RunsCover(states: seq<System>, steps: seq<Step>, i: nat)
    requires IsRun(states, steps) && i < |states|
    ensures Covered(states[i].d)
  {
    hide Covered;
    if i == 0 {
      NothingToCover(states[0]);
    } else {
      RunsCover(states, steps, i - 1);
      StepOfRun(states, steps, i - 1);
      StepCovers(states[i - 1], steps[i - 1]);
    }
  }

  lemma NothingToCover(s: System)
    requires Initial(s)
    ensures Covered(s.d)
  {
  }

  // ---- What the client can still get ----

  /** The client has the whole stream, and its end if the server has ended it. */
  predicate HasAll(s: System) { s.client.received == s.d.stream && s.client.fin == s.d.finished }

  lemma HasAllIsEnd(s: System)
    requires Safe(s)
    ensures HasAll(s) <==> s.client.next == s.d.End()
  {
    hide Carries;
  }

  ghost predicate Continues(states: seq<System>, steps: seq<Step>, states': seq<System>, steps': seq<Step>) {
    states <= states' && steps <= steps' && IsRun(states', steps')
  }

  lemma Continue(states: seq<System>, steps: seq<Step>, step: Step)
    requires IsRun(states, steps)
    requires Last(states).Fits() && Enabled(Last(states), step)
    ensures IsRun(states + [After(Last(states), step)], steps + [step])
  {
    hide After, Enabled, Initial;
    var states', steps' := states + [After(Last(states), step)], steps + [step];
    forall i | 0 <= i < |steps'|
      ensures states'[i].Fits() && Enabled(states'[i], steps'[i]) && states'[i + 1] == After(states'[i], steps'[i])
    {
      if i < |steps| {
        StepOfRun(states, steps, i);
      }
    }
  }

  function Last(states: seq<System>): System
    requires states != []
  {
    states[|states| - 1]
  }

  /** The network can deliver what was sent and the client lacks. */
  lemma {:induction false} SentCanArrive(states: seq<System>, steps: seq<Step>)
    returns (states': seq<System>, steps': seq<Step>)
    requires IsRun(states, steps)
    ensures Continues(states, steps, states', steps')
    ensures var s, s' := Last(states), Last(states');
      s'.client.next == s'.d.next && s' == s.(client := s'.client)
    decreases Last(states).d.next - Last(states).client.next
  {
    hide Initial, Segments, Covered, Carries, ClientHasPrefix, Deliver;
    var s := Last(states);
    RunsAreSafe(states, steps, |states| - 1);
    if s.client.next == s.d.next {
      return states, steps;
    }
    RunsCover(states, steps, |states| - 1);
    var g := MissingSegment(s);
    var step := SegmentArrives(g);
    DeliveryIsSafe(s.client, g, s.d);
    CarriedEnds(g, s.d);
    Continue(states, steps, step);
    states', steps' := SentCanArrive(states + [After(s, step)], steps + [step]);
  }

  /** So when all was sent the client can still get everything. */
  lemma AllSentCanArrive(states: seq<System>, steps: seq<Step>)
    returns (states': seq<System>, steps': seq<Step>)
    requires IsRun(states, steps)
    requires var d := Last(states).d; d.next == d.End()
    ensures Continues(states, steps, states', steps') && HasAll(Last(states'))
  {
    hide Initial, After, Enabled, HasAll;
    states', steps' := SentCanArrive(states, steps);
    RunsAreSafe(states', steps', |states'| - 1);
    HasAllIsEnd(Last(states'));
  }

  lemma MissingSegment(s: System) returns (g: Segment)
    requires Safe(s) && Covered(s.d) && s.client.next < s.d.next
    ensures g in s.d.sent && Carries(g, s.d) && g.start <= s.client.next < SegmentEnd(g)
  {
    hide Carries;
    assert IsSent(s.d.sent, s.client.next);
    g :| g in s.d.sent && Holds(g, s.client.next);
  }

  /** So a closed session's client can still get everything if and only if everything was sent:
      what closes with something unsent cuts the download short, and nothing else does. */
  lemma ClosedCanFinish(states: seq<System>, steps: seq<Step>)
    requires IsRun(states, steps) && !Last(states).d.open
    ensures (exists states', steps' :: Continues(states, steps, states', steps') && HasAll(Last(states')))
      <==> Last(states).d.next == Last(states).d.End()
  {
    hide Initial, Enabled, After, HasAll;
    var n := |states| - 1;
    var d := states[n].d;
    if d.next == d.End() {
      var states', steps' := AllSentCanArrive(states, steps);
    } else {
      forall states', steps' | Continues(states, steps, states', steps') ensures !HasAll(Last(states')) {
        ClosedSendsNoMore(states', steps', n, |states'| - 1);
        RunsAreSafe(states', steps', |states'| - 1);
        HasAllIsEnd(Last(states'));
      }
    }
  }

  // ---- An open session never stops for good ----

  lemma ContinuesOn(states: seq<System>, steps: seq<Step>, more: seq<System>, moreSteps: seq<Step>,
                    states': seq<System>, steps': seq<Step>)
    requires states <= more && steps <= moreSteps && Continues(more, moreSteps, states', steps')
    ensures Continues(states, steps, states', steps')
  {
  }

  /** One step more, with what the step keeps. */
  lemma Take(states: seq<System>, steps: seq<Step>, step: Step) returns (states': seq<System>, steps': seq<Step>)
    requires IsRun(states, steps) && Last(states).Fits() && Enabled(Last(states), step)
    ensures Continues(states, steps, states', steps') && Last(states') == After(Last(states), step)
    ensures Safe(Last(states'))
  {
    hide After, Enabled, Initial, IsRun, Safe;
    IsNotEmpty(states, steps);
    Continue(states, steps, step);
    states', steps' := states + [After(Last(states), step)], steps + [step];
    IsNotEmpty(states', steps');
    RunsAreSafe(states', steps', |states'| - 1);
  }

  lemma IsNotEmpty(states: seq<System>, steps: seq<Step>)
    requires IsRun(states, steps)
    ensures |states| == |steps| + 1
  {
  }

  /** The client can get and acknowledge all that was sent. */
  lemma AllAcknowledged(states: seq<System>, steps: seq<Step>) returns (states': seq<System>, steps': seq<Step>)
    requires IsRun(states, steps) && Last(states).d.open
    ensures Continues(states, steps, states', steps')
    ensures var s, s' := Last(states), Last(states');
      && s'.d == s.d.(unacknowledged := s.d.next, retries := 0)
      && s'.client.next == s.d.next && s'.start == s.start && s'.capacity == s.capacity && Safe(s')
  {
    hide Initial, ClientHasPrefix, Carries, Deliver;
    var a, b := SentCanArrive(states, steps);
    RunsAreSafe(a, b, |a| - 1);
    var a1, b1 := Take(a, b, ClientAcks);
    states', steps' := Take(a1, b1, AckArrives(Last(a1).client.next, false));
  }

  /** From every state of every run in which the session is open, without reading, it comes to
      have room for a read: no download stops because the buffer is full. */
  lemma NeverStuck(states: seq<System>, steps: seq<Step>) returns (states': seq<System>, steps': seq<Step>)
    requires IsRun(states, steps) && Last(states).d.open
    ensures Continues(states, steps, states', steps') && Last(states').Fits() && Last(states').Room() > 0
    ensures var d, d' := Last(states).d, Last(states').d;
      d'.open && d'.stream == d.stream && d'.finished == d.finished
    ensures Safe(Last(states'))
  {
    hide Initial, Segments, Carries, ClientHasPrefix, IsRun;
    IsNotEmpty(states, steps);
    RunsAreSafe(states, steps, |states| - 1);
    var s, step := Last(states), Flush(false, false);
    FlushCloses(s, step);
    var a, b := Take(states, steps, step);
    FlushLeaves(s, step);
    states', steps' := AllAcknowledged(a, b);
    var s' := Last(states');
    TrimmingMakesRoom(s'.start, s'.d.unacknowledged, s'.d.End(), s'.capacity, s'.d.mss);
    ContinuesOn(states, steps, a, b, states', steps');
  }

  /** And it can complete: the server ends its stream where it is, and the client gets and
      acknowledges all of it. */
  lemma DownloadCanFinish(states: seq<System>, steps: seq<Step>) returns (states': seq<System>, steps': seq<Step>)
    requires IsRun(states, steps) && Last(states).d.open
    ensures Continues(states, steps, states', steps')
    ensures var s' := Last(states');
      s'.d.Complete() && s'.d.stream == Last(states).d.stream && HasAll(s') && s'.client.fin
  {
    hide Initial, Segments, Carries, ClientHasPrefix, IsRun;
    IsNotEmpty(states, steps);
    var a, b := NeverStuck(states, steps);
    var s := Last(a);
    var step := if s.d.finished then Flush(false, false) else Read(EndOfStream, false, false);
    FlushCloses(s, step);
    var a1, b1 := Take(a, b, step);
    FlushLeaves(s, step);
    EndArrives(s, step);
    states', steps' := AllAcknowledged(a1, b1);
    HasAllIsEnd(Last(states'));
    ContinuesOn(a, b, a1, b1, states', steps');
    ContinuesOn(states, steps, a, b, states', steps');
  }

  lemma EndArrives(s: System, step: Step)
    requires s.Fits() && Enabled(s, step)
    requires step == (if s.d.finished then Flush(false, false) else Read(EndOfStream, false, false))
    ensures var d := After(s, step).d; d.finished && d.stream == s.d.stream
  {
    hide Segments;
  }
}
