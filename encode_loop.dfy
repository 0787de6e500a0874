/// The main encode loop: a two-state machine driven by the transform's
/// events.  `encoding` records that an input sample has been submitted and
/// its output not yet retrieved; `throttle` records whether the last input
/// was paced to the frame rate (it is printed with each output).
///
/// The loop's environment is given as a sequence of iterations, one per
/// event fetched before the quit key is seen: the event's type, whether
/// the uncap key was held when the event was handled, and the readings the
/// high-resolution clock gives during that iteration's wait.
module EncodeLoop {
  import opened Pacing

  /// `OtherEvent` stands for every event type other than the two the switch
  /// handles, all of which reach its default branch.
  datatype EventType = NeedInput | HaveOutput | OtherEvent(code: int)

  datatype Iteration = Iteration(event: EventType, uncapHeld: bool, clock: seq<int>)

  /// What one accepted event leaves behind: an input submitted (with the
  /// throttle flag and the number of one-millisecond sleeps spent waiting
  /// for the frame boundary) or an output reported (with the throttle flag
  /// printed beside it).
  datatype Record = Submitted(throttle: bool, sleeps: nat) | Reported(throttle: bool)

  /// The fatal CHECKs of the loop, and the division by a zero frame length
  /// that the throttle performs when the clock runs at under 60 ticks per
  /// second.
  datatype Fault = ExpectedHaveOutput | ExpectedNeedInput | UnknownEvent | DivisionByZero

  datatype LoopState = LoopState(encoding: bool, throttle: bool)

  const Initial: LoopState := LoopState(false, false)

  /// How a run ends: the quit key was seen after the last iteration; a
  /// fatal CHECK at iteration `at`; or the clock readings supplied for the
  /// wait of iteration `at` ended before the frame boundary.  In each case
  /// `log` holds one record per accepted event.
  datatype Outcome =
    | Quit(state: LoopState, log: seq<Record>)
    | Fatal(fault: Fault, at: nat, log: seq<Record>)
    | ClockExhausted(at: nat, log: seq<Record>)

  datatype StepResult = Accepted(state: LoopState, record: Record) | Faulted(fault: Fault) | Stalled

  predicate IsProtocolFault(f: Fault) {
    f == ExpectedHaveOutput || f == ExpectedNeedInput || f == UnknownEvent
  }

  /// The handling of one event, from the switch on its type.
  function Step(s: LoopState, it: Iteration, ticksPerFrame: nat): (r: StepResult)
    ensures it.event == NeedInput ==> (r == Faulted(ExpectedHaveOutput) <==> s.encoding)
    ensures it.event == NeedInput && r.Accepted? ==>
              r.state == LoopState(true, !it.uncapHeld) && r.record.Submitted?
              && r.record.throttle == !it.uncapHeld
    ensures it.event == NeedInput && !s.encoding && it.uncapHeld ==>
              r == Accepted(LoopState(true, false), Submitted(false, 0))
    ensures it.event == NeedInput && r.Accepted? && !it.uncapHeld ==>
              ticksPerFrame > 0 && |it.clock| > 0
              && FirstReaching(it.clock, NextFrameTicks(it.clock[0], ticksPerFrame)) == Some(r.record.sleeps)
    ensures it.event == HaveOutput ==>
              r == if s.encoding then Accepted(LoopState(false, s.throttle), Reported(s.throttle))
                   else Faulted(ExpectedNeedInput)
    ensures it.event.OtherEvent? ==> r == Faulted(UnknownEvent)
    ensures (r.Faulted? && !IsProtocolFault(r.fault)) || r.Stalled? ==>
              it.event == NeedInput && !s.encoding && !it.uncapHeld
    ensures r == Faulted(DivisionByZero) ==> ticksPerFrame == 0
    ensures it.event == NeedInput && !s.encoding && !it.uncapHeld ==>
              (r.Accepted? <==> ticksPerFrame > 0 && |it.clock| > 0
                                && FirstReaching(it.clock, NextFrameTicks(it.clock[0], ticksPerFrame)).Some?)
              && (r == Faulted(DivisionByZero) <==> ticksPerFrame == 0)
              && (r.Stalled? <==> ticksPerFrame > 0 && StalledWait(it, ticksPerFrame))
    ensures it.event == NeedInput && !s.encoding ==> !(r.Faulted? && IsProtocolFault(r.fault))
  {
    match it.event
    case NeedInput =>
      if s.encoding then Faulted(ExpectedHaveOutput)
      else
        var throttle := !it.uncapHeld;
        if !throttle then Accepted(LoopState(true, false), Submitted(false, 0))
        else if ticksPerFrame == 0 then Faulted(DivisionByZero)
        else if |it.clock| == 0 then Stalled
        else (match FirstReaching(it.clock, NextFrameTicks(it.clock[0], ticksPerFrame))
          case None => Stalled
          case Some(k) => Accepted(LoopState(true, true), Submitted(true, k)))
    case HaveOutput =>
      if !s.encoding then Faulted(ExpectedNeedInput)
      else Accepted(LoopState(false, s.throttle), Reported(s.throttle))
    case OtherEvent(_) =>
      Faulted(UnknownEvent)
  }

  /// The loop from iteration `i` on, in state `s`, with `log` recorded so far.
  /// It appends one record per accepted event to `log`, and it reaches
  /// the quit key exactly when it accepts every remaining event.
  function RunFrom(its: seq<Iteration>, ticksPerFrame: nat, i: nat, s: LoopState, log: seq<Record>): (o: Outcome)
    requires i <= |its|
    ensures |log| <= |o.log| <= |log| + (|its| - i) && o.log[..|log|] == log
    ensures o.Quit? <==> |o.log| == |log| + (|its| - i)
    ensures !o.Quit? ==> o.at == i + (|o.log| - |log|)
    decreases |its| - i
  {
    if i == |its| then Quit(s, log)
    else match Step(s, its[i], ticksPerFrame)
      case Accepted(next, record) => RunFrom(its, ticksPerFrame, i + 1, next, log + [record])
      case Faulted(fault) => Fatal(fault, i, log)
      case Stalled => ClockExhausted(i, log)
  }

  /// The whole loop, which starts with `encoding` and `throttle` false and
  /// a frame length of ticksPerSecond / 60.
  function Run(its: seq<Iteration>, ticksPerSecond: nat): (o: Outcome)
    ensures o.Quit? <==> |o.log| == |its|
    ensures !o.Quit? ==> o.at == |o.log| < |its|
  {
    RunFrom(its, TicksPerFrame(ticksPerSecond), 0, Initial, [])
  }

  /// The loop as the program runs it, updating `encoding` and `throttle`
  /// in place and waiting for the frame boundary before each throttled input.
  method EventLoop(its: seq<Iteration>, ticksPerSecond: nat) returns (outcome: Outcome)
    ensures outcome == Run(its, ticksPerSecond)
  {
    var ticksPerFrame := TicksPerFrame(ticksPerSecond);
    var encoding := false;
    var throttle := false;
    var log: seq<Record> := [];
    var i := 0;
    while i < |its|
      invariant 0 <= i <= |its|
      invariant RunFrom(its, ticksPerFrame, i, LoopState(encoding, throttle), log) == Run(its, ticksPerSecond)
    {
      var it := its[i];
      match it.event {
        case NeedInput =>
          if encoding {
            return Fatal(ExpectedHaveOutput, i, log);
          }
          encoding := true;
          throttle := !it.uncapHeld;
          var sleeps := 0;
          if throttle {
            if ticksPerFrame == 0 {
              return Fatal(DivisionByZero, i, log);
            }
            if |it.clock| == 0 {
              return ClockExhausted(i, log);
            }
            var waited := WaitForNextFrame(it.clock, ticksPerFrame);
            if waited.None? {
              return ClockExhausted(i, log);
            }
            sleeps := waited.value;
          }
          log := log + [Submitted(throttle, sleeps)];
        case HaveOutput =>
          if !encoding {
            return Fatal(ExpectedNeedInput, i, log);
          }
          encoding := false;
          log := log + [Reported(throttle)];
        case OtherEvent(_) =>
          return Fatal(UnknownEvent, i, log);
      }
      i := i + 1;
    }
    outcome := Quit(LoopState(encoding, throttle), log);
  }

  /// The event the alternation expects at position `i`: inputs are
  /// requested at even positions and outputs announced at odd ones.
  function Expected(i: nat): EventType {
    if i % 2 == 0 then NeedInput else HaveOutput
  }

  /// The first `k` events alternate, starting with NeedInput.
  predicate AlternatesUpTo(its: seq<Iteration>, k: nat)
    requires k <= |its|
  {
    forall j :: 0 <= j < k ==> its[j].event == Expected(j)
  }

  /// The log of accepted events: submissions at even positions, carrying
  /// the throttle decision taken from the uncap key and, when throttled,
  /// the number of sleeps until the clock reached the frame boundary;
  /// reports at odd positions, carrying the throttle flag of the submission
  /// before them.
  predicate LogMatches(its: seq<Iteration>, ticksPerFrame: nat, log: seq<Record>)
    requires |log| <= |its|
  {
    forall j :: 0 <= j < |log| ==> RecordMatches(its, ticksPerFrame, log, j)
  }

  predicate RecordMatches(its: seq<Iteration>, ticksPerFrame: nat, log: seq<Record>, j: nat)
    requires j < |log| <= |its|
  {
    if j % 2 == 0 then
      log[j].Submitted? && log[j].throttle == !its[j].uncapHeld
      && (log[j].throttle ==>
            ticksPerFrame > 0 && |its[j].clock| > 0
            && FirstReaching(its[j].clock, NextFrameTicks(its[j].clock[0], ticksPerFrame)) == Some(log[j].sleeps))
      && (!log[j].throttle ==> log[j].sleeps == 0)
    else
      log[j] == Reported(log[j - 1].throttle)
  }

  /// The readings supplied for a throttled wait end before its boundary.
  predicate StalledWait(it: Iteration, ticksPerFrame: nat)
    requires ticksPerFrame > 0
  {
    |it.clock| == 0 || FirstReaching(it.clock, NextFrameTicks(it.clock[0], ticksPerFrame)).None?
  }

  /// Everything the loop guarantees about a run from an intermediate point
  /// reached by alternating events.
  lemma {:induction false} RunFromTrace(its: seq<Iteration>, ticksPerFrame: nat, i: nat, s: LoopState, log: seq<Record>)
    requires i <= |its| && |log| == i
    requires AlternatesUpTo(its, i) && LogMatches(its, ticksPerFrame, log)
    requires s.encoding == (i % 2 == 1)
    requires i % 2 == 1 ==> s.throttle == log[i - 1].throttle
    ensures var o := RunFrom(its, ticksPerFrame, i, s, log);
            && i <= |o.log| <= |its| && o.log[..i] == log
            && AlternatesUpTo(its, |o.log|) && LogMatches(its, ticksPerFrame, o.log)
            && (o.Quit? ==> |o.log| == |its| && o.state.encoding == (|its| % 2 == 1))
            && (!o.Quit? ==> o.at == |o.log| < |its|)
            && (o.Fatal? && IsProtocolFault(o.fault) ==> its[o.at].event != Expected(o.at))
            && ((o.Fatal? && !IsProtocolFault(o.fault)) || o.ClockExhausted? ==>
                  its[o.at].event == NeedInput && o.at % 2 == 0 && !its[o.at].uncapHeld)
            && (o.Fatal? && !IsProtocolFault(o.fault) ==> o.fault == DivisionByZero && ticksPerFrame == 0)
            && (o.ClockExhausted? ==> ticksPerFrame > 0 && StalledWait(its[o.at], ticksPerFrame))
    decreases |its| - i
  {
    if i < |its| {
      var r := Step(s, its[i], ticksPerFrame);
      if r.Accepted? {
        assert its[i].event == Expected(i) by {
          if its[i].event.OtherEvent? {
            assert false;
          } else if its[i].event == NeedInput {
            assert !s.encoding;
          } else {
            assert s.encoding;
          }
        }
        var log' := log + [r.record];
        assert LogMatches(its, ticksPerFrame, log') by {
          forall j | 0 <= j < |log'|
            ensures RecordMatches(its, ticksPerFrame, log', j)
          {
            if j < i {
              assert RecordMatches(its, ticksPerFrame, log, j);
              assert log'[j] == log[j];
              if j % 2 == 1 {
                assert log'[j - 1] == log[j - 1];
              }
            } else if j % 2 == 0 {
              assert its[j].event == NeedInput && log'[j] == r.record;
            } else {
              assert its[j].event == HaveOutput && log'[j] == r.record && log'[j - 1] == log[j - 1];
            }
          }
        }
        RunFromTrace(its, ticksPerFrame, i + 1, r.state, log');
        var o := RunFrom(its, ticksPerFrame, i + 1, r.state, log');
        assert o.log[..i] == o.log[..i + 1][..i];
      }
    }
  }

  /// Every run, however it ends, has accepted an alternating prefix of the
  /// events, starting with NeedInput; a protocol fault is raised exactly at
  /// the first event that breaks the alternation, and any other early stop
  /// falls on an event in turn; and a run that reaches
  /// the quit key has accepted every event and is mid-frame exactly when
  /// their number is odd.
  lemma AcceptedEventsAlternate(its: seq<Iteration>, ticksPerSecond: nat)
    ensures var o := Run(its, ticksPerSecond);
            && |o.log| <= |its| && AlternatesUpTo(its, |o.log|)
            && (o.Quit? ==> |o.log| == |its| && o.state.encoding == (|its| % 2 == 1))
            && (!o.Quit? ==> o.at == |o.log| < |its|)
            && (o.Fatal? && IsProtocolFault(o.fault) ==> its[o.at].event != Expected(o.at))
            && ((o.Fatal? && !IsProtocolFault(o.fault)) || o.ClockExhausted? ==>
                  its[o.at].event == Expected(o.at))
  {
    RunFromTrace(its, TicksPerFrame(ticksPerSecond), 0, Initial, []);
  }

  /// Conversely, alternating events never raise a protocol fault; the only
  /// ways such a run stops early are a zero frame length or clock readings
  /// that end before the boundary, both on a throttled NeedInput.
  lemma AlternatingEventsRaiseNoProtocolFault(its: seq<Iteration>, ticksPerSecond: nat)
    requires AlternatesUpTo(its, |its|)
    ensures var o := Run(its, ticksPerSecond);
            !(o.Fatal? && IsProtocolFault(o.fault))
            && (!o.Quit? ==> o.at < |its| && its[o.at].event == NeedInput && !its[o.at].uncapHeld)
            && (o.Fatal? ==> o.fault == DivisionByZero && TicksPerFrame(ticksPerSecond) == 0)
            && (o.ClockExhausted? ==>
                  TicksPerFrame(ticksPerSecond) > 0 && StalledWait(its[o.at], TicksPerFrame(ticksPerSecond)))
  {
    RunFromTrace(its, TicksPerFrame(ticksPerSecond), 0, Initial, []);
  }

  /// Every throttled NeedInput's readings reach the boundary of its wait.
  predicate WaitsComplete(its: seq<Iteration>, ticksPerFrame: nat) {
    forall j :: 0 <= j < |its| && its[j].event == NeedInput && !its[j].uncapHeld ==>
      ticksPerFrame > 0 && !StalledWait(its[j], ticksPerFrame)
  }

  /// In the capped mode, alternating events run to the quit key as long as
  /// the clock runs at 60 ticks per second or more and every wait reaches
  /// its boundary: every throttled input is submitted.
  lemma ThrottledRunQuits(its: seq<Iteration>, ticksPerSecond: nat)
    requires AlternatesUpTo(its, |its|)
    requires ticksPerSecond >= FrameRate
    requires WaitsComplete(its, TicksPerFrame(ticksPerSecond))
    ensures var o := Run(its, ticksPerSecond);
            o.Quit? && |o.log| == |its|
  {
    RunFromTrace(its, TicksPerFrame(ticksPerSecond), 0, Initial, []);
  }

  /// The clock across a run: no reading is negative, and every reading of
  /// a later iteration is at least every reading of an earlier one.
  predicate ClockNeverGoesBack(its: seq<Iteration>) {
    && (forall a, k :: 0 <= a < |its| && 0 <= k < |its[a].clock| ==> its[a].clock[k] >= 0)
    && (forall a, b, k, l :: 0 <= a < b < |its| && 0 <= k < |its[a].clock| && 0 <= l < |its[b].clock| ==>
          its[a].clock[k] <= its[b].clock[l])
  }

  /// The rate cap: on a clock that never goes back, a throttled submission
  /// that follows another throttled submission waits for a frame boundary
  /// at least one whole frame after the earlier one's boundary, and it is
  /// submitted at a reading at or past its own boundary.
  lemma ThrottledSubmissionsAreAFrameApart(its: seq<Iteration>, ticksPerSecond: nat, j: nat, j': nat)
    requires ClockNeverGoesBack(its)
    requires j < j' < |Run(its, ticksPerSecond).log|
    requires Run(its, ticksPerSecond).log[j].Submitted? && Run(its, ticksPerSecond).log[j].throttle
    requires Run(its, ticksPerSecond).log[j'].Submitted? && Run(its, ticksPerSecond).log[j'].throttle
    ensures var tpf := TicksPerFrame(ticksPerSecond);
            var log := Run(its, ticksPerSecond).log;
            && tpf > 0 && |its[j].clock| > 0 && |its[j'].clock| > 0
            && NextFrameTicks(its[j'].clock[0], tpf) >= NextFrameTicks(its[j].clock[0], tpf) + tpf
            && log[j'].sleeps < |its[j'].clock|
            && its[j'].clock[log[j'].sleeps] >= NextFrameTicks(its[j'].clock[0], tpf)
  {
    var tpf := TicksPerFrame(ticksPerSecond);
    var log := Run(its, ticksPerSecond).log;
    RunLogMatchesIterations(its, ticksPerSecond);
    assert RecordMatches(its, tpf, log, j) && RecordMatches(its, tpf, log, j');
    assert j % 2 == 0 && j' % 2 == 0;
    var b := NextFrameTicks(its[j].clock[0], tpf);
    var k := log[j].sleeps;
    assert its[j].clock[k] >= b;
    assert its[j].clock[k] <= its[j'].clock[0];
    LaterWaitIsAFrameLater(its[j].clock[0], its[j'].clock[0], tpf);
  }

  /// With the uncap key held throughout, no wait takes place: alternating
  /// events run to the quit key and every submission is unthrottled with
  /// no sleeps.
  lemma UncappedRunNeverWaits(its: seq<Iteration>, ticksPerSecond: nat)
    requires AlternatesUpTo(its, |its|)
    requires forall j :: 0 <= j < |its| ==> its[j].uncapHeld
    ensures var o := Run(its, ticksPerSecond);
            o.Quit? && |o.log| == |its|
            && forall j :: 0 <= j < |o.log| ==>
                 o.log[j] == if j % 2 == 0 then Submitted(false, 0) else Reported(false)
  {
    var o := Run(its, ticksPerSecond);
    RunFromTrace(its, TicksPerFrame(ticksPerSecond), 0, Initial, []);
    forall j | 0 <= j < |o.log|
      ensures o.log[j] == if j % 2 == 0 then Submitted(false, 0) else Reported(false)
    {
      assert RecordMatches(its, TicksPerFrame(ticksPerSecond), o.log, j);
      if j % 2 == 1 {
        assert RecordMatches(its, TicksPerFrame(ticksPerSecond), o.log, j - 1);
      }
    }
  }

  /// The records of any run: each throttled submission waited until a clock
  /// reading at or past its frame boundary, and each report prints the
  /// throttle flag of the submission before it.
  lemma RunLogMatchesIterations(its: seq<Iteration>, ticksPerSecond: nat)
    ensures var o := Run(its, ticksPerSecond);
            |o.log| <= |its| && LogMatches(its, TicksPerFrame(ticksPerSecond), o.log)
  {
    RunFromTrace(its, TicksPerFrame(ticksPerSecond), 0, Initial, []);
  }
}
