/**
 * The render loop and the worker composed into one closed transition
 * system. Each handler runs to completion as one atomic event; the two
 * directions of the message channel are FIFO queues. The detector and the
 * frame capture are outside the system, so their outcomes arrive as event
 * parameters and every outcome is allowed.
 */
module Coordination {
  import opened Wrappers
  import opened Protocol
  import opened Worker
  import RenderLoop

  datatype System = System(
    main: RenderLoop.MainState,
    worker: WorkerState,
    toWorker: seq<Request>,
    toMain: seq<Reply>)

  /**
   * A tick of the render loop with the capture's outcome; the render loop
   * handling the oldest reply; the worker handling the oldest request with
   * the outcomes the detector library produces.
   */
  datatype Event =
    | Tick(capture: RenderLoop.Capture)
    | MainReceive
    | WorkerReceive(build: BuildOutcome, detect: DetectFn)

  const START: System := System(RenderLoop.INITIAL, Worker.INITIAL, [], [])

  /** The replies a run of worker effects puts on the channel, in order. */
  function Posts(effects: seq<Effect>): seq<Reply>
    decreases |effects|
  {
    if |effects| == 0 then []
    else
      var last := effects[|effects| - 1];
      Posts(effects[..|effects| - 1]) + (if last.Post? then [last.reply] else [])
  }

  function SentList(sent: Option<Request>): seq<Request> {
    if sent.Some? then [sent.value] else []
  }

  /**
   * One atomic step; delivering from an empty queue is a no-op. Each side
   * touches only its own state and its own ends of the channel: a tick
   * changes only the render loop and appends at most one request; the
   * render loop handling a reply changes only its state and consumes that
   * reply; the worker handling a request leaves the render loop alone,
   * consumes that request, only appends replies, and keeps a built
   * detector.
   */
  function Next(s: System, e: Event): (r: System)
    ensures e.Tick? ==>
      && r.worker == s.worker && r.toMain == s.toMain
      && |s.toWorker| <= |r.toWorker| <= |s.toWorker| + 1
      && r.toWorker[..|s.toWorker|] == s.toWorker
    ensures e.MainReceive? ==>
      && r.worker == s.worker && r.toWorker == s.toWorker
      && (|s.toMain| > 0 ==> r.toMain == s.toMain[1..])
    ensures e.WorkerReceive? ==>
      && r.main == s.main
      && |s.toMain| <= |r.toMain| && r.toMain[..|s.toMain|] == s.toMain
      && (|s.toWorker| > 0 ==> r.toWorker == s.toWorker[1..])
    ensures s.worker.instance.Some? ==> r.worker == s.worker
  {
    match e
    case Tick(capture) =>
      var t := RenderLoop.Tick(s.main, capture);
      s.(main := t.state, toWorker := s.toWorker + SentList(t.sent))
    case MainReceive =>
      if |s.toMain| == 0 then s
      else s.(main := RenderLoop.Receive(s.main, s.toMain[0]), toMain := s.toMain[1..])
    case WorkerReceive(build, detect) =>
      if |s.toWorker| == 0 then s
      else
        var h := HandleMessage(s.worker, s.toWorker[0], build, detect);
        s.(worker := h.state, toWorker := s.toWorker[1..], toMain := s.toMain + Posts(h.effects))
  }

  function Run(s: System, events: seq<Event>): System
    decreases |events|
  {
    if |events| == 0 then s else Run(Next(s, events[0]), events[1..])
  }

  /**
   * Requests dispatched but not yet answered: `predict` messages the worker
   * has not handled, plus terminal replies the render loop has not handled.
   */
  function Outstanding(s: System): nat {
    CountPredicts(s.toWorker) + CountTerminals(s.toMain)
  }

  /** Single flight: at most one request is outstanding, and one is exactly while the gate is held. */
  predicate Inv(s: System) {
    && CountPredicts(s.toWorker) == |s.toWorker|
    && Outstanding(s) <= 1
    && (s.main.isProcessing <==> Outstanding(s) == 1)
  }

  lemma {:induction false} PostsNoTerminal(effects: seq<Effect>)
    requires forall i :: 0 <= i < |effects| ==> !IsTerminalEffect(effects[i])
    ensures CountTerminals(Posts(effects)) == 0
    decreases |effects|
  {
    if |effects| > 0 {
      var init := effects[..|effects| - 1];
      var last := effects[|effects| - 1];
      PostsNoTerminal(init);
      CountTerminalsAppend(Posts(init), if last.Post? then [last.reply] else []);
    }
  }

  /** The effects of handling a `predict` put exactly one terminal reply on the channel. */
  lemma PostsOneTerminal(effects: seq<Effect>)
    requires EndsWithOnlyTerminal(effects)
    ensures CountTerminals(Posts(effects)) == 1
  {
    var init := effects[..|effects| - 1];
    var last := effects[|effects| - 1];
    PostsNoTerminal(init);
    CountTerminalsAppend(Posts(init), [last.reply]);
  }

  lemma InitialSatisfiesInv()
    ensures Inv(START)
  {
  }

  /** Every event preserves the single-flight invariant. */
  lemma NextPreservesInv(s: System, e: Event)
    requires Inv(s)
    ensures Inv(Next(s, e))
  {
    match e
    case Tick(capture) =>
      var t := RenderLoop.Tick(s.main, capture);
      CountPredictsAppend(s.toWorker, SentList(t.sent));
    case MainReceive =>
      if |s.toMain| > 0 {
        assert s.toMain == [s.toMain[0]] + s.toMain[1..];
        CountTerminalsAppend([s.toMain[0]], s.toMain[1..]);
      }
    case WorkerReceive(build, detect) =>
      if |s.toWorker| > 0 {
        var h := HandleMessage(s.worker, s.toWorker[0], build, detect);
        assert s.toWorker == [s.toWorker[0]] + s.toWorker[1..];
        CountPredictsAppend([s.toWorker[0]], s.toWorker[1..]);
        CountTerminalsAppend(s.toMain, Posts(h.effects));
        PostsOneTerminal(h.effects);
      }
  }

  lemma {:induction false} RunPreservesInv(s: System, events: seq<Event>)
    requires Inv(s)
    ensures Inv(Run(s, events))
    decreases |events|
  {
    if |events| > 0 {
      NextPreservesInv(s, events[0]);
      RunPreservesInv(Next(s, events[0]), events[1..]);
    }
  }

  /**
   * In every reachable state at most one `predict` is outstanding, at most
   * one frame waits for the worker, and a request is outstanding exactly
   * while `isProcessing` is set.
   */
  lemma SingleFlight(events: seq<Event>)
    ensures var s := Run(START, events);
      && Outstanding(s) <= 1
      && |s.toWorker| <= 1
      && (s.main.isProcessing <==> Outstanding(s) == 1)
  {
    InitialSatisfiesInv();
    RunPreservesInv(START, events);
  }

  function Ticks(captures: seq<RenderLoop.Capture>): seq<Event> {
    seq(|captures|, i requires 0 <= i < |captures| => Tick(captures[i]))
  }

  /**
   * Backpressure by dropping: while the gate is held, any number of ticks,
   * whatever their captures, dispatch nothing and change no state.
   */
  lemma {:induction false} HeldTicksDropFrames(s: System, captures: seq<RenderLoop.Capture>)
    requires s.main.isProcessing
    ensures Run(s, Ticks(captures)) == s
    decreases |captures|
  {
    if |captures| > 0 {
      assert s.toWorker + [] == s.toWorker;
      assert Next(s, Ticks(captures)[0]) == s;
      assert Ticks(captures)[1..] == Ticks(captures[1..]);
      HeldTicksDropFrames(s, captures[1..]);
    }
  }

  function Deliveries(n: nat): seq<Event> {
    seq(n, _ => MainReceive)
  }

  /** Delivering every reply while no request waits for the worker leaves the gate free. */
  lemma {:induction false} DrainReleasesGate(s: System)
    requires Inv(s) && |s.toWorker| == 0
    ensures !Run(s, Deliveries(|s.toMain|)).main.isProcessing
    decreases |s.toMain|
  {
    if |s.toMain| > 0 {
      NextPreservesInv(s, MainReceive);
      assert Deliveries(|s.toMain|)[1..] == Deliveries(|s.toMain| - 1);
      DrainReleasesGate(Next(s, MainReceive));
    }
  }

  /** The events that let the worker answer and the render loop read every reply. */
  function ReleaseEvents(s: System, build: BuildOutcome, detect: DetectFn): seq<Event> {
    if |s.toWorker| == 0 then Deliveries(|s.toMain|)
    else [WorkerReceive(build, detect)] + Deliveries(|Next(s, WorkerReceive(build, detect)).toMain|)
  }

  /**
   * Gate release on every outcome: from any state of the system, once the
   * worker handles the pending request, whatever the build and the
   * detector do, and the render loop reads the replies, the gate is free.
   */
  lemma GateReleasedOnEveryOutcome(s: System, build: BuildOutcome, detect: DetectFn)
    requires Inv(s)
    ensures !Run(s, ReleaseEvents(s, build, detect)).main.isProcessing
  {
    if |s.toWorker| == 0 {
      DrainReleasesGate(s);
    } else {
      var e := WorkerReceive(build, detect);
      var s1 := Next(s, e);
      NextPreservesInv(s, e);
      assert |s.toWorker| == 1;
      DrainReleasesGate(s1);
      assert ReleaseEvents(s, build, detect)[1..] == Deliveries(|s1.toMain|);
    }
  }

  /** Once built, the detector is kept for the rest of every run, errors included. */
  lemma {:induction false} InstanceNeverReset(s: System, events: seq<Event>)
    requires s.worker.instance.Some?
    ensures Run(s, events).worker == s.worker
    decreases |events|
  {
    if |events| > 0 {
      InstanceNeverReset(Next(s, events[0]), events[1..]);
    }
  }

  /** Only a delivered `complete` changes the predictions the overlay shows. */
  lemma PredictionsChangeOnlyOnComplete(s: System, e: Event)
    ensures Next(s, e).main.lastPredictions != s.main.lastPredictions ==>
      e.MainReceive? && |s.toMain| > 0 && s.toMain[0].Complete?
        && Next(s, e).main.lastPredictions == s.toMain[0].output
  {
  }
}
