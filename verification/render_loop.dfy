/**
 * The render loop's side of the protocol: the `isProcessing` gate, the
 * `lastPredictions` buffer, one iteration of `loop`, and the worker's
 * `onmessage` handler. Drawing is reduced to the detection set handed to
 * the box renderer; status-text updates are not modelled.
 */
module RenderLoop {
  import opened Wrappers
  import opened Protocol

  datatype MainState = MainState(isProcessing: bool, lastPredictions: DetectionSet)

  const INITIAL: MainState := MainState(false, [])

  /** What `createImageBitmap(video)` does: resolve with a bitmap or reject. */
  datatype Capture = Captured(bitmap: Bitmap) | CaptureFailed(error: string)

  /** The state after a tick, what it drew, and the request it posted, if any. */
  datatype TickResult = TickResult(state: MainState, drawn: DetectionSet, sent: Option<Request>)

  /**
   * The dispatch step, entered with the gate already taken: a captured
   * frame is posted (ownership moves to the worker) and the gate stays
   * held; a failed capture releases the gate and posts nothing.
   */
  function Dispatch(m: MainState, capture: Capture): (r: (MainState, Option<Request>))
    requires m.isProcessing
    ensures r.0.lastPredictions == m.lastPredictions
    ensures r.1.Some? <==> r.0.isProcessing
    ensures r.1.Some? <==> capture.Captured?
    ensures r.1.Some? ==> r.1.value == Request(PREDICT, Some(capture.bitmap))
  {
    match capture
    case Captured(bitmap) => (m, Some(Request(PREDICT, Some(bitmap))))
    case CaptureFailed(_) => (m.(isProcessing := false), None)
  }

  /**
   * One iteration of `loop`: draw the boxes held at the start of the tick,
   * then, only if the gate is free, take it and dispatch a frame.
   */
  function Tick(m: MainState, capture: Capture): (r: TickResult)
    ensures r.drawn == m.lastPredictions
    ensures r.state.lastPredictions == m.lastPredictions
    ensures r.sent.Some? <==> !m.isProcessing && capture.Captured?
    ensures r.sent.Some? ==> IsPredict(r.sent.value) && r.sent.value.image == Some(capture.bitmap)
    ensures r.state.isProcessing <==> m.isProcessing || r.sent.Some?
  {
    var drawn := m.lastPredictions;
    if m.isProcessing then TickResult(m, drawn, None)
    else
      var (m', sent) := Dispatch(m.(isProcessing := true), capture);
      TickResult(m', drawn, sent)
  }

  /**
   * `worker.onmessage`: `complete` replaces the predictions wholesale and
   * releases the gate, `error` releases the gate and keeps the predictions,
   * and `loading` (progress, done or any other stage) changes nothing.
   */
  function Receive(m: MainState, reply: Reply): (r: MainState)
    ensures r.isProcessing <==> m.isProcessing && !IsTerminal(reply)
    ensures r.lastPredictions == if reply.Complete? then reply.output else m.lastPredictions
  {
    match reply
    case Complete(output) => MainState(false, output)
    case Loading(_) => m
    case Error(_) => m.(isProcessing := false)
  }

  /** The state after handling `replies` in order. */
  function ReceiveAll(m: MainState, replies: seq<Reply>): MainState
    decreases |replies|
  {
    if |replies| == 0 then m
    else Receive(ReceiveAll(m, replies[..|replies| - 1]), replies[|replies| - 1])
  }

  /**
   * Reference definition of what the overlay shows: the output of the most
   * recent `complete` among `replies`, or `previous` if there is none.
   */
  function LatestOutput(replies: seq<Reply>, previous: DetectionSet): DetectionSet
    decreases |replies|
  {
    if |replies| == 0 then previous
    else if replies[|replies| - 1].Complete? then replies[|replies| - 1].output
    else LatestOutput(replies[..|replies| - 1], previous)
  }

  /**
   * After any sequence of replies the buffer holds exactly the most recent
   * `complete` output: errors and loading events leave the last good
   * predictions in place.
   */
  lemma {:induction false} ReceiveAllShowsLatest(m: MainState, replies: seq<Reply>)
    ensures ReceiveAll(m, replies).lastPredictions == LatestOutput(replies, m.lastPredictions)
    decreases |replies|
  {
    if |replies| > 0 {
      ReceiveAllShowsLatest(m, replies[..|replies| - 1]);
    }
  }

  /**
   * After any sequence of replies the gate is held exactly when it was held
   * before and none of the replies answered the request.
   */
  lemma {:induction false} ReceiveAllGate(m: MainState, replies: seq<Reply>)
    ensures ReceiveAll(m, replies).isProcessing <==> m.isProcessing && CountTerminals(replies) == 0
    decreases |replies|
  {
    if |replies| > 0 {
      var init := replies[..|replies| - 1];
      var last := replies[|replies| - 1];
      ReceiveAllGate(m, init);
      assert replies == init + [last];
      CountTerminalsAppend(init, [last]);
    }
  }
}
