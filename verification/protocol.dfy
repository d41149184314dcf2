/**
 * The messages exchanged between the render loop and the detection worker
 * over `postMessage`, as a closed tagged union per direction.
 */
module Protocol {
  import opened Wrappers

  /** Box corners, in percent of the frame (the detector runs with `percentage: true`). */
  datatype Box = Box(xmin: real, ymin: real, xmax: real, ymax: real)

  /** One scored box; `className` is the detector's `label` field. */
  datatype Detection = Detection(score: real, className: string, box: Box)

  /** The ordered output of one detector run. */
  type DetectionSet = seq<Detection>

  /**
   * A captured `ImageBitmap`, known only by the frame it was taken from;
   * its pixels are not modelled.
   */
  datatype Bitmap = Bitmap(frame: nat)

  const PREDICT: string := "predict"

  /** Render loop to worker: `{ image, status }`. */
  datatype Request = Request(status: string, image: Option<Bitmap>)

  predicate IsPredict(r: Request) {
    r.status == PREDICT
  }

  /**
   * The `data` of a progress-callback event: the `progress` and `done`
   * stages the render loop distinguishes, and every other stage.
   */
  datatype LoadData = Progress(progress: real) | Done | OtherStage(status: string)

  /**
   * Worker to render loop: `loading`, `complete` or `error`. The string
   * carried by `error` travels in the message's `data` field.
   */
  datatype Reply = Loading(data: LoadData) | Complete(output: DetectionSet) | Error(message: string)

  /** A reply that answers a `predict` request. */
  predicate IsTerminal(r: Reply) {
    r.Complete? || r.Error?
  }

  /** The number of `predict` requests in a queue. */
  function CountPredicts(q: seq<Request>): (n: nat)
    ensures n <= |q|
    ensures n == |q| <==> forall i :: 0 <= i < |q| ==> IsPredict(q[i])
    decreases |q|
  {
    if |q| == 0 then 0
    else
      var n := (if IsPredict(q[0]) then 1 else 0) + CountPredicts(q[1..]);
      assert forall i :: 1 <= i < |q| ==> q[i] == q[1..][i - 1];
      n
  }

  /** The number of terminal replies in a queue. */
  function CountTerminals(q: seq<Reply>): (n: nat)
    ensures n <= |q|
    ensures n == 0 <==> forall i :: 0 <= i < |q| ==> !IsTerminal(q[i])
    decreases |q|
  {
    if |q| == 0 then 0
    else
      var n := (if IsTerminal(q[0]) then 1 else 0) + CountTerminals(q[1..]);
      assert forall i :: 1 <= i < |q| ==> q[i] == q[1..][i - 1];
      n
  }

  lemma {:induction false} CountPredictsAppend(a: seq<Request>, b: seq<Request>)
    ensures CountPredicts(a + b) == CountPredicts(a) + CountPredicts(b)
    decreases |a|
  {
    if |a| == 0 {
      assert a + b == b;
    } else {
      assert (a + b)[1..] == a[1..] + b;
      CountPredictsAppend(a[1..], b);
    }
  }

  lemma {:induction false} CountTerminalsAppend(a: seq<Reply>, b: seq<Reply>)
    ensures CountTerminals(a + b) == CountTerminals(a) + CountTerminals(b)
    decreases |a|
  {
    if |a| == 0 {
      assert a + b == b;
    } else {
      assert (a + b)[1..] == a[1..] + b;
      CountTerminalsAppend(a[1..], b);
    }
  }
}
