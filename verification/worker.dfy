/**
 * The detection worker: a lazily built detector singleton and the
 * `message` listener that answers each `predict` request.
 *
 * The detector library is foreign code. Building it is represented by a
 * `BuildOutcome` (the progress events it reports, then success or the
 * error it throws), and running it by a function argument, so the model
 * can state which call the worker makes and what it does with the answer.
 */
module Worker {
  import opened Wrappers
  import opened Protocol

  const TASK: string := "object-detection"
  const MODEL: string := "Xenova/detr-resnet-50"

  /** A constructed detection pipeline, known by the arguments it was built with. */
  datatype Detector = Detector(task: string, model: string, quantized: bool)

  /** The pipeline `getInstance` builds. */
  const PIPELINE: Detector := Detector(TASK, MODEL, true)

  /** The options object passed on every detector call. */
  datatype DetectOptions = DetectOptions(threshold: real, percentage: bool)

  const OPTIONS: DetectOptions := DetectOptions(0.5, true)

  /** What one attempt to build the pipeline does. */
  datatype BuildOutcome =
    | Built(progress: seq<LoadData>)
    | BuildFailed(progress: seq<LoadData>, error: string)

  /** What one detector call does: resolve with its output or throw. */
  datatype InferOutcome = Detected(output: DetectionSet) | InferFailed(error: string)

  type DetectFn = (Detector, Option<Bitmap>, DetectOptions) -> InferOutcome

  /** The worker's only state: the `instance` static field. */
  datatype WorkerState = WorkerState(instance: Option<Detector>)

  const INITIAL: WorkerState := WorkerState(None)

  /** One observable action of the listener, in the order performed. */
  datatype Effect = Post(reply: Reply) | CloseImage

  datatype Handled = Handled(state: WorkerState, effects: seq<Effect>)

  /** The result of `getInstance`: new state, forwarded progress, and the detector or the thrown error. */
  datatype Instance = Instance(state: WorkerState, progress: seq<LoadData>, detector: Result<Detector, string>)

  /**
   * `getInstance`: build the pipeline only when `instance` is null, storing
   * it on success; a build that throws leaves `instance` null.
   */
  function GetInstance(w: WorkerState, build: BuildOutcome): (r: Instance)
    ensures w.instance.Some? ==> r == Instance(w, [], Success(w.instance.value))
    ensures w.instance.None? ==> r.progress == build.progress
    ensures w.instance.None? && build.Built? ==> r.state.instance == Some(PIPELINE) && r.detector == Success(PIPELINE)
    ensures w.instance.None? && build.BuildFailed? ==> r.state == w && r.detector == Failure(build.error)
  {
    match w.instance
    case Some(d) => Instance(w, [], Success(d))
    case None =>
      match build
      case Built(progress) => Instance(WorkerState(Some(PIPELINE)), progress, Success(PIPELINE))
      case BuildFailed(progress, e) => Instance(w, progress, Failure(e))
  }

  /** Each progress-callback event is posted as a `loading` message. */
  function Loadings(progress: seq<LoadData>): (r: seq<Effect>)
    ensures |r| == |progress|
    ensures forall i :: 0 <= i < |r| ==> IsLoadingEffect(r[i]) && r[i].reply.data == progress[i]
  {
    seq(|progress|, i requires 0 <= i < |progress| => Post(Loading(progress[i])))
  }

  /** `image.close()` runs only when an image is present. */
  function CloseIfPresent(image: Option<Bitmap>): (r: seq<Effect>)
    ensures CloseImage in r <==> image.Some?
    ensures forall i :: 0 <= i < |r| ==> r[i] == CloseImage
    ensures |r| <= 1
  {
    if image.Some? then [CloseImage] else []
  }

  predicate IsTerminalEffect(e: Effect) {
    e.Post? && IsTerminal(e.reply)
  }

  predicate IsLoadingEffect(e: Effect) {
    e.Post? && e.reply.Loading?
  }

  /** The last effect is a terminal reply and no earlier effect is one. */
  predicate EndsWithOnlyTerminal(effects: seq<Effect>) {
    && |effects| > 0
    && IsTerminalEffect(effects[|effects| - 1])
    && forall i :: 0 <= i < |effects| - 1 ==> !IsTerminalEffect(effects[i])
  }

  /** The last effect of a non-empty run of effects. */
  function Final(effects: seq<Effect>): Effect
    requires |effects| > 0
  {
    effects[|effects| - 1]
  }

  /**
   * The `message` listener. A request whose status is not `predict` is
   * ignored. Otherwise the detector is obtained (forwarding construction
   * progress as `loading`), run on the image with threshold 0.5 and
   * percentage coordinates, the image is closed, and `complete` is posted;
   * an error thrown at any step is posted as `error` instead.
   */
  function HandleMessage(w: WorkerState, req: Request, build: BuildOutcome, detect: DetectFn): (r: Handled)
    ensures !IsPredict(req) ==> r == Handled(w, [])
    ensures IsPredict(req) ==> EndsWithOnlyTerminal(r.effects)
    ensures w.instance.Some? ==> r.state == w
    ensures r.state.instance.Some? && w.instance.None? ==> build.Built? && r.state.instance == Some(PIPELINE)
  {
    if !IsPredict(req) then Handled(w, [])
    else
      var inst := GetInstance(w, build);
      var loading := Loadings(inst.progress);
      match inst.detector
      case Failure(e) => Handled(inst.state, loading + [Post(Error(e))])
      case Success(d) =>
        match detect(d, req.image, OPTIONS)
        case InferFailed(e) => Handled(inst.state, loading + [Post(Error(e))])
        case Detected(output) => Handled(inst.state, loading + CloseIfPresent(req.image) + [Post(Complete(output))])
  }

  /**
   * `loading` messages come only from building the pipeline: they are the
   * build's progress events, in order, ahead of everything else, and none
   * is posted once the detector exists.
   */
  lemma LoadingOnlyWhileBuilding(w: WorkerState, req: Request, build: BuildOutcome, detect: DetectFn)
    ensures var r := HandleMessage(w, req, build, detect);
      && (w.instance.Some? ==> forall i :: 0 <= i < |r.effects| ==> !IsLoadingEffect(r.effects[i]))
      && (w.instance.None? && IsPredict(req) ==>
            && |build.progress| < |r.effects|
            && r.effects[..|build.progress|] == Loadings(build.progress)
            && forall i :: |build.progress| <= i < |r.effects| ==> !IsLoadingEffect(r.effects[i]))
  {
  }

  /**
   * `complete` is posted exactly when a detector is available and the call
   * made with threshold 0.5 and percentage coordinates succeeds, and it
   * carries that call's output unchanged.
   */
  lemma CompleteCarriesDetectorOutput(w: WorkerState, req: Request, build: BuildOutcome, detect: DetectFn)
    requires IsPredict(req)
    ensures var r := HandleMessage(w, req, build, detect);
      && (Final(r.effects).reply.Complete? <==>
            r.state.instance.Some? && detect(r.state.instance.value, req.image, OPTIONS).Detected?)
      && (Final(r.effects).reply.Complete? ==>
            Final(r.effects).reply.output == detect(r.state.instance.value, req.image, OPTIONS).output)
  {
  }

  /**
   * The image is closed at most once, only on the success path, and
   * immediately before `complete` is posted; the error path leaves it open.
   */
  lemma ImageClosedOnlyOnSuccess(w: WorkerState, req: Request, build: BuildOutcome, detect: DetectFn)
    ensures var r := HandleMessage(w, req, build, detect);
      && (CloseImage in r.effects <==>
            IsPredict(req) && req.image.Some? && Final(r.effects).reply.Complete?)
      && (CloseImage in r.effects ==>
            && |r.effects| >= 2
            && r.effects[|r.effects| - 2] == CloseImage
            && forall i :: 0 <= i < |r.effects| - 2 ==> r.effects[i] != CloseImage)
  {
  }

  /**
   * A build that throws is reported as `error` and leaves `instance` null,
   * so the next `predict` builds again from scratch.
   */
  lemma {:induction false} FailedBuildIsRetried(w: WorkerState, req1: Request, req2: Request, e: string,
                                                p1: seq<LoadData>, build2: BuildOutcome, detect: DetectFn)
    requires w.instance.None? && IsPredict(req1) && IsPredict(req2)
    ensures var r1 := HandleMessage(w, req1, BuildFailed(p1, e), detect);
      var r2 := HandleMessage(r1.state, req2, build2, detect);
      && r1.state.instance.None?
      && Final(r1.effects) == Post(Error(e))
      && r2.effects[..|build2.progress|] == Loadings(build2.progress)
      && (r2.state.instance.Some? <==> build2.Built?)
  {
    LoadingOnlyWhileBuilding(w, req1, BuildFailed(p1, e), detect);
    var r1 := HandleMessage(w, req1, BuildFailed(p1, e), detect);
    LoadingOnlyWhileBuilding(r1.state, req2, build2, detect);
  }
}
