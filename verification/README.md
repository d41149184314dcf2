# Frame-inference coordination, modelled in Dafny

This project models the coordination core of a browser object-detection app.
A render loop (`main.js`) draws every animation frame and overlays the last
detections. It hands at most one captured frame at a time to a worker
(`worker.js`). The worker lazily builds a DETR detection pipeline and answers
each `predict` request with `loading` progress events followed by one
`complete` or `error` reply. The project also models the label colouring
function `getColorHash`.

Modules:

- `Wrappers` (`wrappers.dfy`): `Option` and `Result`.
- `Protocol` (`protocol.dfy`): the messages on the channel. `Request` is
  `{status, image}`. `Reply` is `loading` / `complete` / `error`. A detection
  carries its score, label and box. A bitmap is represented by its identity
  only.
- `Worker` (`worker.js`, in `worker.dfy`): the `instance` singleton,
  `getInstance`, and the `message` listener as a pure function. The function
  returns the new worker state and the ordered effects it performs (`Post` a
  reply, `CloseImage`). Building the pipeline is a `BuildOutcome` value: the
  progress events it reports, then success or the thrown error. Running the
  detector is a function argument, so the model can say which call is made
  (threshold 0.5, percentage coordinates) and what happens to its answer.
- `RenderLoop` (`main.js`, in `render_loop.dfy`): the `isProcessing` gate,
  the `lastPredictions` buffer, one tick of `loop`, and `worker.onmessage`.
- `Coordination` (`coordination.dfy`): both sides composed into a closed
  transition system. The state holds the main-side state, the worker state and
  one FIFO queue per direction. The events are `Tick(capture)`, `MainReceive`
  and `WorkerReceive(build, detect)`. Every capture, build and detector
  outcome is allowed. The single-flight invariant is proved inductive over
  arbitrary event sequences.
- `JsNumbers` and `ColorHash` (`js_numbers.dfy`, `color_hash.dfy`):
  `getColorHash` with JavaScript's ToInt32 for `<<` and its truncating `%`
  written out. `hash` is an unbounded integer. The string is a sequence of
  UTF-16 code units.

Where the code and its documented design differ, the model follows the code:

- `getInstance` tests `instance === null` and then awaits the build. It does
  not cache a promise, so construction is not memoised across overlapping
  requests. The model relies on the render loop's gate to deliver one
  `predict` at a time.
- The image is closed only on the success path. When the detector or the
  build throws, `close()` is never called.
- A failed build leaves `instance` null, and the next `predict` builds again.

## Model

| member | source | states |
|---|---|---|
| JsNumbers.ToInt32 | main.js:126 | the operand of `<<` becomes a signed 32-bit value congruent to it modulo 2^32 |
| JsNumbers.ToInt32Unique | main.js:126 | ToInt32 is the only signed 32-bit value congruent to its input, so the wrap-around is fully determined |
| JsNumbers.ShiftLeft5 | main.js:126 | `hash << 5` is a signed 32-bit value congruent to 32 * hash modulo 2^32 |
| JsNumbers.JsRem | main.js:127 | JavaScript `%` takes the dividend's sign, is smaller than the divisor in magnitude and is congruent to the dividend |
| JsNumbers.JsRemUnique | main.js:127 | those three properties determine the truncating remainder uniquely |
| JsNumbers.AbsJsRem | main.js:127 | `Math.abs(a % n)` equals the Euclidean remainder of abs(a) |
| ColorHash.Step | main.js:126 | one iteration `c + ((hash << 5) - hash)` agrees with `31 * hash + c` modulo 2^32 and grows abs(hash) by at most 2^31 + 0xFFFF |
| ColorHash.HashMatchesPolyHash | main.js:125-126 | the hash of every string agrees modulo 2^32 with the independent polynomial hash `31 * hash + c` folded over its code units |
| ColorHash.HashLoop | main.js:125-126 | the loop over every code unit ends with a hash that agrees modulo 2^32 with the polynomial hash, whose magnitude is at most the length times 2^31 + 0xFFFF |
| ColorHash.HashMagnitude | main.js:125-126 | abs(hash) of a string is at most its length times 2^31 + 0xFFFF |
| ColorHash.HashIsExactDouble | main.js:125-126 | for a string of up to 2^21 code units the hash is within 2^53; for one shorter than 2^21 (so for every prefix the loop passes through), the difference `(hash << 5) - hash` with any 32-bit shift result is within 2^53 too, so the double arithmetic is exact |
| ColorHash.Hue | main.js:127 | the hue is always in 0..359, and it is 0 for the empty string |
| ColorHash.HueIsRemainderOfMagnitude | main.js:127 | the hue equals abs(hash) modulo 360 (an independent definition) |
| ColorHash.DecimalRoundTrip | main.js:128 | the hue's decimal text in the template literal reads back as the hue |
| ColorHash.Hsl | main.js:128 | the colour string `hsl(<hue>, 100%, 50%)` parses back to its hue |
| ColorHash.HslInjective | main.js:128 | distinct hues give distinct colour strings |
| ColorHash.GetColorHash | main.js:124-129 | the returned colour is the label's colour, and its hue reads back and lies in 0..359 |
| Worker.GetInstance | worker.js:14-19 | builds only when `instance` is null and stores the pipeline on success; an existing instance is returned without building or progress; a failed build leaves `instance` null and surfaces the error |
| Worker.Loadings | worker.js:28-30 | each progress-callback event becomes one `loading` message carrying that event, in order |
| Worker.CloseIfPresent | worker.js:36 | `close()` is called once exactly when an image is present, and nothing else happens |
| Worker.HandleMessage | worker.js:22-43 | a non-`predict` message posts nothing and changes no state; a `predict` ends with exactly one terminal reply (`complete` or `error`) as its last effect; an existing instance is never replaced; a new instance only comes from a successful build |
| Worker.LoadingOnlyWhileBuilding | worker.js:14-30 | `loading` messages are exactly the build's progress events, in order and first; none is posted when the instance already exists |
| Worker.CompleteCarriesDetectorOutput | worker.js:33-38 | `complete` is posted if and only if a detector exists and the call with threshold 0.5 and `percentage: true` succeeds, and it carries that output unchanged |
| Worker.ImageClosedOnlyOnSuccess | worker.js:36-40 | the image is closed if and only if it is present and `complete` is posted, once, immediately before `complete`; the error path does not close it |
| Worker.FailedBuildIsRetried | worker.js:14-41 | a thrown build is reported as `error` and leaves `instance` null, so the next `predict` builds again and forwards the new build's progress |
| RenderLoop.Dispatch | main.js:81-90 | with the gate taken, a captured frame is posted as `predict` and the gate stays held; a failed capture releases the gate and posts nothing |
| RenderLoop.Tick | main.js:70-94 | a tick draws the predictions held at its start whatever the gate; it posts `predict` only if the gate was free and the capture succeeded; the gate is held afterwards exactly when it was held before or a frame was sent |
| RenderLoop.Receive | main.js:51-67 | `complete` and `error` release the gate and `loading` does not; only `complete` changes the predictions, replacing them wholesale with its output |
| RenderLoop.ReceiveAllShowsLatest | main.js:54-66 | after any reply sequence the buffer holds the most recent `complete` output, or the previous predictions if there is none |
| RenderLoop.ReceiveAllGate | main.js:54-66 | after any reply sequence the gate is held if and only if it was held before and no `complete` or `error` arrived |
| Coordination.Next | main.js:51-94 | a tick changes only the render loop and appends at most one request; the render loop handling a reply changes only its state and consumes that reply; the worker handling a request leaves the render loop alone, consumes the request, only appends replies and keeps a built detector |
| Coordination.PostsOneTerminal | worker.js:27-41 | handling a `predict` puts exactly one terminal reply on the channel |
| Coordination.InitialSatisfiesInv | main.js:12-13 | the initial state (gate free, no predictions, no instance, empty queues) satisfies the single-flight invariant |
| Coordination.NextPreservesInv | main.js:51-94 | every tick, main-side delivery and worker-side delivery preserves the invariant |
| Coordination.RunPreservesInv | main.js:51-94 | the invariant holds after any event sequence from an invariant state |
| Coordination.SingleFlight | main.js:78-90 | in every reachable state at most one `predict` is outstanding and at most one frame is queued; one is outstanding exactly while `isProcessing` holds |
| Coordination.HeldTicksDropFrames | main.js:78 | while the gate is held, any number of ticks dispatches nothing and changes no state; frames are dropped, not queued |
| Coordination.DrainReleasesGate | main.js:54-66 | delivering every pending reply when no request waits for the worker leaves the gate free |
| Coordination.GateReleasedOnEveryOutcome | worker.js:26-41 | from any invariant state, whatever the build and the detector do, one worker step plus delivering every reply releases the gate |
| Coordination.InstanceNeverReset | worker.js:15-18 | once built, the detector stays the same for the rest of every run, including after inference errors |
| Coordination.PredictionsChangeOnlyOnComplete | main.js:54-55 | the overlay's predictions change only when a delivered `complete` replaces them with its output |

## Left out

- Camera acquisition, the start button, and every status-text or alert update (main.js:16-48, the text in main.js:59-64). These are UI and I/O.
- Canvas drawing and label layout in `renderBoxes` (main.js:96-122). These are floating-point geometry and text metrics. A tick's drawing is the detection set it hands to the renderer.
- The detector library, its CDN import and `env` settings (worker.js:3-7). Building is a `BuildOutcome` value and inference is a function parameter. Filtering by the 0.5 threshold happens inside the library and is not modelled. The model only records that the threshold is passed.
- `requestAnimationFrame` timing and real interleaving of async handlers. Each handler is one atomic step, including the awaited capture inside a tick.
- Memoised construction across overlapping `predict` messages. The test-then-await in `getInstance` is not race-safe, and with atomic steps it cannot be observed.
- Transfer semantics and pixel memory of `ImageBitmap`. A bitmap is an identity, and closing it is an effect in the worker's output. Ownership is not tracked across the system.
- The `typeof image.close === 'function'` test is reduced to "an image is present". Main only ever sends bitmaps.
- `e.toString()` is not modelled. An error is carried as its string.
- Progress-event payloads are reduced to the `progress` value, `done`, or another stage name. The file names and byte counts they carry are not modelled.
- Channel failure and timeouts. Delivery is reliable FIFO. A request that never returns is not modelled beyond "the gate stays held".
- ColorHash.Hue: `hash` is an exact integer. A JavaScript Number loses precision above 2^53, and `HashIsExactDouble` shows this cannot happen for labels shorter than 2^21 code units. Longer labels are not modelled.
