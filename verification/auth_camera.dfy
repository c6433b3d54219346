/**
 * CameraFaceAuthController: chooses the preview size nearest in area to
 * 640x480, registers three preview buffers with the camera, and hands each
 * frame through a worker to the matcher, giving the buffer back to the camera
 * only when the matcher returned normally and the session is still running.
 *
 * The camera and the worker thread are modelled by explicit steps: the camera
 * filling one of its queued buffers (DeliverFrame) and the worker running the
 * oldest posted task (RunQueuedTask). Buffers are counted, not tracked one by
 * one: `queued` are held by the camera, `pending` travel with posted tasks,
 * `lost` were dropped in the current session.
 */
module AuthCamera {
  import opened CameraSizes

  /** Number of preview buffers registered when the preview starts. */
  const POOL_SIZE: nat := 3

  /** Java's Integer.MAX_VALUE, the initial minimum distance of the search. */
  const INT_MAX: int := 0x7FFF_FFFF

  /** |area - 640*480|, the quantity the preview-size search minimises. */
  function VgaDistance(s: Size): int
  {
    var d := Area(s) - 640 * 480;
    if d < 0 then -d else d
  }

  /** (width, height) is the first listed size of least distance to 640x480. */
  ghost predicate IsNearestVga(sizes: seq<Size>, width: int, height: int)
  {
    exists k :: 0 <= k < |sizes| && sizes[k].width == width && sizes[k].height == height
      && (forall j :: 0 <= j < |sizes| ==> VgaDistance(sizes[k]) <= VgaDistance(sizes[j]))
      && (forall j :: 0 <= j < k ==> VgaDistance(sizes[j]) > VgaDistance(sizes[k]))
  }

  /** The search loop of setupCameraParameters over the camera's supported
      list (None when the camera reports none): 640x480 if listed, otherwise
      the first entry of least distance; nothing for a missing or empty list. */
  method FindNearestVga(supported: Option<seq<Size>>) returns (best: Option<Size>)
    ensures supported == None ==> best == None
    ensures supported.Some? ==> (best == None <==> supported.value == [])
    ensures supported.Some? && VGA in supported.value ==> best == Some(VGA)
    ensures supported.Some? && VGA !in supported.value && best.Some? ==>
              IsNearestVga(supported.value, best.value.width, best.value.height)
  {
    best := None;
    if supported == None {
      return;
    }
    var sizes := supported.value;
    var minDiff := INT_MAX;
    ghost var k := 0;
    for i := 0 to |sizes|
      invariant VGA !in sizes[..i]
      invariant best.None? <==> i == 0
      invariant best.None? ==> minDiff == INT_MAX
      invariant best.Some? ==> 0 <= k < i && sizes[k] == best.value && minDiff == VgaDistance(best.value)
      invariant best.Some? ==> forall j :: 0 <= j < i ==> minDiff <= VgaDistance(sizes[j])
      invariant best.Some? ==> forall j :: 0 <= j < k ==> VgaDistance(sizes[j]) > minDiff
    {
      var size := sizes[i];
      if size.width == 640 && size.height == 480 {
        return Some(size);
      }
      var diff := VgaDistance(size);
      AreaBounds(size);
      if diff < minDiff {
        minDiff := diff;
        best := Some(size);
        k := i;
      }
    }
    assert sizes[..|sizes|] == sizes;
  }

  /** What the matcher's call did: returned, threw (caught by the worker), or
      returned after the session was stopped while it ran. */
  datatype ConsumerOutcome = Returned | Threw | ReturnedAfterStop

  class CameraFaceAuthController {
    var authenticating: bool      // mIsAuthenticating
    var hasCallback: bool         // mCallback != null
    var workerAlive: bool         // mAuthHandlerThread != null
    var width: int                // mWidth
    var height: int               // mHeight
    var bufferSize: int
    var registered: bool          // this session's buffers are registered with an open camera
    var queued: nat               // buffers held by the camera
    var pending: nat              // posted frames not yet run by the worker
    var lost: nat                 // buffers of this session never given back
    var consumerCalls: nat        // calls of handlePreviewData
    var errorReports: nat         // calls of onCameraError

    /** The buffer pool invariant: the camera never holds more than the pool,
        and while the session runs every buffer is queued, in flight or lost. */
    ghost predicate Valid()
      reads this
    {
      queued + pending <= POOL_SIZE &&
      (registered ==> authenticating && queued + pending + lost == POOL_SIZE) &&
      (!registered ==> queued == 0) &&
      (authenticating && pending > 0 ==> registered)
    }

    constructor (callbackPresent: bool)
      ensures Valid()
      ensures hasCallback == callbackPresent
      ensures !authenticating && !workerAlive && !registered
      ensures width == 640 && height == 480
      ensures queued == 0 && pending == 0 && lost == 0 && consumerCalls == 0 && errorReports == 0
    {
      authenticating, hasCallback, workerAlive := false, callbackPresent, false;
      width, height, bufferSize := 640, 480, 0;
      registered, queued, pending, lost := false, 0, 0, 0;
      consumerCalls, errorReports := 0, 0;
    }

    /** stop(): the session ends, the consumer reference is cleared, and the
        closed camera keeps none of the buffers. A second stop changes nothing. */
    method Stop()
      requires Valid()
      modifies this`authenticating, this`hasCallback, this`registered, this`queued, this`workerAlive
      ensures Valid()
      ensures !authenticating && !hasCallback && !workerAlive
      ensures !registered && queued == 0
      ensures pending == old(pending) && lost == old(lost)
      ensures width == old(width) && height == old(height) && bufferSize == old(bufferSize)
      ensures consumerCalls == old(consumerCalls) && errorReports == old(errorReports)
    {
      authenticating := false;
      hasCallback := false;
      registered, queued := false, 0;  // CameraService.closeCamera
      if workerAlive {
        workerAlive := false;
      }
    }

    /** start(): stops an active session first, then opens the camera,
        chooses the preview size, starts the preview and registers three
        buffers of width*height*bitsPerPixel/8 bytes. `cameraPreview` is the
        camera's preview size before configuration; `cameraOpened` and
        `previewStarted` are the outcomes of the two camera requests. The
        consumer reference is not restored: after a stop it stays cleared. */
    method Start(supported: Option<seq<Size>>, cameraPreview: Size, bitsPerPixel: nat,
                 cameraOpened: bool, previewStarted: bool)
      requires Valid()
      modifies this`authenticating, this`hasCallback, this`workerAlive, this`registered, this`queued,
               this`pending, this`width, this`height, this`bufferSize, this`lost, this`errorReports
      ensures Valid()
      ensures authenticating && workerAlive && pending == 0
      ensures hasCallback == (old(hasCallback) && !old(authenticating))
      ensures consumerCalls == old(consumerCalls)
      ensures registered == (cameraOpened && previewStarted)
      ensures registered ==> queued == POOL_SIZE && lost == 0
      ensures registered ==> bufferSize == width * height * bitsPerPixel / 8
      ensures !registered ==> queued == 0 && bufferSize == old(bufferSize) && lost == old(lost)
      ensures cameraOpened && supported.Some? && VGA in supported.value ==>
                width == 640 && height == 480
      ensures cameraOpened && supported.Some? && VGA !in supported.value && supported.value != [] ==>
                IsNearestVga(supported.value, width, height)
      ensures cameraOpened && previewStarted && (supported == None || supported.value == []) ==>
                width == cameraPreview.width && height == cameraPreview.height
      ensures cameraOpened && !previewStarted && (supported == None || supported.value == []) ==>
                width == old(width) && height == old(height)
      ensures !cameraOpened ==> width == old(width) && height == old(height)
      ensures errorReports == old(errorReports) +
                (if !(cameraOpened && previewStarted) && hasCallback then 1 else 0)
    {
      if authenticating {
        Stop();
      }
      authenticating := true;
      workerAlive := true;
      pending := 0;
      if cameraOpened {
        var preview := SetupCameraParameters(supported, cameraPreview);
        if previewStarted {
          SetupBufferedCallback(preview, bitsPerPixel);
        }
      }
      // The open or the preview request failed: onCameraError.
      if !(cameraOpened && previewStarted) && hasCallback {
        errorReports := errorReports + 1;
      }
    }

    /** setupCameraParameters: the nearest size to 640x480 becomes the
        requested size, which the camera adopts; with none found, the
        requested size and the camera's preview size stay as they were. */
    method SetupCameraParameters(supported: Option<seq<Size>>, cameraPreview: Size) returns (preview: Size)
      modifies this`width, this`height
      ensures supported.Some? && VGA in supported.value ==>
                width == 640 && height == 480 && preview == VGA
      ensures supported.Some? && VGA !in supported.value && supported.value != [] ==>
                IsNearestVga(supported.value, width, height) && preview.width == width && preview.height == height
      ensures supported == None || supported.value == [] ==>
                width == old(width) && height == old(height) && preview == cameraPreview
    {
      var best := FindNearestVga(supported);
      preview := cameraPreview;
      if best.Some? {
        width, height := best.value.width, best.value.height;
        preview := best.value;
      }
    }

    /** setupBufferedCallback: reads back the camera's preview size and
        registers the pool of buffers of width*height*bitsPerPixel/8 bytes. */
    method SetupBufferedCallback(preview: Size, bitsPerPixel: nat)
      requires authenticating && pending == 0
      modifies this`width, this`height, this`bufferSize, this`registered, this`queued, this`lost
      ensures Valid()
      ensures width == preview.width && height == preview.height
      ensures registered && queued == POOL_SIZE && lost == 0
      ensures bufferSize == width * height * bitsPerPixel / 8
    {
      width, height := preview.width, preview.height;
      bufferSize := width * height * bitsPerPixel / 8;
      registered, queued, lost := true, POOL_SIZE, 0;
    }

    /** The camera fills one of its queued buffers and calls the preview
        callback; with no queued buffer it delivers nothing. The callback
        drops the frame (and its buffer) unless the session is running with a
        consumer; otherwise it posts the frame to the worker. */
    method DeliverFrame() returns (posted: bool)
      requires Valid()
      modifies this`queued, this`pending, this`lost
      ensures Valid()
      ensures old(queued) == 0 ==> !posted && queued == 0 && pending == old(pending) && lost == old(lost)
      ensures old(queued) > 0 ==> queued == old(queued) - 1
      ensures old(queued) > 0 ==> posted == (authenticating && hasCallback)
      ensures old(queued) > 0 && posted ==> pending == old(pending) + 1 && lost == old(lost)
      ensures old(queued) > 0 && !posted ==> pending == old(pending) && lost == old(lost) + 1
    {
      if queued == 0 {
        return false;
      }
      queued := queued - 1;
      if !authenticating || !hasCallback {
        lost := lost + 1;
        return false;
      }
      pending := pending + 1;
      return true;
    }

    /** The worker runs the oldest posted frame: nothing happens after stop;
        otherwise the matcher is called, and its buffer goes back to the
        camera only when the matcher returned and the session still runs. */
    method RunQueuedTask(outcome: ConsumerOutcome)
      requires Valid()
      requires pending > 0
      modifies this`authenticating, this`hasCallback, this`registered, this`queued, this`workerAlive,
               this`pending, this`lost, this`consumerCalls
      ensures Valid()
      ensures pending == old(pending) - 1
      ensures width == old(width) && height == old(height) && bufferSize == old(bufferSize)
      ensures errorReports == old(errorReports)
      ensures !(old(authenticating && hasCallback) && outcome == ReturnedAfterStop) ==>
                registered == old(registered) && workerAlive == old(workerAlive)
      ensures consumerCalls == old(consumerCalls) + (if old(authenticating && hasCallback) then 1 else 0)
      ensures old(authenticating && hasCallback) && outcome == Returned ==>
                queued == old(queued) + 1 && lost == old(lost) && authenticating && hasCallback
      ensures !(old(authenticating && hasCallback) && outcome == Returned) ==> lost == old(lost) + 1
      ensures old(authenticating && hasCallback) && outcome == Threw ==>
                queued == old(queued) && authenticating && hasCallback
      ensures !old(authenticating && hasCallback) ==>
                queued == old(queued) && authenticating == old(authenticating) && hasCallback == old(hasCallback)
      ensures old(authenticating && hasCallback) && outcome == ReturnedAfterStop ==>
                !authenticating && !hasCallback && !registered && !workerAlive && queued == 0
    {
      if !hasCallback || !authenticating {
        pending, lost := pending - 1, lost + 1;
        return;
      }
      consumerCalls := consumerCalls + 1;
      if outcome == ReturnedAfterStop {
        Stop();
      }
      // A throw skips the re-check; otherwise the buffer goes back only while authenticating.
      if outcome != Threw && authenticating {
        pending, queued := pending - 1, queued + 1;  // camera.addCallbackBuffer(data)
      } else {
        pending, lost := pending - 1, lost + 1;
      }
    }
  }

  /** start() after a session (here: start, stop, start) leaves the consumer
      reference cleared, so every frame is dropped together with its buffer:
      after three frames the camera holds no buffer and delivers nothing more. */
  method RestartStarvesCamera() returns (posted: seq<bool>, queued: nat, lost: nat)
    ensures posted == [false, false, false, false]
    ensures queued == 0 && lost == POOL_SIZE
  {
    var c := new CameraFaceAuthController(true);
    c.Start(None, VGA, 12, true, true);
    assert c.hasCallback;
    c.Stop();
    c.Start(None, VGA, 12, true, true);
    posted := [];
    for i := 0 to 4
      invariant c.Valid() && c.authenticating && !c.hasCallback && c.registered
      invariant c.pending == 0 && c.queued == if i < 3 then 3 - i else 0
      invariant c.lost == if i < 3 then i else 3
      invariant posted == seq(i, _ => false)
    {
      var p := c.DeliverFrame();
      posted := posted + [p];
    }
    queued, lost := c.queued, c.lost;
  }
}
