/**
 * CameraFaceEnrollController: streams preview frames to the enrollment
 * consumer. The first frame's length fixes the source geometry; every frame is
 * then posted to a worker, which crops or halves it into a reused scratch
 * buffer and hands that buffer to the consumer captured when the frame
 * arrived.
 *
 * The camera and the worker thread are explicit steps: the camera calling the
 * preview callback (OnPreviewFrame) and a worker running the oldest posted
 * task (RunQueuedTask). Consumers are identified by the number of the session
 * that installed them.
 */
module EnrollCamera {
  import opened CameraSizes
  import opened Nv21
  import opened EnrollGeometry

  /** A posted frame and the consumer captured with it. */
  datatype Task = Task(frame: seq<byte>, consumer: nat)

  /** One handleSaveFeature call: the consumer, the buffer contents, the
      target size and the fixed rotation of 90 degrees. */
  datatype Delivery = Delivery(consumer: nat, data: seq<byte>, width: int, height: int, angle: int)

  /** Rotation passed with every enrollment frame. */
  const FRAME_ANGLE: int := 90

  class CameraFaceEnrollController {
    var enrolling: bool           // mIsEnrolling
    var callback: Option<nat>     // mCallback, by session number
    var session: nat              // number of start() calls
    var workerAlive: bool         // mEnrollHandlerThread != null
    var streaming: bool           // the preview runs with the callback attached
    var srcWidth: int             // mSrcWidth
    var srcHeight: int            // mSrcHeight
    var targetWidth: int          // mTargetWidth
    var targetHeight: int         // mTargetHeight
    var useDownscale: bool        // mUseDownscale
    var processed: array?<byte>   // mProcessedBuffer
    var pending: seq<Task>        // posted, not yet run
    var delivered: seq<Delivery>  // calls of handleSaveFeature
    var errorReports: nat         // calls of onCameraError

    function Geometry(): FrameGeometry
      reads this
    {
      FrameGeometry(srcWidth, srcHeight, targetWidth, targetHeight, useDownscale)
    }

    ghost predicate Valid()
      reads this
    {
      NonNegative(Geometry()) && (streaming ==> enrolling)
    }

    constructor ()
      ensures Valid()
      ensures !enrolling && callback == None && session == 0 && !workerAlive && !streaming
      ensures Geometry() == INITIAL_GEOMETRY
      ensures processed == null && pending == [] && delivered == [] && errorReports == 0
    {
      enrolling, callback, session, workerAlive, streaming := false, None, 0, false, false;
      srcWidth, srcHeight := 0, 0;
      targetWidth, targetHeight, useDownscale := 640, 480, false;
      processed, pending, delivered, errorReports := null, [], [], 0;
    }

    /** stop(): the session ends, the consumer reference and the scratch
        buffer are dropped and the camera is closed. The worker quits once
        the tasks already posted have run; those stay pending. */
    method Stop()
      requires Valid()
      modifies this`enrolling, this`callback, this`streaming, this`workerAlive, this`processed
      ensures Valid()
      ensures !enrolling && callback == None && !workerAlive && !streaming && processed == null
      ensures Geometry() == old(Geometry()) && session == old(session)
      ensures pending == old(pending) && delivered == old(delivered) && errorReports == old(errorReports)
    {
      enrolling := false;
      callback := None;
      streaming := false;  // CameraService.closeCamera
      if workerAlive {
        workerAlive := false;
      }
      processed := null;
    }

    /** start(): stops an active session, installs the consumer, forgets the
        source size (but not the target size or the transform) and opens the
        camera; `cameraOpened` and `previewStarted` are the outcomes of the
        two camera requests, each failure reported to the consumer. */
    method Start(callbackPresent: bool, cameraOpened: bool, previewStarted: bool)
      requires Valid()
      modifies this`enrolling, this`session, this`callback, this`srcWidth, this`srcHeight,
               this`workerAlive, this`streaming, this`processed, this`errorReports
      ensures Valid()
      ensures enrolling && workerAlive && session == old(session) + 1
      ensures callback == if callbackPresent then Some(session) else None
      ensures srcWidth == 0 && srcHeight == 0
      ensures targetWidth == old(targetWidth) && targetHeight == old(targetHeight) && useDownscale == old(useDownscale)
      ensures processed == if old(enrolling) then null else old(processed)
      ensures streaming == (cameraOpened && previewStarted)
      ensures pending == old(pending) && delivered == old(delivered)
      ensures errorReports == old(errorReports) + (if !streaming && callbackPresent then 1 else 0)
    {
      if enrolling {
        Stop();
      }
      enrolling := true;
      session := session + 1;
      callback := if callbackPresent then Some(session) else None;
      srcWidth, srcHeight := 0, 0;
      workerAlive := true;
      OpenCamera(cameraOpened, previewStarted);
    }

    /** The camera requests of start(): the preview streams once the camera
        opened and the preview started; a failure of either request is
        reported through onCameraError when a consumer is installed. */
    method OpenCamera(cameraOpened: bool, previewStarted: bool)
      modifies this`streaming, this`errorReports
      ensures streaming == (cameraOpened && previewStarted)
      ensures errorReports == old(errorReports) + (if !streaming && callback.Some? then 1 else 0)
    {
      streaming := cameraOpened && previewStarted;
      if !streaming && callback.Some? {
        errorReports := errorReports + 1;
      }
    }

    /** detectSourceResolution: sets the geometry from a frame length and
        allocates a zeroed scratch buffer for the target, unless the length
        is not recognised. */
    method DetectSourceResolution(len: nat)
      requires Valid()
      modifies this`srcWidth, this`srcHeight, this`targetWidth, this`targetHeight, this`useDownscale, this`processed
      ensures Valid()
      ensures Geometry() == Redetect(old(Geometry()), len)
      ensures Detect(len) != Unknown ==>
                fresh(processed) && processed.Length == ScratchSize(Geometry()) &&
                forall i :: 0 <= i < processed.Length ==> processed[i] == 0
      ensures Detect(len) == Unknown ==> processed == old(processed)
    {
      var known := SetSourceSize(len);
      if !known {
        return;
      }
      AllocateScratch();
    }

    /** `mProcessedBuffer = new byte[mTargetWidth * mTargetHeight * 3 / 2]`. */
    method AllocateScratch()
      requires Valid()
      modifies this`processed
      ensures fresh(processed) && processed.Length == ScratchSize(Geometry())
      ensures forall i :: 0 <= i < processed.Length ==> processed[i] == 0
    {
      MulMono(0, targetWidth, targetHeight);
      var size := targetWidth * targetHeight * 3 / 2;
      processed := new byte[size](_ => 0 as byte);
    }

    /** The branches of detectSourceResolution that set the geometry fields,
        chosen by the size tests that `Detect` states; `known` is false on the
        branch that logs an unknown size and returns. */
    method SetSourceSize(len: nat) returns (known: bool)
      requires Valid()
      modifies this`srcWidth, this`srcHeight, this`targetWidth, this`targetHeight, this`useDownscale
      ensures Valid()
      ensures Geometry() == Redetect(old(Geometry()), len)
      ensures known <==> Detect(len) != Unknown
    {
      match Detect(len) {
        case SquareFrame(side) =>
          srcWidth, srcHeight := side, side;
          if srcWidth >= DOWNSCALE_MIN_SIDE {
            useDownscale := true;
            targetWidth, targetHeight := srcWidth / 2, srcHeight / 2;
          } else {
            useDownscale := false;
            targetWidth, targetHeight := 640, 480;
          }
        case Fixed(width, height) =>
          srcWidth, srcHeight, useDownscale := width, height, false;
        case Unknown =>
          return false;
      }
      return true;
    }

    /** The preview callback: ignored outside a session with a consumer; the
        first frame of a session fixes the geometry; while the source size is
        unknown the frame is dropped, otherwise it is posted to the worker
        with the current consumer. */
    method OnPreviewFrame(frame: seq<byte>) returns (posted: bool)
      requires Valid()
      modifies this
      ensures Valid()
      ensures var detects := old(enrolling) && old(callback).Some? && old(srcWidth) == 0;
              Geometry() == (if detects then Redetect(old(Geometry()), |frame|) else old(Geometry())) &&
              (detects && Detect(|frame|) != Unknown ==>
                 fresh(processed) && processed.Length == ScratchSize(Geometry())) &&
              (!(detects && Detect(|frame|) != Unknown) ==> processed == old(processed))
      ensures posted <==> old(enrolling) && old(callback).Some? && srcWidth != 0
      ensures pending == if posted then old(pending) + [Task(frame, old(callback).value)] else old(pending)
      ensures enrolling == old(enrolling) && callback == old(callback) && session == old(session)
      ensures workerAlive == old(workerAlive) && streaming == old(streaming)
      ensures delivered == old(delivered) && errorReports == old(errorReports)
    {
      var consumer := callback;
      if !enrolling || consumer.None? {
        return false;
      }
      if srcWidth == 0 {
        DetectSourceResolution(|frame|);
      }
      if srcWidth == 0 {
        return false;
      }
      pending := pending + [Task(frame, consumer.value)];
      return true;
    }

    /** Whether the worker's run of a task delivers a frame: the source size
        is known, a scratch buffer exists and the transform does not throw. */
    ghost predicate Delivers(task: Task)
      reads this
    {
      srcWidth != 0 && processed != null && TransformFits(Geometry(), |task.frame|, processed.Length)
    }

    /** The worker runs the oldest posted task: it reads the geometry and the
        scratch buffer as they are now, transforms the frame into the buffer
        and passes the buffer to the consumer captured with the frame. A
        missing buffer (after stop) or unknown source size ends the task, and
        so does a transform that throws. */
    method RunQueuedTask()
      requires Valid() && pending != []
      modifies this, processed
      ensures Valid()
      ensures pending == old(pending)[1..]
      ensures Geometry() == old(Geometry()) && processed == old(processed)
      ensures enrolling == old(enrolling) && callback == old(callback) && session == old(session)
      ensures workerAlive == old(workerAlive) && streaming == old(streaming) && errorReports == old(errorReports)
      ensures old(Delivers(pending[0])) ==>
                delivered == old(delivered) +
                             [Delivery(old(pending)[0].consumer, processed[..], targetWidth, targetHeight, FRAME_ANGLE)]
      ensures !old(Delivers(pending[0])) ==> delivered == old(delivered)
      ensures old(Delivers(pending[0])) ==>
                Transformed(Geometry(), old(pending)[0].frame, old(processed[..]), processed[..])
      ensures old(processed) != null && old(srcWidth) == 0 ==> processed[..] == old(processed[..])
    {
      var task := pending[0];
      pending := pending[1..];
      var destBuffer := processed;
      if srcWidth == 0 || destBuffer == null {
        return;
      }
      var ok: bool;
      if useDownscale {
        ok := DownscaleNV21(task.frame, srcWidth, srcHeight, destBuffer, targetWidth, targetHeight);
      } else {
        ok := CropNV21(task.frame, srcWidth, srcHeight, destBuffer, targetWidth, targetHeight);
      }
      if !ok {
        return;  // the exception is caught and logged by the task
      }
      delivered := delivered + [Delivery(task.consumer, destBuffer[..], targetWidth, targetHeight, FRAME_ANGLE)];
    }
  }

  /** A 640x480 NV21 frame. */
  function VgaFrame(): (f: seq<byte>)
    ensures |f| == 460800
  {
    seq(460800, _ => 0 as byte)
  }

  /** The first 640x480 frame of a session on a controller whose target is
      still 640x480: detected, buffered and posted. */
  method PostFirstVgaFrame(c: CameraFaceEnrollController)
    requires c.Valid() && c.enrolling && c.callback.Some? && c.Geometry() == Restart(VGA_GEOMETRY)
    modifies c
    ensures c.Valid() && c.Geometry() == VGA_GEOMETRY
    ensures fresh(c.processed) && c.processed.Length == ScratchSize(VGA_GEOMETRY)
    ensures c.pending == old(c.pending) + [Task(VgaFrame(), old(c.callback).value)]
    ensures c.enrolling && c.callback == old(c.callback) && c.session == old(c.session)
    ensures c.delivered == old(c.delivered)
  {
    DetectVga();
    var posted := c.OnPreviewFrame(VgaFrame());
  }

  /** The geometry after a 640x480 frame with the initial target. */
  const VGA_GEOMETRY := FrameGeometry(640, 480, 640, 480, false)

  /** The worker's run of the oldest task when the target equals the known
      source size: whatever the frame's length, the crop does not throw and
      the consumer captured with the frame receives the buffer. */
  method RunSameSizeTask(c: CameraFaceEnrollController)
    requires c.Valid() && c.pending != [] && c.srcWidth != 0 && !c.useDownscale
    requires c.targetWidth == c.srcWidth && c.targetHeight == c.srcHeight
    requires c.processed != null && c.processed.Length == ScratchSize(c.Geometry())
    modifies c, c.processed
    ensures c.Valid() && c.pending == old(c.pending)[1..] && c.processed == old(c.processed)
    ensures c.callback == old(c.callback) && c.Geometry() == old(c.Geometry())
    ensures c.delivered == old(c.delivered) +
              [Delivery(old(c.pending)[0].consumer, c.processed[..], c.srcWidth, c.srcHeight, FRAME_ANGLE)]
  {
    SameSizeCropFits(c.Geometry(), |c.pending[0].frame|);
    c.RunQueuedTask();
  }

  /** A frame posted in one session is still delivered after stop() and a new
      start(): the task reads the new session's geometry and scratch buffer
      and passes them to the consumer of the session it was posted in. */
  method RestartDeliversToPreviousConsumer() returns (delivered: seq<Delivery>, current: Option<nat>)
    ensures |delivered| == 1 && delivered[0].consumer == 1
    ensures delivered[0].width == 640 && delivered[0].height == 480 && delivered[0].angle == FRAME_ANGLE
    ensures current == Some(2)
  {
    var c := new CameraFaceEnrollController();
    c.Start(true, true, true);
    PostFirstVgaFrame(c);
    c.Stop();
    c.Start(true, true, true);
    PostFirstVgaFrame(c);
    assert c.pending == [Task(VgaFrame(), 1), Task(VgaFrame(), 2)];
    RunSameSizeTask(c);
    delivered, current := c.delivered, c.callback;
  }

  /** After stop() the scratch buffer is gone, so a frame still queued for the
      worker is dropped. */
  method StopDropsQueuedFrame() returns (delivered: seq<Delivery>, queued: nat)
    ensures delivered == [] && queued == 0
  {
    var c := new CameraFaceEnrollController();
    c.Start(true, true, true);
    PostFirstVgaFrame(c);
    c.Stop();
    c.RunQueuedTask();
    delivered, queued := c.delivered, |c.pending|;
  }
}
