# OPlusFace camera core in Dafny

OPlusFace is an Android face-unlock app. Its camera layer has two controllers:

- **Enrollment** (`CameraFaceEnrollController`): streams NV21 preview frames to the enrollment consumer. The first frame's byte length fixes the source resolution. A worker thread then crops or halves every frame into a reused scratch buffer before handing it on.
- **Authentication** (`CameraFaceAuthController`): picks the preview size nearest in area to 640x480 and registers three preview buffers with the camera. It passes each frame through a worker to the matcher, and gives the buffer back to the camera only when the matcher returned normally and the session still runs.

Two further helpers pick a preview size from the camera's supported list:

- `findBestSize` sorts by descending area, then takes a square of side at least 480, else 640x480, else the largest size.
- `calBestPreviewSize` takes an exact match, else (for a square request) a square of side at least 400, else the smallest covering size after an ascending sort, else the largest size.

The model has one module per part of the camera layer:

| module | file | models |
|---|---|---|
| `CameraSizes` | `camera_sizes.dfy` | sizes, the stable sort that `Collections.sort` performs, the "first element passing a test" of the early-return scans |
| `PreviewConfig` | `preview_config.dfy` | `findBestSize` and the preview-size part of `run` |
| `CameraUtil` | `camera_util.dfy` | `calBestPreviewSize`, `getFrontFacingCameraId` |
| `Nv21` | `nv21.dfy` | Java integer division, `System.arraycopy`, `cropNV21`, `downscaleNV21` |
| `EnrollGeometry` | `enroll_geometry.dfy` | `detectSourceResolution` as a function on the geometry fields, and what each detected geometry means for the transforms |
| `AuthCamera` | `auth_camera.dfy` | the authentication controller as a class |
| `EnrollCamera` | `enroll_camera.dfy` | the enrollment controller as a class |

How the Java becomes Dafny:

- **Imperative code stays imperative.** Methods with loops and arrays, and classes whose methods update fields, are each proved against a specification function or predicate. The properties the code promises are then proved about that function as lemmas.
- **Size lists.** A Java list of sizes is an `array?<Size>` where the code sorts it in place, and null is a null list. The authentication search only reads its list, so there it is an `Option<seq<Size>>`.
- **Thread hops.** The camera delivering a frame and the worker running its oldest posted task are explicit methods (`DeliverFrame`/`OnPreviewFrame`, `RunQueuedTask`). Scenario methods call them in a fixed order.
- **Exceptions.** A throwing `System.arraycopy` or array index makes a transform return `ok == false`. A selector that throws returns `Thrown`.

The model follows the code where the documented behaviour of the system differs from it:

- The perfect-square test runs before the fixed resolutions. So 1280x720 and 1920x1080 frames are taken as 960x960 and 1440x1440 squares and halved (`DetectHdAsSquares`). Only 640x480 reaches a fixed branch (`OnlyVgaIsDetectedAsFixed`).
- A fixed branch keeps the previous session's target size rather than cropping to 640x480 (`VgaKeepsTarget`, `VgaAfterLargeSquareNeverFits`).
- A 640x480 frame is cropped to the current target, not passed through untransformed.
- Odd byte lengths are not rejected: 7 bytes are a 2x2 frame (`DetectOddLengths`).
- A square of side below 640 is "cropped" to 640x480. Below side 484 every crop throws (`SmallSquareNeverFits`). Above that it can succeed with rows shifted across row boundaries, as for side 500 (`MidSquareCropWraps`); the range from 484 to 639 is not proved as a whole.
- The authentication `start` never restores the consumer, so after any `stop` all three buffers drain (`RestartStarvesCamera`).

## Model

Members named after one concrete situation (`DetectVga`, `DetectHdAsSquares`, `DetectOddLengths`, `MidSquareCropWraps`, `VgaAfterLargeSquareNeverFits`, `RestartStarvesCamera`, `PostFirstVgaFrame`, `RunSameSizeTask`, `RestartDeliversToPreviousConsumer`, `StopDropsQueuedFrame`) are worked examples on fixed inputs that illustrate the general contracts; they are not general properties.

| member | source | states |
|---|---|---|
| CameraSizes.IndexOfFirst | app/src/main/java/ax/nd/faceunlock/camera/callables/ConfigureAndStartPreviewCallable.java:91-95 | the early-return scan's result: the index is at most the length, the element there passes the test, and no earlier element does |
| CameraSizes.SortByKey | app/src/main/java/ax/nd/faceunlock/camera/CameraUtil.java:31-32 | the sort keeps the length and the multiset of elements |
| CameraSizes.SortByKeySorted | app/src/main/java/ax/nd/faceunlock/camera/CameraUtil.java:31-32 | the sort's result is in ascending key order (by induction over the insertion steps) |
| CameraSizes.SortByKeyStable | app/src/main/java/ax/nd/faceunlock/camera/CameraUtil.java:31-32 | the sort is stable: the elements passing any test that fixes the key appear in the sorted list in their input order |
| CameraSizes.StableFirst | app/src/main/java/ax/nd/faceunlock/camera/callables/ConfigureAndStartPreviewCallable.java:84-95 | the first element of the sorted list among those passing a test with its key is the first such element of the input |
| CameraSizes.StableLast | app/src/main/java/ax/nd/faceunlock/camera/CameraUtil.java:31-39 | the last element of the sorted list among those passing a test with its key is the last such element of the input |
| CameraSizes.SortByKeySameElements | app/src/main/java/ax/nd/faceunlock/camera/callables/ConfigureAndStartPreviewCallable.java:84-89 | a size is in the sorted list exactly when it is in the input |
| CameraSizes.SortInPlace | app/src/main/java/ax/nd/faceunlock/camera/callables/ConfigureAndStartPreviewCallable.java:84-89 | `Collections.sort` on the list: the array afterwards holds the stable sort of its old contents |
| PreviewConfig.FindBestSize | app/src/main/java/ax/nd/faceunlock/camera/callables/ConfigureAndStartPreviewCallable.java:80-102 | null list gives null; otherwise the list is left sorted by descending area and the result is `BestSize` of the old list |
| PreviewConfig.ScanSorted | app/src/main/java/ax/nd/faceunlock/camera/callables/ConfigureAndStartPreviewCallable.java:91-101 | the three scans over the sorted list return exactly `ChooseFromSorted`: first large square, else 640x480, else element 0, else throw on an empty list |
| PreviewConfig.ConfigurePreviewSize | app/src/main/java/ax/nd/faceunlock/camera/callables/ConfigureAndStartPreviewCallable.java:41-52 | the camera's preview size becomes the picked size; a null list or a throw leaves it unchanged |
| PreviewConfig.BestSizeIsListed | app/src/main/java/ax/nd/faceunlock/camera/callables/ConfigureAndStartPreviewCallable.java:91-101 | the pick is never null for a list, throws exactly on the empty list, and is always an element of the input |
| PreviewConfig.BestSizePrefersLargestSquare | app/src/main/java/ax/nd/faceunlock/camera/callables/ConfigureAndStartPreviewCallable.java:84-95 | with a square of side at least 480 present, the pick is such a square of maximum area, and among equal areas the first in input order |
| PreviewConfig.BestSizeFallsBackToVga | app/src/main/java/ax/nd/faceunlock/camera/callables/ConfigureAndStartPreviewCallable.java:97-99 | with no such square and 640x480 present, 640x480 is picked |
| PreviewConfig.BestSizeFallsBackToLargest | app/src/main/java/ax/nd/faceunlock/camera/callables/ConfigureAndStartPreviewCallable.java:84-101 | otherwise, for a non-empty list, the pick is the first listed size of maximum area |
| CameraUtil.FrontFacingCameraId | app/src/main/java/ax/nd/faceunlock/camera/CameraUtil.java:11-13 | the front camera id is always 1 |
| CameraUtil.CalBestPreviewSize | app/src/main/java/ax/nd/faceunlock/camera/CameraUtil.java:15-40 | null list gives null; otherwise the result is `BestPreviewSize` of the old list, and the list ends up sorted by ascending area exactly when neither early scan returned |
| CameraUtil.ScanOriginalOrder | app/src/main/java/ax/nd/faceunlock/camera/CameraUtil.java:19-29 | the two early scans return a size exactly when the list is not going to be sorted, and that size is the selector's result |
| CameraUtil.ScanSortedOrder | app/src/main/java/ax/nd/faceunlock/camera/CameraUtil.java:34-39 | the covering scan and the final `get` return exactly `PickFromSorted` of the sorted list |
| CameraUtil.ExactMatchWins | app/src/main/java/ax/nd/faceunlock/camera/CameraUtil.java:19-21 | an exact match is always returned, and the list is then not sorted |
| CameraUtil.SquareRequestTakesFirstLargeSquare | app/src/main/java/ax/nd/faceunlock/camera/CameraUtil.java:23-29 | for a square request with no exact match, the first square of side at least 400 in the original order is returned |
| CameraUtil.SortedPickIsSmallestCovering | app/src/main/java/ax/nd/faceunlock/camera/CameraUtil.java:31-38 | after sorting, the pick is the first listed covering size of least area among all covering sizes |
| CameraUtil.UncoveredPickIsLargest | app/src/main/java/ax/nd/faceunlock/camera/CameraUtil.java:31-39 | with nothing covering the request, an empty list throws and otherwise the last listed size of maximum area is returned |
| AuthCamera.FindNearestVga | app/src/main/java/ax/nd/faceunlock/camera/CameraFaceAuthController.java:92-109 | no list or an empty list gives nothing; 640x480 wins whenever listed; otherwise the first listed size of least distance to 640x480 in area |
| AuthCamera.CameraFaceAuthController.constructor | app/src/main/java/ax/nd/faceunlock/camera/CameraFaceAuthController.java:26-42 | a new controller holds the consumer, is not authenticating, holds no buffers, and has size 640x480 |
| AuthCamera.CameraFaceAuthController.Stop | app/src/main/java/ax/nd/faceunlock/camera/CameraFaceAuthController.java:171-180 | the session ends, the consumer is cleared, the closed camera holds no buffer; a second stop changes nothing more |
| AuthCamera.CameraFaceAuthController.Start | app/src/main/java/ax/nd/faceunlock/camera/CameraFaceAuthController.java:44-87 | an active session is stopped first; the size follows the nearest-size search; three buffers of w*h*bitsPerPixel/8 bytes are registered when the preview starts; a failed open or preview request is reported once to a present consumer, and then the buffer size and the lost count stay as they were; the consumer is not restored |
| AuthCamera.CameraFaceAuthController.SetupCameraParameters | app/src/main/java/ax/nd/faceunlock/camera/CameraFaceAuthController.java:89-125 | the requested size is 640x480 if listed, else the nearest listed size; with no list or an empty list the size stays as it was |
| AuthCamera.CameraFaceAuthController.SetupBufferedCallback | app/src/main/java/ax/nd/faceunlock/camera/CameraFaceAuthController.java:127-139 | the size is read back from the camera, the buffer size is w*h*bitsPerPixel/8, and exactly three buffers are queued |
| AuthCamera.CameraFaceAuthController.DeliverFrame | app/src/main/java/ax/nd/faceunlock/camera/CameraFaceAuthController.java:141-147 | the camera uses one queued buffer; the frame is posted exactly when authenticating with a consumer, otherwise its buffer is lost |
| AuthCamera.CameraFaceAuthController.RunQueuedTask | app/src/main/java/ax/nd/faceunlock/camera/CameraFaceAuthController.java:148-160 | the consumer is called only when authenticating with a consumer; the buffer returns to the camera only when the consumer returned and the session still runs; the pool invariant (never more than three buffers) is kept; the size and buffer size never change, and registration and the worker change only when the session was stopped during the call |
| AuthCamera.RestartStarvesCamera | app/src/main/java/ax/nd/faceunlock/camera/CameraFaceAuthController.java:171-174 | after start, stop, start, no frame is posted, and after three frames the camera holds no buffer |
| Nv21.CropOffsetIsEvenCentring | app/src/main/java/ax/nd/faceunlock/camera/CameraFaceEnrollController.java:194-197 | the crop offset is even, and for a target that fits it is the centring offset rounded down to even |
| Nv21.ArrayCopy | app/src/main/java/ax/nd/faceunlock/camera/CameraFaceEnrollController.java:199-201 | `System.arraycopy`: copies exactly when in bounds, and leaves the destination unchanged when it throws |
| Nv21.CopyRows | app/src/main/java/ax/nd/faceunlock/camera/CameraFaceEnrollController.java:199-201 | the row-copy loop succeeds exactly when every row fits, and then destination row i holds source row firstRow+i from the column offset |
| Nv21.CopyRow | app/src/main/java/ax/nd/faceunlock/camera/CameraFaceEnrollController.java:200 | one row copy extends the copied block by a row, touching nothing outside it |
| Nv21.CropNV21 | app/src/main/java/ax/nd/faceunlock/camera/CameraFaceEnrollController.java:192-207 | a short source is a no-op; otherwise it succeeds exactly when all luma and chroma row copies fit, and then the luma and chroma rows are copied from the even offsets |
| Nv21.DownscaleLumaRow | app/src/main/java/ax/nd/faceunlock/camera/CameraFaceEnrollController.java:174-176 | one luma row: pixel (y, x) gets source pixel (2y, 2x), or the first out-of-range access stops it |
| Nv21.DownscaleLuma | app/src/main/java/ax/nd/faceunlock/camera/CameraFaceEnrollController.java:173-177 | every luma pixel (y, x) gets source pixel (2y, 2x), exactly when all accesses fit |
| Nv21.DownscaleChromaPair | app/src/main/java/ax/nd/faceunlock/camera/CameraFaceEnrollController.java:183-187 | one V,U pair is copied, V before U, exactly when all four accesses fit |
| Nv21.DownscaleChromaRow | app/src/main/java/ax/nd/faceunlock/camera/CameraFaceEnrollController.java:182-188 | every even-column pair of one chroma row is copied from source chroma row 2y, column 2x |
| Nv21.DownscaleChroma | app/src/main/java/ax/nd/faceunlock/camera/CameraFaceEnrollController.java:179-189 | every chroma row's pairs are copied, exactly when all accesses fit |
| Nv21.DownscaleNV21 | app/src/main/java/ax/nd/faceunlock/camera/CameraFaceEnrollController.java:172-190 | succeeds exactly when every access fits, and then the destination is the 2:1 downscale of luma and chroma |
| Nv21.CropFitsWhenTargetInside | app/src/main/java/ax/nd/faceunlock/camera/CameraFaceEnrollController.java:192-207 | with a target no larger than the source and full-length buffers, no row copy of the crop throws |
| Nv21.CropToSameSizeCopies | app/src/main/java/ax/nd/faceunlock/camera/CameraFaceEnrollController.java:192-207 | cropping to the source's own size copies the frame prefix unchanged |
| Nv21.SmallSquareCropThrows | app/src/main/java/ax/nd/faceunlock/camera/CameraFaceEnrollController.java:194-200 | a square source of side below 484 cropped to 640x480 always throws |
| Nv21.CropAboveFrameThrows | app/src/main/java/ax/nd/faceunlock/camera/CameraFaceEnrollController.java:195-200 | a negative row offset makes the first row copy start before the frame, so the crop throws |
| Nv21.MidSquareCropWraps | app/src/main/java/ax/nd/faceunlock/camera/CameraFaceEnrollController.java:194-200 | a 500x500 frame cropped to 640x480 does not throw, but each destination row starts 70 bytes before its source row |
| Nv21.DownscaleHalfFits | app/src/main/java/ax/nd/faceunlock/camera/CameraFaceEnrollController.java:172-189 | halving a full square frame into a buffer sized for the half frame never indexes out of range |
| EnrollGeometry.FloorSqrt | app/src/main/java/ax/nd/faceunlock/camera/CameraFaceEnrollController.java:143 | the integer square root: r*r <= n < (r+1)*(r+1) |
| EnrollGeometry.FloorSqrtUnique | app/src/main/java/ax/nd/faceunlock/camera/CameraFaceEnrollController.java:143 | that root is the only such value |
| EnrollGeometry.DetectSquareIffPerfectSquare | app/src/main/java/ax/nd/faceunlock/camera/CameraFaceEnrollController.java:142-147 | a length is detected as a square exactly when its pixel count is a perfect square, with the root as side |
| EnrollGeometry.DetectSquareFrame | app/src/main/java/ax/nd/faceunlock/camera/CameraFaceEnrollController.java:142-147 | an NV21 frame of even side s is detected as the s x s square |
| EnrollGeometry.DetectPerfectSquare | app/src/main/java/ax/nd/faceunlock/camera/CameraFaceEnrollController.java:145-147 | a pixel count k*k is detected as the square of side k |
| EnrollGeometry.OnlyVgaIsDetectedAsFixed | app/src/main/java/ax/nd/faceunlock/camera/CameraFaceEnrollController.java:145-163 | of the fixed resolutions only 640x480 is reachable |
| EnrollGeometry.DetectVga | app/src/main/java/ax/nd/faceunlock/camera/CameraFaceEnrollController.java:161 | a 640x480 frame (460800 bytes) is detected as fixed 640x480 |
| EnrollGeometry.DetectHdAsSquares | app/src/main/java/ax/nd/faceunlock/camera/CameraFaceEnrollController.java:145-163 | 1280x720 and 1920x1080 frames are taken as 960x960 and 1440x1440 squares |
| EnrollGeometry.DetectOddLengths | app/src/main/java/ax/nd/faceunlock/camera/CameraFaceEnrollController.java:142-145 | 7 bytes are a 2x2 square, 1 byte a 0x0 square, 3 bytes unknown |
| EnrollGeometry.RedetectNonNegative | app/src/main/java/ax/nd/faceunlock/camera/CameraFaceEnrollController.java:141-170 | detection keeps every dimension non-negative |
| EnrollGeometry.LargeSquareIsHalved | app/src/main/java/ax/nd/faceunlock/camera/CameraFaceEnrollController.java:149-153 | a square of side at least 800 selects the downscale to side/2, and every frame of that length fits the new buffer |
| EnrollGeometry.StandardSquareIsCropped | app/src/main/java/ax/nd/faceunlock/camera/CameraFaceEnrollController.java:154-158 | a square of side 640 to 799 selects the crop to 640x480, and every frame of that length fits |
| EnrollGeometry.SmallSquareNeverFits | app/src/main/java/ax/nd/faceunlock/camera/CameraFaceEnrollController.java:154-158 | a square of side 1 to 483 also selects the crop to 640x480, and every frame of that length makes it throw |
| EnrollGeometry.SameSizeCropFits | app/src/main/java/ax/nd/faceunlock/camera/CameraFaceEnrollController.java:192-207 | a crop to the source's own size never throws |
| EnrollGeometry.VgaKeepsTarget | app/src/main/java/ax/nd/faceunlock/camera/CameraFaceEnrollController.java:161 | a 640x480 frame sets only the source size and keeps the target; with a 640x480 target its crop fits |
| EnrollGeometry.VgaAfterLargeSquareNeverFits | app/src/main/java/ax/nd/faceunlock/camera/CameraFaceEnrollController.java:56-63 | after a 1440x1440 session, a restarted 640x480 session keeps the 720x720 target and every frame's crop throws |
| EnrollCamera.CameraFaceEnrollController.constructor | app/src/main/java/ax/nd/faceunlock/camera/CameraFaceEnrollController.java:21-31 | the initial fields: not enrolling, no consumer, source 0x0, target 640x480, crop, no buffer |
| EnrollCamera.CameraFaceEnrollController.Stop | app/src/main/java/ax/nd/faceunlock/camera/CameraFaceEnrollController.java:209-218 | enrolling, consumer and scratch buffer are cleared; the geometry and the posted tasks stay |
| EnrollCamera.CameraFaceEnrollController.Start | app/src/main/java/ax/nd/faceunlock/camera/CameraFaceEnrollController.java:56-85 | an active session is stopped first; the consumer is installed; the source size (not the target) is reset; a failed camera request is reported |
| EnrollCamera.CameraFaceEnrollController.OpenCamera | app/src/main/java/ax/nd/faceunlock/camera/CameraFaceEnrollController.java:69-99 | the preview streams exactly when the camera opened and the preview started; otherwise one error is reported if a consumer is installed |
| EnrollCamera.CameraFaceEnrollController.DetectSourceResolution | app/src/main/java/ax/nd/faceunlock/camera/CameraFaceEnrollController.java:141-170 | the geometry becomes `Redetect` of the old one; a recognised length allocates a fresh zeroed buffer of the target's frame size; an unknown length allocates nothing |
| EnrollCamera.CameraFaceEnrollController.SetSourceSize | app/src/main/java/ax/nd/faceunlock/camera/CameraFaceEnrollController.java:141-167 | the branches set the geometry to `Redetect`, and report whether the length was recognised |
| EnrollCamera.CameraFaceEnrollController.AllocateScratch | app/src/main/java/ax/nd/faceunlock/camera/CameraFaceEnrollController.java:169 | the new buffer holds targetWidth*targetHeight*3/2 zero bytes |
| EnrollCamera.CameraFaceEnrollController.OnPreviewFrame | app/src/main/java/ax/nd/faceunlock/camera/CameraFaceEnrollController.java:103-117 | frames are ignored outside a session with a consumer; detection runs only while the source width is 0; a frame is posted with the current consumer exactly when the source size is known |
| EnrollCamera.CameraFaceEnrollController.RunQueuedTask | app/src/main/java/ax/nd/faceunlock/camera/CameraFaceEnrollController.java:117-134 | the worker reads the current geometry and buffer; with no buffer or unknown size, or a throwing transform, nothing is delivered; otherwise the transformed buffer goes to the consumer captured with the frame |
| EnrollCamera.PostFirstVgaFrame | app/src/main/java/ax/nd/faceunlock/camera/CameraFaceEnrollController.java:103-117 | the first 640x480 frame of a session is detected, gets a fresh buffer and is posted |
| EnrollCamera.RunSameSizeTask | app/src/main/java/ax/nd/faceunlock/camera/CameraFaceEnrollController.java:119-131 | with target equal to source, the worker always delivers the buffer to the frame's consumer |
| EnrollCamera.RestartDeliversToPreviousConsumer | app/src/main/java/ax/nd/faceunlock/camera/CameraFaceEnrollController.java:104-129 | a frame posted before stop and restart is still delivered, to the previous session's consumer |
| EnrollCamera.StopDropsQueuedFrame | app/src/main/java/ax/nd/faceunlock/camera/CameraFaceEnrollController.java:119-121 | after stop, a frame still queued for the worker is dropped because the buffer is gone |

## Left out

- Threads and interleavings. Posting, `quitSafely` and the main-looper handler are replaced by explicit steps run in a fixed order. The enrollment model keeps one FIFO of posted tasks across sessions, whereas the old and new worker threads of two sessions run concurrently. For the authentication controller, a `stop` during the consumer call is the one interleaving modelled (`ReturnedAfterStop`).
- Camera plumbing: opening and closing the camera, `Camera.Parameters`, display orientation, the reflective `setPreviewSurface` call, `runOnUiThread`. The outcomes of the camera requests, the supported list, the camera's preview size and the format's bits per pixel are parameters.
- Logging, the singleton `getInstance`, the `Context`, and the consumer's other callbacks (`handleSaveFeatureResult`, `setDetectArea`, `onTimeout`). `FacePPImpl` is not part of this model.
- Floating point. `(int)(dataLength / 1.5)` is the integer `2 * len / 3`, and `(int) Math.sqrt` is the exact integer square root `FloorSqrt`. For lengths below 2^31 the double results do not round across an integer.
- Java `int` overflow. Size dimensions are bounded below 2^15, so areas and the subtraction comparators cannot overflow. The NV21 index arithmetic uses unbounded integers.
- AuthCamera.CameraFaceAuthController.SetupBufferedCallback: the buffer size width*height*bitsPerPixel/8 is computed on unbounded integers. In Java the product is an `int` and wraps for large sizes (a 2^15-bounded square at 12 bits per pixel exceeds 2^31), giving a wrong or negative buffer size; the model does not capture that wrap.
- Object identity of `Camera.Size`. Sizes are values, so two equal sizes in a list are indistinguishable.
- Nv21.CropNV21: when a row copy throws, the model says nothing about the destination, whereas the Java leaves the rows copied before the throw in place.
- Nv21.DownscaleNV21: when an access throws, the model says nothing about the partly written destination. For an odd target width, the U byte of a row's last pair lands outside the row, and the model does not state its value.
- AuthCamera.CameraFaceAuthController.RunQueuedTask: buffers are counted (queued, in flight, lost), not tracked one by one, so which byte array returns to the camera is not modelled.
- AuthCamera.CameraFaceAuthController.SetupBufferedCallback: a failure while reading the parameters or registering buffers, which the code catches and reports, is modelled only as a failed preview start.
