/**
 * How the enrollment controller works out the source frame geometry from
 * the byte length of the first preview frame (detectSourceResolution), and
 * which transform, target size and scratch buffer follow from it.
 */
module EnrollGeometry {
  import opened Nv21

  function Square(k: int): int
  {
    k * k
  }

  lemma SquareMono(a: nat, b: nat)
    requires a <= b
    ensures Square(a) <= Square(b)
  {
    MulMono(a, b, a);
    MulMono(a, b, b);
  }

  /** `(int) Math.sqrt(n)`: the floor of the square root. For n below 2^31
      the double result never rounds up across an integer, so the cast yields
      exactly this value. Computed from the root of n / 4, one base-4 digit at
      a time. */
  function FloorSqrt(n: nat): (r: nat)
    ensures Square(r) <= n < Square(r + 1)
  {
    if n < 4 then (if n == 0 then 0 else 1)
    else
      var q := FloorSqrt(n / 4);
      SquareOfDouble(q);
      SquareOfDouble(q + 1);
      if Square(2 * q + 1) <= n then 2 * q + 1 else 2 * q
  }

  lemma SquareOfDouble(q: int)
    ensures Square(2 * q) == 4 * Square(q)
  {
  }

  /** The floor square root is the only k with k*k <= n < (k+1)*(k+1). */
  lemma FloorSqrtUnique(n: nat, k: nat)
    requires Square(k) <= n < Square(k + 1)
    ensures FloorSqrt(n) == k
  {
    var r := FloorSqrt(n);
    if r < k {
      SquareMono(r + 1, k);
    } else if r > k {
      SquareMono(k + 1, r);
    }
  }

  /** `(int)(dataLength / 1.5)`: the pixel count of an NV21 frame of that many
      bytes. The double quotient of an int by 1.5 is never within rounding
      distance of the next integer, so the cast yields the integer quotient. */
  function PixelCount(len: nat): nat
  {
    2 * len / 3
  }

  /** What detectSourceResolution recognises: a square of the floor square
      root's side, one of three fixed resolutions, or nothing. */
  datatype Detection = Unknown | SquareFrame(side: nat) | Fixed(width: nat, height: nat)

  function Detect(len: nat): Detection
  {
    var pixels := PixelCount(len);
    var root := FloorSqrt(pixels);
    if root * root == pixels then SquareFrame(root)
    else if pixels == 307200 then Fixed(640, 480)
    else if pixels == 921600 then Fixed(1280, 720)
    else if pixels == 2073600 then Fixed(1920, 1080)
    else Unknown
  }

  /** A length is detected as a square exactly when its pixel count is a
      perfect square, and then the side is that square's root. */
  lemma DetectSquareIffPerfectSquare(len: nat)
    ensures Detect(len).SquareFrame? <==> exists k: nat :: Square(k) == PixelCount(len)
    ensures Detect(len).SquareFrame? ==> Square(Detect(len).side) == PixelCount(len)
  {
    if k: nat :| Square(k) == PixelCount(len) {
      SquareMono(k, k + 1);
      FloorSqrtUnique(PixelCount(len), k);
    }
  }

  /** An NV21 frame of even side s is detected as the square of side s. */
  lemma DetectSquareFrame(s: nat)
    requires s % 2 == 0
    ensures Detect(FrameLength(s, s)) == SquareFrame(s)
  {
    var h := s / 2;
    assert s * s == 4 * (h * h);
    assert FrameLength(s, s) == 6 * (h * h);
    assert PixelCount(FrameLength(s, s)) == Square(s);
    SquareMono(s, s + 1);
    FloorSqrtUnique(Square(s), s);
  }

  /** Of the three fixed resolutions only 640x480 can be detected: the pixel
      counts of 1280x720 and 1920x1080 are perfect squares (960^2, 1440^2),
      so those lengths are taken as squares first. */
  lemma OnlyVgaIsDetectedAsFixed(len: nat)
    ensures Detect(len).Fixed? ==> Detect(len) == Fixed(640, 480)
  {
    var pixels := PixelCount(len);
    if pixels == 921600 {
      FloorSqrtUnique(pixels, 960);
    } else if pixels == 2073600 {
      FloorSqrtUnique(pixels, 1440);
    }
  }

  /** A 640x480 frame (460800 bytes, 307200 pixels, not a perfect square). */
  lemma DetectVga()
    ensures Detect(460800) == Fixed(640, 480)
  {
    FloorSqrtUnique(307200, 554);
  }

  /** A length whose pixel count is k*k is detected as the square of side k. */
  lemma DetectPerfectSquare(len: nat, k: nat)
    requires PixelCount(len) == Square(k)
    ensures Detect(len) == SquareFrame(k)
  {
    SquareMono(k, k + 1);
    FloorSqrtUnique(PixelCount(len), k);
  }

  /** Frames of 1280x720 and 1920x1080 are taken as squares of side 960 and
      1440. */
  lemma DetectHdAsSquares()
    ensures Detect(1382400) == SquareFrame(960)
    ensures Detect(3110400) == SquareFrame(1440)
  {
    DetectPerfectSquare(1382400, 960);
    DetectPerfectSquare(3110400, 1440);
  }

  /** Odd lengths are not rejected: 7 bytes are taken as a 2x2 frame and 1
      byte as a 0x0 frame; 3 bytes (2 pixels) are unknown. */
  lemma DetectOddLengths()
    ensures Detect(7) == SquareFrame(2)
    ensures Detect(1) == SquareFrame(0)
    ensures Detect(3) == Unknown
  {
    FloorSqrtUnique(4, 2);
    FloorSqrtUnique(0, 0);
    FloorSqrtUnique(2, 1);
  }

  /** The controller's geometry fields: mSrcWidth, mSrcHeight, mTargetWidth,
      mTargetHeight, mUseDownscale. */
  datatype FrameGeometry = FrameGeometry(srcWidth: int, srcHeight: int,
                                         targetWidth: int, targetHeight: int, downscale: bool)

  /** Side from which a square source is halved instead of cropped. */
  const DOWNSCALE_MIN_SIDE: nat := 800

  /** The geometry after detectSourceResolution(len). A fixed resolution sets
      the source only and keeps the previous target; an unknown length
      changes nothing. */
  function Redetect(g: FrameGeometry, len: nat): FrameGeometry
  {
    match Detect(len)
    case SquareFrame(s) =>
      if s >= DOWNSCALE_MIN_SIDE then FrameGeometry(s, s, s / 2, s / 2, true)
      else FrameGeometry(s, s, 640, 480, false)
    case Fixed(w, h) => g.(srcWidth := w, srcHeight := h, downscale := false)
    case Unknown => g
  }

  /** The scratch buffer allocated for a target: one NV21 frame of that size. */
  function ScratchSize(g: FrameGeometry): int
  {
    FrameLength(g.targetWidth, g.targetHeight)
  }

  predicate NonNegative(g: FrameGeometry)
  {
    0 <= g.srcWidth && 0 <= g.srcHeight && 0 <= g.targetWidth && 0 <= g.targetHeight
  }

  /** Whether transforming a frame of `frameLen` bytes into a buffer of
      `bufLen` bytes completes without an exception. A crop of a frame shorter
      than the source geometry does nothing and does not throw. */
  predicate TransformFits(g: FrameGeometry, frameLen: int, bufLen: int)
  {
    if g.downscale then DownscaleFits(frameLen, g.srcWidth, g.srcHeight, bufLen, g.targetWidth, g.targetHeight)
    else frameLen < FrameLength(g.srcWidth, g.srcHeight) ||
         CropFits(frameLen, g.srcWidth, g.srcHeight, bufLen, g.targetWidth, g.targetHeight)
  }

  /** What the scratch buffer holds after a transform that did not throw. */
  ghost predicate Transformed(g: FrameGeometry, frame: seq<byte>, before: seq<byte>, after: seq<byte>)
  {
    if g.downscale then DownscaledInto(frame, g.srcWidth, g.srcHeight, after, g.targetWidth, g.targetHeight)
    else if |frame| < FrameLength(g.srcWidth, g.srcHeight) then after == before
    else CroppedInto(frame, g.srcWidth, g.srcHeight, after, g.targetWidth, g.targetHeight)
  }

  /** Detection keeps every dimension non-negative. */
  lemma RedetectNonNegative(g: FrameGeometry, len: nat)
    requires NonNegative(g)
    ensures NonNegative(Redetect(g, len))
  {
  }

  /** A square of side at least 800 is halved, and every frame of the detected
      length fits the downscale into the freshly sized buffer. */
  lemma LargeSquareIsHalved(g: FrameGeometry, len: nat)
    requires Detect(len).SquareFrame? && Detect(len).side >= DOWNSCALE_MIN_SIDE
    ensures Redetect(g, len).downscale
    ensures Redetect(g, len).targetWidth == Redetect(g, len).targetHeight == Detect(len).side / 2
    ensures TransformFits(Redetect(g, len), len, ScratchSize(Redetect(g, len)))
  {
    var s := Detect(len).side;
    DetectSquareIffPerfectSquare(len);
    assert len >= FrameLength(s, s);
    DownscaleHalfFits(len, s);
  }

  /** A square of side 640 to 799 is cropped to 640x480, and every frame of
      the detected length fits. */
  lemma StandardSquareIsCropped(g: FrameGeometry, len: nat)
    requires Detect(len).SquareFrame? && 640 <= Detect(len).side < DOWNSCALE_MIN_SIDE
    ensures !Redetect(g, len).downscale
    ensures Redetect(g, len).targetWidth == 640 && Redetect(g, len).targetHeight == 480
    ensures TransformFits(Redetect(g, len), len, ScratchSize(Redetect(g, len)))
  {
    var s := Detect(len).side;
    DetectSquareIffPerfectSquare(len);
    assert len >= FrameLength(s, s);
    CropFitsWhenTargetInside(len, s, s, ScratchSize(Redetect(g, len)), 640, 480);
  }

  /** A square of side 1 to 483 is also "cropped" to 640x480, and every frame
      of the detected length makes the crop throw, so none is ever delivered. */
  lemma SmallSquareNeverFits(g: FrameGeometry, len: nat)
    requires Detect(len).SquareFrame? && 0 < Detect(len).side < 484
    ensures Redetect(g, len).srcWidth != 0
    ensures !TransformFits(Redetect(g, len), len, ScratchSize(Redetect(g, len)))
  {
    var s := Detect(len).side;
    DetectSquareIffPerfectSquare(len);
    assert len >= FrameLength(s, s);
    SmallSquareCropThrows(len, s, ScratchSize(Redetect(g, len)));
  }

  /** A crop to the source's own size fits whenever the frame is full length. */
  lemma SameSizeCropFits(g: FrameGeometry, frameLen: int)
    requires NonNegative(g) && !g.downscale
    requires g.targetWidth == g.srcWidth && g.targetHeight == g.srcHeight
    ensures TransformFits(g, frameLen, ScratchSize(g))
  {
    if frameLen >= FrameLength(g.srcWidth, g.srcHeight) {
      CropFitsWhenTargetInside(frameLen, g.srcWidth, g.srcHeight, ScratchSize(g), g.targetWidth, g.targetHeight);
    }
  }

  /** A 640x480 frame sets the source to 640x480 and keeps whatever target
      the controller had; with the initial 640x480 target the crop fits (and,
      by CropToSameSizeCopies, copies the frame unchanged). */
  lemma VgaKeepsTarget(g: FrameGeometry)
    requires NonNegative(g)
    ensures Redetect(g, 460800) == g.(srcWidth := 640, srcHeight := 480, downscale := false)
    ensures g.targetWidth == 640 && g.targetHeight == 480 ==>
              TransformFits(Redetect(g, 460800), 460800, ScratchSize(Redetect(g, 460800)))
  {
    DetectVga();
    if g.targetWidth == 640 && g.targetHeight == 480 {
      SameSizeCropFits(Redetect(g, 460800), 460800);
    }
  }

  /** The geometry a fresh controller starts with. */
  const INITIAL_GEOMETRY := FrameGeometry(0, 0, 640, 480, false)

  /** start() resets the source size only. */
  function Restart(g: FrameGeometry): FrameGeometry
  {
    g.(srcWidth := 0, srcHeight := 0)
  }

  /** After a session on a 1440x1440 camera, a restarted session on a 640x480
      camera keeps the 720x720 target: the crop starts 120 rows above the
      frame and throws on every frame. */
  lemma VgaAfterLargeSquareNeverFits()
    ensures var g := Redetect(Restart(Redetect(INITIAL_GEOMETRY, 3110400)), 460800);
            g == FrameGeometry(640, 480, 720, 720, false) &&
            !TransformFits(g, 460800, ScratchSize(g))
  {
    DetectVga();
    DetectHdAsSquares();
    var large := Redetect(INITIAL_GEOMETRY, 3110400);
    assert large == FrameGeometry(1440, 1440, 720, 720, true);
    var g := Redetect(Restart(large), 460800);
    assert g == FrameGeometry(640, 480, 720, 720, false);
    assert CropOffset(480, 720) == -120 && CropOffset(640, 720) == -40;
    CropAboveFrameThrows(460800, 640, 480, ScratchSize(g), 720, 720);
  }
}
