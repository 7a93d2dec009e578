/** `src/calibration.py`: the chessboard's object-point grid and the image
    loop of `calibrate_camera` that decides which images feed the solver.

    Each image is reduced to what the loop learns from OpenCV about it:
    unreadable, or readable with a size and whether the chessboard pattern
    was found. The corner refinement and the solver itself are not part of
    this model; the loop records, in place of each refined corner set, the
    index of the image it came from. */
module Calibration {
  import opened Common

  /** A 3-D object point, in millimetres. */
  datatype Point3 = Point3(x: real, y: real, z: real)

  /** `_make_object_points((cols, rows), sq)`: the inner corners of the
      board in row-major order, point k at column `k % cols` and row
      `k / cols`, scaled by the square size, on the plane z = 0. */
  function ObjectPoints(cols: nat, rows: nat, sq: real): (pts: seq<Point3>)
    ensures |pts| == cols * rows
  {
    if cols == 0 then []
    else seq(cols * rows, k requires 0 <= k < cols * rows => GridPoint(k % cols, k / cols, sq))
  }

  function GridPoint(i: nat, j: nat, sq: real): Point3
  {
    Point3(i as real * sq, j as real * sq, 0.0)
  }

  /** Column i of row j of the board is point `j * cols + i`. */
  lemma ObjectPointAt(cols: nat, rows: nat, sq: real, i: nat, j: nat)
    requires i < cols && j < rows
    ensures j * cols + i < cols * rows
    ensures ObjectPoints(cols, rows, sq)[j * cols + i] == GridPoint(i, j, sq)
  {
    var k := j * cols + i;
    assert k < cols * rows by {
      assert j * cols + i < j * cols + cols == (j + 1) * cols;
      MonotoneProduct(j + 1, rows, cols);
    }
    DivModUnique(k, cols, i, j);
  }

  lemma MonotoneProduct(a: nat, b: nat, c: nat)
    requires a <= b
    ensures a * c <= b * c
  {
  }

  lemma DivModUnique(k: nat, cols: nat, i: nat, j: nat)
    requires i < cols && k == j * cols + i
    ensures k % cols == i && k / cols == j
  {
    var q, r := k / cols, k % cols;
    assert k == q * cols + r;
    assert q * cols <= k < j * cols + cols == (j + 1) * cols;
    ProductOrder(q, j, cols);
    assert j * cols <= k < q * cols + cols == (q + 1) * cols;
    ProductOrder(j, q, cols);
  }

  lemma ProductOrder(a: nat, b: nat, c: nat)
    requires a * c < (b + 1) * c
    ensures a <= b
  {
    if a > b {
      MonotoneProduct(b + 1, a, c);
    }
  }

  /** With a non-negative square size every point lies on the board:
      z = 0, x in `[0, (cols-1)*sq]`, y in `[0, (rows-1)*sq]`. */
  lemma ObjectPointBounds(cols: nat, rows: nat, sq: real, k: nat)
    requires sq >= 0.0 && k < cols * rows
    ensures var p := ObjectPoints(cols, rows, sq)[k];
      && p.z == 0.0
      && 0.0 <= p.x <= (cols - 1) as real * sq
      && 0.0 <= p.y <= (rows - 1) as real * sq
  {
    RowBelow(k, cols, rows);
    assert ObjectPoints(cols, rows, sq)[k] == GridPoint(k % cols, k / cols, sq);
    GridPointBounds(k % cols, k / cols, cols - 1, rows - 1, sq);
  }

  lemma GridPointBounds(i: nat, j: nat, maxI: nat, maxJ: nat, sq: real)
    requires i <= maxI && j <= maxJ && sq >= 0.0
    ensures var p := GridPoint(i, j, sq);
      && p.z == 0.0
      && 0.0 <= p.x <= maxI as real * sq
      && 0.0 <= p.y <= maxJ as real * sq
  {
    ScaledBelow(i, maxI, sq);
    ScaledBelow(j, maxJ, sq);
  }

  /** Point k of the grid lies in a board row below `rows`. */
  lemma RowBelow(k: nat, cols: nat, rows: nat)
    requires k < cols * rows
    ensures cols > 0 && rows > 0 && k % cols < cols && k / cols < rows
  {
    var i, j := k % cols, k / cols;
    assert k == j * cols + i;
    assert j * cols <= k < rows * cols == ((rows - 1) + 1) * cols;
    ProductOrder(j, rows - 1, cols);
  }

  lemma ScaledBelow(a: nat, b: nat, sq: real)
    requires a <= b && sq >= 0.0
    ensures 0.0 <= a as real * sq <= b as real * sq
  {
    assert b as real * sq - a as real * sq == (b - a) as real * sq;
  }

  // ---------------------------------------------------------------------
  // The image loop

  /** What the loop learns about one image file. */
  datatype ImageOutcome = Unreadable | Readable(width: nat, height: nat, found: bool)

  /** `gray.shape[::-1]`, i.e. `(w, h)`. */
  datatype Size = Size(width: nat, height: nat)

  function SizeOf(img: ImageOutcome): Size
    requires img.Readable?
  {
    Size(img.width, img.height)
  }

  /** The loop's variables after some images: `gray_shape`, `objpoints`,
      the source of each entry of `imgpoints`, `used`, and the exception
      that ended the loop, if any. */
  datatype Scan = Scan(
    grayShape: Option<Size>,
    objpoints: seq<seq<Point3>>,
    sources: seq<nat>,
    used: nat,
    failure: Option<Error>)

  /** Lines 44-63 for image number `idx`. */
  function ScanStep(o: Scan, img: ImageOutcome, idx: nat, objp: seq<Point3>): Scan
  {
    match img
    case Unreadable => o
    case Readable(w, h, found) =>
      if o.grayShape.Some? && o.grayShape.value != Size(w, h) then
        o.(failure := Some(RuntimeError))
      else
        var o' := if o.grayShape.None? then o.(grayShape := Some(Size(w, h))) else o;
        if !found then o'
        else o'.(objpoints := o'.objpoints + [objp], sources := o'.sources + [idx], used := o'.used + 1)
  }

  /** Images whose pattern was found among the first n. */
  predicate Detected(img: ImageOutcome)
  {
    img.Readable? && img.found
  }

  /** The loop over the first n images; an exception ends it. */
  function ScanImages(imgs: seq<ImageOutcome>, n: nat, objp: seq<Point3>): (o: Scan)
    requires n <= |imgs|
    ensures |o.objpoints| == |o.sources| == o.used <= n
    ensures forall k :: 0 <= k < |o.objpoints| ==> o.objpoints[k] == objp
    ensures forall k :: 0 <= k < |o.sources| ==> o.sources[k] < n && Detected(imgs[o.sources[k]])
    ensures forall k, l :: 0 <= k < l < |o.sources| ==> o.sources[k] < o.sources[l]
    ensures o.used > 0 ==> o.grayShape.Some?
    ensures o.failure.Some? ==> o.failure.value == RuntimeError && o.grayShape.Some?
  {
    if n == 0 then Scan(None, [], [], 0, None)
    else
      var o := ScanImages(imgs, n - 1, objp);
      if o.failure.Some? then o else ScanStep(o, imgs[n - 1], n - 1, objp)
  }

  /** What `calibrate_camera` hands to the solver and returns besides the
      solver's outputs: `tuple(gray_shape)`, `used`, and the point lists. */
  datatype Calibrated = Calibrated(imageSize: Size, used: nat, objpoints: seq<seq<Point3>>, sources: seq<nat>)

  /** `calibrate_camera(image_files, (cols, rows), sq)` up to the solver. */
  function CalibrationResult(imgs: seq<ImageOutcome>, cols: nat, rows: nat, sq: real): (r: Result<Calibrated, Error>)
    ensures |imgs| == 0 ==> r == Err(RuntimeError)
    ensures r.Err? ==> r.error == RuntimeError
    ensures r.Ok? ==> 1 <= r.value.used <= |imgs| && |r.value.objpoints| == |r.value.sources| == r.value.used
  {
    if |imgs| == 0 then Err(RuntimeError)
    else
      var o := ScanImages(imgs, |imgs|, ObjectPoints(cols, rows, sq));
      if o.failure.Some? then Err(o.failure.value)
      else if |o.objpoints| == 0 then Err(RuntimeError)
      else Ok(Calibrated(o.grayShape.value, o.used, o.objpoints, o.sources))
  }

  /** The loop of lines 28-66 run step by step. */
  method CalibrateCamera(imgs: seq<ImageOutcome>, cols: nat, rows: nat, sq: real)
    returns (r: Result<Calibrated, Error>)
    ensures r == CalibrationResult(imgs, cols, rows, sq)
  {
    if |imgs| == 0 {
      return Err(RuntimeError);
    }
    var objpoints: seq<seq<Point3>> := [];
    var sources: seq<nat> := [];
    var objp := ObjectPoints(cols, rows, sq);
    var grayShape: Option<Size> := None;
    var used := 0;
    var i := 0;
    while i < |imgs|
      invariant 0 <= i <= |imgs|
      invariant ScanImages(imgs, i, objp) == Scan(grayShape, objpoints, sources, used, None)
    {
      var img := imgs[i];
      if img.Unreadable? {
        i := i + 1;
        continue;
      }
      var shape := Size(img.width, img.height);
      if grayShape.None? {
        grayShape := Some(shape);
      } else if shape != grayShape.value {
        FailureIsFinal(imgs, i + 1, |imgs|, objp);
        return Err(RuntimeError);
      }
      if !img.found {
        i := i + 1;
        continue;
      }
      objpoints := objpoints + [objp];
      sources := sources + [i];
      used := used + 1;
      i := i + 1;
    }
    if |objpoints| == 0 {
      return Err(RuntimeError);
    }
    r := Ok(Calibrated(grayShape.value, used, objpoints, sources));
  }

  /** Once the loop has raised, later images change nothing. */
  lemma {:induction false} FailureIsFinal(imgs: seq<ImageOutcome>, i: nat, n: nat, objp: seq<Point3>)
    requires i <= n <= |imgs|
    requires ScanImages(imgs, i, objp).failure.Some?
    ensures ScanImages(imgs, n, objp) == ScanImages(imgs, i, objp)
    decreases n
  {
    if n > i {
      FailureIsFinal(imgs, i, n - 1, objp);
    }
  }

  /** The size of the first readable image among the first n, if any. */
  function FirstSize(imgs: seq<ImageOutcome>, n: nat): Option<Size>
    requires n <= |imgs|
  {
    if n == 0 then None
    else if FirstSize(imgs, n - 1).Some? then FirstSize(imgs, n - 1)
    else if imgs[n - 1].Readable? then Some(SizeOf(imgs[n - 1]))
    else None
  }

  /** `gray_shape` is always the size of the first readable image: unreadable
      images never set it, and it is never changed once set. */
  lemma {:induction false} ShapeIsFirstReadable(imgs: seq<ImageOutcome>, n: nat, objp: seq<Point3>)
    requires n <= |imgs|
    ensures ScanImages(imgs, n, objp).grayShape == FirstSize(imgs, n)
  {
    if n > 0 {
      ShapeIsFirstReadable(imgs, n - 1, objp);
    }
  }

  /** Some readable image among the first n differs in size from the first
      readable one. */
  predicate SizeMismatch(imgs: seq<ImageOutcome>, n: nat)
    requires n <= |imgs|
  {
    exists i :: 0 <= i < n && imgs[i].Readable? && FirstSize(imgs, n) != Some(SizeOf(imgs[i]))
  }

  lemma {:induction false} FirstSizeStable(imgs: seq<ImageOutcome>, m: nat, n: nat)
    requires m <= n <= |imgs| && FirstSize(imgs, m).Some?
    ensures FirstSize(imgs, n) == FirstSize(imgs, m)
    decreases n
  {
    if n > m {
      FirstSizeStable(imgs, m, n - 1);
    }
  }

  /** A readable image among the first n has a size once FirstSize is
      taken over them. */
  lemma {:induction false} FirstSizeExists(imgs: seq<ImageOutcome>, i: nat, n: nat)
    requires i < n <= |imgs| && imgs[i].Readable?
    ensures FirstSize(imgs, n).Some?
    decreases n
  {
    if n - 1 > i {
      FirstSizeExists(imgs, i, n - 1);
    }
  }

  /** The loop raises exactly when some readable image has another size than
      the first readable one, whether or not its pattern would have been
      found: the size check comes before detection. */
  lemma {:induction false} FailsIffSizeMismatch(imgs: seq<ImageOutcome>, n: nat, objp: seq<Point3>)
    requires n <= |imgs|
    ensures ScanImages(imgs, n, objp).failure.Some? <==> SizeMismatch(imgs, n)
  {
    if n > 0 {
      var o := ScanImages(imgs, n - 1, objp);
      FailsIffSizeMismatch(imgs, n - 1, objp);
      ShapeIsFirstReadable(imgs, n - 1, objp);
      if SizeMismatch(imgs, n - 1) {
        var i :| 0 <= i < n - 1 && imgs[i].Readable? && FirstSize(imgs, n - 1) != Some(SizeOf(imgs[i]));
        FirstSizeExists(imgs, i, n - 1);
        FirstSizeStable(imgs, n - 1, n);
        assert SizeMismatch(imgs, n);
      } else if FirstSize(imgs, n - 1).Some? {
        FirstSizeStable(imgs, n - 1, n);
        var img := imgs[n - 1];
        if img.Readable? && Some(SizeOf(img)) != FirstSize(imgs, n - 1) {
          assert SizeMismatch(imgs, n);
        } else {
          forall i | 0 <= i < n && imgs[i].Readable?
            ensures FirstSize(imgs, n) == Some(SizeOf(imgs[i]))
          {
          }
        }
      } else {
        NoneBeforeFirst(imgs, n - 1);
        forall i | 0 <= i < n && imgs[i].Readable?
          ensures FirstSize(imgs, n) == Some(SizeOf(imgs[i]))
        {
          if i == n - 1 {
          }
        }
      }
    }
  }

  /** Without a first size, none of the images so far was readable. */
  lemma {:induction false} NoneBeforeFirst(imgs: seq<ImageOutcome>, n: nat)
    requires n <= |imgs| && FirstSize(imgs, n).None?
    ensures forall i :: 0 <= i < n ==> !imgs[i].Readable?
  {
    if n > 0 {
      NoneBeforeFirst(imgs, n - 1);
    }
  }

  /** The number of images whose pattern was found among the first n. */
  function CountDetected(imgs: seq<ImageOutcome>, n: nat): (c: nat)
    requires n <= |imgs|
    ensures c <= n
  {
    if n == 0 then 0 else CountDetected(imgs, n - 1) + (if Detected(imgs[n - 1]) then 1 else 0)
  }

  /** Without an exception, `used` counts exactly the images whose pattern
      was found. */
  lemma {:induction false} UsedCountsDetections(imgs: seq<ImageOutcome>, n: nat, objp: seq<Point3>)
    requires n <= |imgs| && ScanImages(imgs, n, objp).failure.None?
    ensures ScanImages(imgs, n, objp).used == CountDetected(imgs, n)
  {
    if n > 0 {
      UsedCountsDetections(imgs, n - 1, objp);
    }
  }

  /** A successful calibration: every image has the size of the first
      readable one, `used` is the number of images whose pattern was found,
      and the returned size is the first readable image's. */
  lemma CalibrationOutcome(imgs: seq<ImageOutcome>, cols: nat, rows: nat, sq: real)
    requires CalibrationResult(imgs, cols, rows, sq).Ok?
    ensures var c := CalibrationResult(imgs, cols, rows, sq).value;
      && Some(c.imageSize) == FirstSize(imgs, |imgs|)
      && c.used == CountDetected(imgs, |imgs|)
      && !SizeMismatch(imgs, |imgs|)
  {
    var objp := ObjectPoints(cols, rows, sq);
    ShapeIsFirstReadable(imgs, |imgs|, objp);
    UsedCountsDetections(imgs, |imgs|, objp);
    FailsIffSizeMismatch(imgs, |imgs|, objp);
  }

  /** An unreadable image anywhere in the list changes no outcome: the
      result is the same, except that each corner set taken from an image
      at or after the inserted one names that image one position later. */
  lemma UnreadableIgnored(imgs: seq<ImageOutcome>, i: nat, cols: nat, rows: nat, sq: real)
    requires i <= |imgs|
    ensures var r, r' := CalibrationResult(imgs, cols, rows, sq),
                         CalibrationResult(imgs[..i] + [Unreadable] + imgs[i..], cols, rows, sq);
      && (r'.Err? <==> r.Err?)
      && (r.Err? ==> r' == r)
      && (r.Ok? ==>
            && r'.value.imageSize == r.value.imageSize
            && r'.value.used == r.value.used
            && r'.value.objpoints == r.value.objpoints
            && |r'.value.sources| == |r.value.sources|
            && forall k :: 0 <= k < |r.value.sources| ==>
                 r'.value.sources[k] == ShiftIndex(r.value.sources[k], i))
  {
    var objp := ObjectPoints(cols, rows, sq);
    var more := imgs[..i] + [Unreadable] + imgs[i..];
    InsertUnreadable(imgs, i, |imgs|, objp);
    var o, o' := ScanImages(imgs, |imgs|, objp), ScanImages(more, |more|, objp);
    assert o' == Shifted(o, i);
  }

  /** Where image `x` of the list sits once an image is inserted at `i`. */
  function ShiftIndex(x: nat, i: nat): (y: nat)
    ensures y == x || y == x + 1
    ensures y > x <==> x >= i
  {
    if x >= i then x + 1 else x
  }

  /** The loop state with every corner-set source renumbered. */
  function Shifted(o: Scan, i: nat): (o': Scan)
    ensures o'.grayShape == o.grayShape && o'.objpoints == o.objpoints && o'.used == o.used && o'.failure == o.failure
    ensures |o'.sources| == |o.sources|
    ensures forall k :: 0 <= k < |o.sources| ==> o'.sources[k] == ShiftIndex(o.sources[k], i)
  {
    o.(sources := seq(|o.sources|, k requires 0 <= k < |o.sources| => ShiftIndex(o.sources[k], i)))
  }

  /** Scanning with an unreadable image inserted at `i`: the first n images
      of the original list correspond to the first n (n <= i) or n + 1
      (n > i) images of the longer one. */
  lemma InsertUnreadable(imgs: seq<ImageOutcome>, i: nat, n: nat, objp: seq<Point3>)
    requires i <= |imgs| && n <= |imgs|
    ensures var more := imgs[..i] + [Unreadable] + imgs[i..];
      ScanImages(more, if n <= i then n else n + 1, objp) == Shifted(ScanImages(imgs, n, objp), i)
  {
    if n <= i {
      InsertBefore(imgs, i, n, objp);
    } else {
      InsertAfter(imgs, i, n, objp);
    }
  }

  /** Up to the inserted image both lists are scanned alike, and no source
      needs renumbering. */
  lemma InsertBefore(imgs: seq<ImageOutcome>, i: nat, n: nat, objp: seq<Point3>)
    requires n <= i <= |imgs|
    ensures var more := imgs[..i] + [Unreadable] + imgs[i..];
      ScanImages(more, n, objp) == Shifted(ScanImages(imgs, n, objp), i) == ScanImages(imgs, n, objp)
  {
    var front := imgs[..i];
    assert imgs[..i] + [Unreadable] + imgs[i..] == front + ([Unreadable] + imgs[i..]);
    assert imgs == front + imgs[i..];
    ScanPrefix(front, [Unreadable] + imgs[i..], n, objp);
    ScanPrefix(front, imgs[i..], n, objp);
    var o := ScanImages(imgs, n, objp);
    assert Shifted(o, i).sources == o.sources;
  }

  /** Past the inserted image, image n - 1 of the list is image n of the
      longer one. */
  lemma {:induction false} InsertAfter(imgs: seq<ImageOutcome>, i: nat, n: nat, objp: seq<Point3>)
    requires i < n <= |imgs|
    ensures var more := imgs[..i] + [Unreadable] + imgs[i..];
      ScanImages(more, n + 1, objp) == Shifted(ScanImages(imgs, n, objp), i)
    decreases n
  {
    var more := imgs[..i] + [Unreadable] + imgs[i..];
    var o := ScanImages(imgs, n - 1, objp);
    if n - 1 == i {
      InsertBefore(imgs, i, i, objp);
      InsertedAt(imgs, i, i);
      ScanOneMore(more, i + 1, objp);
    } else {
      InsertAfter(imgs, i, n - 1, objp);
    }
    assert ScanImages(more, n, objp) == Shifted(o, i);
    InsertedAt(imgs, i, n);
    ScanOneMore(more, n + 1, objp);
    ScanOneMore(imgs, n, objp);
    StepShifted(o, imgs[n - 1], n - 1, i, objp);
  }

  /** One more image: the loop takes one step unless it has already raised. */
  lemma ScanOneMore(imgs: seq<ImageOutcome>, m: nat, objp: seq<Point3>)
    requires 0 < m <= |imgs|
    ensures ScanImages(imgs, m, objp) == NextScan(ScanImages(imgs, m - 1, objp), imgs[m - 1], m - 1, objp)
  {
  }

  function NextScan(o: Scan, img: ImageOutcome, idx: nat, objp: seq<Point3>): Scan
  {
    if o.failure.Some? then o else ScanStep(o, img, idx, objp)
  }

  /** The loop over a prefix only looks at that prefix. */
  lemma {:induction false} ScanPrefix(imgs: seq<ImageOutcome>, more: seq<ImageOutcome>, n: nat, objp: seq<Point3>)
    requires n <= |imgs|
    ensures ScanImages(imgs + more, n, objp) == ScanImages(imgs, n, objp)
  {
    if n > 0 {
      ScanPrefix(imgs, more, n - 1, objp);
      assert (imgs + more)[n - 1] == imgs[n - 1];
    }
  }

  /** Position j of the list with an unreadable image inserted at `i`. */
  lemma InsertedAt(imgs: seq<ImageOutcome>, i: nat, j: nat)
    requires i <= j <= |imgs|
    ensures var more := imgs[..i] + [Unreadable] + imgs[i..];
      && |more| == |imgs| + 1
      && more[j] == if j == i then Unreadable else imgs[j - 1]
  {
  }

  /** One loop step commutes with renumbering the sources. */
  lemma StepShifted(o: Scan, img: ImageOutcome, idx: nat, i: nat, objp: seq<Point3>)
    ensures NextScan(Shifted(o, i), img, ShiftIndex(idx, i), objp) == Shifted(NextScan(o, img, idx, objp), i)
  {
    if img.Readable? && img.found && !(o.grayShape.Some? && o.grayShape.value != SizeOf(img)) {
      var srcs := o.sources + [idx];
      assert Shifted(o, i).sources + [ShiftIndex(idx, i)] == Shifted(o.(sources := srcs), i).sources;
    }
  }

  /** A second readable image of another size raises even though its
      pattern is not found; with its pattern missing but the size right, the
      loop goes on. */
  lemma SizeCheckBeforeDetection()
    ensures CalibrationResult([Readable(640, 480, true), Readable(800, 600, false)], 9, 6, 25.0) == Err(RuntimeError)
    ensures CalibrationResult([Readable(640, 480, true), Readable(640, 480, false)], 9, 6, 25.0).Ok?
  {
    var objp := ObjectPoints(9, 6, 25.0);
    var bad := [Readable(640, 480, true), Readable(800, 600, false)];
    var good := [Readable(640, 480, true), Readable(640, 480, false)];
    assert ScanImages(bad, 1, objp) == Scan(Some(Size(640, 480)), [objp], [0], 1, None);
    assert ScanImages(bad, 2, objp).failure == Some(RuntimeError);
    assert ScanImages(good, 1, objp) == Scan(Some(Size(640, 480)), [objp], [0], 1, None);
    assert ScanImages(good, 2, objp) == Scan(Some(Size(640, 480)), [objp], [0], 1, None);
  }
}
