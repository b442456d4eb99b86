/** The vision side of SpudScout (processor.py): turning the contours that
    OpenCV finds in a screenshot into click candidates, and cropping one
    chip image per candidate. Contour detection itself (`cvtColor`,
    `bilateralFilter`, `Canny`, `dilate`, `findContours`, `contourArea`,
    `moments`, `boundingRect`) is a parameter of the model. */
module Processor {
  import opened Results
  import opened Text
  import opened Raster

  /** What OpenCV reports about one external contour: its area, its raw
      moments m00, m10, m01 and its bounding box. */
  datatype Contour = Contour(area: real, m00: real, m10: real, m01: real, bbox: BBox)

  /** The value of a candidate record: its logical click point, its area
      and its bounding box in raw pixels. */
  datatype Detection = Detection(point: (real, real), area: real, bbox: BBox)

  /** One candidate dictionary. Only its "text" entry is ever assigned after
      creation (by the classifier), so the other entries are constants. */
  class Candidate {
    const point: (real, real)
    const area: real
    const bbox: BBox
    var text: Option<string>

    constructor (d: Detection)
      ensures Detected() == d && text == None
    {
      point, area, bbox := d.point, d.area, d.bbox;
      text := None;
    }

    /** The entries fixed at creation. */
    function Detected(): Detection {
      Detection(point, area, bbox)
    }
  }

  /** The exceptions the two operations raise. */
  datatype VisionError =
    | UnreadableImage(message: string)  // ValueError from process_state
    | DivisionByZero                   // ZeroDivisionError: dsf is zero
    | NotSubscriptable                 // TypeError: extract_chips indexes the None of a failed imread
    | EmptyChip(path: string)          // cv2.error: imwrite of a chip with no pixel

  const DefaultMinArea: int := 400
  const DefaultMaxArea: int := 150000

  /** Python's `int(r)` for a float: rounds toward zero. */
  function Trunc(r: real): (t: int)
    ensures 0.0 <= r ==> t as real <= r < t as real + 1.0
    ensures r < 0.0 ==> t as real - 1.0 < r <= t as real
  {
    if r >= 0.0 then r.Floor else -((-r).Floor)
  }

  /** The two tests a contour must pass: an area strictly between the
      bounds, and a non-zero zeroth moment. */
  predicate Accepts(c: Contour, minArea: int, maxArea: int) {
    minArea as real < c.area < maxArea as real && c.m00 != 0.0
  }

  /** The candidate built from an accepted contour: the centroid, truncated
      to whole pixels and then divided by the device scale factor. */
  function Detect(c: Contour, dsf: real): (d: Detection)
    requires c.m00 != 0.0 && dsf != 0.0
  {
    Detection((Trunc(c.m10 / c.m00) as real / dsf, Trunc(c.m01 / c.m00) as real / dsf), c.area, c.bbox)
  }

  /** The candidate values that the loop of `process_state` produces from
      `contours`, in scan order. */
  function Detections(contours: seq<Contour>, minArea: int, maxArea: int, dsf: real): seq<Detection>
    requires dsf != 0.0
  {
    if contours == [] then []
    else
      var init := Detections(contours[..|contours| - 1], minArea, maxArea, dsf);
      var c := contours[|contours| - 1];
      if Accepts(c, minArea, maxArea) then init + [Detect(c, dsf)] else init
  }

  /** The detections are the accepted contours, converted, in their
      original order: `idx` lists the positions of exactly the contours that
      pass both tests, increasing, and detection k comes from contour
      idx[k], with the same area and bounding box and the scaled centroid. */
  lemma {:induction false} DetectionsAreAcceptedContours(contours: seq<Contour>, minArea: int, maxArea: int, dsf: real)
    returns (idx: seq<nat>)
    requires dsf != 0.0
    ensures |idx| == |Detections(contours, minArea, maxArea, dsf)|
    ensures forall k :: 0 <= k < |idx| ==> idx[k] < |contours|
    ensures forall k, l :: 0 <= k < l < |idx| ==> idx[k] < idx[l]
    ensures forall j :: 0 <= j < |contours| ==> (Accepts(contours[j], minArea, maxArea) <==> j in idx)
    ensures forall k :: 0 <= k < |idx| ==> DetectedFrom(Detections(contours, minArea, maxArea, dsf)[k], contours[idx[k]], minArea, maxArea, dsf)
  {
    if contours == [] {
      idx := [];
    } else {
      var n := |contours| - 1;
      var init, c := contours[..n], contours[n];
      var ds := Detections(init, minArea, maxArea, dsf);
      var prev := DetectionsAreAcceptedContours(init, minArea, maxArea, dsf);
      assert forall j :: 0 <= j < n ==> init[j] == contours[j];
      if Accepts(c, minArea, maxArea) {
        idx := prev + [n];
        assert Detections(contours, minArea, maxArea, dsf) == ds + [Detect(c, dsf)];
        forall j | 0 <= j <= n
          ensures Accepts(contours[j], minArea, maxArea) <==> j in idx
        {
          assert j in idx <==> j in prev || j == n;
        }
      } else {
        idx := prev;
        assert Detections(contours, minArea, maxArea, dsf) == ds;
      }
    }
  }

  /** Detection d is what the loop makes of contour c: c passes both tests
      strictly, d copies its area and bounding box, and d's point is c's
      truncated centroid divided by the device scale factor. */
  ghost predicate DetectedFrom(d: Detection, c: Contour, minArea: int, maxArea: int, dsf: real)
    requires dsf != 0.0
  {
    minArea as real < c.area < maxArea as real && c.m00 != 0.0
    && d.area == c.area && d.bbox == c.bbox
    && d.point == (Trunc(c.m10 / c.m00) as real / dsf, Trunc(c.m01 / c.m00) as real / dsf)
  }

  /** Every detection lies strictly inside the area bounds. */
  lemma DetectionsWithinBounds(contours: seq<Contour>, minArea: int, maxArea: int, dsf: real)
    requires dsf != 0.0
    ensures forall d :: d in Detections(contours, minArea, maxArea, dsf) ==>
              minArea as real < d.area < maxArea as real
  {
    var idx := DetectionsAreAcceptedContours(contours, minArea, maxArea, dsf);
    var ds := Detections(contours, minArea, maxArea, dsf);
    forall d | d in ds ensures minArea as real < d.area < maxArea as real {
      var k :| 0 <= k < |ds| && ds[k] == d;
      assert DetectedFrom(d, contours[idx[k]], minArea, maxArea, dsf);
    }
  }

  /** The scan is compositional: the detections of a concatenation are the
      detections of its parts, one after the other. */
  lemma {:induction false} DetectionsAppend(a: seq<Contour>, b: seq<Contour>, minArea: int, maxArea: int, dsf: real)
    requires dsf != 0.0
    ensures Detections(a + b, minArea, maxArea, dsf)
            == Detections(a, minArea, maxArea, dsf) + Detections(b, minArea, maxArea, dsf)
    decreases |b|
  {
    if b == [] {
      assert a + b == a;
    } else {
      var n := |b| - 1;
      assert (a + b)[..|a + b| - 1] == a + b[..n];
      DetectionsAppend(a, b[..n], minArea, maxArea, dsf);
    }
  }

  /** A contour whose area equals or lies outside either bound, or whose
      zeroth moment is zero, contributes nothing wherever it occurs. */
  lemma RejectedContourIgnored(before: seq<Contour>, c: Contour, after: seq<Contour>,
                               minArea: int, maxArea: int, dsf: real)
    requires dsf != 0.0
    requires c.area <= minArea as real || c.area >= maxArea as real || c.m00 == 0.0
    ensures Detections(before + [c] + after, minArea, maxArea, dsf)
            == Detections(before + after, minArea, maxArea, dsf)
  {
    DetectionsAppend(before + [c], after, minArea, maxArea, dsf);
    DetectionsAppend(before, [c], minArea, maxArea, dsf);
    DetectionsAppend(before, after, minArea, maxArea, dsf);
    assert [c][..0] == [];
  }

  const ReadErrorPrefix: string := "Could not read the image at '"

  /** The corrected message of the ValueError for an unreadable
      screenshot, as the f-string the authors evidently meant: it quotes the
      path. The literal at processor.py:69 does not (see
      `ReadErrorMessageAsWritten`). */
  function ReadErrorMessage(imagePath: string): (message: string)
    ensures |message| == |ReadErrorPrefix| + |imagePath| + 2
    ensures message[|ReadErrorPrefix|..|ReadErrorPrefix| + |imagePath|] == imagePath
  {
    ReadErrorPrefix + imagePath + "'!"
  }

  /** The message as processor.py:69 writes it: a plain string literal, not
      an f-string, so the braces stay in and the path never appears. */
  function ReadErrorMessageAsWritten(imagePath: string): string {
    "Could not read the image at '{image_path}'!"
  }

  /** The message as written is the same for the paths "a.png" and
      "b.png", so it cannot tell which file failed; the corrected messages
      differ. */
  lemma ReadErrorMessageOmitsPath()
    ensures ReadErrorMessageAsWritten("a.png") == ReadErrorMessageAsWritten("b.png")
    ensures ReadErrorMessage("a.png") != ReadErrorMessage("b.png")
  {
    assert ReadErrorMessage("a.png")[|ReadErrorPrefix|] == 'a';
  }

  /** `f"{dir}/chip_{i}.png"`. */
  function ChipPath(dir: string, i: nat): string {
    dir + "/chip_" + NatToString(i) + ".png"
  }

  /** The paths of chips 0 .. n - 1 in `dir`. */
  function ChipPaths(dir: string, n: nat): (paths: seq<string>)
    ensures |paths| == n
    ensures forall i :: 0 <= i < n ==> paths[i] == ChipPath(dir, i)
  {
    seq(n, i requires 0 <= i < n => ChipPath(dir, i))
  }

  lemma ChipPathsStep(dir: string, n: nat)
    ensures ChipPaths(dir, n + 1) == ChipPaths(dir, n) + [ChipPath(dir, n)]
  {
  }

  /** Two chip paths in one directory coincide only for the same index. */
  lemma ChipPathInjective(dir: string, i: nat, j: nat)
    requires ChipPath(dir, i) == ChipPath(dir, j)
    ensures i == j
  {
    var p, q := ChipPath(dir, i), ChipPath(dir, j);
    var s, t := NatToString(i), NatToString(j);
    assert |s| == |t|;
    assert p[|dir| + 6..|p| - 4] == s;
    assert q[|dir| + 6..|q| - 4] == t;
    NatToStringInjective(i, j);
  }

  /** The chips of the candidates, in candidate order. */
  function Chips(img: Image, candidates: seq<Candidate>): (chips: seq<Image>)
    ensures |chips| == |candidates|
  {
    seq(|candidates|, i requires 0 <= i < |candidates| => Crop(img, candidates[i].bbox))
  }

  /** How many chips are written before the first empty one. */
  function WrittenCount(chips: seq<Image>): (n: nat)
    ensures n <= |chips|
    ensures forall i :: 0 <= i < n ==> !IsEmpty(chips[i])
    ensures n < |chips| ==> IsEmpty(chips[n])
  {
    if chips == [] || IsEmpty(chips[0]) then 0 else 1 + WrittenCount(chips[1..])
  }

  /** The disk after writing chip i to `ChipPath(dir, i)` for each i < n,
      in order. */
  function WriteChips(files: map<string, File>, dir: string, chips: seq<Image>, n: nat): map<string, File>
    requires n <= |chips|
  {
    if n == 0 then files
    else WriteChips(files, dir, chips, n - 1)[ChipPath(dir, n - 1) := Picture(chips[n - 1])]
  }

  /** After the writes, chip path i holds chip i: a later write never
      lands on an earlier chip's path. */
  lemma {:induction false} WriteChipsHolds(files: map<string, File>, dir: string, chips: seq<Image>, n: nat, i: nat)
    requires i < n <= |chips|
    ensures ChipPath(dir, i) in WriteChips(files, dir, chips, n)
    ensures WriteChips(files, dir, chips, n)[ChipPath(dir, i)] == Picture(chips[i])
  {
    if i < n - 1 {
      WriteChipsHolds(files, dir, chips, n - 1, i);
      if ChipPath(dir, i) == ChipPath(dir, n - 1) {
        ChipPathInjective(dir, i, n - 1);
      }
    }
  }

  /** A path that is not one of the chip paths keeps what it had. */
  lemma {:induction false} WriteChipsFrame(files: map<string, File>, dir: string, chips: seq<Image>, n: nat, p: string)
    requires n <= |chips|
    requires forall i :: 0 <= i < n ==> p != ChipPath(dir, i)
    ensures p in WriteChips(files, dir, chips, n) <==> p in files
    ensures p in files ==> WriteChips(files, dir, chips, n)[p] == files[p]
  {
    if n > 0 {
      assert p != ChipPath(dir, n - 1);
      WriteChipsFrame(files, dir, chips, n - 1, p);
    }
  }

  /** Read after write: once the first n chips are written, reading chip
      path i back with `cv2.imread` gives chip i, for every i < n. */
  lemma ChipReadBack(files: map<string, File>, dir: string, chips: seq<Image>, n: nat, i: nat)
    requires i < n <= |chips|
    ensures Imread(WriteChips(files, dir, chips, n), ChipPath(dir, i)) == Some(chips[i])
  {
    WriteChipsHolds(files, dir, chips, n, i);
  }

  /** Python's `VisionProcessor`: the device scale factor and the area
      bounds of a candidate. */
  class VisionProcessor {
    var dsf: real
    var minArea: int
    var maxArea: int

    constructor (dsf: real := 1.0)
      ensures this.dsf == dsf && minArea == DefaultMinArea && maxArea == DefaultMaxArea
    {
      this.dsf := dsf;
      minArea := DefaultMinArea;
      maxArea := DefaultMaxArea;
    }

    /** `process_state`: reads the screenshot, runs contour detection on
        it, and keeps a candidate for each contour that passes the area and
        moment tests, in contour order; each candidate is a new record. */
    method ProcessState(disk: Disk, imagePath: string, findContours: Image -> seq<Contour>)
      returns (res: Result<seq<Candidate>, VisionError>)
      ensures Imread(disk.files, imagePath).None? ==>
                res == Failure(UnreadableImage(ReadErrorMessage(imagePath)))
      ensures Imread(disk.files, imagePath).Some? && dsf == 0.0 ==>
                var contours := findContours(Imread(disk.files, imagePath).value);
                if exists j :: 0 <= j < |contours| && Accepts(contours[j], minArea, maxArea)
                then res == Failure(DivisionByZero)
                else res == Success([])
      ensures Imread(disk.files, imagePath).Some? && dsf != 0.0 ==>
                var ds := Detections(findContours(Imread(disk.files, imagePath).value), minArea, maxArea, dsf);
                res.Success? && |res.value| == |ds|
                && (forall k :: 0 <= k < |ds| ==>
                      fresh(res.value[k]) && res.value[k].Detected() == ds[k] && res.value[k].text == None)
                && (forall k, l :: 0 <= k < l < |ds| ==> res.value[k] != res.value[l])
    {
      var img := Imread(disk.files, imagePath);
      if img.None? {
        return Failure(UnreadableImage(ReadErrorMessage(imagePath)));
      }
      var contours := findContours(img.value);
      var candidates: seq<Candidate> := [];
      for i := 0 to |contours|
        invariant dsf == 0.0 ==> candidates == [] && forall j :: 0 <= j < i ==> !Accepts(contours[j], minArea, maxArea)
        invariant dsf != 0.0 ==> |candidates| == |Detections(contours[..i], minArea, maxArea, dsf)|
        invariant dsf != 0.0 ==> forall k :: 0 <= k < |candidates| ==>
                    candidates[k].Detected() == Detections(contours[..i], minArea, maxArea, dsf)[k]
        invariant forall k :: 0 <= k < |candidates| ==> fresh(candidates[k]) && candidates[k].text == None
        invariant forall k, l :: 0 <= k < l < |candidates| ==> candidates[k] != candidates[l]
      {
        assert contours[..i + 1][..i] == contours[..i];
        var contour := contours[i];
        var area := contour.area;
        if minArea as real < area < maxArea as real {
          if contour.m00 != 0.0 {
            if dsf == 0.0 {
              return Failure(DivisionByZero);
            }
            var cxPx := Trunc(contour.m10 / contour.m00);
            var cyPx := Trunc(contour.m01 / contour.m00);
            var cxPt := cxPx as real / dsf;
            var cyPt := cyPx as real / dsf;
            var candidate := new Candidate(Detection((cxPt, cyPt), area, contour.bbox));
            candidates := candidates + [candidate];
          }
        }
      }
      assert contours[..|contours|] == contours;
      return Success(candidates);
    }

    /** `extract_chips`: crops candidate i's bounding box out of the
        screenshot and writes it to `ChipPath(outputDir, i)`, in candidate
        order, returning the paths. An unreadable screenshot fails at the
        first candidate, and an empty chip fails at its write, leaving the
        chips written before it on disk. */
    method ExtractChips(disk: Disk, imagePath: string, candidates: seq<Candidate>, outputDir: string := "chips")
      returns (res: Result<seq<string>, VisionError>)
      modifies disk
      ensures candidates == [] ==> res == Success([]) && disk.files == old(disk.files)
      ensures candidates != [] && Imread(old(disk.files), imagePath).None? ==>
                res == Failure(NotSubscriptable) && disk.files == old(disk.files)
      ensures Imread(old(disk.files), imagePath).Some? ==>
                var chips := Chips(Imread(old(disk.files), imagePath).value, candidates);
                var n := WrittenCount(chips);
                disk.files == WriteChips(old(disk.files), outputDir, chips, n)
                && res == if n == |chips| then Success(ChipPaths(outputDir, n))
                          else Failure(EmptyChip(ChipPath(outputDir, n)))
    {
      var img := Imread(disk.files, imagePath);
      if img.None? {
        // The loop's first `img[y:y + h, x:x + w]` subscripts None.
        if candidates != [] {
          return Failure(NotSubscriptable);
        }
        return Success([]);
      }
      res := SaveChips(disk, img.value, candidates, outputDir);
    }
  }

  /** The loop of `extract_chips` over a decoded screenshot: writes the
      chip of candidate i to `ChipPath(outputDir, i)` in order, and stops
      with an error at the first chip that has no pixel. */
  method SaveChips(disk: Disk, image: Image, candidates: seq<Candidate>, outputDir: string)
    returns (res: Result<seq<string>, VisionError>)
    modifies disk
    ensures var chips := Chips(image, candidates);
            var n := WrittenCount(chips);
            disk.files == WriteChips(old(disk.files), outputDir, chips, n)
            && res == if n == |chips| then Success(ChipPaths(outputDir, n))
                      else Failure(EmptyChip(ChipPath(outputDir, n)))
  {
    ghost var chips := Chips(image, candidates);
    var chipPaths: seq<string> := [];
    for i := 0 to |candidates|
      invariant disk.files == WriteChips(old(disk.files), outputDir, chips, i)
      invariant forall k :: 0 <= k < i ==> !IsEmpty(chips[k])
      invariant chipPaths == ChipPaths(outputDir, i)
    {
      var written, chipName := SaveChip(disk, image, candidates[i].bbox, outputDir, i);
      assert Crop(image, candidates[i].bbox) == chips[i];
      if !written {
        WrittenCountAt(chips, i);
        return Failure(EmptyChip(chipName));
      }
      ChipPathsStep(outputDir, i);
      chipPaths := chipPaths + [chipName];
    }
    WrittenCountAt(chips, |candidates|);
    return Success(chipPaths);
  }

  /** One step of the `extract_chips` loop: crops the box out of the
      screenshot and writes it as chip i. */
  method SaveChip(disk: Disk, image: Image, box: BBox, outputDir: string, i: nat)
    returns (written: bool, chipName: string)
    modifies disk
    ensures chipName == ChipPath(outputDir, i)
    ensures written == !IsEmpty(Crop(image, box))
    ensures disk.files == if written then old(disk.files)[chipName := Picture(Crop(image, box))] else old(disk.files)
  {
    var chip := Crop(image, box);
    chipName := ChipPath(outputDir, i);
    written := disk.Imwrite(chipName, chip);
  }

  /** If the first i chips are non-empty and chip i is empty (or i is the
      end), i chips are written. */
  lemma WrittenCountAt(chips: seq<Image>, i: nat)
    requires i <= |chips|
    requires forall k :: 0 <= k < i ==> !IsEmpty(chips[k])
    requires i < |chips| ==> IsEmpty(chips[i])
    ensures WrittenCount(chips) == i
  {
  }
}
