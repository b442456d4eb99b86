/** The classification side of SpudScout (classifier.py): reading a label
    from each chip by OCR, with a fallback to the inverted image for light
    text on a dark background, and keeping only the candidates whose label
    has at least two characters. Grey conversion, Otsu thresholding,
    `bitwise_not` and Tesseract itself are abstracted into `Ocr`. */
module Classifier {
  import opened Results
  import opened Text
  import opened Raster
  import opened Processor

  /** Tesseract, run with a configuration string: `onBinary` reads the
      Otsu-binarised grey version of a chip, `onInverted` the bitwise
      inverse of that binary image. Both give the raw recognised text. */
  datatype Ocr = Ocr(onBinary: (Image, string) -> string, onInverted: (Image, string) -> string)

  const TesseractConfig: string := "--oem 3 --psm 7"

  /** The shortest label a candidate may keep. */
  const MinLabelLength: nat := 2

  /** The polarity fallback: the stripped primary result unless it is
      shorter than two characters and the stripped inverted result is
      strictly longer; the primary result wins ties. */
  function ChooseText(primary: string, inverted: string): (text: string)
    ensures text == Strip(primary) || text == Strip(inverted)
    ensures |text| >= |Strip(primary)|
    ensures |Strip(primary)| >= MinLabelLength ==> text == Strip(primary)
    ensures |Strip(primary)| < MinLabelLength ==> |text| >= |Strip(inverted)|
    ensures text != Strip(primary) ==>
              |Strip(primary)| < MinLabelLength && |Strip(inverted)| > |Strip(primary)|
  {
    var text := Strip(primary);
    if |text| < MinLabelLength then
      var textInverted := Strip(inverted);
      if |textInverted| > |text| then textInverted else text
    else text
  }

  /** The indices among the first n labels that are long enough to keep,
      in increasing order. */
  function Kept(labels: seq<string>, n: nat): (kept: seq<nat>)
    requires n <= |labels|
    ensures |kept| <= n
    ensures forall k :: 0 <= k < |kept| ==> kept[k] < n
    ensures forall k, l :: 0 <= k < l < |kept| ==> kept[k] < kept[l]
  {
    if n == 0 then []
    else Kept(labels, n - 1) + (if |labels[n - 1]| >= MinLabelLength then [n - 1] else [])
  }

  /** `Kept` keeps exactly the long labels. */
  lemma {:induction false} KeptExactlyLongLabels(labels: seq<string>, n: nat)
    requires n <= |labels|
    ensures forall j :: 0 <= j < n ==> (j in Kept(labels, n) <==> |labels[j]| >= MinLabelLength)
  {
    if n > 0 {
      KeptExactlyLongLabels(labels, n - 1);
    }
  }

  /** The label that candidate object c holds after the first n iterations
      of the classification loop, when one of them assigned it: the label of
      the last kept position where c occurs. */
  function LastKeptLabel(candidates: seq<Candidate>, labels: seq<string>, c: Candidate, n: nat): Option<string>
    requires n <= |candidates| && n <= |labels|
  {
    if n == 0 then None
    else if candidates[n - 1] == c && |labels[n - 1]| >= MinLabelLength then Some(labels[n - 1])
    else LastKeptLabel(candidates, labels, c, n - 1)
  }

  /** A label assigned to a candidate is long enough, and it is the label
      of one of the positions where that candidate occurs. */
  lemma {:induction false} LastKeptLabelIsKept(candidates: seq<Candidate>, labels: seq<string>, c: Candidate, n: nat)
    returns (w: nat)
    requires n <= |candidates| && n <= |labels|
    ensures LastKeptLabel(candidates, labels, c, n).Some? ==>
              |LastKeptLabel(candidates, labels, c, n).value| >= MinLabelLength
              && w < n && candidates[w] == c && labels[w] == LastKeptLabel(candidates, labels, c, n).value
    ensures (exists j :: 0 <= j < n && candidates[j] == c && |labels[j]| >= MinLabelLength) ==>
              LastKeptLabel(candidates, labels, c, n).Some?
  {
    w := 0;
    if n > 0 {
      if candidates[n - 1] == c && |labels[n - 1]| >= MinLabelLength {
        w := n - 1;
      } else {
        w := LastKeptLabelIsKept(candidates, labels, c, n - 1);
      }
    }
  }

  /** When no candidate object occurs twice, candidate i ends up with its
      own label exactly when that label is kept. */
  lemma {:induction false} LastKeptLabelDistinct(candidates: seq<Candidate>, labels: seq<string>, i: nat, n: nat)
    requires i < n <= |candidates| && n <= |labels|
    requires forall k, l :: 0 <= k < l < |candidates| ==> candidates[k] != candidates[l]
    ensures LastKeptLabel(candidates, labels, candidates[i], n)
            == if |labels[i]| >= MinLabelLength then Some(labels[i]) else None
  {
    if i < n - 1 {
      LastKeptLabelDistinct(candidates, labels, i, n - 1);
    } else {
      LastKeptLabelAbsent(candidates, labels, candidates[i], i);
    }
  }

  /** An object that does not occur among the first n candidates gets no label. */
  lemma {:induction false} LastKeptLabelAbsent(candidates: seq<Candidate>, labels: seq<string>, c: Candidate, n: nat)
    requires n <= |candidates| && n <= |labels|
    requires forall k :: 0 <= k < n ==> candidates[k] != c
    ensures LastKeptLabel(candidates, labels, c, n) == None
  {
    if n > 0 {
      LastKeptLabelAbsent(candidates, labels, c, n - 1);
    }
  }

  /** Python's `ElementClassifier`. */
  class ElementClassifier {
    const tesseractConfig: string

    constructor ()
      ensures tesseractConfig == TesseractConfig
    {
      tesseractConfig := TesseractConfig;
    }

    /** `extract_text_from_chip`: the empty string, without any OCR, when
        the chip file is missing or undecodable; otherwise the polarity
        fallback applied to the OCR of the chip. */
    function ExtractTextFromChip(files: map<string, File>, chipPath: string, ocr: Ocr): (text: string)
      ensures chipPath !in files || files[chipPath].Undecodable? ==> text == ""
      ensures chipPath in files && files[chipPath].Picture? ==>
                var chip := files[chipPath].image;
                var primary := Strip(ocr.onBinary(chip, tesseractConfig));
                text == ChooseText(ocr.onBinary(chip, tesseractConfig), ocr.onInverted(chip, tesseractConfig))
                && (text == primary || text == Strip(ocr.onInverted(chip, tesseractConfig)))
                && |text| >= |primary|
    {
      match Imread(files, chipPath)
      case None => ""
      case Some(chip) => ChooseText(ocr.onBinary(chip, tesseractConfig), ocr.onInverted(chip, tesseractConfig))
    }

    /** The cleaned label that the loop computes for position i. */
    function Label(files: map<string, File>, chipDir: string, ocr: Ocr, i: nat): string {
      CleanLabel(ExtractTextFromChip(files, ChipPath(chipDir, i), ocr))
    }

    /** The cleaned labels of positions 0 .. n - 1. */
    function Labels(files: map<string, File>, chipDir: string, ocr: Ocr, n: nat): (labels: seq<string>)
      ensures |labels| == n
      ensures forall i :: 0 <= i < n ==> labels[i] == Label(files, chipDir, ocr, i)
    {
      seq(n, i requires 0 <= i < n => Label(files, chipDir, ocr, i))
    }

    /** `classify_candidates`: candidate i is labelled from the chip
        `ChipPath(chipDir, i)`; the candidates whose label has at least two
        characters get it as their text and are returned, in input order.
        Nothing else about any candidate changes. */
    method ClassifyCandidates(disk: Disk, candidates: seq<Candidate>, ocr: Ocr, chipDir: string := "chips")
      returns (classified: seq<Candidate>)
      modifies candidates
      ensures var labels := Labels(disk.files, chipDir, ocr, |candidates|);
              var kept := Kept(labels, |candidates|);
              |classified| == |kept| && forall k :: 0 <= k < |kept| ==> classified[k] == candidates[kept[k]]
      ensures forall j :: 0 <= j < |candidates| ==>
                var last := LastKeptLabel(candidates, Labels(disk.files, chipDir, ocr, |candidates|), candidates[j], |candidates|);
                candidates[j].text == if last.Some? then last else old(candidates[j].text)
    {
      var files := disk.files;
      var read := (i: nat) => Label(files, chipDir, ocr, i);
      classified := LabelCandidates(candidates, read);
      assert ReadLabels(read, |candidates|) == Labels(files, chipDir, ocr, |candidates|);
    }
  }

  /** The first n results of a label reader. */
  function ReadLabels(read: nat -> string, n: nat): (labels: seq<string>)
    ensures |labels| == n
    ensures forall i :: 0 <= i < n ==> labels[i] == read(i)
  {
    seq(n, i requires 0 <= i < n => read(i))
  }

  /** The loop of `classify_candidates`, with the reading and cleaning of
      label i as `read(i)`: a candidate whose label is long enough gets it
      as its text and is kept, in input order. */
  method LabelCandidates(candidates: seq<Candidate>, read: nat -> string) returns (classified: seq<Candidate>)
    modifies candidates
    ensures var labels := ReadLabels(read, |candidates|);
            var kept := Kept(labels, |candidates|);
            |classified| == |kept| && forall k :: 0 <= k < |kept| ==> classified[k] == candidates[kept[k]]
    ensures forall j :: 0 <= j < |candidates| ==>
              var last := LastKeptLabel(candidates, ReadLabels(read, |candidates|), candidates[j], |candidates|);
              candidates[j].text == if last.Some? then last else old(candidates[j].text)
  {
    ghost var labels := ReadLabels(read, |candidates|);
    classified := [];
    for i := 0 to |candidates|
      invariant |classified| == |Kept(labels, i)|
      invariant forall k :: 0 <= k < |classified| ==> classified[k] == candidates[Kept(labels, i)[k]]
      invariant forall j :: 0 <= j < |candidates| ==>
                  var last := LastKeptLabel(candidates, labels, candidates[j], i);
                  candidates[j].text == if last.Some? then last else old(candidates[j].text)
    {
      var cleanText := read(i);
      if |cleanText| >= MinLabelLength {
        candidates[i].text := Some(cleanText);
        classified := classified + [candidates[i]];
      }
    }
  }

  /** Every returned candidate carries a label of at least two characters
      with no newline in it. */
  lemma ClassifiedLabels(ec: ElementClassifier, files: map<string, File>, chipDir: string, ocr: Ocr,
                         candidates: seq<Candidate>, k: nat)
    requires k < |Kept(ec.Labels(files, chipDir, ocr, |candidates|), |candidates|)|
    ensures var labels := ec.Labels(files, chipDir, ocr, |candidates|);
            var last := LastKeptLabel(candidates, labels, candidates[Kept(labels, |candidates|)[k]], |candidates|);
            last.Some? && |last.value| >= MinLabelLength && '\n' !in last.value
  {
    var n := |candidates|;
    var labels := ec.Labels(files, chipDir, ocr, n);
    var i := Kept(labels, n)[k];
    KeptExactlyLongLabels(labels, n);
    var w := LastKeptLabelIsKept(candidates, labels, candidates[i], n);
    assert labels[w] == CleanLabel(ec.ExtractTextFromChip(files, ChipPath(chipDir, w), ocr));
    CleanLabelProperties(ec.ExtractTextFromChip(files, ChipPath(chipDir, w), ocr));
  }

  /** Every position that is not returned had a label shorter than two
      characters. */
  lemma DroppedLabels(ec: ElementClassifier, files: map<string, File>, chipDir: string, ocr: Ocr, n: nat, j: nat)
    requires j < n
    requires j !in Kept(ec.Labels(files, chipDir, ocr, n), n)
    ensures |ec.Label(files, chipDir, ocr, j)| < MinLabelLength
  {
    KeptExactlyLongLabels(ec.Labels(files, chipDir, ocr, n), n);
  }

  /** Chips and labels line up by position: after `extract_chips` has
      written the chip of every candidate, the label read for position i
      comes from the crop of candidate i's bounding box. */
  lemma LabelsFollowChips(ec: ElementClassifier, files: map<string, File>, img: Image,
                          candidates: seq<Candidate>, dir: string, ocr: Ocr, i: nat)
    requires i < |candidates|
    ensures var chip := Crop(img, candidates[i].bbox);
            ec.Label(WriteChips(files, dir, Chips(img, candidates), |candidates|), dir, ocr, i)
            == CleanLabel(ChooseText(ocr.onBinary(chip, ec.tesseractConfig), ocr.onInverted(chip, ec.tesseractConfig)))
  {
    WriteChipsHolds(files, dir, Chips(img, candidates), |candidates|, i);
  }
}
