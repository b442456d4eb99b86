# SpudScout vision and classification core, in Dafny

SpudScout is an agentic web scraper: it takes a screenshot of a web page,
finds the regions that look like clickable elements, crops each one into a
small "chip" image and reads its label by OCR. This project models the two
classes that do that work and proves properties of the model:

- `VisionProcessor` (processor.py):
  - `process_state` turns the contours that OpenCV finds in a screenshot into candidate records. A record holds a click point, an area and a bounding box.
  - `extract_chips` crops one chip per candidate and writes it to `"{output_dir}/chip_{i}.png"`.
- `ElementClassifier` (classifier.py):
  - `extract_text_from_chip` reads a chip by OCR. When the first reading is too short, it falls back to the inverted image, which catches light text on a dark background.
  - `classify_candidates` cleans each label, attaches it to its candidate in place, and keeps only the candidates with a label of at least two characters.

Modules:

- `Results` holds the `Option` and `Result` types.
- `Text` holds the parts of Python's `str` that the core relies on:
  - `isspace` and `strip`;
  - `replace("\n", " ")`;
  - the decimal rendering of an index inside an f-string.
- `Raster` holds the image model:
  - images as rows of BGR pixels;
  - NumPy's half-open, clamping crop `img[y:y+h, x:x+w]`;
  - the files on disk, as a `Disk` object whose `files` map `cv2.imwrite` updates and `cv2.imread` reads.
- `Processor` holds:
  - candidates, as objects whose `text` entry is assigned later;
  - the contour filter of `process_state`;
  - chip naming and writing.
- `Classifier` holds:
  - the polarity fallback;
  - the label clean-up;
  - the keep-or-drop loop of `classify_candidates`.

How the classes map:

- The two Python classes become Dafny classes, `VisionProcessor` and `ElementClassifier`. Two more things that the code updates in place become classes too: each candidate dictionary becomes `Candidate`, whose `text` entry `classify_candidates` assigns, and the file system becomes `Disk`, whose files `cv2.imwrite` replaces.
- Each loop becomes a method with loop invariants, proved against specification functions:
  - `Detections` for the contour scan;
  - `WriteChips`, `WrittenCount` and `ChipPaths` for the chip loop;
  - `Kept` and `LastKeptLabel` for the classification loop.
- Lemmas then state what those functions mean.

What the code does, and the model with it:
- The area bounds are 400 and 150000 (processor.py:51-52), and both tests are strict (processor.py:85).
- A chip is exactly the bounding box `img[y:y + h, x:x + w]`, with no padding (processor.py:157).
- An unreadable screenshot raises a ValueError in `process_state` (processor.py:68-69).
- The label clean-up only turns newlines into spaces and strips whitespace (classifier.py:83, 87, 110). No other characters are removed, and inner runs of whitespace are kept.
- Candidates go from `process_state` to `extract_chips` unfiltered: `VisionProcessor` has no `clean_candidates` method.

## Model

| member | source | states |
|---|---|---|
| Text.Strip | classifier.py:83 | `str.strip()`: the result is no longer than the input, and it is empty or begins and ends with a non-whitespace character. |
| Text.StripMargins | classifier.py:83 | The stripped string is a contiguous slice of the input, and everything cut away on both sides is whitespace. |
| Text.StripUnique | classifier.py:83 | Cutting whitespace margins so that the rest is empty or has non-whitespace ends gives exactly `Strip`, so `Strip` is fully characterised. |
| Text.StripIdempotent | classifier.py:83 | Stripping twice is stripping once. |
| Text.ReplaceNewlines | classifier.py:110 | `replace("\n", " ")`: the length is kept, every newline becomes a space, and every other character is unchanged. |
| Text.CleanLabelProperties | classifier.py:110 | A cleaned label never contains a newline, and cleaning it again changes nothing. |
| Text.NatToString | processor.py:158 | The decimal rendering of an index is non-empty, all digits, has no leading zero, and has one digit exactly when the index is below 10. |
| Text.DecimalRoundTrip | processor.py:158 | Reading the rendering back as a decimal number gives the index. |
| Text.NatToStringInjective | processor.py:158 | Distinct indices have distinct renderings. |
| Raster.Disk.Imwrite | processor.py:159 | `cv2.imwrite` stores the image under the path exactly when it has a pixel; otherwise the disk is unchanged. |
| Raster.CropRegion | processor.py:157 | `img[y:y+h, x:x+w]` is the half-open region: it has at most h rows, row r is row y + r sliced at [x, x + w), and every pixel (r, c) is pixel (y + r, x + c) of the image. |
| Raster.CropInside | processor.py:157 | A box inside a rectangular image crops to exactly h rows of w pixels, with no padding. |
| Raster.CropOutside | processor.py:157 | A box with zero width or height, or a corner at or past the far edge, crops to an image with no pixel. |
| Processor.Candidate.constructor | processor.py:95-99 | A new candidate record holds the detected point, area and bounding box, and has no text yet. |
| Processor.Trunc | processor.py:89-90 | `int()` of a float rounds toward zero, for both signs. |
| Processor.DetectionsAreAcceptedContours | processor.py:81-101 | The candidates correspond, in order, to exactly the contours whose area lies strictly between the bounds and whose m00 is non-zero. Each copies its contour's area and box, and its point is the truncated centroid divided by `dsf`. |
| Processor.DetectionsWithinBounds | processor.py:85 | Every candidate's area lies strictly between `min_area` and `max_area`. |
| Processor.DetectionsAppend | processor.py:81 | The scan is compositional: the candidates of a concatenation of contour lists are the candidates of each part, in order. |
| Processor.RejectedContourIgnored | processor.py:85-88 | A contour whose area equals or exceeds a bound, or whose m00 is zero, changes nothing wherever it occurs. |
| Processor.ReadErrorMessage | processor.py:69 | Corrected message of the ValueError: it embeds the image path after the fixed prefix. |
| Processor.ReadErrorMessageOmitsPath | processor.py:69 | As written, the message is identical for two different paths, while the corrected messages differ. |
| Processor.ChipPathInjective | processor.py:158 | Two chips of one directory never share a path. |
| Processor.WrittenCount | processor.py:159 | The number of chips written before the first chip with no pixel: all chips before it have pixels, and the chip at it has none. |
| Processor.WriteChipsHolds | processor.py:155-160 | After the writes, the path of chip i holds chip i, because no later write lands on it. |
| Processor.WriteChipsFrame | processor.py:159 | A path that is not one of the written chip paths keeps its old content, or stays absent. |
| Processor.ChipReadBack | processor.py:157-159 | Read after write: once the first n chips are written, `cv2.imread` of chip path i gives back chip i, for every i < n. |
| Processor.VisionProcessor.constructor | processor.py:49-52 | The default `dsf` is 1.0; `min_area` is 400 and `max_area` is 150000. |
| Processor.VisionProcessor.ProcessState | processor.py:65-101 | Unreadable screenshot: ValueError with the corrected message (see Findings). `dsf` of zero: ZeroDivisionError when some contour passes the tests, otherwise an empty list. Otherwise: one fresh, distinct, text-less candidate per `Detections` entry, in order. |
| Processor.VisionProcessor.ExtractChips | processor.py:151-164 | No candidates: no paths and no writes. Unreadable screenshot with candidates: the subscript TypeError, with nothing written. Otherwise: the chips before the first empty one are written. All present: the list of their paths. One empty: the write error at its path. |
| Processor.SaveChips | processor.py:155-164 | The chip loop on a decoded screenshot. The disk becomes `WriteChips` of the first `WrittenCount` chips. The result is the list of paths `"{output_dir}/chip_{i}.png"`, or the error at the first empty chip. |
| Processor.SaveChip | processor.py:156-159 | One iteration: the crop of the box is written to chip path i exactly when it has a pixel. |
| Classifier.ChooseText | classifier.py:83-92 | The polarity fallback. The result is one of the two stripped readings and never shorter than the primary one. The primary is kept when it has at least two characters. The inverted reading is taken only when the primary is shorter than two and the inverted is strictly longer. |
| Classifier.Kept | classifier.py:112-114 | The kept positions are in range and strictly increasing. |
| Classifier.KeptExactlyLongLabels | classifier.py:112-114 | A position is kept exactly when its cleaned label has at least two characters. |
| Classifier.LastKeptLabelIsKept | classifier.py:113 | A text assigned to a candidate is a long label read at one of the candidate's positions, and a candidate with any long label gets a text. |
| Classifier.LastKeptLabelDistinct | classifier.py:107-114 | With no record listed twice, which `process_state` guarantees, candidate i ends with its own label exactly when that label is kept, and with no new text otherwise. |
| Classifier.LastKeptLabelAbsent | classifier.py:113 | A record not among the candidates gets no text. |
| Classifier.ElementClassifier.constructor | classifier.py:59 | The Tesseract configuration is `--oem 3 --psm 7`. |
| Classifier.ElementClassifier.ExtractTextFromChip | classifier.py:72-92 | Missing or undecodable chip: "", with no OCR. Otherwise `ChooseText` of the binary and inverted readings of that chip: the stripped binary reading when it has at least two characters, and the stripped inverted one only when that is strictly longer. |
| Classifier.ElementClassifier.ClassifyCandidates | classifier.py:103-121 | The result is the candidates at the kept positions, in input order. Each candidate's text becomes the label of its last kept position, or stays as it was. |
| Classifier.LabelCandidates | classifier.py:107-121 | The loop, for any label reader: the same two facts, against `Kept` and `LastKeptLabel` of the labels read. |
| Classifier.ClassifiedLabels | classifier.py:110-114 | Every returned candidate carries a text of at least two characters with no newline in it. |
| Classifier.DroppedLabels | classifier.py:112-119 | Every position left out of the result had a cleaned label shorter than two characters. |
| Classifier.LabelsFollowChips | classifier.py:107-109 | After the chips of all candidates are written, the label read for position i comes from the crop of candidate i's own bounding box. |

## Left out

- get_state.py (the browser session and screenshot capture) and scout.py (the agent loop) are not part of this model. So is `clean_candidates`, which scout.py calls on the processor but `VisionProcessor` does not define.
- `draw_debug_overlay` is left out: it only draws on a copy of the image and prints.
- Contours are not computed. The OpenCV pipeline (`cvtColor`, `bilateralFilter`, `Canny`, `dilate`, `findContours`, `contourArea`, `moments`, `boundingRect`) is the function parameter `findContours`. It returns, per contour, the area, the three moments and the bounding box.
- OCR is not computed. Grey conversion, Otsu thresholding, `bitwise_not` and Tesseract are the two functions of `Ocr`, applied to a chip and the configuration string.
- `os.path.exists`, `os.makedirs` and the `print` calls are left out. The disk is a map from path to file, so a missing path and a missing directory look the same.
- Processor.Trunc: Python floats are modelled as exact reals, so rounding in `m10 / m00` and `cx_px / dsf` is not modelled.
- Raster.BBox: bounding-box coordinates are natural numbers, because `cv2.boundingRect` never reports a negative one. The clamping of negative slice bounds is therefore not modelled.
- Raster.Imread: the model of `cv2.imread` (processor.py:65, 151, classifier.py:75) is a lookup in the map of files: a decodable file gives its image, and a missing or undecodable one gives None. Its decoding of file formats is not modelled.
- Text: strings are sequences of Unicode scalar values. The bytes that Tesseract emits and their decoding into `str` are not modelled.
- Processor.VisionProcessor.ExtractChips: checks unreadability before the loop rather than at the first subscript. The outcome is the same (the TypeError, with nothing written). Chip files written by an earlier run at higher indices are left on disk, as in the code.
- Classifier.ElementClassifier.ClassifyCandidates: the loop is the method `LabelCandidates`, which takes the cleaned reading of chip i as a function `read`. `ClassifyCandidates` passes the cleaned OCR text of `"{chip_dir}/chip_{i}.png"` on the disk as it stands, so interleaving with other writers is not modelled.
- Classifier.ElementClassifier.ExtractTextFromChip: the `Ocr` functions are total, so an exception raised by `pytesseract.image_to_string` (classifier.py:83, 87), for example when Tesseract is not installed, is not modelled.
- Processor.VisionProcessor.ProcessState: for an unreadable screenshot it returns the corrected message `ReadErrorMessage(imagePath)`, which quotes the path. The literal at processor.py:69 gives `Could not read the image at '{image_path}'!` for every path; that is `ReadErrorMessageAsWritten`, recorded under Findings.

## Findings

| source | as written | input that shows it | evidently intended | confidence | as-written member | corrected member |
|---|---|---|---|---|---|---|
| processor.py:69 | The ValueError message is a plain string literal without the `f` prefix, so it reads `Could not read the image at '{image_path}'!` literally. | Any two unreadable paths, such as "a.png" and "b.png", give the same message. | An f-string that embeds the path. | high, not executed | Processor.ReadErrorMessageOmitsPath | Processor.ReadErrorMessage |
