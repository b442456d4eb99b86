/** Images as OpenCV hands them to Python (a height x width array of BGR
    pixels), bounding boxes, the clamping crop that NumPy slicing performs,
    and the files the pipeline reads and writes. */
module Raster {
  import opened Results

  newtype Channel = x: int | 0 <= x < 256

  datatype Pixel = Pixel(b: Channel, g: Channel, r: Channel)

  /** Rows of pixels, top row first. */
  type Image = seq<seq<Pixel>>

  /** NumPy arrays are rectangular: every row has the same width. */
  predicate Rectangular(img: Image) {
    forall r :: 0 <= r < |img| ==> |img[r]| == |img[0]|
  }

  /** An array with no pixel at all; `cv2.imwrite` refuses to write one. */
  predicate IsEmpty(img: Image) {
    |img| == 0 || |img[0]| == 0
  }

  /** `cv2.boundingRect`: the upright rectangle with top-left corner (x, y),
      width w and height h. OpenCV never reports negative values here. */
  datatype BBox = BBox(x: nat, y: nat, w: nat, h: nat)

  /** A non-negative slice bound as Python clamps it for a sequence of
      length n. */
  function Clamp(i: nat, n: nat): (b: nat)
    ensures b <= n && b <= i
    ensures b == i || b == n
  {
    if i < n then i else n
  }

  /** `row[x:x + w]` for non-negative x and w. */
  function RowSlice(row: seq<Pixel>, x: nat, w: nat): seq<Pixel> {
    row[Clamp(x, |row|)..Clamp(x + w, |row|)]
  }

  /** `img[y:y + h, x:x + w]` for the bounding box (x, y, w, h). */
  function Crop(img: Image, box: BBox): Image {
    var top, bottom := Clamp(box.y, |img|), Clamp(box.y + box.h, |img|);
    seq(bottom - top, r requires 0 <= r < bottom - top => RowSlice(img[top + r], box.x, box.w))
  }

  /** The crop is the half-open region rows [y, y + h) by columns
      [x, x + w) of the image, cut short where the image ends and never
      padded: pixel (r, c) of the chip is pixel (y + r, x + c) of the image,
      the chip has min(y + h, height) - y rows when y < height (none
      otherwise) and each row has min(x + w, width) - x pixels when
      x < width (none otherwise). */
  lemma CropRegion(img: Image, box: BBox)
    ensures |Crop(img, box)| == Clamp(box.y + box.h, |img|) - Clamp(box.y, |img|) <= box.h
    ensures forall r :: 0 <= r < |Crop(img, box)| ==>
              box.y + r < |img|
              && |Crop(img, box)[r]| == Clamp(box.x + box.w, |img[box.y + r]|) - Clamp(box.x, |img[box.y + r]|) <= box.w
    ensures forall r, c :: 0 <= r < |Crop(img, box)| && 0 <= c < |Crop(img, box)[r]| ==>
              box.x + c < |img[box.y + r]| && Crop(img, box)[r][c] == img[box.y + r][box.x + c]
  {
    var chip := Crop(img, box);
    forall r | 0 <= r < |chip|
      ensures box.y + r < |img| && chip[r] == RowSlice(img[box.y + r], box.x, box.w)
    {
      assert Clamp(box.y, |img|) == box.y;
    }
    forall r, c | 0 <= r < |chip| && 0 <= c < |chip[r]|
      ensures box.x + c < |img[box.y + r]| && chip[r][c] == img[box.y + r][box.x + c]
    {
      assert Clamp(box.x, |img[box.y + r]|) == box.x;
    }
  }

  /** A box that lies inside a rectangular image is cropped to exactly its
      own size: the chip is h rows of w pixels. */
  lemma CropInside(img: Image, box: BBox)
    requires Rectangular(img) && |img| > 0
    requires box.y + box.h <= |img| && box.x + box.w <= |img[0]|
    ensures |Crop(img, box)| == box.h
    ensures forall r :: 0 <= r < box.h ==> |Crop(img, box)[r]| == box.w
  {
    CropRegion(img, box);
  }

  /** A box whose corner lies at or past the far edge of the image yields
      an empty chip. */
  lemma CropOutside(img: Image, box: BBox)
    requires Rectangular(img) && |img| > 0
    requires box.y >= |img| || box.x >= |img[0]| || box.w == 0 || box.h == 0
    ensures IsEmpty(Crop(img, box))
  {
    CropRegion(img, box);
  }

  /** What a file on disk is to `cv2.imread`: a picture it decodes, or
      bytes it cannot decode. */
  datatype File = Picture(image: Image) | Undecodable

  /** The files on disk, keyed by path. */
  class Disk {
    var files: map<string, File>

    constructor (files: map<string, File>)
      ensures this.files == files
    {
      this.files := files;
    }

    /** `cv2.imwrite(path, image)`: stores the image under `path`,
        replacing what was there; an image with no pixel is refused
        (OpenCV raises) and nothing is written. */
    method Imwrite(path: string, image: Image) returns (written: bool)
      modifies this
      ensures written == !IsEmpty(image)
      ensures files == if written then old(files)[path := Picture(image)] else old(files)
    {
      written := !IsEmpty(image);
      if written {
        files := files[path := Picture(image)];
      }
    }
  }

  /** `cv2.imread(path)`: the decoded image, or None when the path does not
      exist or cannot be decoded. */
  function Imread(files: map<string, File>, path: string): (img: Option<Image>)
    ensures img.Some? <==> path in files && files[path].Picture?
    ensures img.Some? ==> files[path] == Picture(img.value)
  {
    if path in files && files[path].Picture? then Some(files[path].image) else None
  }
}
