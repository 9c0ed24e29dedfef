/** The Some/None datatype used for "a frame or nothing" and for codec results. */
module Wrappers {
  datatype Option<+T> = None | Some(value: T)
}

/**
  Raw frames and the image codec adapter (OpenCV's imdecode, imencode and resize).

  The codec is a foreign library: it is passed around as a value whose three
  operations are unknown functions. The only thing the model assumes about them
  is what the video path relies on: decoding yields a well-formed pixel buffer,
  and resizing yields a well-formed buffer of exactly the requested size.
*/
module Image {
  import opened Wrappers

  newtype byte = x: int | 0 <= x < 256
  type bytes = seq<byte>

  /** One 8-bit colour pixel, in OpenCV's blue-green-red channel order. */
  datatype Pixel = Pixel(b: byte, g: byte, r: byte)

  const Black := Pixel(0, 0, 0)

  /** A raw pixel buffer, row-major: pixel (y, x) is pixels[y * width + x]. */
  datatype Frame = Frame(height: nat, width: nat, pixels: seq<Pixel>) {
    predicate WellFormed() {
      |pixels| == height * width
    }
  }

  /** The canonical frame size, as (height, width). */
  const FrameSize: (nat, nat) := (360, 640)

  predicate HasFrameSize(f: Frame) {
    (f.height, f.width) == FrameSize
  }

  /** What may be stored in the frame slot: a well-formed frame of the canonical size. */
  predicate Canonical(f: Frame) {
    f.WellFormed() && HasFrameSize(f)
  }

  /** The three codec operations; `resize(img, w, h)` takes the target size as (width, height). */
  datatype CodecOps = CodecOps(
    decode: bytes -> Option<Frame>,
    encode: Frame -> Option<bytes>,
    resize: (Frame, nat, nat) -> Frame)
  {
    /** The contract the video path relies on. */
    ghost predicate Honest() {
      && (forall data :: decode(data).Some? ==> decode(data).value.WellFormed())
      && (forall img: Frame, w: nat, h: nat ::
            resize(img, w, h).WellFormed() && resize(img, w, h).height == h && resize(img, w, h).width == w)
    }
  }

  type ImageCodec = c: CodecOps | c.Honest()
    witness CodecOps(
      _ => None,
      _ => None,
      (img: Frame, w: nat, h: nat) => Frame(h, w, seq(h * w, _ => Black)))

  /**
    The resize-or-keep step shared by both ingestion paths: an image whose
    (height, width) already equals the canonical size is kept as it is, any
    other image is resized to it.
  */
  function Normalize(codec: ImageCodec, img: Frame): (r: Frame)
    ensures HasFrameSize(r)
    ensures img.WellFormed() ==> r.WellFormed()
    ensures HasFrameSize(img) ==> r == img
    ensures !HasFrameSize(img) ==> r == codec.resize(img, FrameSize.1, FrameSize.0)
  {
    if (img.height, img.width) != FrameSize then
      codec.resize(img, FrameSize.1, FrameSize.0)
    else
      img
  }

  /** Normalizing a normalized image changes nothing. */
  lemma NormalizeIdempotent(codec: ImageCodec, img: Frame)
    ensures Normalize(codec, Normalize(codec, img)) == Normalize(codec, img)
  {
  }

  /** A decoded image, once normalized, may be stored in the slot. */
  lemma DecodedNormalizedIsCanonical(codec: ImageCodec, data: bytes)
    requires codec.decode(data).Some?
    ensures Canonical(Normalize(codec, codec.decode(data).value))
  {
  }

  /** The solid black placeholder of the canonical size (numpy zeros of shape (360, 640, 3)). */
  function BlankFrame(): (r: Frame)
    ensures Canonical(r)
    ensures forall i | 0 <= i < |r.pixels| :: r.pixels[i] == Black
  {
    Frame(FrameSize.0, FrameSize.1, seq(FrameSize.0 * FrameSize.1, _ => Black))
  }
}
