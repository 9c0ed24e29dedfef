/**
  The MJPEG streamer and the single-frame endpoint: the snapshot of the frame
  slot is JPEG-encoded, falling back to a black placeholder when the slot is
  empty or encoding fails, and each stream chunk is one body part of a
  multipart/x-mixed-replace response with boundary "frame" (section 5.1.1 of
  RFC 2046).
*/
module Mjpeg {
  import opened Wrappers
  import opened Image
  import opened FrameCache

  /** The bytes of an ASCII string. */
  function Ascii(s: string): (r: bytes)
    requires forall i | 0 <= i < |s| :: s[i] as int < 128
    ensures |r| == |s|
    ensures forall i | 0 <= i < |s| :: r[i] as int == s[i] as int
  {
    seq(|s|, i requires 0 <= i < |s| => s[i] as int as byte)
  }

  /** The boundary delimiter line of each part. */
  const Boundary: bytes := Ascii("--frame\r\n")
  /** The part's header block: one header and the blank line that ends it. */
  const Header: bytes := Ascii("Content-Type: image/jpeg\r\n\r\n")
  const Crlf: bytes := Ascii("\r\n")

  // ---------------------------------------------------------------------------
  // Payloads

  /** JPEG-encodes a snapshot; nothing to encode, or a failed encoding, gives None. */
  function EncodeJpeg(codec: ImageCodec, img: Option<Frame>): (r: Option<bytes>)
    ensures img.None? ==> r.None?
    ensures img.Some? ==> r == codec.encode(img.value)
  {
    match img
    case None => None
    case Some(f) => codec.encode(f)
  }

  /**
    The placeholder: the JPEG encoding of the black canonical-size frame, or no
    bytes at all when that encoding fails.
  */
  function BlankJpeg(codec: ImageCodec): (r: bytes)
    ensures codec.encode(BlankFrame()).Some? ==> Some(r) == codec.encode(BlankFrame())
    ensures codec.encode(BlankFrame()).None? ==> r == []
  {
    match codec.encode(BlankFrame())
    case Some(buf) => buf
    case None => []
  }

  /**
    The JPEG served for a snapshot: the encoded frame when there is one and it
    encodes, the placeholder otherwise.
  */
  function Payload(codec: ImageCodec, snapshot: Option<Frame>): (jpg: bytes)
    ensures snapshot.None? ==> jpg == BlankJpeg(codec)
    ensures snapshot.Some? && codec.encode(snapshot.value).Some? ==> Some(jpg) == codec.encode(snapshot.value)
    ensures snapshot.Some? && codec.encode(snapshot.value).None? ==> jpg == BlankJpeg(codec)
  {
    match EncodeJpeg(codec, snapshot)
    case Some(buf) => buf
    case None => BlankJpeg(codec)
  }

  /** Whatever the slot holds, the payload is an encoded frame or the placeholder. */
  lemma PayloadIsFrameOrPlaceholder(codec: ImageCodec, snapshot: Option<Frame>)
    ensures Payload(codec, snapshot) == BlankJpeg(codec)
         || (snapshot.Some? && codec.encode(snapshot.value) == Some(Payload(codec, snapshot)))
  {
  }

  // ---------------------------------------------------------------------------
  // Stream chunks

  /** One body part: boundary line, header block, the JPEG, and a closing CRLF. */
  function FrameChunk(jpg: bytes): (chunk: bytes)
    ensures |chunk| == |Boundary| + |Header| + |jpg| + |Crlf|
    ensures chunk[..|Boundary|] == Boundary
    ensures chunk[|chunk| - |Crlf|..] == Crlf
  {
    Boundary + Header + jpg + Crlf
  }

  /** Reads a body part back: its JPEG, or None if the bytes are not one part. */
  function ParseChunk(chunk: bytes): Option<bytes> {
    var n := |Boundary| + |Header|;
    if n + |Crlf| <= |chunk| && chunk[..n] == Boundary + Header && chunk[|chunk| - |Crlf|..] == Crlf
    then Some(chunk[n..|chunk| - |Crlf|])
    else None
  }

  /** A chunk carries its payload unchanged. */
  lemma ParseFrameChunk(jpg: bytes)
    ensures ParseChunk(FrameChunk(jpg)) == Some(jpg)
  {
  }

  /** Every byte string that reads as a part is the chunk of what it carries. */
  lemma FrameChunkOfParsed(chunk: bytes)
    requires ParseChunk(chunk).Some?
    ensures FrameChunk(ParseChunk(chunk).value) == chunk
  {
  }

  // ---------------------------------------------------------------------------
  // The response body of the stream

  /** The bytes a client receives for a sequence of payloads, one part per payload. */
  function Body(payloads: seq<bytes>): bytes
    decreases |payloads|
  {
    if payloads == [] then [] else FrameChunk(payloads[0]) + Body(payloads[1..])
  }

  lemma {:induction false} BodyAppend(a: seq<bytes>, b: seq<bytes>)
    ensures Body(a + b) == Body(a) + Body(b)
    decreases |a|
  {
    if a == [] {
      assert a + b == b;
    } else {
      assert (a + b)[0] == a[0];
      assert (a + b)[1..] == a[1..] + b;
      BodyAppend(a[1..], b);
    }
  }

  /** A non-empty body starts with the boundary line. */
  lemma BodyStartsWithBoundary(payloads: seq<bytes>)
    requires payloads != []
    ensures |Boundary| <= |Body(payloads)| && Body(payloads)[..|Boundary|] == Boundary
  {
  }

  /** A non-empty body ends with a CRLF. */
  lemma {:induction false} BodyEndsWithCrlf(payloads: seq<bytes>)
    requires payloads != []
    ensures |Crlf| <= |Body(payloads)| && Body(payloads)[|Body(payloads)| - |Crlf|..] == Crlf
    decreases |payloads|
  {
    var head, tail := FrameChunk(payloads[0]), Body(payloads[1..]);
    assert Body(payloads) == head + tail;
    if payloads[1..] == [] {
      assert head + tail == head;
    } else {
      BodyEndsWithCrlf(payloads[1..]);
      assert (head + tail)[|head + tail| - |Crlf|..] == tail[|tail| - |Crlf|..];
    }
  }

  /**
    Each part of the body starts with the boundary line, and every part after
    the first follows a CRLF, so its boundary sits at the start of a line as
    section 5.1.1 of RFC 2046 requires.
  */
  lemma PartsStartOnBoundary(payloads: seq<bytes>, k: nat)
    requires k < |payloads|
    ensures var start := |Body(payloads[..k])|;
      && start + |Boundary| <= |Body(payloads)|
      && Body(payloads)[start..start + |Boundary|] == Boundary
      && (k > 0 ==> start >= |Crlf| && Body(payloads)[start - |Crlf|..start] == Crlf)
  {
    var before, rest := payloads[..k], payloads[k..];
    assert payloads == before + rest;
    BodyAppend(before, rest);
    var x, y := Body(before), Body(rest);
    BodyStartsWithBoundary(rest);
    assert (x + y)[|x|..|x| + |Boundary|] == y[..|Boundary|];
    if k > 0 {
      BodyEndsWithCrlf(before);
      assert (x + y)[|x| - |Crlf|..|x|] == x[|x| - |Crlf|..];
    }
  }

  // ---------------------------------------------------------------------------
  // The generator and the single-frame endpoint

  /**
    One client's MJPEG generator. Each call of Next is one iteration of its
    endless loop; the placeholder is computed once, when the stream starts.
  */
  class FrameStream {
    const slot: FrameSlot
    const codec: ImageCodec
    const blank: bytes

    constructor (slot: FrameSlot, codec: ImageCodec)
      ensures this.slot == slot && this.codec == codec
      ensures blank == BlankJpeg(codec)
    {
      this.slot := slot;
      this.codec := codec;
      blank := BlankJpeg(codec);
    }

    /** The next chunk: the part carrying the payload for the slot's current content. */
    method Next() returns (chunk: bytes)
      requires blank == BlankJpeg(codec)
      ensures chunk == FrameChunk(Payload(codec, slot.latest))
      ensures ParseChunk(chunk) == Some(Payload(codec, slot.latest))
    {
      var frame := slot.Snapshot();
      var jpg := EncodeJpeg(codec, frame);
      var payload := if jpg.None? then blank else jpg.value;
      chunk := Boundary + Header + payload + Crlf;
      ParseFrameChunk(payload);
    }

    /** The first n chunks of the stream, while no writer touches the slot. */
    method Take(n: nat) returns (chunks: seq<bytes>)
      requires blank == BlankJpeg(codec)
      ensures |chunks| == n
      ensures forall k | 0 <= k < n :: chunks[k] == FrameChunk(Payload(codec, slot.latest))
    {
      chunks := [];
      while |chunks| < n
        invariant |chunks| <= n
        invariant forall k | 0 <= k < |chunks| :: chunks[k] == FrameChunk(Payload(codec, slot.latest))
      {
        var chunk := Next();
        chunks := chunks + [chunk];
      }
    }
  }

  /**
    The single-frame endpoint: the current frame as a JPEG, or the placeholder
    when the slot is empty or the frame does not encode.
  */
  method SingleFrame(slot: FrameSlot, codec: ImageCodec) returns (jpg: bytes)
    ensures jpg == Payload(codec, slot.latest)
    ensures slot.latest.None? ==> jpg == BlankJpeg(codec)
  {
    var f := slot.Snapshot();
    if f.None? {
      jpg := BlankJpeg(codec);
    } else {
      var b := EncodeJpeg(codec, f);
      jpg := if b.Some? then b.value else BlankJpeg(codec);
    }
  }
}
