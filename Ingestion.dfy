/**
  The two frame producers: the HTTP upload handler and the datagram receive
  loop. Both decode the received bytes, normalize the image to the canonical
  size and publish it to the frame slot; they differ in how they treat bad
  input (the HTTP handler answers 400, the datagram loop skips the packet).
*/
module Ingestion {
  import opened Wrappers
  import opened Image
  import opened FrameCache

  // ---------------------------------------------------------------------------
  // HTTP upload

  /** Why an upload is rejected, in the order the handler checks. */
  datatype UploadError = NotJpeg | EmptyFile | DecodeFailed

  datatype UploadOutcome = Accepted(frame: Frame) | Refused(error: UploadError)

  /** The handler's answer: {"ok": true, "msg": "frame uploaded"}, or an HTTP error. */
  datatype Reply = Uploaded | HttpError(status: nat, detail: string)

  /** The two content types the handler accepts; a missing content type is not one of them. */
  predicate IsJpegContentType(contentType: Option<string>) {
    contentType == Some("image/jpeg") || contentType == Some("image/jpg")
  }

  /**
    What an upload with this content type and body leads to: the first failing
    check (content type, then empty body, then decoding) decides the error,
    and an upload passing all three yields the normalized image.
  */
  function Upload(codec: ImageCodec, contentType: Option<string>, body: bytes): (r: UploadOutcome)
    ensures r.Accepted? <==> IsJpegContentType(contentType) && |body| > 0 && codec.decode(body).Some?
    ensures r.Accepted? ==> Canonical(r.frame)
    ensures r.Accepted? ==> r.frame == Normalize(codec, codec.decode(body).value)
  {
    if !IsJpegContentType(contentType) then Refused(NotJpeg)
    else if |body| == 0 then Refused(EmptyFile)
    else match codec.decode(body)
      case None => Refused(DecodeFailed)
      case Some(img) => Accepted(Normalize(codec, img))
  }

  /** The error of each refused upload is that of the first check it fails. */
  lemma UploadChecksInOrder(codec: ImageCodec, contentType: Option<string>, body: bytes)
    ensures !IsJpegContentType(contentType) ==> Upload(codec, contentType, body) == Refused(NotJpeg)
    ensures IsJpegContentType(contentType) && |body| == 0 ==> Upload(codec, contentType, body) == Refused(EmptyFile)
    ensures IsJpegContentType(contentType) && |body| > 0 && codec.decode(body).None? ==>
      Upload(codec, contentType, body) == Refused(DecodeFailed)
  {
  }

  /** The HTTP reply for an outcome: every refusal is a 400 with its own detail text. */
  function ReplyTo(outcome: UploadOutcome): (reply: Reply)
    ensures reply.Uploaded? <==> outcome.Accepted?
    ensures reply.HttpError? ==> reply.status == 400
  {
    match outcome
    case Accepted(_) => Uploaded
    case Refused(NotJpeg) => HttpError(400, "Only JPEG images are accepted")
    case Refused(EmptyFile) => HttpError(400, "Empty file")
    case Refused(DecodeFailed) => HttpError(400, "Failed to decode JPEG")
  }

  /** Distinct refusals are told apart by their detail text. */
  lemma RefusalsDistinguishable(e1: UploadError, e2: UploadError)
    requires ReplyTo(Refused(e1)) == ReplyTo(Refused(e2))
    ensures e1 == e2
  {
  }

  /**
    The upload handler: on success the slot holds the normalized image; on any
    refusal the slot is left as it was.
  */
  method UploadFrame(slot: FrameSlot, codec: ImageCodec, contentType: Option<string>, body: bytes)
      returns (reply: Reply)
    modifies slot
    ensures reply == ReplyTo(Upload(codec, contentType, body))
    ensures reply.Uploaded? ==> slot.latest == Some(Upload(codec, contentType, body).frame) && slot.Valid()
    ensures reply.HttpError? ==> slot.latest == old(slot.latest)
  {
    if !IsJpegContentType(contentType) {
      return HttpError(400, "Only JPEG images are accepted");
    }
    if |body| == 0 {
      return HttpError(400, "Empty file");
    }
    var img := codec.decode(body);
    if img.None? {
      return HttpError(400, "Failed to decode JPEG");
    }
    var frame := Normalize(codec, img.value);
    slot.Publish(frame);
    reply := Uploaded;
  }

  // ---------------------------------------------------------------------------
  // Datagram receiver

  /** One outcome of a receive call: a datagram, a timeout, or another receive error. */
  datatype Recv = Datagram(data: bytes) | Timeout | RecvError

  /**
    The frame one receive outcome yields: only a non-empty datagram that
    decodes yields one, normalized to the canonical size.
  */
  function FrameFrom(codec: ImageCodec, ev: Recv): (r: Option<Frame>)
    ensures r.Some? <==> ev.Datagram? && |ev.data| > 0 && codec.decode(ev.data).Some?
    ensures r.Some? ==> Canonical(r.value)
    ensures r.Some? ==> r.value == Normalize(codec, codec.decode(ev.data).value)
  {
    match ev
    case Datagram(data) =>
      if |data| == 0 then None
      else (match codec.decode(data)
        case None => None
        case Some(img) => Some(Normalize(codec, img)))
    case _ => None
  }

  /**
    The slot's content after the loop has handled `evs`, starting from `init`:
    each event that yields a frame overwrites the slot, every other event is skipped.
  */
  function Received(codec: ImageCodec, init: Option<Frame>, evs: seq<Recv>): Option<Frame>
    decreases |evs|
  {
    if evs == [] then init
    else match FrameFrom(codec, evs[|evs| - 1])
      case Some(f) => Some(f)
      case None => Received(codec, init, evs[..|evs| - 1])
  }

  /**
    One more receive outcome: a frame it yields overwrites the slot; a timeout,
    a receive error, an empty or an undecodable datagram leaves it untouched.
  */
  lemma ReceivedOneMore(codec: ImageCodec, init: Option<Frame>, evs: seq<Recv>, ev: Recv)
    ensures FrameFrom(codec, ev).Some? ==> Received(codec, init, evs + [ev]) == FrameFrom(codec, ev)
    ensures FrameFrom(codec, ev).None? ==> Received(codec, init, evs + [ev]) == Received(codec, init, evs)
  {
  }

  /** The slot ends up holding the frame of the last event that yields one. */
  lemma {:induction false} LastDecodedWins(codec: ImageCodec, init: Option<Frame>, evs: seq<Recv>, k: nat)
    requires k < |evs| && FrameFrom(codec, evs[k]).Some?
    requires forall j | k < j < |evs| :: FrameFrom(codec, evs[j]).None?
    ensures Received(codec, init, evs) == FrameFrom(codec, evs[k])
    decreases |evs|
  {
    if k < |evs| - 1 {
      var prefix := evs[..|evs| - 1];
      assert forall j | k < j < |prefix| :: prefix[j] == evs[j];
      LastDecodedWins(codec, init, prefix, k);
    }
  }

  /** When no event yields a frame, the slot is left as it was. */
  lemma {:induction false} NothingDecodedKeepsSlot(codec: ImageCodec, init: Option<Frame>, evs: seq<Recv>)
    requires forall j | 0 <= j < |evs| :: FrameFrom(codec, evs[j]).None?
    ensures Received(codec, init, evs) == init
    decreases |evs|
  {
    if evs != [] {
      var prefix := evs[..|evs| - 1];
      assert forall j | 0 <= j < |prefix| :: prefix[j] == evs[j];
      NothingDecodedKeepsSlot(codec, init, prefix);
    }
  }

  /** The loop keeps the slot canonical: it only ever stores normalized frames. */
  lemma {:induction false} ReceivedKeepsCanonical(codec: ImageCodec, init: Option<Frame>, evs: seq<Recv>)
    requires init.Some? ==> Canonical(init.value)
    ensures Received(codec, init, evs).Some? ==> Canonical(Received(codec, init, evs).value)
    decreases |evs|
  {
    if evs != [] {
      ReceivedKeepsCanonical(codec, init, evs[..|evs| - 1]);
    }
  }

  /**
    The receive loop, over the outcomes of the receive calls made before the
    stop flag was seen. Timeouts, receive errors, empty datagrams and
    undecodable datagrams are skipped; every other datagram is normalized and
    published.
  */
  method ReceiveLoop(slot: FrameSlot, codec: ImageCodec, events: seq<Recv>)
    modifies slot
    ensures slot.latest == Received(codec, old(slot.latest), events)
    ensures old(slot.Valid()) ==> slot.Valid()
  {
    var i := 0;
    while i < |events|
      invariant 0 <= i <= |events|
      invariant slot.latest == Received(codec, old(slot.latest), events[..i])
    {
      var ev := events[i];
      assert events[..i + 1][..i] == events[..i];
      i := i + 1;
      if !ev.Datagram? {
        continue;
      }
      var data := ev.data;
      if |data| == 0 {
        continue;
      }
      var img := codec.decode(data);
      if img.None? {
        continue;
      }
      var frame := Normalize(codec, img.value);
      slot.Publish(frame);
    }
    assert events[..i] == events;
    if old(slot.Valid()) {
      ReceivedKeepsCanonical(codec, old(slot.latest), events);
    }
  }
}
