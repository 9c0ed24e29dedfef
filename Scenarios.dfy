/**
  Client code exercising the frame slot the way the server's handlers do, one
  critical section after another: what a later reader observes after a given
  sequence of writes and reads.
*/
module Scenarios {
  import opened Wrappers
  import opened Image
  import opened FrameCache
  import opened Ingestion
  import opened Mjpeg

  /** Two writes in a row: a reader sees the second frame and never the first. */
  method LastWriterWins(a: Frame, b: Frame) returns (seen: Option<Frame>)
    ensures seen == Some(b)
  {
    var slot := new FrameSlot();
    slot.Publish(a);
    slot.Publish(b);
    seen := slot.Snapshot();
  }

  /**
    A snapshot is a copy: editing it leaves the slot as it was, and a later
    write to the slot does not change a snapshot already taken.
  */
  method SnapshotIsCopy(a: Frame, b: Frame, px: Pixel)
      returns (taken: Option<Frame>, edited: Frame, afterEdit: Option<Frame>, afterWrite: Option<Frame>)
    ensures taken == Some(a)
    ensures edited != a && afterEdit == Some(a)
    ensures afterWrite == Some(b)
  {
    var slot := new FrameSlot();
    slot.Publish(a);
    taken := slot.Snapshot();
    edited := taken.value.(pixels := [px] + taken.value.pixels);
    afterEdit := slot.Snapshot();
    slot.Publish(b);
    afterWrite := slot.Snapshot();
    assert |edited.pixels| != |a.pixels|;
  }

  /** Before any frame arrives, both video endpoints serve the placeholder. */
  method EmptySlotServesPlaceholder(codec: ImageCodec) returns (seen: Option<Frame>, jpg: bytes, chunk: bytes)
    ensures seen == None
    ensures jpg == BlankJpeg(codec)
    ensures chunk == FrameChunk(BlankJpeg(codec))
  {
    var slot := new FrameSlot();
    seen := slot.Snapshot();
    jpg := SingleFrame(slot, codec);
    var stream := new FrameStream(slot, codec);
    chunk := stream.Next();
  }

  /**
    An upload after a frame is stored: a refused upload leaves that frame in
    place, an accepted one replaces it with the normalized upload.
  */
  method UploadAfterFrame(codec: ImageCodec, a: Frame, contentType: Option<string>, body: bytes)
      returns (reply: Reply, seen: Option<Frame>)
    ensures reply.HttpError? ==> seen == Some(a)
    ensures reply.Uploaded? <==> IsJpegContentType(contentType) && |body| > 0 && codec.decode(body).Some?
    ensures reply.Uploaded? ==> seen == Some(Normalize(codec, codec.decode(body).value))
  {
    var slot := new FrameSlot();
    slot.Publish(a);
    reply := UploadFrame(slot, codec, contentType, body);
    seen := slot.Snapshot();
  }

  /** A stream that is already running picks up each new frame at its next chunk. */
  method StreamFollowsWrites(codec: ImageCodec, a: Frame, b: Frame) returns (first: bytes, second: bytes)
    ensures first == FrameChunk(Payload(codec, Some(a)))
    ensures second == FrameChunk(Payload(codec, Some(b)))
  {
    var slot := new FrameSlot();
    var stream := new FrameStream(slot, codec);
    slot.Publish(a);
    first := stream.Next();
    slot.Publish(b);
    second := stream.Next();
  }
}
