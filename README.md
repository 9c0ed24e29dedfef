# Latest-frame video path of the remote-care backend

This project models the video path of the remote-care backend server
(`main.py`). A single slot holds the most recent video frame, or nothing
before the first frame arrives. Two producers write to it:

- the datagram receiver loop;
- the `POST /upload_frame` handler.

Both decode the received JPEG bytes. Both resize the image to the canonical
360×640 size unless it already has that size. Then they overwrite the slot.
The upload handler refuses bad input with HTTP 400, checking in a fixed
order: the content type, then an empty body, then a decoding failure. The
datagram loop skips bad packets silently.

Two readers take a copy of the slot:

- the MJPEG generator behind `GET /video`;
- the `GET /video.jpg` handler.

Both JPEG-encode the copy. When the slot is empty or encoding fails, they
serve a black 360×640 placeholder instead. Each MJPEG chunk is one body part of a
`multipart/x-mixed-replace` response with boundary `frame`: the boundary
line `--frame` CRLF, the header block `Content-Type: image/jpeg` CRLF CRLF,
the JPEG bytes, and a closing CRLF.

Modules, one per component:

- `Image.dfy`: `Wrappers` (Option) and `Image`. `Image` holds the frame and
  pixel datatypes, the canonical size, and the image codec. The codec is a
  value of three functions (decode, encode, resize) passed as a parameter. Its
  subset type `ImageCodec` states the contract the server relies on: decoding
  yields a well-formed pixel buffer, and resizing yields a well-formed buffer
  of exactly the requested size. It also holds the resize-or-keep
  normalisation and the black placeholder frame.
- `FrameCache.dfy`: the slot as a class `FrameSlot` with `Publish` and
  `Snapshot`. Each critical section of the server's lock is one atomic
  method call.
- `Ingestion.dfy`: the upload handler and the datagram receive loop. Each is
  specified by a function: `Upload` for the handler, `FrameFrom` and
  `Received` for the loop.
- `Mjpeg.dfy`: the payload with its placeholder fallback, the chunk
  serialiser and its parser, the stream body, the generator (a class
  `FrameStream` whose `Next` is one loop iteration), and the single-frame
  handler.
- `Scenarios.dfy`: client code that runs writes and reads one after another
  and states what a later reader observes.

The code and the design description of the system disagree in two places.
This model follows the code:

- The description mentions a third producer, a persistent bidirectional
  socket. `main.py` has no such producer, so it is not part of this model.
- The description speaks of a configurable JPEG quality. The code always
  encodes with the codec's default settings, so `encode` takes only the frame.

## Model

| member | source | states |
|---|---|---|
| `Image.Normalize` | main.py:110-112 | the stored image always has the canonical (360, 640) size; an image already of that size is kept unchanged, any other is the codec's resize to width 640 and height 360; well-formedness is kept (the same step appears in the upload handler at lines 212-214) |
| `Image.NormalizeIdempotent` | main.py:110-112 | normalizing an already normalized image changes nothing |
| `Image.DecodedNormalizedIsCanonical` | main.py:31 | every decoded image, once normalized, is well-formed and of the canonical size |
| `Image.BlankFrame` | main.py:128 | the placeholder frame is well-formed, 360×640, and every pixel is black |
| `FrameCache.FrameSlot.constructor` | main.py:40 | the slot starts empty and satisfies its invariant |
| `FrameCache.FrameSlot.Publish` | main.py:114-115 | a write overwrites the slot unconditionally with the given frame; writing a canonical frame keeps the invariant |
| `FrameCache.FrameSlot.Snapshot` | main.py:153-154 | a read returns the slot's content (None when empty) and leaves the slot unchanged; from a valid slot it returns only canonical frames |
| `Ingestion.Upload` | main.py:198-214 | an upload succeeds exactly when its content type is image/jpeg or image/jpg, its body is non-empty and the body decodes; the frame it yields is the normalized decoded image, and it is canonical |
| `Ingestion.UploadChecksInOrder` | main.py:198-209 | a refusal is decided by the first failing check: a bad content type wins over an empty body, which wins over a decoding failure |
| `Ingestion.ReplyTo` | main.py:199-225 | the reply is success exactly for an accepted upload, and every refusal is an HTTP 400 |
| `Ingestion.RefusalsDistinguishable` | main.py:199-209 | the three refusals carry three different detail texts |
| `Ingestion.UploadFrame` | main.py:190-225 | the handler's reply is the reply for `Upload`; on success the slot holds the normalized frame and is valid; on any refusal the slot is unchanged |
| `Ingestion.FrameFrom` | main.py:99-112 | a receive outcome yields a frame exactly when it is a non-empty datagram that decodes; that frame is the normalized image and is canonical |
| `Ingestion.ReceivedOneMore` | main.py:99-115 | one more outcome that yields a frame overwrites the slot; a timeout, a receive error, an empty or an undecodable datagram leaves the slot as it was |
| `Ingestion.LastDecodedWins` | main.py:89-115 | after the loop the slot holds the frame of the last datagram that yields one, whatever came before it |
| `Ingestion.NothingDecodedKeepsSlot` | main.py:99-107 | if no outcome yields a frame, the loop leaves the slot unchanged |
| `Ingestion.ReceivedKeepsCanonical` | main.py:109-115 | starting from a valid slot, the loop only ever leaves canonical frames in it |
| `Ingestion.ReceiveLoop` | main.py:89-118 | the receive loop's final slot content is `Received` of the outcomes seen before the stop flag, and the loop keeps the slot valid |
| `Mjpeg.EncodeJpeg` | main.py:133-143 | encoding nothing gives None; encoding a frame gives the codec's result, None when it fails |
| `Mjpeg.BlankJpeg` | main.py:127-130 | the placeholder JPEG is the encoding of the black canonical frame, or the empty byte string when that encoding fails |
| `Mjpeg.Payload` | main.py:155-157 | the payload is the placeholder when the slot is empty or encoding fails, and the encoded frame otherwise |
| `Mjpeg.PayloadIsFrameOrPlaceholder` | main.py:155-157 | every payload is either the placeholder or the codec's encoding of the frame that was read |
| `Mjpeg.FrameChunk` | main.py:148-159 | a chunk is as long as boundary, header, payload and CRLF together; it starts with the boundary line and ends with CRLF |
| `Mjpeg.ParseFrameChunk` | main.py:159 | reading a chunk back gives exactly the payload it was built from |
| `Mjpeg.FrameChunkOfParsed` | main.py:159 | any byte string that reads as a chunk is the chunk of what it carries, so chunk building and reading are inverse |
| `Mjpeg.PartsStartOnBoundary` | main.py:159-171 | in the concatenated response body, every part begins with the `--frame` boundary line, and every part after the first follows a CRLF, as section 5.1.1 of RFC 2046 requires for the multipart/x-mixed-replace type with boundary `frame` |
| `Mjpeg.FrameStream.constructor` | main.py:148-150 | a new stream reads the given slot and precomputes the placeholder |
| `Mjpeg.FrameStream.Next` | main.py:152-159 | each chunk carries the payload for the slot's content at the moment of the read, and reads back to that payload |
| `Mjpeg.FrameStream.Take` | main.py:152-160 | the first n chunks, with no write in between, are n copies of the chunk for the slot's content |
| `Mjpeg.SingleFrame` | main.py:176-185 | the single-frame response is the same payload a stream chunk carries; with an empty slot it is the placeholder |
| `Scenarios.LastWriterWins` | main.py:216-218 | after two writes a reader sees the second frame, never the first |
| `Scenarios.SnapshotIsCopy` | main.py:179 | editing a snapshot leaves the slot unchanged, and a later write does not change a snapshot already taken |
| `Scenarios.EmptySlotServesPlaceholder` | main.py:178-181 | before any write the slot reads as empty, and both the single-frame response and a stream chunk carry the placeholder |
| `Scenarios.UploadAfterFrame` | main.py:198-218 | a refused upload leaves the earlier frame readable; an accepted one replaces it with the normalized upload |
| `Scenarios.StreamFollowsWrites` | main.py:152-159 | a running stream picks up each new frame at its next chunk |

## Left out

- The lock, the daemon thread, and the stop flag set at startup and shutdown (main.py:41-42, main.py:230-249). They exist for concurrency. The model treats each critical section as one atomic call. The receive loop takes the finite sequence of receive outcomes seen before the stop flag is set.
- The socket itself: binding, the bind-error exit, `recvfrom`, the one-second timeout and `close` (main.py:79-87, main.py:120-124). Each receive call is modelled only by its outcome (a datagram, a timeout, or another receive error). The 50 ms pause after a receive error is not modelled.
- The stream's pacing sleep (main.py:32, main.py:160) is not modelled: it concerns timing and floating point. The endless generator is modelled one chunk per `Next` call, and `Take` gives a bounded prefix.
- The internals of the image library and numpy (decoding, encoding, resizing, array conversion). These are foreign code. They are the three functions of an `ImageCodec`, and the model assumes only their stated contract.
- Image.Normalize: states only the size and well-formedness of a resized image, not its pixels, because the interpolation is inside the image library.
- Ingestion.UploadFrame: does not model the HTTP 500 "Internal error" reply (main.py:221-223), because that reply is reached only when the image library raises an exception; the codec functions here are total.
- Mjpeg.EncodeJpeg: an exception raised while encoding and a failed encoding both give None, so the model merges them. The logged message is not modelled.
- The generator computes its placeholder on its first iteration. The model computes it when the stream is created. The placeholder is a fixed value, so the chunks are the same.
- The web framework's routing and response objects, the health-check route, the DB session dependency, the optional table creation at startup, and the parsing of environment variables (main.py:28-37, main.py:46-67, main.py:163-172). None of these has video-path behaviour beyond the constants used above.
- Logging (`print`) on every path.
- `database.py`, `create_tables.py`, `models.py` and `schemas.py`. These hold storage setup, table declarations and request/response shapes, with no behaviour of their own.
- The alert rule engine, the sentiment keyword heuristic and the subject-id defaulting. Their code is not part of this model.
