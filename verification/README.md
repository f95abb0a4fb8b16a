# Vox remote desktop: a verified model

This project models the parts of the Vox remote desktop whose correctness is not
visible in any single function, together with the two parts of the bundled
RustDesk client it relies on, and proves what they guarantee over every run.

| file | models |
|---|---|
| `TileGrid.dfy`, `FrameCodec.dfy` | 64x64 tile geometry; finding, extracting and pasting tiles |
| `FrameProcessor.dfy`, `FrameRuns.dfy` | the `FrameProcessor` object, runs of captures, the client's screen under message loss |
| `Framing.dfy`, `ClientReader.dfy` | length-prefixed frames, the server's and the client's reader loops |
| `ServerDispatch.dfy` | the server's dispatch inside its loop, and the loop over bytes against the protocol's steps |
| `Wire.dfy`, `Protocol.dfy`, `ProtocolRuns.dfy`, `ProtocolSafety.dfy`, `ProtocolEffects.dfy` | encryption layout, handshake, session registry and broadcaster as one state machine; its invariants, its results, and its single steps written out |
| `Audio.dfy` | the playback ring and the histogram that decides how much backlog to drop |
| `Pixels.dfy` | BGRA to RGB, even crop, RGB to YUV420P and back |
| `Keyboard.dfy`, `KeyboardRaces.dfy` | the key tables, what is sent to the peer, the release of all keys; the same with two threads interleaved at every lock |
| `Windows.dfy`, `Quality.dfy`, `Spacing.dfy` | sliding windows, the quality controller, events at least a gap apart |
| `CapturePace.dfy`, `Pacing.dfy` | how often the capture thread captures, and what each session is sent of it |

`Basics.dfy` holds the shared types. `dafny verify dfyconfig.toml` checks everything.

## How the model is built

Objects whose methods update fields are classes, and their loops are loops; each
method is tied to a function of the old state, and the results are lemmas about
those functions over all runs. The connection handlers, the clients and the
broadcaster are steps of one state machine, so a run is any interleaving of any
number of connections, including peers that send arbitrary frames.

* A method's contract names the function it computes; what that function means is
  then stated without it, in bytes, times and frames, by the lemmas whose names end in
  `WrittenOut` and those beside them. A changed branch, constant or formula breaks one.
* `u32` arithmetic in the tile codec is written over a bounded integer type, so
  every sum, product and difference there is proved to stay in range. The demand
  on the caller is that 3*w*h fits (`FrameProcessing.Addressable`), and only of the
  methods that compute offsets. Frames and tiles of any length are accepted, with
  the code's length guards kept.
* Floating point is modelled by the reals. In `f32` a luma of exactly 255 may be
  truncated to 254; rounding is not modelled.
* Clock readings are parameters that never go back; a function that reads the
  clock twice takes two readings. Random ids, secrets and nonces are parameters
  too, and session ids are distinct. The 12-second timestamp of the audio buffer,
  a process-wide static in the code, is a field.
* X25519, SHA-256, AES-GCM and the message serialisation are parameters with the
  hypotheses collected in `Wire.Sound` (agreement as in section 6.1 of RFC 7748,
  and two round trips). `Wire.SoundPrimitivesExist` shows they are consistent.
* Keyboard events carry raw codes that are a function of the key, and the code
  table towards the one peer is an arbitrary partial function.

## What turned out not to hold

Where a natural claim fails, the model keeps the code as it is, gives a concrete
case, and proves exactly when the claim does hold.

* A change that misses a tile's five sample points is not sent:
  `FrameRuns.ChangeMissed`, `FrameRuns.DeltaExactIff`.
* `Disconnect` leaves only the inner loop, so what follows it in the same read is
  handled only if more bytes arrive: `ServerDispatch.DisconnectThenInput`,
  `ServerDispatch.DispatchHandlesAllIff`, `Framing.LeftoverWaitsIff`.
* A payload of 2^32 bytes or more is framed with a wrong length:
  `Framing.FrameRoundTripIff`.
* "Both ends hold the key before either uses it" is not so: the server queues its
  acknowledgement before storing the key, so the client may seal first. It is
  harmless, because the server reads only after storing:
  `ProtocolSafety.SealedBeforeStored`, `ProtocolSafety.SealedUnderHeldKeyIff`, `ProtocolSafety.ModesAgree`.
* A session is registered before its answer is queued; a frame broadcast in
  between makes `connect` fail: `ProtocolSafety.EarlyFrameFails`,
  `ProtocolSafety.AnswerComesFirstIff`. A new session is sent nothing for 33 ms
  (`Pacing.FirstSendWaits`), so the handler must stall that long between the two,
  for instance while it waits for the registry's lock.
* Entries stay in the session map after re-authentication or an error exit:
  `ProtocolSafety.ReauthenticationLeaks`, `ProtocolSafety.ErrorExitLeaks`,
  `ProtocolSafety.RegistryExactIff`.
* A skipped frame restarts the send interval. Captures come at least 33 ms apart
  (src/server/screen_capture.rs:63, 79-81), but at a pace between 33 and 66 ms a
  session at Low or Minimal is sent none of them: `Pacing.SlowModeStarves`, with the
  exact condition in `Pacing.HeldModeSilentIff` and `Pacing.NeverSendsIff`. Frame
  times are recorded as round-trip times, so a still screen moves a session to Low
  by itself, and captures less than 66 ms apart then never reach it:
  `Pacing.FallsSilent`, `Pacing.StillScreenCapturable`. At the other
  modes a silence lasts only while a backlog is worked off: `Pacing.FastSilenceEnds`.
* `TO_RELEASE` is cloned and cleared under two locks, and a key pressed in between
  is forgotten: `Keyboard.PressForgotten`, `Keyboard.EventDuringReleaseIff`.
* `process_event` sends after its locks are dropped, so a press tracked before a
  release may be sent after it and stay down: `KeyboardRaces.LateSendHolds`,
  `KeyboardRaces.NeverForgetsIff`.
* A tracked key need not be down at the peer when two keys share a code:
  `Keyboard.TrackedAreHeldIff`.

The repository's own README says that passwords are hashed with Argon2; the code
hashes access codes with SHA-256 (src/common/auth.rs:52-56), and the model follows
the code. It also says that all data is encrypted; the two key-exchange messages
are not, and the model sends them in the clear.

## Model

| member | source | states |
|---|---|---|
| TileGrid.TilesPartition | src/common/frame_processor.rs:131-136 | every pixel lies in one and only one tile of the grid, the clipped edge tiles included |
| TileGrid.TileInside | src/common/frame_processor.rs:133-136 | no tile is empty or leaves the frame |
| TileGrid.RowRange | src/common/frame_processor.rs:192-193 | a flat byte range of one tile row contains a byte exactly when its pixel is in that row and those columns |
| TileGrid.IndicesWrittenOut | src/common/frame_processor.rs:172-200 | pixel (x, y) starts at byte 3(y*w+x), row k of a rectangle starts at k*3w, a frame has 3*w*h bytes |
| TileGrid.FrameExtensionality | src/common/frame_processor.rs:172 | a frame is determined by its pixel components, so pixel-by-pixel results are results about frames |
| FrameCodec.ExtractRowsAt | src/common/frame_processor.rs:183-201 | byte c of pixel (i, j) of an extracted rectangle is that byte of the frame's pixel (x+i, y+j) |
| FrameCodec.CopyRowsAt | src/common/frame_processor.rs:203-223 | pasting rows changes the covered pixels, to the tile's own, and no other pixel |
| FrameCodec.PasteTileOf | src/common/frame_processor.rs:183-223 | extract then paste: the tile's rectangle becomes the source frame's, the rest is kept |
| FrameCodec.ApplyTilesAt | src/common/frame_processor.rs:225-232 | a list of tiles cut from one frame gives that frame's pixel inside the listed tiles and the old pixel elsewhere |
| FrameCodec.TileOrderIrrelevant | src/common/frame_processor.rs:110-113 | two lists with the same tiles of one frame, in any order and with any repetitions, give the same result |
| FrameCodec.ReportedIffChanged | src/common/frame_processor.rs:126-152 | a grid tile is reported if and only if one of its sample points differs |
| FrameCodec.ChangedTilesExact | src/common/frame_processor.rs:126-152 | every reported tile is a grid tile cut out of the current frame, and tiles are reported exactly when a sample differs |
| FrameCodec.ChangedAtFive | src/common/frame_processor.rs:154-181 | a grid tile counts as changed if and only if the frames, of any length, differ at (x, y), (x+w-1, y), (x, y+h-1), (x+w-1, y+h-1) or (x+w/2, y+h/2) of its rectangle |
| FrameCodec.ReportedWrittenOut | src/common/frame_processor.rs:126-181 | the tile with corner (64tx, 64ty) is in the reported list if and only if the frames differ at one of those five pixels |
| FrameCodec.ReportedTileShape | src/common/frame_processor.rs:131-146 | reported tiles start at multiples of 64 and are 64 wide and high, or what is left of the frame |
| FrameCodec.CellOfFrame | src/common/frame_processor.rs:172 | component c of a pixel is the byte c after its offset |
| FrameCodec.ReportedTileBytes | src/common/frame_processor.rs:183-201 | and hold the current frame's bytes row by row |
| FrameCodec.ReportedInOrder | src/common/frame_processor.rs:131-149 | tiles are reported in row-major order, none twice |
| FrameCodec.MessageWrittenOut | src/common/frame_processor.rs:75-123 | a key frame exactly first, on demand, or when ten times the reported tiles exceed six times ceil(w/64)*ceil(h/64); what key and delta messages carry |
| FrameCodec.MissingRowsLeftOut | src/common/frame_processor.rs:186-198 | rows of a rectangle that end past a short frame are left out |
| FrameCodec.RowsBelowIgnored | src/common/frame_processor.rs:207-211 | rows of a tile below the frame are never copied |
| FrameCodec.UnfitRowSkipped | src/common/frame_processor.rs:213-220 | a row that does not fit the frame or the tile's data is skipped |
| FrameCodec.DeltaStepAt | src/common/frame_processor.rs:91-114 | one delta step: current pixel inside changed tiles, previous pixel everywhere else |
| FrameProcessing.NonEmptyAddressable | src/common/frame_processor.rs:62-64 | for non-empty frames 3*w*h < 2^32 is all the size arithmetic needs |
| FrameProcessing.GuardsHold | src/common/frame_processor.rs:172-218 | on a well-sized frame every slice guard of sampling at the five points, extraction and copying holds for every tile |
| FrameProcessing.CutTilesInRange | src/common/frame_processor.rs:203-221 | tiles cut from a frame never take the copy's u32 products out of range |
| FrameProcessing.TileCountInRange | src/common/frame_processor.rs:96 | tile_width * tile_height fits in u32 |
| FrameProcessing.RectangleInRange | src/common/frame_processor.rs:184 | w * h * bpp of a tile inside the frame fits in u32 |
| FrameProcessing.FrameProcessor.constructor | src/common/frame_processor.rs:62-73 | for every size whose rounding-up sums fit in u32: the tile counts cover the frame and no frame is remembered |
| FrameProcessing.FrameProcessor.PixelOffset | src/common/frame_processor.rs:172 | the u32 expression equals the mathematical byte offset |
| FrameProcessing.FrameProcessor.IsTileChanged | src/common/frame_processor.rs:154-181 | true exactly when one of the five sample points of FrameCodec.ChangedAtFive differs, for frames of any length |
| FrameProcessing.FrameProcessor.PointChanged | src/common/frame_processor.rs:164-177 | one sample: true exactly when the three bytes differ, false outside the frame or past either buffer |
| FrameProcessing.FrameProcessor.ExtractTileData | src/common/frame_processor.rs:183-201 | returns the rectangle's rows in order, leaving out those past the frame; the capacity product is computed in u32 and in range |
| FrameProcessing.FrameProcessor.ReportTile | src/common/frame_processor.rs:133-147 | one grid cell: its tile if changed, nothing otherwise |
| FrameProcessing.FrameProcessor.FindChangedTiles | src/common/frame_processor.rs:126-152 | the nested loops return the changed tiles in row-major order |
| FrameProcessing.FrameProcessor.CopyTileRow | src/common/frame_processor.rs:208-221 | one row is copied in place, or skipped when a guard fails |
| FrameProcessing.FrameProcessor.CopyTileToFrame | src/common/frame_processor.rs:203-223 | the in-place row loop equals the pasting function, break at the bottom edge included |
| FrameProcessing.FrameProcessor.CopyTiles | src/common/frame_processor.rs:110-113 | the in-place loop over tiles equals applying the list |
| FrameProcessing.FrameProcessor.ApplyDelta | src/common/frame_processor.rs:225-232 | applies the tiles in place, or leaves the frame alone if there are none |
| FrameProcessing.FrameProcessor.ProcessFrame | src/common/frame_processor.rs:75-124 | first, forced or more than 60% changed gives a key frame and remembers it whole; otherwise a delta, remembering the patched frame |
| FrameRuns.RunStepTile | src/common/frame_processor.rs:75-124 | one step of a run at one tile: fresh if the tile was carried, unchanged otherwise |
| FrameRuns.TilesAreLastSent | src/common/frame_processor.rs:75-223 | in every run each tile of last_frame is byte for byte that tile of the capture that last carried it, and no later message carried it |
| FrameRuns.SamplesAgree | src/common/frame_processor.rs:92-114 | after every capture, key or delta, last_frame equals it byte for byte at the four corners and the centre of every tile |
| FrameRuns.DeltaExactIff | src/common/frame_processor.rs:154-181 | a delta reproduces the captured frame if and only if no tile changed away from its sample points only |
| FrameRuns.ChangeMissed | src/common/frame_processor.rs:154-181 | a concrete change that no sample sees: nothing is sent |
| FrameRuns.GridBytesClosed | src/common/frame_processor.rs:131-149 | the tiles' bytes add up to the frame's |
| FrameRuns.DeltaSmallerThanKey | src/common/frame_processor.rs:95-107 | a delta leaves out at least one tile and is smaller than the key frame by at least three bytes for each tile left out |
| FrameRuns.KeyFrameResynchronises | src/client/app.rs:518-551 | whatever was lost before, from a delivered key frame on and while nothing more is lost the client shows the server's last_frame |
| FrameRuns.NothingLost | src/client/app.rs:518-551 | with no loss the client shows last_frame after every message |
| FrameRuns.ClientSeesDelivered | src/client/app.rs:466-551 | a lossy client is a client that receives only the delivered messages, in order |
| FrameRuns.ShowsIffKeyArrived | src/client/app.rs:518-551 | the client shows something if and only if a key frame has arrived |
| FrameRuns.ClientTilesAreLastDelivered | src/client/app.rs:518-551 | whatever is lost, each tile the client shows is byte for byte that tile of the capture whose message last brought it |
| FrameRuns.ProcessorKept | src/client/app.rs:518-551 | the processor is made once, for the first key frame's size; a delta before any key frame changes nothing |
| FrameRuns.MessagesAreSafe | src/common/frame_processor.rs:117-123 | every message of a run has the processor's size and tiles that can be applied in range |
| FrameRuns.ClientScreen.constructor | src/client/app.rs:518-523 | no frame and no processor before the first frame |
| FrameRuns.ClientScreen.Update | src/client/app.rs:466-551 | draining the queue stores key frames, creates the processor once, and patches the current frame in place |
| Framing.FrameRoundTripIff | src/server/server.rs:424-430 | a payload survives framing if and only if its length fits in 32 bits, since the length is cast |
| Framing.HeaderWrittenOut | src/server/server.rs:424-430 | a frame is four bytes, most significant first, that add up to the length modulo 2^32, then the payload |
| Framing.LengthWrittenOut | src/server/server.rs:110 | the length read is 16777216 a + 65536 b + 256 c + d |
| Framing.UniqueReading | src/server/server.rs:109-117 | a byte stream has one reading as complete frames and an incomplete tail |
| Framing.HandleClient | src/server/server.rs:102-263 | the nested read loops equal their specification, with Disconnect leaving only the inner loop and `?` ending the outer one |
| Framing.LoopConserves | src/server/server.rs:102-263 | for every handler and every cutting into reads: frames taken, re-encoded, plus the buffer are the bytes read |
| Framing.EndOfStreamEnds | src/server/server.rs:103-107 | nothing after an empty read, or after an error, is read |
| Framing.LoopFolds | src/server/server.rs:116-130 | the handler sees the taken payloads in order, each once |
| Framing.LoopTakesPrefix | src/server/server.rs:103-117 | from any part of an encoded stream, cut in any way, the payloads taken are the first ones |
| Framing.LoopAbortsLast | src/server/server.rs:116-130 | only the last payload taken can have ended the connection by an error |
| Framing.AnyChunking | src/server/server.rs:103-117 | for a handler that never stops, every cutting of the stream yields the same payloads, final state and leftover |
| Framing.ServerHandlesAllIff | src/server/server.rs:253-256 | the server handles every payload under every cutting if and only if no payload but the last stops the inner loop or the connection |
| Framing.OneReadStops | src/server/server.rs:253-256 | otherwise, when all arrives in one read, the rest is not handled |
| Framing.LeftoverWaitsIff | src/server/server.rs:103-117 | a complete frame left in the buffer is handled if and only if at least one more byte is read |
| ServerDispatch.OutcomeExact | src/server/server.rs:119-261 | the dispatch of one payload ends the connection exactly when it cannot be opened or parsed, carries a key of the wrong length, asks to authenticate before a key, or is an input whose handler fails; it leaves the inner loop exactly on Disconnect |
| ServerDispatch.DispatchHandlesAllIff | src/server/server.rs:102-263 | with that dispatch, every payload is handled under every cutting if and only if none but the last is rejected or says Disconnect |
| ServerDispatch.DisconnectThenInput | src/server/server.rs:253-256 | concrete bytes: Disconnect then an input are one message taken when they come in one read and two when they come in two |
| ServerDispatch.ServeOneIsSteps | src/server/server.rs:116-261 | one pass of the loop over a frame is a sequence of the protocol's server steps for that connection |
| ServerDispatch.HonestServed | src/server/server.rs:119-261 | a client that follows connect is never rejected, whatever it has in flight, except by a failing input |
| ServerDispatch.BytesFollowProtocol | src/server/server.rs:102-263 | for every run, connection of a client that follows connect with fresh session ids, nonces, part of the bytes in flight and cutting into reads: the byte loop takes the payloads of a first part of the frames and ends in the state the protocol's server steps lead to; it takes all of them when all bytes are there and no frame but the last is Disconnect or a failing input |
| ClientReader.ReadMessages | src/client/connection.rs:118-166 | the reader task equals its specification, the return when the user interface has closed its channel included |
| ClientReader.ClientReadsAll | src/client/connection.rs:119-158 | under every cutting the client forwards exactly the payloads that decrypt and parse, in order, and keeps the incomplete tail |
| ClientReader.OpenedWrittenOut | src/client/connection.rs:130-157 | each payload counts for itself: one that opens gives its message, the others nothing, in order |
| ClientReader.ClosesAfter | src/client/connection.rs:149-152 | a reader whose user interface closes after n messages forwarded exactly the first n of those it would have forwarded |
| ClientReader.ExactReads | src/client/connection.rs:205-214 | k exact reads return the first k payloads and consume nothing more |
| ClientReader.HandOver | src/client/connection.rs:50-99 | between the handshake's exact reads and the reader task no byte is lost |
| Wire.DecryptEncrypt | src/common/crypto.rs:25-48 | decryption undoes the nonce-prefix layout for every key, nonce and plaintext |
| Wire.NonceComesFirst | src/common/crypto.rs:25-48 | twelve bytes of nonce then the ciphertext; shorter data is refused |
| Wire.ReadInWrittenMode | src/client/connection.rs:200-239 | a payload read in the mode it was written in parses to the message sent |
| Wire.SoundPrimitivesExist | src/common/crypto.rs:13-76 | the hypotheses about the primitives can be met |
| Protocol.ClientStepKeepsInv | src/client/connection.rs:41-102 | every step of connect and of a streaming client keeps the connection invariant |
| Protocol.KeyReadKeepsInv | src/server/server.rs:175-198 | taking the key exchange: acknowledge in the clear, then be about to store the agreed key |
| Protocol.AuthReadKeepsInv | src/server/server.rs:131-173 | taking the authentication request keeps the invariant, verified or not |
| Protocol.LaterReadKeepsInv | src/server/server.rs:200-261 | every later message keeps it, replies included |
| Protocol.ServerStepKeepsInv | src/server/server.rs:157-195 | storing the key, queueing the answer and error exits keep it |
| ProtocolRuns.StepKeepsInv | src/server/server.rs:297-390 | every step of any connection, the registry or the broadcaster keeps the global invariant |
| ProtocolRuns.RunKeepsInv | src/server/server.rs:79-390 | so does every run, whoever the peers are |
| ProtocolSafety.ModesAgree | src/server/server.rs:119-128 | in every interleaving each end reads the next frame in the mode it was written in, and its bytes parse to the message |
| ProtocolSafety.KeysMatch | src/client/connection.rs:61-78 | the two ends and the registry never hold different keys; the server seals only under the key the client holds; the client seals only under a key the server holds or is storing, or whose handler has ended |
| ProtocolSafety.HistoryIff | src/server/server.rs:157-196 | in every run the server holds a key exactly when its handler took the storing step, has answered exactly when it took the answering step, and was hit early exactly when a frame was broadcast to it before the answer |
| ProtocolSafety.SealedUnderHeldKeyIff | src/server/server.rs:185-196 | a frame the client sealed is under a key the server holds if and only if the handler's storing step came before |
| ProtocolSafety.SealedBeforeStored | src/server/server.rs:185-196 | a run in which the client seals a frame before the server has stored the key |
| ProtocolSafety.AnswerComesFirstIff | src/server/server.rs:157-164 | the client's next read is the answer if and only if the run has no broadcast to the session between its registration and the queueing of its answer |
| ProtocolSafety.EarlyFrameFails | src/server/server.rs:157-164 | a run in which such a frame makes connect fail although the code verified; the broadcaster needs the handler to stall for 33 ms before its answer (Pacing.FirstSendWaits) |
| ProtocolSafety.RegistryExactIff | src/server/server.rs:265-268 | the session map holds exactly the sessions of running handlers if and only if the run has no step in which a handler that has registered takes another verified request or ends by an error |
| ProtocolSafety.StraysIff | src/server/server.rs:131-268 | per connection and run: ids are recorded exactly by the registering step, and an entry is left behind exactly when the run has such a later step |
| ProtocolSafety.ErrorExitLeaks | src/server/server.rs:157-164 | a run that ends with a session in the map whose handler has returned by an error |
| ProtocolSafety.ReauthenticationLeaks | src/server/server.rs:140-157 | a run in which a second authentication leaves the first session in the map, not the current one of its handler |
| ProtocolSafety.RegistryExact | src/server/server.rs:157-268 | so in every run of connections that authenticate at most once and end by end of stream |
| ProtocolEffects.RefusedRequest | src/server/server.rs:131-173 | a sealed request is refused when no code is stored, it has expired, or the hash differs: nothing is registered, no session is kept, and the answer is AuthResponse(false) |
| ProtocolEffects.GrantedRequest | src/server/server.rs:131-173 | otherwise its session is registered under the connection's key before AuthResponse(true) is queued |
| ProtocolEffects.CodeLastsFiveMinutes | src/common/auth.rs:27-69 | a generated code is accepted up to 300 seconds after it was drawn, and only under its own hash |
| ProtocolEffects.StreamingIsEarned | src/client/connection.rs:79-91 | a client that reached the stream was preceded, on its connection, by a sealed request taken while a stored code had not expired and had the request's hash |
| ProtocolEffects.KeyIsDerived | src/server/server.rs:175-195 | the server's key is the hash of the shared secret of the secret it drew and the public key it took at one step of the run |
| ProtocolEffects.PassWrittenOut | src/server/server.rs:119-261 | one pass of the loop, message by message: frames queued, key, session, and whether the handler goes on |
| ProtocolEffects.ClientWrittenOut | src/client/connection.rs:41-102 | connect, message by message: what it sends, what it accepts, and that it fails on anything else |
| ProtocolEffects.BroadcastDelivers | src/server/server.rs:333-385 | a broadcast reaches the queue of the session's own connection, sealed under its key, and no other |
| ProtocolSafety.OwnEntryPresent | src/server/server.rs:203-247 | a running handler always finds its own session in the map |
| ProtocolSafety.EntryIsEarned | src/server/server.rs:131-164 | every entry was preceded on its own connection by a key exchange and, later, by a sealed request taken while a code was stored, was not past its expiry, and had the hash of the request's code |
| Audio.ScanState | libs/rustdesk/src/client.rs:1132-1147 | the scan's running state: buckets not reached are untouched, all but the candidate are cleared, the leading empty buckets are counted |
| Audio.BucketWrittenOut | libs/rustdesk/src/client.rs:1113-1116 | bucket b is b tenths of a second up to the next, and 29 takes all from 2.9 seconds |
| Audio.ScanCandidate | libs/rustdesk/src/client.rs:1134-1147 | the water mark taken most often: the first fullest bucket, with bucket 0 never a candidate |
| Audio.ScanClears | libs/rustdesk/src/client.rs:1136-1154 | a shrink decision ends with every counter at zero |
| Audio.ZeroBelow | libs/rustdesk/src/client.rs:1113-1148 | the count of leading empty buckets is at most the bucket of every recorded level |
| Audio.ShrinkIsGentle | libs/rustdesk/src/client.rs:1119-1169 | a shrink drops an even number, at most two thirds of any recorded level plus one sample, nothing if a level was in bucket 0, and leaves more than two thirds |
| Audio.DueShrink | libs/rustdesk/src/client.rs:1119-1168 | a due shrink of a buffer whose counters are the histogram of some levels clears them and drops exactly what that histogram says |
| Audio.DropWrittenOut | libs/rustdesk/src/client.rs:1132-1168 | exactly what a due shrink drops, from the first fullest counter and the count of leading zeros |
| Audio.SteadyBacklogDropped | libs/rustdesk/src/client.rs:1132-1168 | a steady backlog of at least 600 ms is dropped: bucket b gives b fortieths of a second's samples |
| Basics.NewestWrittenOut | libs/rustdesk/src/client.rs:1174-1188 | the newest n are the last n elements, all if there are fewer |
| Audio.BufferIsSuffix | libs/rustdesk/src/client.rs:1099-1188 | over every run the buffer is a suffix of everything appended, within capacity |
| Audio.LeavesFront | libs/rustdesk/src/client.rs:1099-1196 | what leaves the front: at an append what exceeds three seconds, at a pop what is asked for, at a resize to another rate everything, at a shrink that is not due nothing |
| Audio.StateWrittenOut | libs/rustdesk/src/client.rs:1099-1156 | rate, counters and timer after each operation, with the twelve seconds in milliseconds |
| Audio.ChannelsNeverSwap | libs/rustdesk/src/client.rs:1164-1188 | with two channels the count removed from the front stays even over every run |
| Audio.HistogramOfPeriod | libs/rustdesk/src/client.rs:1109-1117 | without a resize in the period the counters are the histogram of the levels recorded since the last reset |
| Audio.HistogramCounted | libs/rustdesk/src/client.rs:1113-1117 | each counter is the number of levels in its bucket |
| Audio.ShrinkInRun | libs/rustdesk/src/client.rs:1119-1169 | the bounds of a due shrink at any point of any run with no resize in its period |
| Audio.AudioBuffer.constructor | libs/rustdesk/src/client.rs:1085-1095 | 96000 samples a second, three seconds of room, empty |
| Audio.AudioBuffer.ResizeTo | libs/rustdesk/src/client.rs:1099-1107 | a new capacity empties the buffer; the same capacity changes nothing |
| Audio.AudioBuffer.AppendPcm2 | libs/rustdesk/src/client.rs:1174-1188 | keeps the newest samples of old and new together, also when the new ones alone exceed the capacity |
| Audio.AudioBuffer.TryShrink | libs/rustdesk/src/client.rs:1109-1169 | counts the level and, when twelve seconds have passed, drops backlog |
| Audio.AudioBuffer.DropBacklog | libs/rustdesk/src/client.rs:1132-1168 | clears the counters and drops exactly the specified number from the front |
| Audio.AudioBuffer.ScanHistogram | libs/rustdesk/src/client.rs:1132-1147 | the in-place scan equals its specification |
| Audio.AudioBuffer.ChooseLevel | libs/rustdesk/src/client.rs:1148-1159 | the level to drop: the lesser of the two water marks, or none below 600 ms |
| Audio.AudioBuffer.AppendPcm | libs/rustdesk/src/client.rs:1193-1196 | append, then shrink at the level reached |
| Audio.AudioBuffer.PopSlice | libs/rustdesk/src/client.rs:1398-1401 | pops up to n samples, in order, from the front |
| Pixels.PlanesNeverSaturate | src/common/ffmpeg_encoder.rs:101-134 | no plane value leaves 0..255, so truncation never saturates |
| Pixels.PlanesWrittenOut | src/common/ffmpeg_encoder.rs:101-134 | the three plane values as floors of whole thousandths |
| Pixels.RecoversNear | src/client/h264_decoder.rs:80-87 | a pixel converted with its own chroma returns within 3 for red and blue and 2 for green |
| Pixels.FromYuvWrittenOut | src/client/h264_decoder.rs:76-87 | the decoded bytes as whole thousandths, cut off at 0 and 255 |
| Pixels.GreyExact | src/client/h264_decoder.rs:80-87 | every grey goes to chroma 128 and comes back exactly |
| Pixels.BgraToRgb | src/server/screen_capture.rs:243-254 | pixel i keeps its colours: bytes 4i+2, 4i+1, 4i become 3i, 3i+1, 3i+2, for a buffer of any length |
| Pixels.Crop | src/server/screen_capture.rs:113-119 | the crop is the top-left rectangle, with every slice in range |
| Pixels.CropCapacityInRange | src/server/screen_capture.rs:113 | the capacity product of the crop fits in u32 for a frame whose bytes do |
| Pixels.CroppedPixel | src/server/screen_capture.rs:112-119 | a cropped frame has the same pixels at the same coordinates |
| Pixels.CellWrittenOut | src/common/ffmpeg_encoder.rs:94-103 | cell (x, y) of a plane is at y * stride + x |
| Pixels.FillRow | src/common/ffmpeg_encoder.rs:94-103 | one plane row is written in range and nothing outside it |
| Pixels.FillPlane | src/common/ffmpeg_encoder.rs:90-137 | a plane holds the conversion of every pixel (luma) or of every even-even pixel (chroma), for every stride that fits |
| Pixels.EncodeFrame | src/common/ffmpeg_encoder.rs:81-140 | the three planes of a frame |
| Pixels.EncodedWrittenOut | src/common/ffmpeg_encoder.rs:81-140 | each luma cell is its pixel's, each chroma cell its block's even-even corner's, in whole numbers |
| Pixels.YuvRow | src/client/h264_decoder.rs:75-92 | one row of the decoder's output |
| Pixels.YuvToRgb | src/client/h264_decoder.rs:59-96 | the decoder's loops index in range and produce the rows in order |
| Pixels.DecodeEncoded | src/client/h264_decoder.rs:76-87 | each decoded pixel is its own luma under the chroma of its block's even-even corner |
| Pixels.PathPixel | src/server/screen_capture.rs:89-122 | one pixel of the whole path, from captured BGRA to decoded RGB |
| Pixels.CaptureToScreen | src/server/screen_capture.rs:105-122 | whole path for any size and strides: even-even pixels within 3, 2, 3 of the capture; a pixel sharing its block corner's grey exact |
| Keyboard.StepKeepsInv | libs/rustdesk/src/keyboard.rs:378-394 | every whole event and every step of a release keeps: held codes are accounted for, modifiers match the table |
| Keyboard.TablesAgree | libs/rustdesk/src/keyboard.rs:559-596 | over every run with whole events between the steps of releases, outside a release each held code is that of a tracked key and a modifier is marked exactly when tracked |
| Keyboard.ReleaseLeavesNothing | libs/rustdesk/src/keyboard.rs:378-394 | after a release, in any order and with the extra Alt strokes, nothing is held, tracked or marked |
| Keyboard.EventWrittenOut | libs/rustdesk/src/keyboard.rs:107-116 | outside a release, after any run: a press of a tracked modifier changes and sends nothing; any other press is tracked and sends one down, a release untracks and sends one up, if the key has a code |
| Keyboard.ReleaseWrittenOut | libs/rustdesk/src/keyboard.rs:382-392 | releasing one key sends one up, and for Alt and AltGr up, down, up |
| Keyboard.EventDuringReleaseIff | libs/rustdesk/src/keyboard.rs:378-394 | with one event between the clone and the clear, the whole release ends with nothing held, tracked or marked if and only if the event is not a press the clone misses |
| Keyboard.PressForgotten | libs/rustdesk/src/keyboard.rs:380-381 | the run clone, press, clear, end: the key's code is held and nothing is tracked |
| KeyboardRaces.AdvanceIff | libs/rustdesk/src/keyboard.rs:559-596 | one locked section or the send of a call, with another call anywhere in flight: everything down stays accounted for if and only if the step is one the condition allows |
| KeyboardRaces.ClearIff | libs/rustdesk/src/keyboard.rs:381 | the clear forgets nothing if and only if no key tracked since the clone is down under a code of its own or marked with its event past tracking |
| KeyboardRaces.MoveIff | libs/rustdesk/src/keyboard.rs:107-116 | the same for every move of either thread, between any two locks |
| KeyboardRaces.NeverForgetsIff | libs/rustdesk/src/keyboard.rs:107-116 | over every run of the two threads, interleaved at every lock and send: nothing down is ever forgotten if and only if every move is harmless |
| KeyboardRaces.TablesAgreeAtRest | libs/rustdesk/src/keyboard.rs:559-596 | after every run of harmless moves, with both threads at rest, each held code is that of a tracked key and a modifier is marked exactly when tracked |
| KeyboardRaces.LateSendHolds | libs/rustdesk/src/keyboard.rs:107-116 | a run in which a press is tracked, the other thread releases everything, and the press is sent last: the key is held and nothing is tracked or marked |
| KeyboardRaces.WholeEventProcesses | libs/rustdesk/src/keyboard.rs:107-116 | the locked sections and the send of an uninterrupted call add up to process_event |
| KeyboardRaces.CallWrittenOut | libs/rustdesk/src/keyboard.rs:107-116 | filter, then marks, then table, then send, each changing only its own |
| KeyboardRaces.WholeStepApplies | libs/rustdesk/src/keyboard.rs:378-394 | uninterrupted, the releasing thread's moves add up to the release with whole events |
| KeyboardRaces.ExclusionIsEnough | libs/rustdesk/src/keyboard.rs:378-394 | if the threads never cut into each other's calls and every clear finds only keys of its clone, nothing is ever forgotten |
| Keyboard.TrackedAreHeldIff | libs/rustdesk/src/keyboard.rs:890-957 | every tracked key with a code is down at the peer in every run if and only if no two keys share a code |
| Keyboard.SharedCodeDrops | libs/rustdesk/src/keyboard.rs:890-957 | a run in which releasing one key releases another with the same code |
| Keyboard.Tracker.constructor | libs/rustdesk/src/keyboard.rs:42-56 | nothing tracked, eight modifiers up |
| Keyboard.Tracker.EventToKeyEvents | libs/rustdesk/src/keyboard.rs:577-628 | updates both tables and maps the event to its code |
| Keyboard.Tracker.ProcessEvent | libs/rustdesk/src/keyboard.rs:107-116 | long presses of a marked modifier are ignored; other events are tracked and sent |
| Keyboard.Tracker.ReleaseOne | libs/rustdesk/src/keyboard.rs:382-392 | one key is released, with the extra stroke for Alt and AltGr |
| Keyboard.Tracker.ReleaseRemoteKeys | libs/rustdesk/src/keyboard.rs:378-394 | the whole release on the mutable tables leaves nothing held, tracked or marked |
| Windows.SumSlides | src/common/metrics.rs:146-158 | sliding the window changes its sum by what comes minus what leaves |
| Windows.RingAdvances | src/common/metrics.rs:147-153 | overwriting the slot at index replaces the oldest sample of the window by the newest |
| Windows.MovingAverage.constructor | src/common/metrics.rs:137-144 | an empty window, for every capacity |
| Windows.MovingAverage.AddSample | src/common/metrics.rs:146-158 | after any history the ring is its last capacity samples and the running sum is theirs |
| Windows.MovingAverage.Average | src/common/metrics.rs:160-166 | the mean of the last min(n, capacity) samples, or 0 |
| Windows.BandwidthMonitor.AddSample | src/common/quality.rs:88-101 | the deque is the last min(n, 30) samples in time order |
| Windows.AverageBetween | src/common/quality.rs:122-132 | the average round-trip time lies between the window's least and greatest |
| Windows.TotalsAppended | src/common/quality.rs:117-149 | the sums behind the metrics, sample by sample: whole milliseconds, bytes, squared errors in seconds |
| Windows.AverageWrittenOut | src/common/quality.rs:122-132 | the average is the mean of the whole milliseconds, rounded down |
| Windows.BandwidthWrittenOut | src/common/quality.rs:103-120 | no bandwidth below two samples or 0.1 s; otherwise all bits over the span, in Mbps |
| Windows.LossWrittenOut | src/common/quality.rs:134-151 | 0 below five samples; otherwise a hundred times the variance, at most 20 |
| Windows.LossInRange | src/common/quality.rs:134-151 | the loss estimate lies in 0..20 |
| Quality.BetterNetworkBetterMode | src/common/quality.rs:213-229 | a network no worse in all three metrics never gets a lower frame rate, resolution or bandwidth budget, nor more compression; the bands are those of Quality.ModeWrittenOut |
| Quality.ModesWrittenOut | src/common/quality.rs:15-62 | frame rate, scale, compression and budget of each mode |
| Quality.ModeWrittenOut | src/common/quality.rs:213-229 | the mode in terms of bandwidth, round trip and loss: 80, 60, 40 and 20 points out of 100 |
| Quality.AskedWrittenOut | src/common/quality.rs:195-229 | the mode a window asks for, with 10 Mbps and 50 ms where it has no metric |
| Quality.RecommendWrittenOut | src/common/quality.rs:184-211 | forced mode, two seconds of cooldown, then the mode asked for |
| Quality.CallsWrittenOut | src/common/quality.rs:173-182 | forcing and samples: what changes and what does not, thirty samples at most |
| Quality.ChangesWrittenOut | src/common/quality.rs:206-208 | the changes counted are the calls that changed the mode unforced |
| Quality.UltraNeeds | src/common/quality.rs:213-229 | Ultra implies at least 30 Mbps and an average round trip of at most 133 ms |
| Quality.UltraIsMeasured | src/common/quality.rs:195-229 | the window's metrics ask for Ultra only with a measured bandwidth of at least 30 Mbps and an average round trip of at most 133 ms, never on the defaults |
| Quality.ForcedModeRules | src/common/quality.rs:173-188 | over every run a forced mode is current, is returned, and blocks automatic changes |
| Quality.ChangesSpaced | src/common/quality.rs:190-208 | automatic changes are two seconds apart and none falls in the first two seconds |
| Quality.ChangesInWindow | src/common/quality.rs:190-208 | a window of T seconds has at most T/2 + 1 automatic changes |
| Quality.AdaptiveQualityController.constructor | src/common/quality.rs:163-171 | starts at High, unforced, with an empty window |
| Quality.AdaptiveQualityController.ForceQuality | src/common/quality.rs:173-178 | sets or clears the forced mode; setting also makes it current |
| Quality.AdaptiveQualityController.UpdateMetrics | src/common/quality.rs:180-182 | adds one sample |
| Quality.AdaptiveQualityController.GetRecommendedQuality | src/common/quality.rs:184-211 | returns the forced mode, or the current one after at most one change outside the cooldown |
| Spacing.WindowBound | src/server/server.rs:347-350 | events at least a gap apart: at most len/gap + 1 in any window |
| Spacing.InWindowCounts | src/server/server.rs:347-350 | the count of a window is the number of events in it |
| CapturePace.CapturesSpaced | src/server/screen_capture.rs:79-85 | whatever the polling, captures are at least 33 ms apart and the first comes 33 ms after creation |
| CapturePace.CallWrittenOut | src/server/screen_capture.rs:79-86 | one call captures exactly when 33 ms have passed and the screen has a frame |
| CapturePace.SteadyPaceIff | src/server/screen_capture.rs:79-85 | a steady pace is one the capture thread can keep if and only if it is 33 ms or slower |
| CapturePace.CaptureLimiter.constructor | src/server/screen_capture.rs:59-69 | the interval starts at creation |
| CapturePace.CaptureLimiter.CaptureFrame | src/server/screen_capture.rs:77-86 | one call captures exactly when the interval has passed and the screen has a frame, and remembers the reading after it |
| Pacing.SendKeepsItsInterval | src/server/server.rs:332-350 | a queued frame is at least its own target interval after every frame queued before it, whatever the quality did in between |
| Pacing.TickWrittenOut | src/server/server.rs:335-385 | one tick with intervals of 16, 33, 33, 66 and 100 ms: when it sends, and what it records |
| Pacing.SendsInWindow | src/server/server.rs:332-385 | a window of T ms carries at most T/16 + 1 frames to a session |
| Pacing.NeverSendsIff | src/server/server.rs:335-350 | a session is never sent a frame if and only if every capture offered to it comes sooner than the interval of its mode then allows after the previous one |
| Pacing.HeldModeSends | src/server/server.rs:335-350 | a session forced to a mode is sent exactly the frames whose times come at least that mode's interval after the tick before |
| Pacing.HeldModeSilentIff | src/server/server.rs:335-350 | it is sent nothing if and only if every frame that could be sent comes sooner than that, a condition on event times alone |
| Pacing.SteadyAllOrNothing | src/server/server.rs:335-350 | captures at a fixed pace give a session forced to a mode all frames if the pace is at least the mode's interval, and none otherwise |
| Pacing.SlowModeStarves | src/server/server.rs:314-350 | at every pace from 33 to 66 ms, which calls of the capture thread can produce, a session forced to Low or Minimal is sent no frame |
| Pacing.SlowedStarves | src/server/server.rs:335-350 | from any point of any run where a session is at Low or Minimal, forced or because its samples ask for it, ticks less than 66 ms apart send nothing and leave it there |
| Pacing.FallsSilent | src/common/quality.rs:184-229 | a run nobody interferes with: two captures of a still screen move the session to Low, and captures less than 66 ms apart then never reach it again |
| Pacing.StillScreenCapturable | src/server/screen_capture.rs:79-85 | calls of the capture thread that capture at the times of that run, for every pace from 33 ms on |
| Pacing.FastSilenceEnds | src/server/screen_capture.rs:79-85 | at Ultra, High and Medium, captures 33 ms apart cannot be skipped in a row more often than the nanoseconds the first one was late |
| Pacing.FirstSendWaits | src/server/server.rs:341-350 | while only captured frames reach a new session, its first frame goes out at least 33 ms after its creation |
| Pacing.ClientSession.constructor | src/server/server.rs:148-155 | a new session starts its interval at creation |
| Pacing.ClientSession.OfferFrame | src/server/server.rs:335-385 | one captured frame for one session: quality, interval test, message, metrics, queue |

## Left out

- FrameProcessing.FrameProcessor.constructor: requires the two rounding-up sums to fit in u32, because otherwise they panic or wrap depending on the build.
- FrameProcessing.FrameProcessor.CopyTileRow: requires a tile row whose u32 offset stays in range, for the same reason.
- FrameProcessing.FrameProcessor.CopyTileToFrame: requires a tile whose u32 offsets stay in range, for the same reason; `FrameProcessing.CutTilesInRange` shows tiles cut from a frame do.
- FrameProcessing.FrameProcessor.CopyTiles: requires tiles whose u32 offsets stay in range, for the same reason.
- FrameProcessing.FrameProcessor.ApplyDelta: requires tiles whose u32 offsets stay in range, for the same reason; `FrameRuns.MessagesAreSafe` shows the server's tiles do.
- FrameRuns.ClientScreen.Update: models frames at the codec's own interface; the compression of key frames and tiles and the H.264 path of the same message are not part of it.
- Framing.HandleClient: takes an arbitrary handler, which `ServerDispatch.Handle` instantiates; socket errors during a read, which end the loop like an abort, are not separate inputs.
- ServerDispatch.OutcomeExact: does not model a reply that cannot be queued because the writer has ended; in the protocol that is the error step.
- ServerDispatch.BytesFollowProtocol: speaks of clients that follow `connect`, and takes the session ids drawn while serving to be fresh, as everywhere; with a Disconnect or a failing input before the last frame it says how far the loop got but not that it took all.
- ProtocolSafety.EarlyFrameFails: the broadcast step carries no clock; that a new session is sent nothing for 33 ms is `Pacing.FirstSendWaits`.
- Wire.DecryptEncrypt: does not model a failing encryption; the code drops or reports such a message.
- ProtocolSafety.ModesAgree: the writer task's queue and the TCP stream are one first-in-first-out queue; a broken connection appears as an error step.
- Pixels.CaptureToScreen: takes the video codec to be the identity and arithmetic to be real.
- Audio.AudioBuffer.PopSlice: the wait for more samples before a pop is not modelled; the pop happens with whatever is buffered.
- Audio.AudioBuffer.TryShrink: keeps the timestamp of the last decision in the object, where the code shares one static between all buffers of the process; the wrap-around of the histogram counters after 2^64 appends is not modelled.
- Audio.AudioBuffer.ResizeTo: requires a positive rate, because with a rate of zero the next append divides by zero.
- Windows.MovingAverage.AddSample: requires a positive capacity, because with none the index is out of range.
- Pixels.Crop: does not compute the capacity hint of its buffer; `Pixels.CropCapacityInRange` is about that product.
- Keyboard.StepKeepsInv: takes an event as one step; `KeyboardRaces.MoveIff` splits it at its locks.
- Keyboard.TablesAgree: takes events as whole steps; `KeyboardRaces.TablesAgreeAtRest` is the same result with events split at their locks.
- Keyboard.EventDuringReleaseIff: takes its one event as a whole step, as above.
- Keyboard.Tracker.EventToKeyEvents: does not model the lock-key modifiers attached to the sent event, which come from platform state.
- Keyboard.Tracker.ReleaseRemoteKeys: runs with no event in flight; interleavings are covered by `Keyboard.Apply` and `KeyboardRaces.Moved`.
- KeyboardRaces.NeverForgetsIff: two threads, one grabbing and one releasing; several releases at once are not modelled.
- End-to-end delta frames through `capture_frame`: it compresses each tile, the client does not decompress tiles, and key frames are currently forced.
- Pacing.FastSilenceEnds: bounds a silence at Ultra, High and Medium by the delay of its first frame; how large that delay can get depends on the scheduler.
- A lower bound on the frame rate at every mode, and that the first message after the request is its answer: the code does not give these.
- Frame scaling: its caller is switched off.
- Reported size of odd-sized captures: the message carries the uncropped size.
- Translate and legacy keyboard modes, Windows AltGr handling, and lock-key modifiers: platform state that is not part of this model.
- `keyframe_interval`, `get_metrics`, performance counters and session tokens: plain tables and counters.
- QUIC transport, screen grabbing, input injection, user interface, and the rest of the bundled RustDesk tree: outside the modelled components.
