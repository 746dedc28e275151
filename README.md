# Storage client of gitpods, modelled in Dafny

The front end of gitpods reaches the repositories on its storage node
through one client, `pkg/storage/client.go`. This project models that
client's own logic:

- the two remote git executions, `UploadPack` (fetch) and `ReceivePack`
  (push). Each opens a bidirectional stream, sends an init frame naming the
  repository, then receives frames. A frame's stderr bytes go to the
  caller's stderr writer and then its stdout bytes to the stdout writer,
  until a frame carrying an exit status or the end of the stream;
- the unary lookups `Branches`, `Commit` and `Tree`, which copy wire
  records into the client's own records.

Files:

- `storage.dfy` (module `Storage`): frames, the scripted behaviour of the
  storage node on one call (`Session`: open error, init-send error, the
  frames `Recv` yields, and the error that ends the stream), wire replies
  and domain records. Exit codes are `int32`, dates `int64` Unix seconds.
- `sinks.dfy` (module `Sinks`): the caller's `io.Writer`s. A writer either
  accepts every write or refuses every write after a given number of
  successful ones. The class `Sink` holds a writer's bytes and is updated
  in place by `Write`. `stdout` and `stderr` may be the same writer; the
  value `SinksOf(stdout, stderr)` is then `Shared`.
- `pack_spec.dfy` (module `PackSpec`): `UploadLoop` and `ReceiveLoop` are
  the receive loops as functions over the list of frames. Beside them is a
  declarative account. `Requests` lists the writes requested by the frames
  before the first exit frame. `DeliverAll` delivers all of them whatever
  each write returns. `DeliverUntilFailure` stops at the first refused
  write. The lemmas tie the loops to this account and derive the client's
  promises from it.
- `pack_exchange.dfy` (module `PackExchange`): `UploadPack` and
  `ReceivePack` as imperative methods. Each has a `while` loop shaped like
  the Go `for ; err == nil; resp, err = stream.Recv()` loop, including its
  first pass over a nil response. Each writes through the `Sink` objects
  and is proved equal to the matching specification function.
- `metadata.dfy` (module `Metadata`): `Branches` and `Tree` as loops that
  append one record per wire entry; `Commit` as a function.

Behaviour of the code worth knowing:

- A failed init send returns `(0, nil)`; the error is dropped
  (client.go:167-169, 225-227).
- Only `ReceivePack` stops on a refused write. `UploadPack` ignores what
  its writes return.
- In `ReceivePack`, a write error is checked against `io.EOF` after the
  loop, like a receive error. A writer that returns `io.EOF` therefore ends
  the call as a success `(0, nil)`. `Settle` models this check.
- Returning from an exit frame does not wait for the stdin sender.

## Model

| member | source | states |
|---|---|---|
| `PackExchange.UploadPack` | pkg/storage/client.go:155-210 | the returned code and error, and the final bytes of both writers (aliased or not), are exactly `UploadPackRun` of the session and the writers' initial state |
| `PackExchange.ReceivePack` | pkg/storage/client.go:213-272 | the returned code and error, and the final bytes of both writers (aliased or not), are exactly `ReceivePackRun` of the session and the writers' initial state |
| `PackSpec.UploadLoopReference` | pkg/storage/client.go:189-209 | UploadPack's loop returns the first exit status as it is (0 without one), no error after an exit frame and the settled end-of-stream error otherwise, and leaves the writers as if every request before the first exit frame were delivered, ignoring refusals |
| `PackSpec.ReceiveLoopReference` | pkg/storage/client.go:247-271 | ReceivePack's loop delivers requests up to the first refused write and then returns 0 with that write's settled error; with no refusal it returns 1 for a nonzero first exit status, 0 otherwise, and the stream's error |
| `PackSpec.UploadPackSetup` | pkg/storage/client.go:162-169 | a stream that cannot be opened returns `(0, err)`; an init frame that cannot be sent returns `(0, nil)`; nothing is written |
| `PackSpec.ReceivePackSetup` | pkg/storage/client.go:220-227 | a stream that cannot be opened returns `(0, err)`; an init frame that cannot be sent returns `(0, nil)`; nothing is written |
| `PackSpec.UploadPackExitStatus` | pkg/storage/client.go:189-195 | with a first exit frame at k, UploadPack returns that frame's status K (nonzero or zero) with no error, and the writers get only the requests of frames before k |
| `PackSpec.UploadPackStreamEnd` | pkg/storage/client.go:203-209 | without an exit frame UploadPack returns code 0, no error exactly when the stream ended with io.EOF, the receive error otherwise, after delivering every frame's requests |
| `PackSpec.UploadPackIgnoresWrites` | pkg/storage/client.go:196-201 | UploadPack's code and error are the same whatever the writers do |
| `PackSpec.ReceivePackAsUpload` | pkg/storage/client.go:247-253 | when no write is refused, ReceivePack's outcome equals UploadPack's with any nonzero code replaced by 1 |
| `PackSpec.ReceivePackExitStatus` | pkg/storage/client.go:248-253 | when no write is refused, a first exit frame with nonzero status gives `(1, nil)`, one with status 0 gives `(0, nil)`, and nothing of that frame or later is written |
| `PackSpec.ReceivePackWriteFailure` | pkg/storage/client.go:254-271 | when request j is the first refused write, ReceivePack returns code 0 and that write's error (nil when it is io.EOF), and the writers hold exactly the requests before j |
| `PackSpec.ReceivePackHealthy` | pkg/storage/client.go:254-263 | with writers that never refuse, ReceivePack's outcome equals UploadPack's with any nonzero code replaced by 1 |
| `PackSpec.PackOutputSeparate` | pkg/storage/client.go:196-201 | with two healthy writers, both calls leave stdout holding the concatenation of the stdout chunks and stderr that of the stderr chunks of the frames before the first exit frame, in receive order |
| `PackSpec.PackOutputShared` | pkg/storage/client.go:254-263 | with one healthy writer used for both, both calls leave it holding, frame after frame up to the first exit frame, each frame's stderr bytes followed by its stdout bytes |
| `PackSpec.LaterFramesIgnored` | pkg/storage/client.go:247-253 | replacing everything after the first exit frame, and the way the stream ends, changes neither call's outcome |
| `PackSpec.DeliverUntilFailureStops` | pkg/storage/client.go:255-262 | delivery that meets its first refused write at request j reports that write's error and delivers nothing after it |
| `PackSpec.FirstExit` | pkg/storage/client.go:190 | the position found has an exit status and no earlier frame has one, or no frame has one |
| `Metadata.Branches` | pkg/storage/client.go:68-85 | on a response, one branch per wire branch, in the same order, with name, hash and kind copied, and no error |
| `Metadata.Commit` | pkg/storage/client.go:88-120 | on an RPC error, Go's zero Commit and that error; otherwise no error and a commit that maps back field for field to the wire record, its author and committer dates being the wire's Unix seconds |
| `Metadata.Tree` | pkg/storage/client.go:123-152 | on an RPC error, no entries and that error; otherwise one entry per wire entry, in the same order, with mode, kind, object hash and path copied, and no error |

## Left out

- The stdin sender goroutine (client.go:173-184, 231-242): its
  concurrency, `io.Copy`, the chunking done by the external `streamio`
  writer, `CloseSend` and `wg.Wait`. The code drops the sender's errors,
  so they cannot affect the result anyway. The model covers the receive
  loop only.
- Context cancellation and deadlines: the client adds none of its own.
- `NewClient`: gRPC dialing and interceptors are I/O.
- The OpenTracing spans in every method: they have no observable result.
- `Create` and `SetDescription`: each returns the RPC's error unchanged and
  has no other logic.
- Metadata.Branches: its requires excludes a failed RPC. On that path
  client.go:73-76 reads the branch list of a nil response, which panics in
  Go.
- Partial writes: a refused write appends nothing, although an `io.Writer`
  may write part of its input before failing.
- Writers that refuse and later accept again are not modelled. Such a
  writer would change only what UploadPack leaves in it, since ReceivePack
  stops at the first refusal.
- `time.Unix`: dates stay integer Unix seconds, with no time zone. Go's
  zero `time.Time`, in the zero Commit, is -62135596800 seconds.
- The generated wire types are not part of this model. Their text fields
  (including tree-entry mode and kind) are taken as strings, their dates as
  int64. An empty byte field stands for an absent one. Go's nil slice and
  empty slice are both the empty sequence.
