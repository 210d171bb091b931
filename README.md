# go-paulstretch stream adapter, modelled in Dafny

go-paulstretch wraps libpaulstretch, a C engine that stretches audio, in a
pipe-like Go object, `Paulstretch`. The engine consumes and produces audio only
in whole windows of `windowSize` 32-bit float samples (`4 * windowSize` bytes).
The adapter turns this into byte streams:

- `Write` accepts byte slices of any length. It cuts the bytes it has staged
  plus the new data into whole windows for the engine, and keeps the tail
  (fewer bytes than a window) staged in `writeBuf` for the next call.
- `Read` hands out the output one destination slice at a time. It first
  serves the undelivered rest of the current output window (`readBuf[readOff:]`).
  Then it fetches the next output window from the engine. When no window is
  available it reports end of stream if the adapter is closed, and otherwise
  waits.
- `Close` is a one-way flag. After it, `Write` accepts nothing, and `Read`
  drains what is left and then reports end of stream.
- `WriteSamples`, `ReadSamples` and `OptimalBufferSize` are the sample-count
  versions of these calls.

The model has five modules:

- `Audio` (audio.dfy): bytes, samples, the status of a call (nil error,
  `io.EOF`, or a call that would wait), and window concatenation. It also
  holds the byte view of a sample slice, with both round trips proved.
- `Libpaulstretch` (engine.dfy): the engine as a class. It keeps a ghost log
  of every window submitted and a queue of output windows that
  `paulstretch_read` can hand back.
- `WriteStaging` (write_staging.dfy): what `Write` does to the byte stream.
  `Chunks` and `Remainder` cut the staged bytes plus the data into windows and
  a tail. The lemmas prove four things:
  - every window is exactly one window long;
  - the windows followed by the tail give back every byte;
  - there are `|s| / w` windows and `|s| % w` bytes left over;
  - a series of writes submits the same windows as one write of all its
    bytes.
- `ReadStaging` (read_staging.dfy): what `Read` does to the output stream.
  `ReadStep` is one call, and `ReadSeries` is a series of calls. The lemmas
  prove that no byte is lost or repeated, that every successful read into a
  non-empty destination delivers at least one byte, and that reads after `Close` deliver everything and then report
  end of stream.
- `Adapter` (adapter.dfy): the `Paulstretch` class with the fields of the Go
  struct (`writeBuf`, `writeOff`, `readBuf`, `readOff`, `closed`, the engine).
  `Write`, `Read` and their sample wrappers are proved against the
  specification functions above; the constructor, `Close` and
  `OptimalBufferSize` state their results directly.

Two things that other goroutines do become inputs of the model:

- A `Close` that lands while `Write` waits for the engine's permit is the
  `concurrentClose` parameter of `Write`. It gives the index, within the
  call, of the window whose wait sees the adapter closed.
- A `Read` that would wait for more output returns the status `WouldBlock`
  and changes nothing. The caller retries once the engine has more output
  (`Engine.Emit`) or the adapter is closed.

## Model

| member | source | states |
|---|---|---|
| Adapter.Paulstretch.constructor | paulstretch.go:57-73 | Both staging buffers hold `4 * windowSize` bytes, nothing is staged (`writeOff = 0`), nothing is pending for reading (`readOff = len(readBuf)`), the adapter is open and the engine has neither input nor output |
| Adapter.Paulstretch.Close | paulstretch.go:77-86 | Close sets `closed`, returns nil and changes nothing else, so a second Close is a no-op |
| Adapter.Paulstretch.Write | paulstretch.go:92-132 | Closed: `(0, EOF)` and no change. Close landing before window `k`: the first `k` windows of `Chunks(staged + data)` are submitted, the adapter is closed, nothing stays staged, EOF; for `k > 0`, `writeOff + n = k * W`; for `k = 0`, `n = 0` and the staged bytes are dropped. Otherwise: `(len(data), nil)`, all of `Chunks(staged + data)` submitted in order (`(writeOff + len(data)) / W` windows), `Remainder(staged + data)` staged (`writeOff` becomes `(writeOff + len(data)) % W`), and the submitted bytes followed by the staged bytes are the old staged bytes followed by `data` |
| Adapter.Paulstretch.SubmitWindows | paulstretch.go:97-124 | The loop submits exactly the windows `Chunks(staged + data)`, in order, up to the interrupting Close if there is one; with no Close, what is left afterwards (staged plus unused data) is `Remainder(staged + data)` |
| Adapter.Paulstretch.TakeWindow | paulstretch.go:98-108 | The window handed to the engine is the first `len(writeBuf)` bytes of staged bytes followed by data; `c = len(writeBuf) - writeOff` bytes of data are used, and `writeOff` becomes 0 |
| Adapter.Paulstretch.StageRest | paulstretch.go:126-130 | The leftover bytes are appended to the staged bytes |
| Adapter.Paulstretch.WriteSamples | paulstretch.go:138-147 | Has the effect of Write on the samples' bytes; the count reported is `n / 4`, and it equals the number of samples whenever the status is nil |
| Adapter.ByteView | paulstretch.go:198-203 | The byte view of a sample slice holds exactly the bytes of its samples |
| Adapter.Paulstretch.Read | paulstretch.go:153-191 | Status, bytes delivered (`data[:n]`), untouched `data[n:]` and the new pending/queue/closed view are exactly `ReadStep` of the old view for `len(data)`; when output was pending, `readOff` advances by `n`; the staged input bytes and the engine's input log are untouched |
| Adapter.Paulstretch.ServePending | paulstretch.go:154-158 | Copies `min(len(data), len(readBuf) - readOff)` pending bytes into `data` and advances `readOff` by that much |
| Adapter.Paulstretch.DeliverWindow | paulstretch.go:179-190 | Delivers `min(len(data), window)` bytes of a fetched window, and what did not fit becomes the pending `readBuf[readOff:]` |
| Adapter.Paulstretch.ReadSamples | paulstretch.go:197-206 | Has the effect of Read on the byte view of the samples: the samples' bytes become the delivered bytes followed by their old bytes, and the count is `n / 4`; the staged input bytes and the engine's input log are untouched |
| Adapter.StoreSamples | paulstretch.go:198-204 | Writing a byte view back gives samples whose bytes are exactly those bytes |
| Adapter.Paulstretch.OptimalBufferSize | paulstretch.go:211-213 | The result is the window size in samples, `len(readBuf) / 4` |
| Libpaulstretch.Engine.constructor | paulstretch.go:58 | A new engine takes windows of `4 * windowSize` bytes and has no input and no output yet |
| Libpaulstretch.Engine.Write | paulstretch.go:121 | The engine takes exactly one window, appended to its input log; its output is untouched |
| Libpaulstretch.Engine.Read | paulstretch.go:164 | The engine hands back its oldest output window (one full window), exactly when it has one |
| WriteStaging.ChunkSizes | paulstretch.go:97-113 | Every window submitted is exactly `len(writeBuf)` bytes |
| WriteStaging.Remainder | paulstretch.go:126-130 | The bytes left staged are fewer than a window, so `writeOff < len(writeBuf)` holds after every Write |
| WriteStaging.Reassembly | paulstretch.go:92-132 | The submitted windows followed by the staged tail are exactly the staged bytes followed by the data, so no byte is lost, reordered or duplicated |
| WriteStaging.ChunkCount | paulstretch.go:97 | `(writeOff + len(data)) / W` windows are submitted and `(writeOff + len(data)) % W` bytes stay staged |
| WriteStaging.AlignedInput | paulstretch.go:100-102 | With nothing staged, data of `k` whole windows is submitted as exactly those `k` windows and nothing stays staged |
| WriteStaging.NextWindow | paulstretch.go:97-108 | Each loop round takes the next window of the whole call's windows, and the rest cuts into the windows after it with the same tail |
| WriteStaging.CutPrefix | paulstretch.go:117-123 | A suffix that cuts into the windows from index `k` on, with the same tail, leaves exactly the first `k` windows before it |
| WriteStaging.StoppedAfter | paulstretch.go:117-123 | A Write stopped after `k` windows has used exactly the data bytes in those windows: `writeOff + n = k * W` |
| WriteStaging.ChunksAppend | paulstretch.go:92-132 | Cutting `s + t` equals cutting `s`, then cutting the tail of `s` followed by `t` |
| WriteStaging.ChunkingIndependent | paulstretch.go:92-132 | A series of successful Writes submits the same windows, and leaves the same bytes staged, as one Write of all their bytes |
| ReadStaging.ReadStep | paulstretch.go:153-191 | One Read: it waits exactly when nothing is pending, the destination is non-empty, the engine has no window and the adapter is open; it returns EOF exactly in the same situation on a closed adapter; neither changes anything; it never delivers more than the destination holds, and what it delivers is a prefix of the remaining output |
| ReadStaging.ReadStepConserves | paulstretch.go:153-191 | What one Read delivers, followed by what remains after it, is exactly what remained before it |
| ReadStaging.ReadStepProgress | paulstretch.go:153-191 | A successful Read into a non-empty destination delivers at least one byte (the engine's windows are non-empty), and the view stays free of empty windows |
| ReadStaging.ReadsReassemble | paulstretch.go:153-191 | Any series of Reads delivers a prefix of the output stream in order, and the rest remains |
| ReadStaging.DrainAfterClose | paulstretch.go:164-168 | After Close, enough Reads into non-empty destinations deliver every remaining byte and then report EOF; none waits |
| Adapter.OutputWindowsNonEmpty | paulstretch.go:179-185 | In every valid adapter state, each window the reader can still get from the engine is non-empty (a full window of `len(readBuf)` bytes) |
| Adapter.ClosedStreamDrains | paulstretch.go:153-191 | After Close, more Reads into non-empty destinations than bytes remain deliver, in order, every byte pending in `readBuf` or held by the engine, then report EOF; none waits |
| Adapter.ReadMakesProgress | paulstretch.go:153-191 | In every valid adapter state, a successful Read into a non-empty destination delivers at least one byte |
| Audio.SamplesRoundTrip | paulstretch.go:139-144 | Reading the samples back from their byte view gives the same samples |
| Audio.BytesRoundTrip | paulstretch.go:198-203 | Reading a whole-sample byte buffer as samples and back gives the same bytes |
| Audio.SampleCount | paulstretch.go:146 | `n / 4` is the number of whole samples in `n` bytes |

What Write guarantees, in three cases:

- On a closed adapter it returns `(0, EOF)` and changes nothing.
- If a Close lands before window `k`, only the first `k` windows are
  submitted, the adapter is closed, nothing stays staged, and the result is
  EOF. `n` counts just this call's bytes inside those windows: for `k > 0`,
  `writeOff + n = k * W`; for `k = 0`, `n = 0`, and the bytes staged before
  the call are dropped without reaching the engine.
- Otherwise the result is `(len(data), nil)` and:
  - exactly the windows `Chunks(staged + data)` are submitted, in order;
  - `Remainder(staged + data)` stays staged;
  - the window count is `(writeOff + len(data)) / W`;
  - `writeOff` becomes `(writeOff + len(data)) % W`.

What one Read (`ReadStep`) does, in order of the checks:

- If output is pending, it delivers `min(room, pending)` bytes of it and
  returns nil.
- If the destination is empty, it returns `(0, nil)`.
- If the engine has a window, it delivers the first `min(room, W)` bytes and
  keeps the rest pending.
- If the adapter is closed, it returns `(0, EOF)`.
- Otherwise it would wait.

The wait and EOF cases hold exactly when their conditions hold, and neither
changes anything.

## Left out

- Locking: the mutex and condition variable (`rwCond`, `Lock`, `Signal`,
  `Wait`) are left out because the model is sequential. The writer and the
  reader are modelled one call at a time.
- The write-permit channel `writePermit` is left out: its send at
  construction, the receive before each submission, its close in `Close` and
  the reader's opportunistic send while it waits (lines 170-174). Each
  submission is assumed to get its permit. Without another goroutine, the
  second submission of one Write would otherwise wait forever.
- Blocking reads: `Read`'s wait for more output is reported as the status
  `WouldBlock` with no change of state. The caller's retry stands for the
  loop at lines 165-177.
- A concurrent `Close` is modelled only where it changes Write's result: while
  Write waits for a permit. That is the `concurrentClose` parameter. A Close
  that lands after the last permit wait is the caller's next call.
- `runtime.SetFinalizer` and `paulstretch_destroy` are left out: memory
  reclamation has no observable effect on the stream.
- The stretching algorithm inside libpaulstretch is left out because it is C
  code. The model does not say which output windows the engine produces from
  which input windows. `Engine.Emit` stands for the engine making one more
  output window available. The stretch factor is stored but has no effect.
- The `unsafe`/`reflect.SliceHeader` reinterpretation of float32 slices as
  bytes is modelled by copying into a fresh byte array (`ByteView`) and back
  (`StoreSamples`). Aliasing between the two views is not captured. Float
  values are kept as their four bytes; nothing looks at them.
- Adapter.Paulstretch.ReadSamples requires the sample array to be neither
  the adapter's `readBuf` nor its `writeBuf`. In Go both buffers are
  unexported, so no caller can pass them.
- Adapter.Paulstretch.Read requires the destination to be neither `readBuf`
  nor `writeBuf`, for the same reason.
- Adapter.Paulstretch.WriteSamples and Adapter.Paulstretch.ReadSamples
  require a non-empty slice, because Go panics at `&samples[0]` (lines 140,
  199).
- Adapter.Paulstretch.constructor requires `windowSize > 0` and
  `stretchFactor >= 1.0`.
  - The second is documented at line 50.
  - With `windowSize = 0`, Write on an open adapter never returns success
    (on a closed one it returns `(0, EOF)` first, at lines 93-94). It panics
    on empty data (`&buf[0]`, line 110). After taking the permit, it panics
    on 1-3 bytes (`&samples[0]`, line 121). For 4 bytes or more it submits
    zero-length windows in a loop, waiting for a permit before each one,
    until a Close makes it return EOF.
  - The documented recommendation `windowSize >= 128` is not enforced by the
    code, and the model does not enforce it either.
- A failed `paulstretch_create` is not modelled. The Go code does not check
  the engine handle it gets back, so no construction error is reported.
- When nothing is staged, Write passes the engine a pointer into `data`, and
  the engine reads one window from it. The model passes `data[:W]`.
- Stale bytes in `readBuf[:readOff]` are not tracked. Read never returns
  them.
- example/simple/main.go is not part of this model.
