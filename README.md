# miroir in Dafny

`miroir.go` splits one single-pass `io.Reader` into two readers. Each of the two
readers sees the whole stream, independently of how the two are interleaved and
of the read sizes. `NewMiroir` wraps the input in an `io.TeeReader` that copies
every byte it pulls from upstream into a shared `bytes.Buffer`. It then returns two
`reader`s that share one `miroir` and each keep a position `pos`.

A call `miroir.read(start, p)` has two paths:

- **Buffer hit** (`start < buf.Len()`): it copies from the buffer with `ReadAt`. When
  the buffer runs out before `p` is full, it asks the tee for the rest of `p`, and the
  result is the sum of both counts with upstream's error.
- **Frontier** (otherwise): it reads from the tee directly.

`reader.Read` calls `miroir.read` at its own `pos` and advances `pos` by the count
returned, even when an error comes back with it.

The model has four modules:

- `Upstream` (upstream.dfy): the upstream reader.
  - `src` is every byte it will ever produce.
  - A *response policy* decides, from (reads so far, bytes handed out so far, bytes
    asked for), how many bytes to hand out and which status to report: `Ok` (nil),
    `Eof` (io.EOF) or `Fail(code)` (any other error).
  - `Honest` is the reader contract the miroir relies on.
  - `StringsReader`, `HalfReader` and `FailAfter` are the upstreams the repository's
    tests use.
  - `Source` is the reader object. Its `Read(p, off)` plays `Read(p[off:])`.
- `Miroir` (miroir.dfy): the value-level specification and the objects.
  - `Tee` is one read through the tee.
  - `Serve` is one call of `miroir.read` on a `Snapshot` of the shared state (upstream
    position, upstream read count and buffer).
  - The lemmas state what one call does.
  - The classes `Miroir` and `Reader` and the method `NewMiroir` are the Go objects.
    Their methods change fields in place and are proved equal to `Serve`.
- `Interleaving` (interleaving.dfy): any sequence of calls by the two readers, each
  call one atomic step (the mutex serialises whole calls), and what holds over
  whole runs.
- `Scenarios` (scenarios.dfy): the three read sequences of `TestInterleaved` and the
  injected-error test `TestError`, over any nine-byte string such as "foobarbaz".

The model follows `miroir.go` where the test file differs from it. The tests call
`miroir.New` and `Close`, but the code defines `NewMiroir` and no `Close` (see Left
out). One boundary of the code is kept as written: a call at `start == buf.Len()`
with an empty `p` takes the frontier path and still makes an upstream read.
`ReadAt`'s io.EOF without a short copy cannot occur, so the `err = nil` branch of the
buffer-hit path (miroir.go:39) is modelled as the full-hit case, where the call
succeeds.

## Model

| member | source | states |
|---|---|---|
| Upstream.StringsReader | mirori_test.go:79 | strings.NewReader keeps the reader contract: it fills as much of the request as remains with no error, and reports io.EOF with no bytes once nothing remains |
| Upstream.HalfReader | mirori_test.go:105 | iotest.HalfReader over strings.Reader keeps the reader contract and hands out half the request, rounded up, of what remains |
| Upstream.FailAfter | mirori_test.go:186-198 | errorAfterNCalls keeps the reader contract: its first `calls` reads are strings.Reader's, and every later read fails with the injected error and hands out nothing |
| Upstream.Source.constructor | miroir.go:10 | an upstream reader that has handed out nothing and served no reads |
| Upstream.Source.Read | miroir.go:36 | a `Read(p[off:])` writes exactly the next `n` bytes of the stream into `p[off:off+n]`, leaves the rest of `p` alone, advances by `n` and counts one read; `n` and the status are the policy's reply |
| Miroir.Tee | miroir.go:13 | one read through the tee never moves upstream backwards or past the end of the stream, and hands out no more than asked |
| Miroir.Serve | miroir.go:25-45 | one call of `miroir.read` never moves upstream backwards or past the end of the stream, and returns no more than `len(p)` bytes |
| Miroir.ServeKeepsTee | miroir.go:13 | tee invariant, on every path: after a call the buffer is still exactly what upstream has handed out, it only grows, and it grows by exactly that call's upstream bytes |
| Miroir.UpstreamTouchedUnlessFullHit | miroir.go:29-44 | a full buffer hit leaves upstream and the buffer unchanged; every other call makes exactly one upstream read |
| Miroir.FullBufferHit | miroir.go:29-41 | if `start < buf.Len()` and `start + len(p) <= buf.Len()`, the call returns `buf[start:start+len(p)]`, all of `p`, with a nil error, and changes nothing |
| Miroir.PartialBufferHit | miroir.go:32-37 | if `start < buf.Len() < start + len(p)`, the call returns the buffered bytes from `start`, then what upstream hands out for the remaining space; the count is the sum, the status is upstream's and the buffer grows by upstream's bytes |
| Miroir.FrontierRead | miroir.go:42-44 | if `start >= buf.Len()`, the call returns upstream's count, bytes and status unchanged |
| Miroir.ServesStream | miroir.go:25-45 | per-call correctness: a reader at a position the buffer has reached gets `src[start:start+n]`, whichever reader is ahead, and ends at a position the buffer has reached |
| Miroir.EofOnlyWhenDrained | miroir.go:35-37 | the call reports io.EOF only if the reader's new position is the end of the stream |
| Miroir.EofCompletesStream | miroir.go:35-37 | a call that reports io.EOF hands the reader everything from its position to the end of the stream |
| Miroir.DrainedReaderGetsNothing | miroir.go:42-44 | a reader that has drained the stream gets no bytes and never a success; the status is its own upstream attempt's, and the buffer is unchanged |
| Miroir.LastBufferedBytes | miroir.go:32-37 | a read that drains the last buffered bytes while upstream is exhausted returns those bytes with upstream's status, never a success: `(k, EOF)` over a reader that reports io.EOF |
| Miroir.FailureNotReplayed | miroir.go:36-37 | upstream errors are not cached: a failed upstream attempt with no bytes leaves the buffer unchanged, and the next call at the same position, by either reader, makes its own upstream attempt and gets that attempt's outcome |
| Miroir.Miroir.constructor | miroir.go:11-15 | the shared state starts with an empty buffer over an upstream that has handed out nothing |
| Miroir.Miroir.TeeRead | miroir.go:13 | `m.r.Read(p[off:])` through the tee appends what upstream handed out to the buffer, equals `Tee` on the prior state and leaves the rest of `p` alone |
| Miroir.Miroir.CopyFromBuffer | miroir.go:30 | `ReadAt(p, start)` copies `min(len(p), buf.Len() - start)` bytes, `buf[start:start+n]`, into `p` |
| Miroir.Miroir.ReadRest | miroir.go:35-37 | `m.r.Read(p[n:])` after `n` buffered bytes keeps them in place and adds upstream's bytes and count behind them, with upstream's status |
| Miroir.Miroir.ReadBuffered | miroir.go:29-41 | the buffer-hit path does exactly what `Serve` says and leaves `p` beyond `n` alone |
| Miroir.Miroir.Read | miroir.go:25-45 | `miroir.read` keeps the tee invariant, equals `Serve` on the prior state, only grows the buffer and, from a position the buffer has reached, writes `src[start:start+n]` into `p` |
| Miroir.Reader.constructor | miroir.go:16 | a reader at position 0 that has been handed nothing |
| Miroir.Reader.Read | miroir.go:52-56 | `reader.Read` equals `Serve` at `pos`, advances `pos` by exactly `n` (errors included), writes `src[pos:pos+n]` into `p`, keeps `pos <= buf.Len()`, and everything the reader has been handed is `src[:pos]` |
| Miroir.NewMiroir | miroir.go:10-17 | two distinct fresh readers over one fresh shared state on the given upstream, with an empty buffer and both readers at 0 |
| Interleaving.Step | miroir.go:52-56 | one call by either reader leaves upstream within the stream |
| Interleaving.Run | mirori_test.go:78-99 | a sequence of calls by the two readers leaves upstream within the stream |
| Interleaving.StepConsistent | miroir.go:52-56 | one call keeps both readers within the buffer, advances the caller by the count it was handed and gives it the stream from its position; the other reader does not move |
| Interleaving.RunDeliversStream | miroir.go:25-56 | over any interleaving and any read sizes, each reader is handed exactly the stream between where it stood and where it ends, positions only grow, and the buffer stays what upstream handed out |
| Interleaving.ReadersSeePrefixes | miroir.go:10-56 | from NewMiroir on, what each reader has been handed is a prefix of the stream, and the buffer is exactly upstream's output |
| Interleaving.EofMeansWholeStream | miroir.go:35-44 | a reader whose call reports io.EOF has been handed the whole stream, whatever the other reader did |
| Interleaving.EofRepeats | mirori_test.go:71-74 | end of stream repeats, per side: after io.EOF, every later call by the same reader gets no bytes and no success, with the status of an exhausted upstream (io.EOF for strings.Reader), whatever the other reader did in between |
| Scenarios.StringsReaderServe | miroir.go:25-45 | over strings.Reader a call returns as much of the stream from `start` as fits; io.EOF comes exactly when a call that is not a full hit finds upstream exhausted; and the buffer reaches the furthest position read |
| Scenarios.StepOverString | miroir.go:52-56 | one call over strings.Reader, with the caller's bytes, status, new buffer, upstream read count and both positions given in closed form |
| Scenarios.ReplayedAnswers | mirori_test.go:80-98 | a run spelled out state by state hands back, call by call, the answers it lists |
| Scenarios.LeftLeadsByOneStates | mirori_test.go:47-56 | first interleaving table: the shared state and both positions after each call, and each call's bytes and status |
| Scenarios.LeftLeadsByOne | mirori_test.go:47-56 | first interleaving table: the calls return foo, foo, bar, baz, then `("", EOF)` to left, and bar, baz, then `("", EOF)` to right |
| Scenarios.LeftDrainsFirstStates | mirori_test.go:57-66 | second interleaving table: the shared state and both positions after each call, and each call's bytes and status |
| Scenarios.LeftDrainsFirst | mirori_test.go:57-66 | second interleaving table: left reads foo, bar, baz, `EOF`; right then reads foo, bar, and its read of 4 returns `("baz", EOF)`, then `("", EOF)` |
| Scenarios.MixedSizesStates | mirori_test.go:67-75 | third interleaving table: the shared state and both positions after each call, and each call's bytes and status |
| Scenarios.MixedSizes | mirori_test.go:67-75 | third interleaving table: reads of 3, 6 and 10 bytes, partly buffered and partly from upstream, return foo, foobar, barbaz, then io.EOF (with baz for right) |
| Scenarios.ErrorAfterOneCallSteps | mirori_test.go:153-184 | injected-error test as four `Serve` steps: right is served foo from the buffer after left's failed attempt, and its own upstream attempt fails again |
| Scenarios.ErrorAfterOneCall | mirori_test.go:153-184 | injected-error test on the objects: left gets foo then the error, right gets foo then the error |

## Left out

- The `sync.Mutex` and `TestConcurrent` (mirori_test.go:102-119): each call is one atomic step, because the lock serialises whole calls. Real concurrency is not modelled.
- `Close`: the tests call `left.Close()`/`right.Close()` and `miroir.New`, but `miroir.go` defines only `NewMiroir` and has no `Close`. `Close` is not part of this model.
- `bytes.Buffer`, `bytes.Reader.ReadAt` and `io.TeeReader` internals: the buffer is a `seq` of bytes, ReadAt is a copy out of it, and the tee is an append after each upstream read.
- `strings.Reader` and `iotest.HalfReader` internals: they become response policies, and `randomString` with `math/rand` is not modelled.
- `io.ReadAll` and `TestReadAll`: its loop is not modelled. `Interleaving.ReadersSeePrefixes` and `Interleaving.EofMeansWholeStream` cover what it relies on for any sequence of reads.
- No scenario uses `HalfReader`: `TestConcurrent`, its only user, is left out.
- Error values: an error is `Fail(code)`. The test's identity comparison with the injected error becomes equality of codes.
- Upstream.Source.Read: a Go reader may use `p` beyond `n` as scratch space. The model assumes it writes only the bytes it hands out.
- Upstream.Honest: also assumes that an exhausted upstream never reports success again, and that its reply depends only on its read count, position and the request size.
- Miroir.NewMiroir: requires an upstream that has handed out nothing. A reader already partly consumed is the same thing with `src` starting at its current position.
- Go's `int` for `pos`, `start` and counts is `nat`: overflow past 2^63 is not modelled.
- Scenarios.LeftLeadsByOne, Scenarios.LeftDrainsFirst, Scenarios.MixedSizes: they check each call's bytes and status the way the tests do, and say which bytes rather than comparing with string literals. "foobarbaz" is one nine-byte `src`.
