# A model of a libcurl multi-interface test driver

`main.c` is a small test driver for libcurl's multi interface. It issues
`max` requests one after another. Request `idx` uses entry `idx % 3` of a
fixed table of three requests. For each request it creates an easy handle
and releases the previous handle. It attaches the new handle to a single
multi session and drives that session until the transfer is done. The time
it waits for socket readiness comes from the engine's timeout suggestion.
Finally it detaches the handle. Two callbacks observe each transfer:

- The header callback scans every header chunk. When the chunk is the status
  line, it copies the three bytes after `HTTP/` into a 4-byte version buffer.
- The body callback adds each chunk's length to an `int` counter.

After the loop the last handle is released.

This project models and proves the following:

- `CTypes` (`ctypes.dfy`) gives the C machine semantics the code depends on:
  - `size_t` multiplication wraps modulo 2^64.
  - Conversion to `int` wraps modulo 2^32, as GCC does it.
  - `/` and `%` truncate.
- `HeaderSniffer` (`header_sniffer.dfy`) covers the header callback:
  - An imperative method over the caller's version buffer, kept as an
    `array`.
  - It is proved against a specification function `Sniff`.
  - Lemmas cover header fields, status lines, the NUL terminator, and a whole
    response (the last status line wins).
  - Models of `strncmp` and `strncpy` with their contracts.
- `DataSink` (`data_sink.dfy`) covers the body callback:
  - It is a method of a class holding the caller's `int written`.
  - It is proved to equal the wrapped total of the chunk sizes.
  - It is proved exact while that total fits in `int`.
- `Readiness` (`readiness.dfy`) covers the wait in the inner loop:
  - The conversion of the engine's millisecond suggestion into a
    `struct timeval`.
  - The descriptor count passed to `select`.
- `Fixtures` (`fixtures.dfy`) covers the request table and the cyclic
  `idx % 3` choice of fixture.
- `Batch` (`batch.dfy`) covers the outer loop:
  - A method that runs `max` requests and returns the trace of handle events.
    The events are create, attach, detach and release.
  - One automaton holds the handle rules, and lemmas prove that every run
    obeys them.
  - A completed run releases every handle exactly once.
  - An aborted run leaks exactly its current handle.
  - A completed run requests the fixtures in schedule order.

The libcurl engine itself is not modelled. For each transfer, driving it to
completion either finishes or makes `main` return early. A value of type
`Fault` names the iteration where the run stops, and which kind of call
fails there.

## Model

| member | source | states |
|---|---|---|
| CTypes.MulSize | main.c:38 | `size *= nmemb` in `size_t`: the exact product when it is below 2^64, and congruent to it modulo 2^64 always |
| CTypes.ToInt | main.c:58 | storing into `int`: a value in [-2^31, 2^31), congruent modulo 2^32 to the input, and the input itself when that fits |
| CTypes.ToIntAdd | main.c:58 | converting after every addition gives the same `int` as converting the exact total once |
| CTypes.CDiv | main.c:123 | C's `/`: the fractional part of the exact quotient is discarded, so `q * b <= a < q * b + b` with `q >= 0` for `a >= 0`, and `q * b - b < a <= q * b` with `q <= 0` for `a < 0` |
| CTypes.CRem | main.c:124 | C's `%`: quotient times divisor plus remainder is the dividend, and the remainder takes the dividend's sign |
| HeaderSniffer.IsSpace | main.c:44 | `isspace` in the C locale: true exactly for space, tab, newline, vertical tab, form feed and carriage return |
| HeaderSniffer.StopIndex | main.c:41-52 | the scan stops at the first colon or whitespace byte: none comes before the result, and the byte at the result is one (or the result is the chunk length) |
| HeaderSniffer.StopIndexUnique | main.c:41-52 | those properties determine the stop position uniquely |
| HeaderSniffer.StrNEqual | main.c:46 | `strncmp(a, b, n) == 0` holds whenever the first `n` bytes agree |
| HeaderSniffer.StrNEqualPrefix | main.c:46 | `strncmp(data, "HTTP/", 5) == 0` holds if and only if the chunk starts with `HTTP/` |
| HeaderSniffer.StrNCopy | main.c:47 | `strncpy(dst, src, 3)` writes exactly 3 bytes: `src[i]` until the first NUL of `src`, and NUL from there on |
| HeaderSniffer.HeaderCallback | main.c:36-54 | the callback consumes all `size * nmemb` bytes, and leaves the version buffer equal to `Sniff` of the chunk and the old buffer |
| HeaderSniffer.ColonFirstLeavesBuffer | main.c:41-43 | a colon before any whitespace (a header field) leaves the buffer unchanged |
| HeaderSniffer.NoStopLeavesBuffer | main.c:41-52 | a chunk with no colon and no whitespace leaves the buffer unchanged |
| HeaderSniffer.StatusLineWritesVersion | main.c:44-49 | for a status line (whitespace first, at least 8 bytes, `HTTP/` prefix), bytes 0..2 take `data[5..8]` with `strncpy`'s NUL padding, and the rest of the buffer is unchanged |
| HeaderSniffer.IsStatusLine | main.c:44-46 | the condition under which the callback copies a version: the scan stops at whitespace, not a colon, the chunk has at least 8 bytes, and it begins with `HTTP/`. `StrNEqualPrefix` ties the `strncmp` test to the prefix, `HeaderCallback` is proved against it through `Sniff`, and `StatusLineStopsAfterPrefix` shows such a scan stops after the prefix |
| HeaderSniffer.Sniff | main.c:41-52 | the callback's effect on the version buffer: no chunk changes the buffer's length or anything after byte 2, and a chunk that is not a status line changes nothing |
| HeaderSniffer.SniffKeepsTerminator | main.c:98-99 | the zeroed `char httpVersion[4]` stays NUL-terminated after any chunk |
| HeaderSniffer.SniffAll | main.c:97-100 | the version buffer of one request after the callback has run on each header chunk of its response in order. What it holds is stated by `SniffAllKeepsTerminator`, `SniffAllTakesLastStatusLine` and `SniffAllWithoutStatusLine` |
| HeaderSniffer.SniffAllKeepsTerminator | main.c:97-100 | it stays NUL-terminated over any sequence of header chunks |
| HeaderSniffer.SniffAllTakesLastStatusLine | main.c:44-49 | over a response, the buffer holds the version of the last status line, so an interim status line is overwritten |
| HeaderSniffer.SniffAllWithoutStatusLine | main.c:41-52 | chunks none of which is a status line leave the buffer unchanged |
| HeaderSniffer.StatusLineVersion | main.c:44-49 | a status line whose bytes 5..7 hold no NUL turns the zeroed buffer into exactly those three bytes followed by NUL |
| HeaderSniffer.Http11StatusLine | main.c:44-49 | `HTTP/1.1 200 OK` yields the version string `1.1` |
| HeaderSniffer.Http2StatusLine | main.c:44-49 | `HTTP/2 200` yields `2 2`: the version, the space, and the first digit of the status code |
| HeaderSniffer.HeaderFieldLine | main.c:41-43 | `Content-Type: text/html` leaves the buffer unchanged |
| HeaderSniffer.StatusLineStopsAfterPrefix | main.c:41-46 | in a status line, the scan stops after the `HTTP/` prefix and inside the chunk |
| HeaderSniffer.VersionToken | main.c:47 | corrected: the three bytes written are the NUL-padded version token, cut at three bytes |
| HeaderSniffer.SniffCorrected | main.c:44-49 | corrected: like `Sniff`, it keeps the buffer's length and everything after byte 2, and changes nothing for a chunk that is not a status line |
| HeaderSniffer.CorrectedWritesVersionToken | main.c:44-49 | corrected: byte `i` of the buffer is `data[5 + i]` while inside the version token and before any NUL, and NUL from there on |
| HeaderSniffer.CorrectedAgreesOnLongVersions | main.c:44-49 | when the version token has at least three bytes (`1.1`), the corrected copy and the code agree |
| HeaderSniffer.CorrectedHttp2StatusLine | main.c:44-49 | corrected, `HTTP/2 200` yields the version string `2` |
| DataSink.RunningTotals | main.c:58-59 | one reported counter value per chunk |
| DataSink.RunningTotalsArePrefixSums | main.c:58-59 | the counter after chunk `i` is the wrapped sum of chunks 0..i |
| DataSink.SumPrefixMonotone | main.c:58 | a longer prefix of the chunks never sums to less |
| DataSink.RunningTotalsExact | main.c:58-59 | while the total fits in `int`, the counter values are the exact prefix sums and never decrease |
| DataSink.ThreeChunks | main.c:58-59 | chunks of 100, 250 and 4096 bytes are reported as 100, 350 and 4446 |
| DataSink.BodyCounter.constructor | main.c:105 | `int written = 0`: the counter starts at 0 with no chunks counted, consistent with them |
| DataSink.BodyCounter.DataCallback | main.c:56-63 | the callback consumes `size * nmemb`, records that chunk, and makes the counter the `int` conversion of old counter plus chunk (exact when it fits), keeping the counter equal to the wrapped total of all chunks |
| DataSink.Transfer | main.c:56-63 | a fresh counter fed a body chunk by chunk through the callback takes exactly the running totals of the chunk sizes |
| DataSink.ThreeChunkTransfer | main.c:56-63 | a counter starting at 0 and fed 100, 250 and 4096 reads 100, 350 and 4446 |
| Readiness.WaitFor | main.c:119-125 | the timeval is normalized; a positive suggestion of `m` ms gives exactly `m * 1000` us; a suggestion of 0 or -1 gives the default of 1 ms |
| Readiness.WaitAtLeastOneMilli | main.c:121-125 | the computed timeout is never shorter than 1 ms |
| Readiness.WaitRoundTrip | main.c:122-125 | reading the wait back in milliseconds recovers a positive suggestion |
| Readiness.WaitForMillisOf | main.c:122-125 | every normalized whole-millisecond interval of at least 1 ms is the wait for its own length |
| Readiness.Watches | main.c:131 | the model of `select(nfds, ...)` that both `select` findings rest on: it examines exactly the descriptors 0..nfds-1, and nothing when there is no `select` call. `AsWrittenMissesHighestDescriptor`, `SoleSocketUnwatched` and `CorrectedWatchesReportedDescriptors` are stated in terms of it |
| Readiness.WaitAsWritten | main.c:116-134 | as written, `select` is called exactly when `maxFD > 0`, with descriptor count `maxFD` and the `WaitFor` timeout |
| Readiness.AsWrittenMissesHighestDescriptor | main.c:128-131 | as written, `select` never examines the highest descriptor reported, and with `maxFD <= 0` there is no wait at all |
| Readiness.SoleSocketUnwatched | main.c:128-131 | descriptor 5 with a 200 ms suggestion gives `select(5, ...)`, which does not examine descriptor 5 |
| Readiness.WaitCorrected | main.c:128-131 | corrected: `select` is called exactly when some descriptor is reported (`maxFD >= 0`), with descriptor count `maxFD + 1` and the `WaitFor` timeout |
| Readiness.CorrectedWatchesReportedDescriptors | main.c:128-131 | the corrected wait examines exactly the descriptors 0..maxFD |
| Fixtures.FixtureIndex | main.c:74-87 | the fixture index is always a valid table index, and is `idx` itself for the first three requests |
| Fixtures.FixtureCycle | main.c:87 | request `idx + 3` uses the same fixture as request `idx` |
| Fixtures.Schedule | main.c:86-87 | one fixture index per request |
| Fixtures.ScheduleAt | main.c:86-87 | request `idx` uses `requests[idx % 3]`, a valid entry |
| Fixtures.Repeat | main.c:74-80 | the table order repeated `k` times has `3k` entries |
| Fixtures.ScheduleWholeTable | main.c:86-87 | three requests started at a multiple of three go through the table once, in order |
| Fixtures.ScheduleCycles | main.c:86-87 | `3k` requests go through the table `k` times over, in table order |
| Batch.RunTrace | main.c:84-171 | the handle events of a whole run of `max` requests: none when the pipelining option fails, the iterations up to and including the failing one when a fault fires, and otherwise all `max` iterations followed by the release of the last handle. `RunBatch` is proved equal to it, and `RunObeysDiscipline`, `CompletedRunReleasesEachOnce`, `AbortedRunLeaksCurrentHandle` and `CompletedRunFollowsSchedule` state what it contains |
| Batch.RunBatch | main.c:81-174 | the run aborts exactly when pipelining setup fails or a fault fires in one of the `max` iterations, and its handle events are `RunTrace` |
| Batch.LoopTrace | main.c:86-169 | the handle events of iterations 0..n-1, one `IterationTrace` after another. `LoopObeysDiscipline`, `LoopReleases`, `LoopRequests` and `LoopTraceUntilFault` state what it contains |
| Batch.IterationTrace | main.c:87-163 | one iteration's handle events in order: create handle `idx`, release handle `idx - 1`, attach, detach, cut short by the fault; what they contain is stated by `IterationAttachesAndDetaches`, `IterationReleases` and `IterationRequests` |
| Batch.IterationAttachesAndDetaches | main.c:93-163 | iteration `idx` attaches its handle, configured for fixture `idx % 3`, exactly when its setup succeeds, and detaches it exactly when neither its setup nor the engine fails |
| Batch.IterationAttachesOnlyItsHandle | main.c:108 | every attach event of iteration `idx` attaches handle `idx`, configured for fixture `idx % 3` |
| Batch.LateFaultIsHarmless | main.c:86-169 | a fault in an iteration the run never reaches leaves the run unchanged |
| Batch.LoopTraceUntilFault | main.c:86-169 | the iterations before a fault behave as if there were no fault |
| Batch.ReplayThen | main.c:84-171 | checking the rules on two traces one after the other is checking them on the joined trace |
| Batch.IterationObeysDiscipline | main.c:88-163 | one iteration obeys the handle rules and ends with just its own handle live: detached when it completes, attached when the engine fails |
| Batch.LoopObeysDiscipline | main.c:84-169 | the fault-free iterations obey the rules and leave only the last handle live and nothing attached |
| Batch.RunObeysDiscipline | main.c:84-171 | every run obeys the rules: handles are created in order, none is attached while another transfer is attached, released while attached, released twice, or attached after release. A completed run ends with no live handle and none attached. An aborted run leaves exactly its current handle live, and attached too if the fault was in the engine |
| Batch.AbortedRunDiscipline | main.c:84-169 | the aborted case of `RunObeysDiscipline` |
| Batch.CompletedRunDiscipline | main.c:84-171 | the completed case of `RunObeysDiscipline` |
| Batch.ReleasedAppend | main.c:89-92 | the handles a joined trace releases are those of the first part, then those of the second |
| Batch.RequestedAppend | main.c:87-108 | the fixtures a joined trace requests are those of the first part, then those of the second |
| Batch.Upto | main.c:84-92 | handles 0..n-1 in creation order |
| Batch.UptoAt | main.c:84-92 | entry `i` of that list is handle `i` |
| Batch.IterationReleases | main.c:88-91 | iteration `idx` releases exactly the previous handle, `idx - 1` |
| Batch.IterationRequests | main.c:87-108 | iteration `idx` requests fixture `idx % 3` unless its setup fails |
| Batch.LoopReleases | main.c:86-169 | `n` fault-free iterations release handles 0..n-2 in order |
| Batch.CompletedRunReleasesEachOnce | main.c:84-171 | a completed run releases each of its `max` handles exactly once, in creation order |
| Batch.AbortedRunLeaksCurrentHandle | main.c:89-158 | a run aborted in iteration `k` has released handles 0..k-1 and never releases handle `k` |
| Batch.LoopRequests | main.c:86-108 | fault-free iterations request the fixtures of the schedule |
| Batch.CompletedRunFollowsSchedule | main.c:86-108 | a completed run requests `requests[idx % 3]` for idx = 0..max-1, in order |

## Left out

- The libcurl calls are left out, along with the inner `do ... while (!done)` loop that drives the engine (main.c:110-168). What they do to a transfer is reduced to "the transfer finishes" or "`main` returns early". The fault positions are covered by type `Fault`:
  - the pipelining option;
  - the easy options and `curl_multi_add_handle`;
  - `curl_multi_fdset`, `_timeout` and `_perform`, and `curl_easy_getinfo`.
- The error codes `main` returns are not modelled; only the fact that it returns early is.
- `select` and its `EINTR` retry are not modelled, since they are operating-system I/O. Only the arguments the loop computes for the call are modelled (module `Readiness`).
- All output is left out: `printf` and `fprintf`, including the progress line of the body callback and the per-request success or failure report.
- Whether a finished transfer succeeded is not modelled. Only the success branch calls `curl_easy_getinfo` (main.c:157-158), and that call can make `main` return early. `Fault.EngineFails` covers that early return, so the model over-approximates both outcomes: either one can complete the iteration, or abort the run while the handle is still attached.
- `atoi` is left out: `max` is a natural number.
- Only the contents of the HTTP/2, TLS-verification, URL and callback options are left out. Any one of those option calls can still fail the run (`Fault.SetupFails`).
- `curl_multi_init` and `curl_multi_cleanup` (main.c:81, 172) are left out; they do not touch easy handles.
- `curl_easy_init` returning NULL is not modelled. Every created handle is a valid handle.
- Handles are numbered in the order they are created. C can give a later handle the address of an earlier, released one; the model does not capture this.
- The file-scope `struct Request` (main.c:10-14) is left out because it is never used. The table uses the local struct of main.c:71-80.
- `HeaderSniffer.HeaderCallback`: on a platform where `char` is signed, a byte of 128 or more passed to `isspace` is undefined behaviour. The model reads header bytes as unsigned values 0..255 and uses the C locale's whitespace set.
- `HeaderSniffer.HeaderCallback`: like the source, it assumes the chunk holds the `size * nmemb` bytes it claims to hold.
- `DataSink.BodyCounter.DataCallback`: GCC's modulo-2^32 conversion to `int` is taken as the meaning of an overflowing counter. C leaves that conversion to the implementation.
- `Batch.Step`: the handle rules do not forbid attaching a detached handle again, and no lemma states that a whole run attaches each handle at most once. Per iteration, `Batch.IterationAttachesOnlyItsHandle` shows that every attach event names the iteration's own handle, and `Batch.IterationRequests` shows that an iteration has at most one attach event.
- `Readiness.WaitAsWritten`: when the engine reports no descriptor above 0, the code does not wait at all before calling `curl_multi_perform` again. The model follows the code: there is no 1 ms wait in that case.

## Findings

| source | as written | input that shows it | evidently intended | confidence | as-written member | corrected member |
|---|---|---|---|---|---|---|
| main.c:128-131 | `if (maxFD > 0) select(maxFD, ...)`. `curl_multi_fdset` reports the highest descriptor in use (or -1), and `select` examines descriptors 0..nfds-1, so the highest descriptor is never watched, and descriptor 0 leads to no wait at all | one transfer on descriptor 5 with a 200 ms engine timeout: `select(5, ...)` does not watch descriptor 5 and always runs for the full 200 ms | `if (maxFD >= 0) select(maxFD + 1, ...)` | not executed | Readiness.WaitAsWritten, Readiness.SoleSocketUnwatched | Readiness.WaitCorrected, Readiness.CorrectedWatchesReportedDescriptors |
| main.c:47 | `strncpy(httpVersion, data + 5, 3)` always copies three bytes after `HTTP/`, whatever the length of the version token | `HTTP/2 200\r\n`: the buffer reads `2 2` (the version, the space, and the first digit of the status code) | copy only the version token, NUL-padded: `2` | not executed | HeaderSniffer.Sniff, HeaderSniffer.Http2StatusLine | HeaderSniffer.SniffCorrected, HeaderSniffer.CorrectedHttp2StatusLine |
