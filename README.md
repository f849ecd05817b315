# GM1356 sound-level meter reader, modelled in Dafny

`splread` talks to a GM1356 USB sound-level meter over HID. It finds the one meter
among the enumerated HID devices (vendor 0x64bd, product 0x74e3) and opens it. It
sends a CONFIGURE request selecting the 50-100 dB band, fast response and A-weighting,
and waits for the acknowledgement. It then loops: send a CAPTURE request, read the
8-byte answer within 500 ms, and decode the level, weighting, response speed and band.
A timed-out answer skips the pass. Any other failure ends the program, and the device
is closed on the way out.

The model keeps the protocol logic and replaces everything outside it with inputs:

- `hid.dfy` (module `Hid`) holds the shared vocabulary:
  - the result codes;
  - the enumeration records;
  - the scripted read outcomes;
  - the trace of hidapi calls that each operation returns. The trace is what "no read
    after a failed send", "the list is released" and "closed once" are stated about.
- `codec.dfy` (module `Codec`) has the CONFIGURE and CAPTURE requests, the flags byte
  and the decoding of a measurement report.
- `locator.dfy` (module `Locator`) is `splread_find_device`:
  - the enumeration is a sequence of `(vendor, product, serial)` records, and the empty
    sequence is the NULL list;
  - whether `hid_open` succeeds is a boolean input.
- `transport.dfy` (module `Transport`) has `splread_send_req` and `splread_read_resp`:
  - the count `hid_write` reports is an input;
  - each `hid_read_timeout` call, with the clock reading taken after it, is one entry of
    a read script. An entry is either a failed read or a chunk of bytes plus the
    nanoseconds elapsed since the loop started.
- `driver.dfy` (module `Driver`) has `splread_set_config`, one pass of the poll loop,
  the loop itself, and the session `main` runs from the device lookup to the close.
  The loop gets one scripted pass per iteration; `app_running()` stays true until the
  last scripted pass is done.

Imperative code stays imperative:
- The device walk and the read loop are `while` loops. Each is proved equal to a
  recursive specification function (`CountMatches`/`Target`, `ReadFrom`).
- The CONFIGURE buffer is an `array` filled in place.
- The poll loop is a method proved equal to `PollFrom`. Lemmas about that function
  state what the loop promises.

The decoding is pure and stays as functions with lemmas.

Facts of splread.c the model keeps:
- fast mode is bit 6 (0x40) and C-weighting is bit 4 (0x10), so a flags byte of 0x52
  means fast, C-weighted, 50-100 dB (`Codec.DecodeExample`);
- a non-empty list in which no device matches the serial filter returns `A_E_EMPTY`;
  an empty list returns `A_E_NOTFOUND`, so the reader's unfiltered lookup never returns
  `A_E_EMPTY`;
- the level is in tenths of a decibel;
- the poll loop's read budget is a fixed 500 ms.

`Driver.PollCycle` is the method that sends CAPTURE from its own report buffer and
calls `Transport.ReadResp`. `CycleOutcomeOf` and `CycleCalls` are its specification,
which the function `PollFrom` and the lemmas about the loop use, since a function
cannot call a method.

## Model

| member | source | states |
|---|---|---|
| Codec.ConfigureFlagsMeaning | splread.c:203-212 | the CONFIGURE flags byte equals range + 64·fast + 16·dbc, and no bit outside the range nibble, 0x40 and 0x10 is set |
| Codec.ConfigureFlagsRoundTrip | splread.c:19-29 | reading a CONFIGURE flags byte with the range mask and the 0x40/0x10 bits gives back the range, fast and dbc it was built from |
| Codec.ConfigureFlagsInjective | splread.c:203-212 | different configurations (range ≤ 4) give different flags bytes |
| Codec.RequestsDistinct | splread.c:197-212 | CONFIGURE and CAPTURE are 8 bytes, start with 0x56 and 0xb3, and are never equal |
| Codec.DefaultConfigureBytes | splread.c:264 | the start-up request (50-100 dB, fast, A-weighted) is 56 42 00 00 00 00 00 00 |
| Codec.ParseFlagsMeaning | splread.c:285-291 | the range is the low nibble of byte 2, fast is bit 6 and C-weighting is bit 4 |
| Codec.DecodeRange | splread.c:286-291 | a range nibble is unknown exactly when it is above 4; otherwise it is the table entry at that index |
| Codec.RangeLabel | splread.c:34-40 | the printed band is "UNKNOWN" exactly when the range is above 4; otherwise it is one of the five table names, so the index is always below 5 |
| Codec.RangeLabelNamesBand | splread.c:286-291 | the printed range text is the name of exactly the band the range value decodes to, "UNKNOWN" above 4 |
| Codec.RangeDecodeTotal | splread.c:286-291 | every 4-bit range value decodes: 0 to 4 to five different bands, 5 to 15 to unknown, and the label agrees |
| Codec.LevelBigEndian | splread.c:284 | the level is byte 0 · 256 + byte 1, below 65536 |
| Codec.DecodeMeaning | splread.c:284-291 | each field of a decoded 8-byte report in terms of the report's bytes, for every report |
| Codec.DecodeSeparatesFields | splread.c:284-291 | a report carrying a level and a CONFIGURE-style flags byte decodes to that level and configuration whatever bytes 3 to 7 hold |
| Codec.DecodeExample | splread.c:284-291 | 1f 40 52 … decodes to 8000 tenths of a dB, fast, C-weighted, 50-100 dB |
| Transport.TimeoutNs | splread.c:152-153 | the budget is exactly the timeout in nanoseconds: a multiple of 10^6 whose quotient is the timeout; it fits in 64 bits and does not wrap |
| Transport.SendReq | splread.c:124-144 | a send succeeds exactly when the write reports 8 bytes; any other count is `A_E_INVAL` |
| Transport.ReadFrom | splread.c:161-176 | the read loop ends in OK with exactly 8 bytes, in `A_E_INVAL` on the failed read that stopped it, or in `A_E_TIMEOUT` after a read past the budget |
| Transport.ReadResp | splread.c:146-190 | the read loop computes exactly `ReadFrom` on its script |
| Transport.ReadReturnsReceived | splread.c:161-169 | the bytes a read loop returns are the chunks its reads delivered, in the order they arrived |
| Transport.ReadOutcomeIff | splread.c:161-176 | the loop succeeds iff some read it reaches brings the count to exactly 8 within the budget, and fails with `A_E_INVAL` iff some read it reaches fails; everything else is a timeout |
| Transport.ReadOverrunNeverOk | splread.c:161 | once more than 8 bytes have arrived the loop can never succeed, because its guard tests `!= 8` |
| Transport.LateReadTimesOut | splread.c:161-175 | any read the loop reaches that ends past the budget ends the loop in `A_E_TIMEOUT`, even if it completed the report |
| Transport.LateCompletionTimesOut | splread.c:169-175 | a single read bringing all 8 bytes after the budget has passed still ends in `A_E_TIMEOUT` |
| Locator.FindDevice | splread.c:42-122 | NULL list → `A_E_NOTFOUND`; then more than one candidate → `A_E_INVAL`; none → `A_E_EMPTY`; one → open it, and a failed open → `A_E_NOTFOUND`. A handle is returned exactly on success, for the last candidate's ids; the call trace is `FindCalls` |
| Locator.FindCallsShape | splread.c:58-119 | the lookup enumerates first, releases a non-empty list as its last call, never closes, and opens only a single candidate |
| Locator.CountWithoutFilter | splread.c:77-82 | with no serial filter every listed device counts |
| Locator.TargetIsLastCandidate | splread.c:70-85 | the ids opened are those of a candidate after which no other candidate is listed |
| Locator.UniqueSerialSelects | splread.c:70-76 | with pairwise different serials, filtering by one selects exactly that device |
| Locator.NoMatchCount | splread.c:70-76 | a serial no device carries selects no candidate |
| Locator.TwoMetersNeedFilter | splread.c:87-91 | two meters and no filter count 2 (refused); filtering by a serial selects that one |
| Driver.BuildConfigure | splread.c:197-212 | filling the zeroed buffer gives exactly the CONFIGURE report |
| Driver.SetConfig | splread.c:192-228 | range > 4 → argument failure with nothing sent; otherwise OK iff the write is whole and the acknowledgement is read in time; every other failure is `A_E_INVAL`; the calls are the write, then reads only when the write went through |
| Driver.SetConfigWritesOnlyConfigure | splread.c:214-224 | the handshake writes only its CONFIGURE request and otherwise only reads with the 500 ms timeout |
| Driver.PollCycle | splread.c:270-293 | one pass computes `CycleOutcomeOf` and `CycleCalls`: a short write is fatal, a timeout skips, any other read failure is fatal, a full report is decoded |
| Driver.CycleClassification | splread.c:273-283 | a pass is fatal iff the write is short or a reached read fails; it is skipped iff neither a failure nor a completed report is reached |
| Driver.CycleDecodesReceived | splread.c:278-286 | a measured pass decodes exactly the bytes the meter delivered, in order |
| Driver.SilentMeterSkips | splread.c:278-283 | a meter that stops answering skips the pass rather than ending the session |
| Driver.PollFrom | splread.c:269-296 | no more measurements than passes; which ones is `Driver.PollReportsUpToFatal` |
| Driver.PollLoop | splread.c:269-296 | the do-while loop computes exactly `PollFrom`: the fatal flag, the decoded measurements in order, and the calls |
| Driver.PollWritesOnlyCapture | splread.c:269-296 | the loop only writes CAPTURE requests and only reads with the 500 ms timeout |
| Driver.PollReportsUpToFatal | splread.c:269-296 | for every script: the loop is fatal iff some pass is fatal, and it reports the measurements of the passes before the first fatal one, in order, skipped passes adding nothing |
| Driver.FirstFatal | splread.c:273-282 | the first fatal pass at or after k: every pass before it is not fatal, and it is fatal unless it is the end |
| Driver.PollFatalIff | splread.c:273-282 | the loop ends on a fatal error iff some pass it reaches is fatal |
| Driver.AllTimeoutsSkip | splread.c:278-283 | passes that all time out run the loop to the stop flag with nothing reported |
| Driver.MeasuredCyclesReported | splread.c:283-292 | when every pass reads a report, pass j contributes its decoded measurement at position j |
| Driver.Session | splread.c:258-304 | exit success iff the meter is found and opened, acknowledges its configuration, and no pass is fatal; measurements are reported only after the acknowledgement; the trace is `SessionCalls` |
| Driver.SessionClosesOpened | splread.c:299-302 | the device is closed exactly when the session opened it, as the last call and only once |
| Driver.SessionConfiguresFirst | splread.c:264-273 | CAPTURE is only sent to a found, acknowledged meter, and every CONFIGURE write precedes every CAPTURE write |

## Left out

- hidapi (`hid_enumerate`, `hid_open`, `hid_write`, `hid_read_timeout`, `hid_close`, `hid_free_enumeration`) is foreign code. Its results are inputs, and its calls appear only as entries of the returned trace.
- The monotonic clock and the `usleep` pacing between passes are real time. Elapsed times are inputs; the pause is not modelled.
- Logging, including the `hid_error` text passed to log messages, and the `%4.2f` rendering of the level as a floating-point number are left out. The level stays an integer count of tenths of a decibel.
- Configuration-file loading, `app_init`, the SIGINT handler and `app_running()` are process plumbing. The session starts at the device lookup, and the stop flag is the end of the pass script.
- Transport.ReadResp: the length passed to `hid_read_timeout` is one more than the space left in the buffer (splread.c:163). Chunk sizes are free inputs, so the model claims no buffer safety; `Transport.ReadOverrunNeverOk` covers what a too-long chunk does to the result.
- Transport.ReadFrom: once the read script is used up, the device is taken to be silent: one more read delivers nothing after its full timeout, and the budget check ends the loop with a timeout.
- The argument assertions on NULL pointers (in `Locator.FindDevice`, `Transport.SendReq`, `Transport.ReadResp` and `Driver.SetConfig`) and on `response_len >= 8` (in `Transport.ReadResp`) cannot fail in this model, because it has no pointers and every buffer is 8 bytes.
- Locator.FindDevice: `wcscmp` on a device whose serial number is NULL is undefined behaviour. Serial numbers are always strings here.
- Driver.SetConfig: the code a failed `TSL_ASSERT_ARG` returns is taken to be `A_E_BADARGS` (ErrBadArgs); tsl/assert.h is not part of this model.
- The hold-max flag 0x20 is defined but never sent or decoded, so it is not modelled.
