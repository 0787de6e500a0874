# Hardware encoder benchmark: pacing, event protocol and setup fallbacks

The benchmark (`main()` in `MFTTest.cpp`) drives a hardware H.264 encoder
media transform (MFT) asynchronously. It feeds frames to the transform at
60 frames per second, or as fast as the transform accepts them while the
uncap key (F8) is held. It prints one line per encoded frame. Almost all of
it is calls into the platform's media, Direct3D and COM APIs. This project
models the decision logic that the program itself contains:

- `Status` (`status.dfy`): HRESULT values as signed 32-bit integers, the
  SUCCEEDED/FAILED tests, `E_NOTIMPL`, and the fatal `CHECK_HR` as an error
  result.
- `DeviceSetup` (`setup.dfy`): the ordered fallback over driver types
  (hardware, then WARP, then reference) when the Direct3D device is
  created, and the mapping of the stream-ID query result. Each platform
  call is a parameter: a function from driver type to status, or the status
  and IDs the query reported.
- `Pacing` (`pacing.dfy`): ticks per frame (`ticksPerSecond / 60`), the next
  frame boundary `(ticks / ticksPerFrame + 1) * ticksPerFrame` with C++
  truncating division, and the spin-wait loop. The clock is the sequence of
  readings that successive counter queries return.
- `EncodeLoop` (`encode_loop.dfy`): the event loop. Its state is `encoding`
  and `throttle`. `EventLoop` is the imperative loop and is proved equal to
  the functional `Run`. The lemmas show that accepted events alternate
  NeedInput/HaveOutput, starting with NeedInput. The loop's input is one
  `Iteration` per event fetched before the quit key is seen. An iteration
  holds the event type, whether the uncap key was held, and the clock
  readings for that iteration's wait.

The loop can end in three ways. `Quit` means the quit key was seen after
the last supplied event. `Fatal` is one of the CHECKs, or a division by a
zero frame length. `ClockExhausted` means the clock readings supplied for a
wait ended before the frame boundary. `ClockExhausted` marks the end of the
modelled input, not an error in the program, which would keep waiting.

## Model

| member | source | states |
|---|---|---|
| `Status.FromBits` | MFTTest.cpp:303 | reinterprets an unsigned 32-bit pattern such as 0x80004001 as the signed HRESULT with the same bits; the value is negative (a failure) exactly when the top bit is set |
| `Status.CheckHr` | MFTTest.cpp:85 | a failed status is fatal and is carried as the error; every success code, not only S_OK, lets the program continue |
| `Status.NotImplementedIsFailure` | MFTTest.cpp:303-309 | E_NOTIMPL is a failure code, so the program must map it explicitly before CHECK_HR |
| `DeviceSetup.CreateDevice` | MFTTest.cpp:134-167 | tries the driver types in the order hardware, WARP, reference, and every attempt before the last failed; on success the chosen type is the last one tried and it succeeded; otherwise all three were tried and the fatal status is the reference driver's failure |
| `DeviceSetup.StreamIds` | MFTTest.cpp:302-309 | succeeds exactly when the query succeeded or returned E_NOTIMPL; E_NOTIMPL gives input and output IDs 0 and 0; a success keeps the reported IDs; any other failure is fatal with that status |
| `Pacing.TruncDiv` | MFTTest.cpp:445 | C++ integer division: the remainder is smaller than the divisor in magnitude and has the dividend's sign; for non-negative operands it agrees with floor division |
| `Pacing.TicksPerFrame` | MFTTest.cpp:400 | the frame length is `ticksPerSecond / 60` rounded down, and it is positive exactly when the clock frequency is at least 60 ticks per second |
| `Pacing.NextFrameTicks` | MFTTest.cpp:445 | the boundary `(ticks / ticksPerFrame + 1) * ticksPerFrame` with C++ division lies strictly after the reading for any positive frame length, whatever the reading's sign, so a throttled input always waits |
| `Pacing.NextFrameIsNextMultiple` | MFTTest.cpp:441-445 | for a non-negative reading and a positive frame length, the boundary is strictly after the reading, at most one frame after it, and divisible by the frame length |
| `Pacing.NextFrameIsSmallest` | MFTTest.cpp:441-445 | no multiple of the frame length lies strictly between the reading and the boundary, so the boundary is the next frame start |
| `Pacing.NextFrameFitsInt64` | MFTTest.cpp:445 | the boundary computed in `long long` does not overflow while the reading is at least one frame below the 64-bit maximum |
| `Pacing.NextFrameAfterBoundary` | MFTTest.cpp:445 | from a reading that is itself a frame start, the boundary is the following frame start, one frame later |
| `Pacing.LaterWaitIsAFrameLater` | MFTTest.cpp:441-455 | the rate cap: a wait starting at or after an earlier wait's boundary ends at a boundary at least one whole frame after it |
| `Pacing.NegativeReadingSkipsBoundary` | MFTTest.cpp:445 | with a negative reading, truncating division makes the formula skip a frame start, so the lemmas above need a non-negative reading |
| `Pacing.FirstReaching` | MFTTest.cpp:448-455 | gives the first reading at or past the boundary, with all earlier readings before it, or None when no reading reaches it |
| `Pacing.WaitForNextFrame` | MFTTest.cpp:442-455 | the wait loop exits at the first reading at or past the boundary computed from the first reading, after as many sleeps as readings it skipped; it reports None when the readings end first |
| `Pacing.WaitEndsAtBoundary` | MFTTest.cpp:445-455 | on a non-decreasing clock that reaches the boundary, the wait ends after at least one sleep, the time waited covers the distance to the boundary, and every later reading is past it |
| `EncodeLoop.Step` | MFTTest.cpp:430-518 | NeedInput is fatal while encoding; otherwise it sets `encoding` and sets `throttle` to "uncap key not held", and submits with no wait when uncapped; a throttled NeedInput waits until the next frame boundary. A throttled NeedInput in the idle state is submitted exactly when the frame length is positive and its clock readings reach the boundary, it fails with a division by zero exactly when the frame length is 0, it stalls exactly when the frame length is positive and its readings end before the boundary, and no NeedInput in the idle state raises a protocol fault. HaveOutput is fatal unless encoding; otherwise it clears `encoding` and reports the current throttle flag. Any other event is fatal. Only a throttled NeedInput can fail through the frame length or the clock |
| `EncodeLoop.RunFrom` | MFTTest.cpp:416-519 | the loop from an intermediate iteration appends one record per accepted event to the log so far, and reaches the quit key exactly when it accepts every remaining event; otherwise it stops at the first event it does not accept |
| `EncodeLoop.Run` | MFTTest.cpp:416-519 | the whole loop from `encoding` and `throttle` false reaches the quit key exactly when every event is accepted, and otherwise stops at the iteration just after its accepted events |
| `EncodeLoop.EventLoop` | MFTTest.cpp:416-519 | the in-place loop over `encoding` and `throttle`, with the wait loop called for throttled inputs, returns exactly the outcome of the functional model `Run` |
| `EncodeLoop.RunFromTrace` | MFTTest.cpp:416-519 | from any point reached by alternating events, the run extends the log and keeps the alternation and the log invariant; it stops only at an event out of turn, or at a throttled NeedInput, and there only with a division by zero when the frame length is 0, or because that wait's readings end before its boundary |
| `EncodeLoop.AcceptedEventsAlternate` | MFTTest.cpp:414-518 | every run accepts an alternating prefix of the events that starts with NeedInput; a protocol fault is raised at the first event out of turn, and any other early stop falls on an event in turn; a run that reaches the quit key has accepted all events and is mid-frame exactly when their count is odd |
| `EncodeLoop.AlternatingEventsRaiseNoProtocolFault` | MFTTest.cpp:430-518 | alternating events never hit the "Expected ..." or "Unknown event" checks; such a run can stop early only at a throttled NeedInput, either with a division by zero when the frame length is 0 or because that wait's readings end before its boundary |
| `EncodeLoop.ThrottledRunQuits` | MFTTest.cpp:437-475 | in the capped mode, with at least 60 ticks per second and every wait's readings reaching their boundary, alternating events run to the quit key and every input is submitted |
| `EncodeLoop.ThrottledSubmissionsAreAFrameApart` | MFTTest.cpp:437-455 | on a clock that never goes back across iterations, a throttled submission after another one waits for a boundary at least one frame after the earlier one's, and it is submitted at a reading at or past that boundary: capped inputs keep to the frame rate |
| `EncodeLoop.UncappedRunNeverWaits` | MFTTest.cpp:437-439 | with the uncap key held throughout, alternating events run to the quit key, no input waits, and every output is reported with throttle false |
| `EncodeLoop.RunLogMatchesIterations` | MFTTest.cpp:437-503 | in every run, each throttled submission happened at the first clock reading at or past its frame boundary, each unthrottled one without sleeping, and each report prints the throttle flag of the submission before it |

## Left out

- All platform calls (Media Foundation startup, device manager, texture, MFT enumeration and activation, codec API, attribute and media-type setting, `ProcessMessage`, `ProcessInput`, `ProcessOutput`) are calls into a closed platform. Only the statuses that the modelled logic branches on appear, as parameters.
- Failures of the platform calls inside the loop (`GetEvent`, `GetType`, buffer and sample creation, `ProcessInput`, `ProcessOutput`) are each fatal in the program. Each iteration here assumes those calls succeeded.
- The quit-key poll (`GetAsyncKeyState(quitKey)`) is modelled by the length of the iteration sequence: the events given are those fetched before the key is seen. The uncap-key poll is a boolean per iteration.
- `QueryPerformanceFrequency`, `QueryPerformanceCounter`, `Sleep` and `timeBeginPeriod` are OS time services. The frequency is a parameter and the counter is a sequence of readings per wait. The clock reads taken for latency measurement are not modelled.
- The `long double` computation of encode and running times, and the console output (lines 499-503), are floating point and I/O. Of each output line, only the throttle flag is kept, in `Reported`.
- Reference counting (`Release`), the `ON_ERROR` debugger-break and pause behaviour, and the process exit code are not modelled. Every fatal path is an error outcome.
- The input-type loop (lines 360-382) always breaks on its first pass, so it is a plain call sequence and is not modelled.
- The encoders are enumerated with an HEVC output subtype (line 212), but the output type is set to H.264 (line 333). This is configuration passed to the platform, and it does not affect the modelled logic.
- The clock readings of different iterations are independent inputs. Their order across iterations is not built into the model; the rate-cap lemma takes it as a hypothesis (`ClockNeverGoesBack`).
- `EncodeLoop.EventLoop`: the wait does not reach past the readings supplied. When they end before the boundary, the outcome is `ClockExhausted`, whereas the program would keep polling.
- The dead code in comments at lines 273-292 (reading the friendly name through the transform's attributes) is not modelled.
