# gt-wheel-firmware core, modelled in Dafny

This project models the sequential logic of the steering-wheel firmware. It
covers three parts:

- **Button manager** (`ButtonMngr`). It scans the 4-column by 8-row button
  matrix and stores each read at `8 * col + row` of the button-state table.
  It reads the two shifters and the two rockers. It also covers the GPIO
  initialisation chain and the copy-out of the state table.
- **ACM device** (`AcmDevice`). One pass of the worker moves received bytes
  from the USB CDC-ACM driver into the SIMHUB Rx packet buffer. It then
  dispatches an available packet to its handler and pushes the response of
  a protocol or LED-count query to the host. It also covers the device's
  initialisation chain.
- **SIMHUB packet module** (`SimhubPkt`). It covers the packet-buffer record
  (constructor, emptiness test, size query), the set-up of the 128-byte Rx
  ring and the 24-byte Tx ring, and the packet-availability check. In this
  revision the check always answers "no packet".

`CTypes` holds C's `int` and `size_t` and the errno value the modules use.
The model assumes a 32-bit target, with both types 32 bits wide.

The GPIO layer, the ACM driver, the ring buffers, the packet classifier and
the packet handlers are oracles. Each operation takes the results these
collaborators would return and produces three things: its result code, the
new state where there is one, and the trace of calls it made.

- Matrix GPIO results are indexed by the call's position in a fully
  successful scan: per column for set and clear, `8 * col + row` for reads.
  Shifter, rocker and init results are given in call order.
- Button-manager operations take the state table as a sequence and return
  the updated one.
- The worker and the initialisers are pure functions from collaborator
  answers to a call trace.

The header holding `BUTTON_COUNT`, `LEFT_SHIFTER_IDX` and `LEFT_ROCKER_IDX`
is not part of this model. These three values are a `Layout` parameter. It
is constrained so that the matrix, shifter and rocker slots fit in the
table.

## Model

| member | source | states |
|---|---|---|
| `CTypes.ToSizeT` | src/acmDevice/acmDevice.c:50-56 | Storing an `int` into a `size_t` keeps non-negative values. A negative value becomes `2^32 + x`, which is above `INT_MAX`. |
| `SimhubPkt.NewBuffer` | src/simhubPkt/simhubPkt.c:49-54 | A freshly constructed buffer has head and tail both at 0, so it is empty. It keeps the store it was given, and its size query answers the size it was given. |
| `SimhubPkt.EmptinessDependsOnCursorsOnly` | src/simhubPkt/simhubPkt.c:56-59 | A buffer is empty exactly when head equals tail. Two buffers with the same cursors agree on emptiness, whatever their store and size. |
| `SimhubPkt.SizeSurvivesCursorMoves` | src/simhubPkt/simhubPkt.c:61-64 | The size query returns the constructed size, whatever the cursors have become. |
| `SimhubPkt.InitBuffer` | src/simhubPkt/simhubPkt.c:66-70 | Exactly two ring initialisations are made: the Rx ring first with size 128, then the Tx ring with size 24. Each is over its own store, and each store's length equals the ring size. |
| `SimhubPkt.IsPktAvailable` | src/simhubPkt/simhubPkt.c:72-75 | The check answers false for every packet-type variable and leaves the variable unchanged. |
| `ButtonMngr.ReadButtonMatrix` | src/buttonMngr/buttonMngr.c:134-167 | The scan ends where the first error stops it. A failing set returns its error without clearing that column. A failing read still clears its column, and the read's error is returned even if the clear succeeds. A failing clear ends the scan after its column and its error is returned. Full success returns the last clear's result. In each case the trace is the matching prefix of set/read 0..7/clear per column, and only the entries whose read succeeded are written, each with its own read. |
| `ButtonMngr.ReadColumnRows` | src/buttonMngr/buttonMngr.c:147-155 | Under one set column, rows are read in order 0..7 up to and including the first failing read, and that read's error is returned. Each successful read is stored at `8 * col + row`, and no other entry changes. |
| `ButtonMngr.ScanStopMeaning` | src/buttonMngr/buttonMngr.c:140-161 | The scan completes exactly when every column's set, reads and clear succeed. Otherwise it stops in the first column with an error: at its set if the set fails, else at its first failing row, else at its clear. Every column before that one succeeded. |
| `ButtonMngr.SetFailureTouchesNoLaterColumn` | src/buttonMngr/buttonMngr.c:142-145 | A scan stopped by a failing set of column `k` has not cleared column `k` and has not driven any column after `k`. |
| `ButtonMngr.ReadInputGroup` | src/buttonMngr/buttonMngr.c:174-205 | Inputs are read in order, stopping after the first negative result. The result code is the last read's result, or 0 when none was made. Exactly the successful reads are stored at `base + i`, and every other entry is unchanged. |
| `ButtonMngr.ReadButtonShifters` | src/buttonMngr/buttonMngr.c:174-186 | The left and then the right shifter are read, stopping at the first error, which is returned. Successful reads are stored at `leftShifterIdx + i`, and no other entry changes. |
| `ButtonMngr.ReadButtonRockers` | src/buttonMngr/buttonMngr.c:193-205 | The left and then the right rocker are read, stopping at the first error, which is returned. Successful reads are stored at `leftRockerIdx + i`, and no other entry changes. |
| `ButtonMngr.ButtonMngrInit` | src/buttonMngr/buttonMngr.c:236-263 | The init order is rows as inputs, columns as cleared outputs, then shifters and rockers as inputs. Initialisation stops at the first nonzero result and returns it, and the trace ends with that init. The thread is created, once, exactly when every init returned 0. |
| `ButtonMngr.GetAllStates` | src/buttonMngr/buttonMngr.c:265-273 | Any count other than the table size returns `-EINVAL` and leaves the buffer untouched. The table size copies every state verbatim, returns 0 and leaves entries past the table alone. |
| `ButtonMngr.GetAllStatesHandsBackTable` | src/buttonMngr/buttonMngr.c:265-273 | Asking for the table size succeeds, and the first `BUTTON_COUNT` entries of the caller's buffer then read as the state table. |
| `AcmDevice.WorkerPass` | src/acmDevice/acmDevice.c:46-104 | A pass first claims 128 bytes of Rx space, then has the driver read exactly the granted size into the granted area. It commits the count the driver returned, converted to `size_t`, and consults the classifier. With no packet available it does nothing more. Otherwise its length is those four calls plus the handler, if any, plus the four Tx calls when a response is due. |
| `AcmDevice.WorkerCommitsAndClassifiesOnce` | src/acmDevice/acmDevice.c:54-61 | The Rx claim, the driver read, the Rx commit and the classifier each appear exactly once in a pass, at positions 0 to 3. |
| `AcmDevice.WorkerRunsMatchingHandler` | src/acmDevice/acmDevice.c:61-92 | When a packet of one of the four types is available, the handler for that type runs right after classification. No other handler runs, no handler runs anywhere else in the trace, and none runs when nothing is available. |
| `AcmDevice.WorkerRespondsToQueries` | src/acmDevice/acmDevice.c:70-103 | The Tx interrupt is enabled exactly when a protocol or LED-count packet was available and its handler returned a non-negative result. The pass then ends with: claim 24, write the granted Tx size, release the count written, enable the Tx interrupt. Tx calls occur only in those last four positions, so each happens once. Otherwise the pass makes no Tx call. |
| `AcmDevice.WorkerIgnoresCommitResults` | src/acmDevice/acmDevice.c:56-102 | The results of the Rx commit and of the Tx release never change the pass: a failure there is only logged, and the Tx interrupt is enabled regardless. |
| `AcmDevice.NoResponseToUnlockOrLedData` | src/acmDevice/acmDevice.c:65-88 | Unlock and LED-data packets never cause any Tx call, whatever their handler returns. |
| `AcmDevice.UnsupportedTypeIsOnlyReceived` | src/acmDevice/acmDevice.c:89-91 | A packet type outside the four runs no handler and sends nothing: the pass is the receive phase alone. |
| `AcmDevice.NegativeReadCommitsHugeSize` | src/acmDevice/acmDevice.c:55-56 | A negative driver read count reaches the Rx commit as `2^32 + count`. That is above `INT_MAX`, far beyond the 128 bytes ever claimed. |
| `AcmDevice.NoHandlerRunsInThisRevision` | src/simhubPkt/simhubPkt.c:72-75 | Fed by this revision's availability check, a worker pass runs no handler, makes no Tx call and stops after the receive phase. |
| `AcmDevice.AcmDeviceInit` | src/acmDevice/acmDevice.c:123-140 | Initialisation installs the interrupt callback, then initialises the ACM driver with sizes (128, 24). On a negative result it stops there and returns that result. Otherwise it initialises the packet buffers once and enables the Rx interrupt once, and it returns the driver's result in both cases. |

## Left out

- `buttonMngrThread` (src/buttonMngr/buttonMngr.c:214-234) is not modelled. It is an endless polling loop with a 100 ms sleep, which is scheduling rather than logic. The three reads it calls are modelled.
- The rotary-encoder handling is not modelled: the button-manager source contains no implementation of it.
- The packet classifiers and the `simhubPktProcess*` handlers are not part of this model. The worker sees them only as oracle answers: a verdict, a packet type and a handler result.
- The ring-buffer claim/commit operations and the `zephyrAcm*` driver functions are oracles. Their effects on buffer contents are not modelled.
- `acmDeviceIrq` is empty. The interrupt-to-worker handoff is concurrency and is left out.
- The HID device, the LED control, the clutch reader and `main` are not part of this model.
- Logging calls are left out; they do not affect control flow.
- The cast of a read result to `WheelButtonState` is modelled as the identity. That type's definition is not part of this model.
- `readButtonMatrix` leaves `rc` uninitialised before its loop. The model starts it at 0; with a non-zero column count the loop always assigns it before it is read.
- `ButtonMngr.ReadButtonRockers` bounds its loop by the shifter count, as the source does at src/buttonMngr/buttonMngr.c:197. Both counts are 2, so this is not observable here.
- Lines 49-54 of src/simhubPkt/simhubPkt.c are a function body without its signature. It is modelled as the buffer constructor `SimhubPkt.NewBuffer`.
- `BUTTON_COUNT`, `LEFT_SHIFTER_IDX` and `LEFT_ROCKER_IDX` come from a header that is not part of this model. They are the `Layout` parameter.
- `ButtonMngr.GetAllStates` requires the caller's buffer to hold the table when the count matches. The source copies into the caller's buffer without a length check, so a shorter buffer is undefined behaviour in C and is not modelled.
- `CTypes.ToSizeT` assumes a 32-bit `size_t`; no target is named in the source. With a 64-bit `size_t` a negative count would become `2^64 + x`, which is still above `INT_MAX`, so `AcmDevice.NegativeReadCommitsHugeSize` holds in substance but not with the exact value it states.
