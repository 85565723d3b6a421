# Blusys HAL, driver and observability models

Dafny models of the parts of Blusys that hold state machines, protocols and codecs of their
own, with proofs about all inputs, all runs or all interleavings. `dafny verify dfyconfig.toml`
checks the whole project.

The project has one module a file.

- **1-Wire** (`Octets`, `Crc8`, `RomOrder`, `RomSearch`, `OneWire`). The bus is a set of 64-bit
  ROMs: a read slot carries the wired AND of the active devices, a write slot deselects those
  that disagree. The master's byte transfers, ROM commands and tree search are methods on its
  saved fields. The search theory is over ROMs of any length; 64 bits is the instance.
- **Pixel flush** (`Gram`, `Buffers`, `Panel`, `Display`, `MonoPage`). A panel controller with a
  window, a write pointer and memory sits under the two row-by-row drivers, which sit under the
  banded flush and its in-place fallback. Every layer is tied to one specification: copy this
  image onto that rectangle (`Gram.Blit`). The monochrome packer is proved bit by bit.
- **Protocols** (`AdcUnit`, `TwaiTx`, `TwaiRx`, `Pcnt`, with `Interrupts`). State machines whose
  steps are the critical sections, for any number of tasks and interrupt activations, with the
  hardware calls failing at will. Invariants are proved of every interleaving.
- **Observability** (`Observe`, `History`, with `Words`). The ring, the last errors and the
  counters against the full history of everything logged, through 32-bit wrap-around.
- **Codecs** (`RmtCodec`, `Encoder`, `SevenSeg`, `Expander`, `Dht`, with `Binary`, `Basics`).

## Findings

- A snapshot lists the ring in order, and restoring it is exact, except just after the 32-bit
  sequence number wraps; `History.SnapshotIsRecent` and `History.RestoreExact` give the exact
  conditions. The record numbered 0 is taken for an empty entry and dropped by restore.
- The encoder's 8-bit accumulator limits a detent to 127 steps, while any positive
  configuration value is accepted; `Encoder.PositionExactIffNarrow` shows that 127 is exact.
- A TWAI write that was woken without a completion leaves itself registered as the waiting task,
  and one that times out can leave its frame queued. After either the next write can report
  success on the completion of the earlier frame (`TwaiTx.SuccessOfEarlierFrame`). By the way the
  earlier writes ended `TwaiTx.NeverMisleadsIff` is exact: all must have ended with a completion or
  been refused by the checks. A caller sees only codes, and errors of the node are passed on with
  any code, so by codes only an unbroken history of OK is safe (`TwaiTx.CodesNeverMisleadIff`).
- If stopping the pulse counter can overtake an interrupt that was raised but has not reached its
  first critical section, three promises of `pcnt.c` fail: a callback runs on the stopped unit
  after stop has returned (`Pcnt.StoppedUnitCallsBack`), a replaced callback runs after
  set_callback has returned (`Pcnt.ReplacedCallbackStillRuns`), and a new callback runs with the
  old context, the two being plain stores (`Pcnt.OvertakenInterruptMixesPairs`). State by state
  the exact conditions are `Pcnt.StopDrainsIff`, `Pcnt.ReplacedCallbackIsDoneIff` and
  `Pcnt.CaptureIsInstalledIff`; over all runs `Pcnt.PromisesHoldIffPrompt`. A rule the caller of
  set_callback can keep, and without which pairs can mix, is `Pcnt.SafeCall`
  (`Pcnt.SafeCallsNeverMix`, `Pcnt.UnsafeCallCanMix`). Draining on close holds in any case.
- One device whose ROM has a wrong stored CRC hides every device with a greater ROM from the
  1-Wire search: the pass ends there with an error and the next call starts again
  (`OneWire.Calls`, `OneWire.OnlyBeforeFirstBad`).
- The monochrome scratch buffer of `width * height / 8` bytes holds all pixels exactly when the
  height is a multiple of eight (`MonoPage.PageBufferSuffices`).

## Model

| member | source | states |
|---|---|---|
| Crc8.MixByte | components/blusys/src/hal/one_wire.c:816-824 | the inner loop shifts the byte's eight bits, least significant first, into the polynomial register |
| Crc8.Crc8 | components/blusys/src/hal/one_wire.c:809-827 | the byte returned is the register after all message bits, for any length |
| Crc8.CrcLinear | components/blusys/src/hal/one_wire.c:809-827 | the CRC of an exclusive or of equal-length messages is the exclusive or of their CRCs |
| Crc8.StoredCrcPassesIffResidueBlank | components/blusys/src/hal/one_wire.c:647-647 | the stored byte passes the comparison exactly when message and byte together leave residue 0 |
| Crc8.ResidueBlankIffDivisible | components/blusys/src/hal/one_wire.c:809-827 | the residue of a frame of any length is 0 exactly when long division by x^8 + x^5 + x^4 + 1, written out, leaves nothing |
| Crc8.CrcMakesDivisible | components/blusys/src/hal/one_wire.c:809-827 | the byte returned is the one and only byte that makes message and byte divisible by that polynomial |
| Crc8.BurstDetected | components/blusys/src/hal/one_wire.c:809-827 | any error within at most 8 consecutive bits changes the residue of a frame of any length |
| Crc8.OddErrorDetected | components/blusys/src/hal/one_wire.c:809-827 | any error of an odd number of bits changes the residue |
| RomOrder.PlanYieldsFirst | components/blusys/src/hal/one_wire.c:765-786 | with no saved fork the path followed leads to the least ROM on the bus |
| RomOrder.PlanYieldsNext | components/blusys/src/hal/one_wire.c:765-786 | retracing the last ROM up to its last fork and turning there leads to the least greater ROM |
| RomOrder.NoForkIffGreatest | components/blusys/src/hal/one_wire.c:797-800 | a ROM has no 0-branch fork left exactly when no ROM on the bus is greater |
| RomOrder.LastForkIsHighest | components/blusys/src/hal/one_wire.c:742-800 | the saved discrepancy is the highest bit where the ROM has 0 and a device sharing the earlier bits has 1, 0 if none |
| RomOrder.ListingExists | components/blusys/src/hal/one_wire.c:704-805 | every finite bus has an ascending listing of its ROMs, so the enumeration theorem is about every bus |
| RomOrder.ListingMeans | components/blusys/src/hal/one_wire.c:704-805 | of two entries of a listing the earlier has a 0 in the first bit, in transmission order, where they differ |
| RomSearch.DescentStep | components/blusys/src/hal/one_wire.c:742-786 | one loop pass keeps the active devices equal to those on the path and the last zero equal to the last fork so far |
| RomSearch.DescentYieldsSuccessor | components/blusys/src/hal/one_wire.c:742-800 | a finished descent returns the successor ROM and its last fork, which is 0 exactly on the greatest ROM |
| OneWire.CommandByte | components/blusys/src/hal/one_wire.c:502-532 | eight write slots deliver a ROM command to every device after a reset |
| OneWire.MatchingNarrows | components/blusys/src/hal/one_wire.c:670-690 | while a ROM is written the devices left are those that agree with the bits sent |
| OneWire.ReadingLevels | components/blusys/src/hal/one_wire.c:535-583 | reading slots of several devices yields the wired AND of their ROM bits |
| OneWire.Master.SearchReset | components/blusys/src/hal/one_wire.c:692-702 | all saved search state is cleared |
| OneWire.Master.WriteByte | components/blusys/src/hal/one_wire.c:502-532 | the byte's bits reach the bus least significant first |
| OneWire.Master.ReadByte | components/blusys/src/hal/one_wire.c:535-583 | the byte holds the levels captured, least significant first, a slot not captured as 0; without a fault all eight levels of the bus; only the transaction's own failure is an error |
| OneWire.Master.Write | components/blusys/src/hal/one_wire.c:585-601 | an empty buffer is INVALID_ARG; otherwise the buffer's bits reach the bus in order, and the first transmission that fails ends the write with that transmission's error |
| OneWire.Master.MatchRom | components/blusys/src/hal/one_wire.c:670-690 | afterwards exactly the device with this ROM is addressed, or none if it is absent |
| OneWire.Master.ReadRom | components/blusys/src/hal/one_wire.c:623-652 | what is accepted always has the right stored CRC; without faults the wired AND of all ROMs is read and accepted exactly when its CRC is right; an empty bus is NOT_FOUND; a failed transaction's own status is returned |
| OneWire.SoleDevice | components/blusys/src/hal/one_wire.c:623-652 | with one device on the bus read_rom sees that device's ROM |
| OneWire.Master.PickDirection | components/blusys/src/hal/one_wire.c:765-779 | below the saved fork the last ROM's bit is retraced, at it 1 is taken, above it 0 |
| OneWire.Master.SearchStep | components/blusys/src/hal/one_wire.c:742-786 | one pass of the 64-step loop keeps the descent invariant unless a transaction fails, whose own status is returned |
| OneWire.Master.Descend | components/blusys/src/hal/one_wire.c:742-786 | the loop as a whole reaches the end of the descent unless a transaction fails, whose own status is returned |
| OneWire.Master.FindNext | components/blusys/src/hal/one_wire.c:715-786 | if no transaction fails the ROM found is the successor of the last one, with its last fork, and an empty bus is NOT_FOUND |
| OneWire.Master.Search | components/blusys/src/hal/one_wire.c:704-805 | success returns a ROM with the right CRC, the successor if no transaction failed, and flags the last one exactly; a failed transaction's own status is returned, a bad CRC is IO; after any error the state equals search_reset |
| OneWire.StoredByte | components/blusys/src/hal/one_wire.c:793-793 | comparing the computed byte with byte 7 decides CRC validity of the ROM |
| OneWire.SuccessorIsNextEntry | components/blusys/src/hal/one_wire.c:704-805 | the successor of a position in a listed bus is the next entry, and the last entry is the greatest |
| OneWire.AnswerIsEntry | components/blusys/src/hal/one_wire.c:704-805 | a proper answer at place p of a pass is entry p, flagged last exactly at the end, or IO if that entry's stored CRC is wrong |
| OneWire.CallAt | components/blusys/src/hal/one_wire.c:704-805 | the call at place p of a pass returns entry p; after the last entry NOT_FOUND, at a ROM with a wrong CRC IO, on a fault an error, and each of these puts the next call at the start of a pass |
| OneWire.Calls | components/blusys/src/hal/one_wire.c:692-805 | any number of calls with any transactions failing: every reply is the one its place in its pass calls for, and the bus's failed transactions are exactly those reported |
| OneWire.EnumerationAfterFault | components/blusys/src/hal/one_wire.c:704-805 | after search_reset or after any call that met a fault, the calls that follow without faults return every ROM before the first with a wrong CRC, once, in ascending order, flagged last exactly on the last of the bus |
| OneWire.OnlyBeforeFirstBad | components/blusys/src/hal/one_wire.c:793-796 | no call ever returns a ROM at or beyond the first with a wrong stored CRC |
| OneWire.PlaceIsRemainder | components/blusys/src/hal/one_wire.c:704-805 | without faults the place of a call in its pass is its number modulo the length of a pass |
| Gram.BlitAt | components/blusys/src/drivers/lcd_panel_ili.c:172-217 | the meaning of the image copy: covered pixels show the image, all others are as before |
| Gram.BlitBelow | components/blusys/src/drivers/display.c:143-163 | bands copied one below the other are one copy of the whole image |
| Gram.PartialBlit | components/blusys/src/drivers/lcd_panel_ili.c:190-211 | a copy stopped anywhere leaves each pixel either old or new |
| Gram.BlendedBelow | components/blusys/src/drivers/display.c:143-163 | bands interrupted one after the other still leave each pixel old or new |
| Panel.PutRow | components/blusys/src/drivers/lcd_panel_ili.c:206-207 | pixels that fit one window row are painted on that row in order |
| Panel.WindowCodec | components/blusys/src/drivers/lcd_panel_ili.c:193-205 | the high and low parameter bytes recombine to the coordinate modulo 2^16 |
| Panel.ReadyWindow | components/blusys/src/drivers/lcd_panel_ili.c:191-205 | COLMOD, CASET and RASET leave the one-row window and the pixel format, and memory untouched |
| Panel.RowDelivered | components/blusys/src/drivers/lcd_panel_ili.c:206-207 | a pixel transfer, whole or cut short, paints that row or its beginning |
| Panel.OpenAndDraw | components/blusys/src/drivers/lcd.c:838-843 | after opening with configured offsets every pixel drawn appears moved by exactly those offsets as the two or three buffer bytes of its place, and every other pixel of the panel is as before |
| Panel.Driver.IliRows | components/blusys/src/drivers/lcd_panel_ili.c:190-216 | the row loop copies the image; on an error nothing but image pixels have replaced old ones |
| Panel.Driver.St7735Rows | components/blusys/src/drivers/lcd.c:250-303 | the ST7735 loop meets the same contract, so both panels get the same memory |
| Panel.Driver.DrawBitmap | components/blusys/src/drivers/lcd.c:963-998 | bad arguments are refused; otherwise the buffer's image appears at the gap-shifted corner modulo 2^16, a failed transfer leaving nothing but image pixels over old ones, if the image does not run over the end of the 16-bit coordinates |
| Display.SwapUndoesSwap | components/blusys/src/drivers/display.c:166-192 | swapping a pixel's bytes twice gives the pixel back |
| Display.SplitSent | components/blusys/src/drivers/display.c:155-156 | swapping a row's bytes swaps each of its pixels |
| Display.SwapInPlace | components/blusys/src/drivers/display.c:155-156 | the in-place swap exchanges each pixel's two bytes in its range and touches nothing else |
| Display.BandShows | components/blusys/src/drivers/display.c:146-157 | a packed band in the scratch buffer is that band of the wanted image |
| Display.BandLines | components/blusys/src/drivers/display.c:284-298 | the scratch buffer has the lines asked for but at least 40, and never more than the panel |
| Display.Display.constructor | components/blusys/src/drivers/display.c:284-311 | for a monochrome panel the scratch buffer is the page buffer of width*height/8 bytes; for a colour panel, unless the 32-bit product wraps, it holds a row of any area of the panel, so the band path is taken |
| Display.MaxRows | components/blusys/src/drivers/display.c:142-142 | the band height is the greatest number of rows that fit the scratch buffer |
| Display.Display.CopyBand | components/blusys/src/drivers/display.c:146-154 | one copy or a copy per row packs the same rows, with and without stride padding |
| Display.Display.FlushBand | components/blusys/src/drivers/display.c:136-164 | the band loop shows the whole wanted image |
| Display.Display.FlushRow | components/blusys/src/drivers/display.c:169-192 | the fallback shows the same image and gives the pixel buffer back byte for byte |
| Display.Display.FlushRgb565 | components/blusys/src/drivers/display.c:117-192 | whatever the scratch size, pixel by pixel on the gap-shifted area: the two rendered bytes, second first on an RGB565 panel and in order on a native one; the rest of the panel and the pixel buffer unchanged; on a failing bus a pixel may also be the earlier one |
| Display.PixelShown | components/blusys/src/drivers/display.c:117-164 | of the image sent: the two bytes rendered for a place inside the area, the old contents outside |
| MonoPage.Pack | components/blusys/src/drivers/display.c:73-92 | for any height: bit y%8 of byte (y/8)*width+x is 1 exactly for the non-zero pixels of the area, and every index is inside |
| MonoPage.WholePagesFit | components/blusys/src/drivers/display.c:73-92 | on a panel whose height is a multiple of 8 every area of the panel can be packed into width*height/8 bytes |
| MonoPage.LitMeans | components/blusys/src/drivers/display.c:88-89 | the bit of pixel (x, y) is (page[y/8*width+x] >> y%8) & 1 |
| MonoPage.PixelMeans | components/blusys/src/drivers/display.c:80-87 | the pixel rendered for (x, y) is the one at (y-y1)*w + (x-x1) |
| MonoPage.BitsDistinct | components/blusys/src/drivers/display.c:88-89 | different pixels of a panel have different bits |
| MonoPage.PlotOne | components/blusys/src/drivers/display.c:88-89 | or-ing in a pixel's mask lights that pixel and no other |
| MonoPage.PageBufferSuffices | components/blusys/src/drivers/display.c:301-302 | width*height/8 bytes suffice exactly when the height is a multiple of 8 |
| AdcUnit.InvStep | components/blusys/src/hal/adc.c:80-152 | every critical section and hardware call keeps the accounting of references, mask and units |
| AdcUnit.HoldersAreSafe | components/blusys/src/hal/adc.c:80-152 | in every interleaving: count equals holders, handle set exactly when positive, every holder's handle is the live shared unit, no shared channel |
| AdcUnit.NothingLeft | components/blusys/src/hal/adc.c:133-152 | when all clients are done no unit, mask bit or reference is left |
| AdcUnit.OpenSucceeds | components/blusys/src/hal/adc.c:80-131 | in every interleaving an open that is not refused keeps its channel until its own unit creation fails or it is closed, and holds the live shared unit from the step that finds or publishes one |
| AdcUnit.FirstOpenAndLastClose | components/blusys/src/hal/adc.c:100-152 | with no unit in use, open creates and publishes one with count 1, and close then deletes it and restores the state exactly |
| AdcUnit.SharedOpenAndClose | components/blusys/src/hal/adc.c:91-152 | with a unit in use, open takes a reference to it and close restores the state exactly |
| AdcUnit.FailedOpenUndone | components/blusys/src/hal/adc.c:102-114 | an open whose unit cannot be created restores the state exactly |
| AdcUnit.LostRace | components/blusys/src/hal/adc.c:116-130 | an open that finds another unit published in the meantime holds that unit and deletes its own |
| AdcUnit.BusyIffTaken | components/blusys/src/hal/adc.c:91-94 | open reports BUSY exactly when another client has the channel |
| AdcUnit.HeldUnitStays | components/blusys/src/hal/adc.c:80-152 | from open to its own close a client's unit stays the shared one and is not deleted |
| AdcUnit.RefCountBounded | components/blusys/src/hal/adc.c:96-98 | the unsigned reference count is at most 32 and cannot wrap |
| TwaiTx.InvStep | components/blusys/src/hal/twai.c:141-186 | every step of writers, interrupt and other lock owners keeps the account of completions |
| TwaiTx.OkMeansDelivered | components/blusys/src/hal/twai.c:435-499 | OK only after exactly one completion, a successful one, since this write registered; of its own frame exactly when none was in flight then |
| TwaiTx.ReportExact | components/blusys/src/hal/twai.c:490-496 | a woken writer reports OK, IO or INTERNAL exactly as a successful, a failed or no completion came since it registered |
| TwaiTx.LeavesNoWaiter | components/blusys/src/hal/twai.c:476-488 | after success, failure or time-out no task stays registered, so a late completion is for nobody |
| TwaiTx.ClosedForNobody | components/blusys/src/hal/twai.c:332-346 | from close's clearing until another write registers no completion is recorded for anyone |
| TwaiTx.RefusedFrameIsReported | components/blusys/src/hal/twai.c:475-480 | a write whose frame the node refuses ends with the node's own error |
| TwaiTx.ExpiredWaitIsReported | components/blusys/src/hal/twai.c:482-489 | a write whose wait ran out ends with TIMEOUT if the node could be reset and with the node's own error if not |
| TwaiTx.ExpiredWaitNeverSucceeds | components/blusys/src/hal/twai.c:482-489 | a write whose wait ran out never ends with success, IO of a completion or a wake-up error |
| TwaiTx.RefusedIffUnregistered | components/blusys/src/hal/twai.c:451-473 | a write ends with the refusal of its checks exactly if it never registered as the waiting task |
| TwaiTx.OnlyLaterNotifications | components/blusys/src/hal/twai.c:467-482 | a write reports success, failure or a wake-up error only if a notification was given after it drained the old ones |
| TwaiTx.OneWriter | components/blusys/src/hal/twai.c:446-499 | two tasks are never inside a write at once |
| TwaiTx.ConclusiveResultsMeanOwnFrame | components/blusys/src/hal/twai.c:435-499 | if every write on the handle so far ended with its completion's OK or IO or with the refusal of its checks, a write's success is that of its own frame |
| TwaiTx.SuccessOfEarlierFrame | components/blusys/src/hal/twai.c:479-499 | after a write that ended in any other way, be it a wake-up error, a time-out or any error of the node, the next write can report success on the completion of the frame before |
| TwaiTx.NeverMisleadsIff | components/blusys/src/hal/twai.c:435-499 | successes after earlier writes that ended in ways of a given set are never another frame's if and only if the set has only a completion's OK or IO and the refusal |
| TwaiTx.CodesNeverMisleadIff | components/blusys/src/hal/twai.c:435-499 | by error code alone, successes after earlier writes with codes from a given set are never another frame's if and only if the set has only OK, because a failed reset passes on any code of the node |
| TwaiRx.CloseDrains | components/blusys/src/hal/twai.c:332-379 | once the idle wait has returned under closing no callback runs and none has started when the node is deleted |
| TwaiRx.WaitMakesProgress | components/blusys/src/hal/twai.c:98-114 | while close waits no step starts a callback and every return lowers the counter |
| TwaiRx.WaitExact | components/blusys/src/hal/twai.c:188-233 | the activity counter is 0 exactly when no callback is running |
| TwaiRx.CaptureCallsLastSet | components/blusys/src/hal/twai.c:188-222 | the interrupt starts the callback last set with its own context exactly if it is not null and the handle is not closing |
| TwaiRx.FailedDisableUndone | components/blusys/src/hal/twai.c:347-352 | a close that cannot disable the node leaves the handle open and running as it was |
| TwaiRx.FailedDeleteReopens | components/blusys/src/hal/twai.c:363-369 | a close that cannot delete the node leaves the handle open and stopped, ready to be started or closed again |
| Pcnt.InvStep | components/blusys/src/hal/pcnt.c:90-118 | every step of interrupt, start, stop, set_callback and close keeps the protocol invariant |
| Pcnt.CloseDrains | components/blusys/src/hal/pcnt.c:250-299 | once the idle wait has returned no user callback runs or starts before deletion |
| Pcnt.ReplacedCallbackIsDoneIff | components/blusys/src/hal/pcnt.c:459-485 | when set_callback's idle wait returns, the call is sure to end with no user callback running if and only if no raised interrupt is still on its way or neither the old nor the new callback is set |
| Pcnt.ReplacedCallbackStillRuns | components/blusys/src/hal/pcnt.c:459-485 | for any two pairs, a run in which set_callback has returned and the callback it replaced is running, where a stop may overtake a raised interrupt |
| Pcnt.StopDrainsIff | components/blusys/src/hal/pcnt.c:328-360 | once stop's idle wait has returned, no callback runs until the next start if and only if no raised interrupt is still on its way |
| Pcnt.StoppedUnitCallsBack | components/blusys/src/hal/pcnt.c:328-360 | for any callback, a run in which it runs on a stopped unit after that wait, where a stop may overtake a raised interrupt |
| Pcnt.WaitExact | components/blusys/src/hal/pcnt.c:47-63 | the activity counter is 0 exactly when every activation has returned |
| Pcnt.CaptureCallsLastSet | components/blusys/src/hal/pcnt.c:90-118 | the interrupt calls back the pair of the last set_callback exactly if its callback is not null and the handle is not closing, unless another set_callback has begun to write |
| Pcnt.FailedStopUndone | components/blusys/src/hal/pcnt.c:265-270 | a close that cannot stop the unit leaves the handle open and running as it was |
| Pcnt.FailedDeleteReopens | components/blusys/src/hal/pcnt.c:276-299 | a close that cannot disable or delete leaves the handle open and stopped, ready to be used again |
| Pcnt.CapturedPairWasInstalled | components/blusys/src/hal/pcnt.c:459-485 | every (callback, context) pair captured was installed by one single set_callback call, where a stop never overtakes a raised interrupt |
| Pcnt.CaptureIsInstalledIff | components/blusys/src/hal/pcnt.c:459-485 | with overtaking or without, the pair captured is an installed one if and only if the interrupt is not between the two stores or that mixture happens to be installed |
| Pcnt.SafeCallsNeverMix | components/blusys/src/hal/pcnt.c:459-485 | with overtaking or without: if every set_callback call clears the callback, keeps the context, or sets a callback asked for before with the present context, every pair captured was given to one single call |
| Pcnt.UnsafeCallCanMix | components/blusys/src/hal/pcnt.c:459-485 | any other call, made while a raised interrupt is on its way, can run the new callback with the old context, a pair no call was given |
| Pcnt.OvertakenInterruptMixesPairs | components/blusys/src/hal/pcnt.c:459-485 | for any pair installed first and any second call outside that rule, a run from the initial state that mixes the two |
| Pcnt.PromisesHoldIffPrompt | components/blusys/src/hal/pcnt.c:328-485 | over all runs, stop drains, replaced callbacks are done and pairs never mix, each exactly where a stop never overtakes a raised interrupt |
| Observe.Store.SetMinLevel | components/blusys/src/observe/log.c:32-35 | only the severity threshold changes |
| Observe.Store.RecordLog | components/blusys/src/observe/snapshot.c:16-45 | ring slot, sequence number, count and last error after one record |
| Observe.Store.CounterInc | components/blusys/src/observe/counter.c:15-21 | the counter of this domain grows modulo 2^32 and no other changes; unknown domains are ignored |
| Observe.Store.LogV | components/blusys/src/observe/log.c:42-62 | a line that passes the severity gate moves counter and ring together, any other moves nothing |
| Observe.Store.TakeSnapshot | components/blusys/src/observe/snapshot.c:47-70 | the snapshot of the current state |
| Observe.Store.Restore | components/blusys/src/observe/snapshot.c:72-104 | the state rebuilt from a snapshot, whatever was there before |
| Observe.Store.Clear | components/blusys/src/observe/snapshot.c:106-113 | ring, errors and counters are cleared, the severity threshold stays |
| History.TracksRun | components/blusys/src/observe/snapshot.c:16-45 | after any run of events the state agrees with the full history of accepted lines |
| History.Run | components/blusys/src/observe/log.c:42-62 | the store driven through any run of events is in the state the history theorems are about |
| History.SnapshotIsRecent | components/blusys/src/observe/snapshot.c:47-64 | the snapshot is the last min(n, 32) records oldest first, exactly unless the sequence number wrapped 1 to 31 records ago |
| History.LastErrorIsLatest | components/blusys/src/observe/snapshot.c:36-44 | each domain's last error is its most recent ERROR in the full history |
| History.LineKept | components/blusys/src/observe/log.c:42-62 | a line is kept exactly if its level is at most the threshold last set, 2 if none was, and its domain is one of the fourteen |
| History.SnapshotLine | components/blusys/src/observe/snapshot.c:24-34 | before the wrap entry i of a snapshot has the number, level, domain and text, up to 159 characters, of that line of the full history |
| History.LastErrorLine | components/blusys/src/observe/snapshot.c:36-44 | a domain's last error has the number, domain and text, up to 159 characters, of its latest line of level 0 |
| History.NoErrorLine | components/blusys/src/observe/snapshot.c:36-44 | a domain without a line of level 0 has no valid last error |
| History.CounterCountsOwn | components/blusys/src/observe/counter.c:15-21 | over any run each domain's counter is the number of its own accepted lines plus its own direct bumps modulo 2^32 |
| History.CountersAddUp | components/blusys/src/observe/counter.c:15-21 | counters sum to lines plus direct bumps modulo 2^32; without bumps to the sequence number |
| History.RestoreExact | components/blusys/src/observe/snapshot.c:72-104 | restoring the store's own snapshot over any state is exact if and only if the sequence number did not wrap within the last 32 records |
| History.WrapIsMet | components/blusys/src/observe/snapshot.c:47-104 | the failing halves of the two conditions are met: some history of accepted lines leads to a wrong snapshot order, and some to a wrong restore |
| History.RestoreUndetectable | components/blusys/src/observe/snapshot.c:72-104 | short of that wrap no later run can tell a restored store from one that never stopped |
| History.LifeIsHistory | components/blusys/src/observe/snapshot.c:72-113 | every state of a life of logs, clears and restores of own snapshots is the state some plain history leads to |
| History.RestoreInLife | components/blusys/src/observe/snapshot.c:72-104 | in such a life restoring any earlier snapshot brings that point's state back |
| RmtCodec.Pack | components/blusys/src/hal/rmt.c:46-102 | accepts exactly the non-empty lists of pulses of 1 to 32767 microseconds; symbol k holds pulse 2k in its first half and pulse 2k+1, or duration 0, in its second, whole in 15 bits |
| RmtCodec.Unpack | components/blusys/src/hal/rmt_rx.c:218-238 | yields the first max_pulses pulses the symbols stand for |
| RmtCodec.RoundTrip | components/blusys/src/hal/rmt.c:51-102 | the packed symbols stand for exactly the pulses packed, ceil(n/2) symbols, odd counts included |
| RmtCodec.Loopback | components/blusys/src/hal/rmt_rx.c:218-238 | packing then unpacking returns the first max_pulses pulses of any valid list |
| Encoder.TableIsPhaseChange | components/blusys/src/drivers/encoder.c:283-288 | each table entry is the phase change modulo 4, a skipped step counting two |
| Encoder.Decoder.OnSample | components/blusys/src/drivers/encoder.c:290-339 | one sample's effect on lines, accumulator and position, with the event that reports it |
| Encoder.Feed | components/blusys/src/drivers/encoder.c:290-339 | a decoder fed any run of samples ends where the fold of the samples does, and its events add up to its position |
| Encoder.PositionExact | components/blusys/src/drivers/encoder.c:324-338 | steps*position + accumulator is the sum of table entries and the accumulator stays below a detent, for 1 to 127 steps |
| Encoder.TravelIsPhase | components/blusys/src/drivers/encoder.c:309-322 | that sum plus twice the skipped steps is the phase change modulo 4 |
| Encoder.PositionExactIffNarrow | components/blusys/src/drivers/encoder.c:324-338 | the position is right for every run exactly when a detent has at most 127 steps |
| SevenSeg.DigitShown | components/blusys/src/drivers/seven_seg.c:43-63 | the sixteen digit patterns, blank and minus are distinguishable |
| SevenSeg.DigitHasShape | components/blusys/src/drivers/seven_seg.c:43-63 | each pattern lights exactly the segments that draw its digit; blank lights none and minus the middle one |
| SevenSeg.RenderedReadsBack | components/blusys/src/drivers/seven_seg.c:541-561 | reading a rendered number from the right recovers it with either fill |
| SevenSeg.Panel.WriteInt | components/blusys/src/drivers/seven_seg.c:511-575 | accepts exactly the values below 10^digits, a sign taking one digit and INT_MIN never, otherwise nothing changes; then every place shows its decimal digit, left of them the sign, and left of that zeros if asked for and nothing if not; a MAX7219 lights it, and a transfer error is reported exactly when a transfer to it fails |
| SevenSeg.HexReadsBack | components/blusys/src/drivers/seven_seg.c:596-600 | reading a hexadecimal rendering recovers the value |
| SevenSeg.Panel.WriteHex | components/blusys/src/drivers/seven_seg.c:577-616 | accepts exactly the values below 16^digits; then every place shows its hexadecimal digit, and a MAX7219 and its errors as for integers |
| SevenSeg.Max7219KeepsSegments | components/blusys/src/drivers/seven_seg.c:82-82 | the remapping keeps every segment: a to g one bit up, the point to bit 0 |
| SevenSeg.Max7219.Flush | components/blusys/src/drivers/seven_seg.c:135-148 | on success every digit register shows its digit's segments, other registers are untouched |
| SevenSeg.ShiftRegister.ShiftOut | components/blusys/src/drivers/seven_seg.c:154-163 | shifted most significant bit first, output i is bit i of the byte |
| Expander.Open | components/blusys/src/hal/gpio_expander.c:122-251 | refuses configurations that do not fit the part, and fails otherwise exactly when a transfer fails; a PCF8574 starts with its eight pins inputs and high, cached so; on the others the cache is what the registers hold and only IOCON is written |
| Expander.AcceptsByPart | components/blusys/src/hal/gpio_expander.c:130-167 | part by part: the transport and the addresses accepted, and the number of pins |
| Expander.Driver.SetDirection | components/blusys/src/hal/gpio_expander.c:299-344 | the cache takes every accepted request, bus failure or not; it fails exactly when a transfer fails; success makes the register show the whole cache |
| Expander.Driver.WritePin | components/blusys/src/hal/gpio_expander.c:348-388 | as above for one pin's level |
| Expander.Driver.WritePort | components/blusys/src/hal/gpio_expander.c:390-427 | as above for the whole port |
| Expander.Serve | components/blusys/src/hal/gpio_expander.c:299-427 | the driver taken through any run of requests, any transfers failing: its cache is the fold of the requests, and after a success the chip's bit of every pin shows it |
| Expander.OpenAndServe | components/blusys/src/hal/gpio_expander.c:122-427 | on a PCF8574, whatever fails after opening, a pin that no request makes an output stays an input and its line stays high |
| Expander.PinsAreIndependent | components/blusys/src/hal/gpio_expander.c:299-427 | after any run each pin is what its own requests made of it, and PCF input bits stay high in the latch |
| Expander.LastWriteWins | components/blusys/src/hal/gpio_expander.c:348-427 | a pin's latch bit is the level last written to it, for a PCF output since it was last an input |
| Expander.LastDirectionWins | components/blusys/src/hal/gpio_expander.c:299-344 | a pin's direction is the one last requested for it |
| Dht.Decode | components/blusys/src/drivers/dht.c:123-154 | accepts a frame of at least 41 symbols exactly when byte 4 is the sum of the others modulo 256, and returns the five bytes |
| Dht.FrameReadsBack | components/blusys/src/drivers/dht.c:134-145 | decoding inverts the most-significant-first encoding of any five bytes with zeros of at most 40 and ones of more than 40 microseconds |
| Dht.SingleBitFlipRejected | components/blusys/src/drivers/dht.c:147-151 | an accepted frame is rejected after any single bit is read wrongly |
| Dht.MeasurementArrives | components/blusys/src/drivers/dht.c:123-187 | a DHT22 reading comes back exactly through frame, decoding and conversion |
| Dht.ReadingArrives | components/blusys/src/drivers/dht.c:123-187 | a reading of either sensor comes back exactly from any frame whose pulses, each with its own jitter, lie on their side of 40 microseconds |
| Dht.Measured11Converts | components/blusys/src/drivers/dht.c:169-171 | a DHT11's whole units and tenths convert to the reading, and its bytes pass the checksum |

## Left out

- ESP-IDF, FreeRTOS and LVGL themselves: their calls are assumed device or environment steps.
  The LVGL swap exchanges each pixel's two bytes, a stride is at least twice the width, a new
  ADC unit is never one that still exists, an interrupt is raised only while its hardware is
  started, TWAI completions come in the order frames were queued.
- Physical timing, pin set-up, allocation failures and the unsupported-target stubs.
- The `waiting_task` guard of `one_wire.c` and the draw and close hand-shake of `lcd.c`: 1-Wire
  operations and drawing are modelled from one task each, transfers as complete when they return.
- Display.Display.FlushRgb565: does not model areas outside the panel, which LVGL never flushes,
  nor 18-bit panels, because the display layer always renders two bytes a pixel.
- Panel.Driver.DrawBitmap: promises nothing about where an image lands that runs over the end of
  the 16-bit window coordinates, because what a controller does with such a window is its own.
- The SSD1306 transfer of the packed page buffer.
- Handing a freed handle to an interrupt that was raised before the hardware was stopped, and a
  second task closing the same handle.
- Received TWAI frame contents; the interrupt's message copy carries no state.
- `snapshot.c` and `log.c` are not locked; the model runs them from one task. Formatting of the
  line and the console output are left out: the rendered line is an argument.
- Lock time-outs of `gpio_expander.c`, its close and its reads; registers are modelled as one
  truth value a pin, in the sequential layout that open selects.
- Encoder.PositionExact: does not model the 32-bit width of the position, which takes 2^31
  detents one way to wrap. The pulse-counter variant of the encoder is not modelled.
- The single-precision arithmetic of `dht_convert`; tenths are integers.
- Brightness, raw segment, decimal point and multiplexing calls of `seven_seg.c`.
- Slot allocators, timers, UART, button and the thin wrappers, which would only add easy members.
