# tiva-bsp in Dafny

This project models the core of tiva-bsp. tiva-bsp is a board-support
package and service layer for TI Tiva (TM4C123/TM4C129) boards, plus the
Python host harness that talks to them over USB. The model covers:

- **Firmware data structures.** The UART ring buffer with its "read
  index == size" empty mark, and the I2C and SSI transaction queues.
- **Transfer engines.** The I2C and SSI interrupt-driven transfers.
- **Board drivers.** GPIO configuration and pin-interrupt dispatch, NVIC
  priority packing, button debounce and long press, LEDs, the reset
  reason, the manufacturing record, NVM and the stdio device table.
- **Sensor drivers.** The SHT21 (both drivers), TMP006, ISL29023, INA226,
  INA228 and INA239.
- **Services.** The message framework and event handlers, the command
  console and its binary frames, the power-monitor channel averages,
  sampler and event handlers, and the LED and button event handlers.
- **Host harness.** On the Python side: the message protocol, the
  event-handler dispatch, the power-monitor messages and the sample-set
  decoding.

Every operation is a pure function or a small method over immutable
data. Hardware effects are outputs (the bytes a transaction sends, the
commands written to a peripheral, the callbacks run); hardware inputs
are parameters. C integer widths are written out with subset types and
explicit wrap-around. Python exceptions become `Failure` values of a
`Result`.

Where the source does something its own comments, names or types show
it did not intend, the model keeps two halves:

- a member that follows the code as written, with a lemma exhibiting the
  input where it goes wrong;
- the corrected member, with the intended property proved.

The rest of the model then builds on the corrected member; see
"## Findings".

Where source revisions disagree, the model follows the code that runs:

- **ChAvg confirm entry.** It is the 5-byte `{chId, v, i}` that
  svc_PwrMon_channel.c fills (`avg.fmt0.v`, `avg.fmt0.i`). The header
  source/svc/svc_PwrMonEh.h:289-296 declares a 17-byte `{chId, 4 × int32}`
  entry instead.
- **Stats confirm.** It has the four fields svc_PwrMonEh.c reads through
  `samplerStatsPtr` (`pktSndNum` and the others).
- **samplerStatsReset.** Its body is not part of the sources modelled, so
  it is taken to zero the counters.

The I2C driver sends every transaction that is not a READ as a write
(source/bsp/bsp_I2c.c:123-153, 210-255), WRITE_READ included. The sensor
drivers that queue WRITE_READ (dev_Humid_sht21.c, dev_Light_isl29023.c,
dev_PwrMon.c) are modelled with the semantics they rely on: the register
byte is written, and the reply lands in the buffer after it.

## Model

| member | source | states |
|---|---|---|
| UartIo.Init | source/bsp/bsp_UartIo.c:501-513 | a new ring is empty: write index 0 and read index at the size mark, holding nothing |
| UartIo.Count | source/bsp/bsp_UartIo.c:43-88 | the number of bytes held is 0 exactly when the read index sits at the empty mark, and the full size exactly when the two indices meet on a non-empty ring |
| UartIo.ContigAvail | source/bsp/bsp_UartIo.c:36-41 | the free stretch from the write index never wraps past the end and is empty only when the ring is full |
| UartIo.ContigData | source/bsp/bsp_UartIo.c:63-68 | the held stretch from the read index never wraps and is empty only when nothing is held |
| UartIo.Write | source/bsp/bsp_UartIo.c:43-61 | committing n bytes at the write index keeps the ring well formed and adds n to the count |
| UartIo.Read | source/bsp/bsp_UartIo.c:70-88 | taking n bytes from the read index keeps the ring well formed and removes n from the count, setting the empty mark when the indices meet |
| UartIo.WriteAppends | source/bsp/bsp_UartIo.c:26-61 | a contiguous write appends exactly the copied bytes to the held contents, oldest first |
| UartIo.ReadTakes | source/bsp/bsp_UartIo.c:31-88 | a contiguous read hands out the oldest held bytes and leaves the rest in order |
| UartIo.BufferWrite | source/bsp/bsp_UartIo.c:322-384 | bsp_UartIo_bufferWrite accepts min(len, free) bytes, which become the tail of the held contents in order; the bytes that do not fit are counted as dropped |
| UartIo.BufferRead | source/bsp/bsp_UartIo.c:409-494 | bsp_UartIo_bufferRead returns min(cnt, held) bytes, the oldest held ones, and leaves exactly the remainder; then, if the receiver was stopped and the ring now has room, it takes one pending byte into the ring, or re-enables the receiver when none is pending |
| UartIo.Rearm | source/bsp/bsp_UartIo.c:459-491 | a stopped receiver is restarted once the ring has room: a byte the UART already holds is appended to the ring, and with none held the receiver is left enabled; an enabled receiver or a full ring changes nothing |
| UartIo.RxHandler | source/bsp/bsp_UartIo.c:224-273 | the byte received and as many further bytes as leave one slot of room are appended in order; reception stays enabled exactly while the ring has room |
| UartIo.TxDone | source/bsp/bsp_UartIo.c:281-317 | a completed send releases the bytes it covered; a new send of the next contiguous stretch starts exactly when bytes remain |
| UartIo.TxTrigger | source/bsp/bsp_UartIo.c:380-402 | after a client write, a send starts exactly when data is held and no send is outstanding |
| UartIo.WriteKeepsTxInv | source/bsp/bsp_UartIo.c:322-402 | client writes never shrink the stretch an outstanding send covers, so the transmit invariant is preserved |
| UartIo.TxDrains | source/bsp/bsp_UartIo.c:281-317 | without further writes, at most two completions empty the transmit ring (the stretch to the end, then the wrapped stretch) |
| I2c.Advance | source/bsp/bsp_I2c.c:108-120 | moving to the next byte advances the buffer position by one and decrements the size_t length, wrapping at 0 |
| I2c.Start | source/bsp/bsp_I2c.c:123-153 | a READ only issues its start command (a single receive for one byte, else a burst start); any other type puts its first byte and issues a single send for one byte, else a burst start |
| I2c.BusyStep | source/bsp/bsp_I2c.c:210-255 | a busy interrupt receives (READ) or sends (others) the byte at the current position and asks for FINISH exactly on the last byte |
| I2c.IdleReceive | source/bsp/bsp_I2c.c:171-179 | the idle interrupt of a READ takes the final byte; other types take nothing |
| I2c.BusyWriteDrains | source/bsp/bsp_I2c.c:210-255 | the busy interrupts of a write send every remaining byte in buffer order, the last one with FINISH |
| I2c.BusyReadDrains | source/bsp/bsp_I2c.c:210-255 | the busy interrupts of a read of n > 1 bytes receive all but the last in order, the last step asking for FINISH |
| I2c.WriteTransfer | source/bsp/bsp_I2c.c:123-255 | a whole write sends all n bytes in buffer order, with SINGLE_SEND for one byte and BURST start/cont/finish otherwise |
| I2c.ReadTransfer | source/bsp/bsp_I2c.c:123-255 | a whole read receives all n bytes in buffer order, the last one at the idle interrupt |
| I2c.EnqueueAsWritten | source/bsp/bsp_I2c.c:377-406 | bsp_I2c_masterTransQueue as written: an empty queue makes the record head and tail and starts it; a non-empty one links it after the tail but leaves the tail where it was; a rejected record leaves interrupts masked |
| I2c.Enqueue | source/bsp/bsp_I2c.c:377-406 | the corrected queue restores interrupts on every path and makes an accepted record the new tail |
| I2c.ClearSelfLink | source/bsp/bsp_I2c.c:181-192 | a head whose nextPtr points at itself (re-queued by its owner) is unlinked from itself; no other link changes |
| I2c.Pop | source/bsp/bsp_I2c.c:197-209 | after the callback the head is unlinked, and the record behind it, if any, becomes head and is started |
| I2c.EnqueueAppends | source/bsp/bsp_I2c.c:377-406 | the corrected queue is a FIFO: an accepted record joins the end, a rejected one changes nothing |
| I2c.PopRemovesHead | source/bsp/bsp_I2c.c:181-208 | completing the head removes exactly it and starts the next record in order |
| I2c.StaleTailLosesTransaction | source/bsp/bsp_I2c.c:392-403 | as written, queue A, queue B, complete A, queue C: C is linked behind the completed A and never runs |
| I2c.CorrectedQueueKeepsTransaction | source/bsp/bsp_I2c.c:377-406 | with the corrected queue the same steps leave C queued behind B |
| I2c.RejectedLeavesInterruptsMasked | source/bsp/bsp_I2c.c:381-390 | a zero-length transaction returns from inside the critical section as written; the corrected queue restores interrupts |
| I2c.RequeueFromCallbackRuns | source/bsp/bsp_I2c.c:181-208 | a record re-queued by its owner from its own callback runs once more |
| I2c.RequeueBeforeCompletionIsDropped | source/bsp/bsp_I2c.c:181-208 | a record queued a second time before it completes is unlinked from itself at completion, so the second request never runs |
| Ssi.Start | source/bsp/bsp_Ssi.c:140-171 | starting a transaction sets the number of reply bytes to skip to wLen - rLen and changes nothing else |
| Ssi.EnqueueAsWritten | source/bsp/bsp_Ssi.c:351-388 | bsp_Ssi_masterTransQueue as written: a record is started at once on an idle engine and queued otherwise; a rejected one leaves interrupts masked |
| Ssi.Enqueue | source/bsp/bsp_Ssi.c:351-388 | the corrected queue behaves the same but restores interrupts on every path |
| Ssi.Complete | source/bsp/bsp_Ssi.c:174-197 | completion starts the head of the pending queue in the active slot, or leaves the engine idle when nothing is pending |
| Ssi.EnqueueFifo | source/bsp/bsp_Ssi.c:351-388 | onto a busy engine a record joins the end of the pending FIFO; onto an idle one it starts and the FIFO is unchanged |
| Ssi.CompleteFifo | source/bsp/bsp_Ssi.c:174-197 | completion starts the oldest pending record and leaves the rest in order |
| Ssi.RejectedLeavesInterruptsMasked | source/bsp/bsp_Ssi.c:353-363 | a transaction with no bytes returns inside the critical section as written; the corrected queue restores interrupts |
| Ssi.TxFill | source/bsp/bsp_Ssi.c:122-128 | bytes are pushed while some remain and the FIFO has room: all bytes when they fit, else exactly the room |
| Ssi.FillsDrain | source/bsp/bsp_Ssi.c:200-232 | after ceil(wLen / room) TXEOT refills every byte of the transaction is sent |
| Ssi.Receive | source/bsp/bsp_Ssi.c:200-232 | the first sLen received bytes are dropped and the next rLen stored, in order or reversed as the transaction asks |
| Ssi.SsiRegisterRead | source/bsp/bsp_Ssi.c:200-232 | an INA239 register read (command byte, then zeros, read reversed) against a device that answers big-endian yields the register's value |
| Gpio.Pins | source/bsp/bsp_Gpio.c:149-160 | the pins a mask selects are exactly the set bits below eight |
| Gpio.Init | source/bsp/bsp_Gpio.c:41-82 | after init every pin of the port has no handler and nothing else changes |
| Gpio.DataAddress | source/bsp/bsp_Gpio.c:86-116 | the masked data address puts the pin mask in address bits 2-9, so the mask is recovered from the address |
| Gpio.DataAddressDistinct | source/bsp/bsp_Gpio.c:86-116 | two masks address the same data word exactly when they are equal |
| Gpio.PctlAsWritten | source/bsp/bsp_Gpio.c:145-160 | the selector loop as written shifts the whole mask and value up one nibble per bit, so only the highest selected pin gets the function and every lower pin's selector is shifted away |
| Gpio.PctlAsWrittenDropsLowPin | source/bsp/bsp_Gpio.c:145-163 | for pins 0 and 1 with function 2, pin 0's selector is left untouched while pin 1 is set |
| Gpio.Pctl | source/bsp/bsp_Gpio.c:143-163 | the intended loop sets selector nibble k to the function for every selected pin k and leaves the others |
| Gpio.ConfigAltFunction | source/bsp/bsp_Gpio.c:120-175 | pins outside the mask are unchanged; analog selects AMSEL and clears DEN; otherwise every selected pin gets the function, DEN and AFSEL |
| Gpio.ConfigAltFunctionAsWritten | source/bsp/bsp_Gpio.c:120-175 | as written, for a digital function, only the highest selected pin's selector becomes the function and no other selector changes |
| Gpio.AltFunctionAsWrittenMissesPin | source/bsp/bsp_Gpio.c:145-163 | as written, configuring pins 0 and 1 leaves pin 0 on its old function |
| Gpio.ConfigOutput | source/bsp/bsp_Gpio.c:178-233 | each selected pin becomes a digital output with the requested drive, open drain and initial level, pulls cleared; other pins unchanged |
| Gpio.ConfigInput | source/bsp/bsp_Gpio.c:236-281 | each selected pin becomes a digital input with the requested pull and open drain; an unknown pull leaves the resistors; other pins unchanged |
| Gpio.IntControl | source/bsp/bsp_Gpio.c:284-307 | ENABLE unmasks exactly the selected pins' interrupts and any other value masks them; nothing else changes |
| Gpio.SenseAsWritten | source/bsp/bsp_Gpio.c:336-360 | the sense writes as written: only the IS/IBE/IEV registers change |
| Gpio.Sense | source/bsp/bsp_Gpio.c:336-360 | the corrected sense writes: only the IS/IBE/IEV registers change |
| Gpio.SenseSelects | source/bsp/bsp_Gpio.c:336-360 | after the corrected writes every selected pin triggers on the requested type and the others keep theirs |
| Gpio.SenseAsWrittenSwapsLevels | source/bsp/bsp_Gpio.c:350-360 | as written a LEVEL_LOW request arms a high-level trigger and LEVEL_HIGH a low-level one; the edge types are right |
| Gpio.IntConfig | source/bsp/bsp_Gpio.c:310-374 | the selected pins get the callback, DMA/ADC triggers when asked, and the requested sense; other pins and the mask register are unchanged |
| Gpio.Dispatch | source/bsp/processor/tm4c123/bsp_Gpio_tm4c123.c:60-89 | every call made is to a pending pin at or above the start, with that pin's handler and port |
| Gpio.DispatchAscending | source/bsp/processor/tm4c123/bsp_Gpio_tm4c123.c:70-86 | the pending pins are handled in ascending pin order |
| Gpio.DispatchComplete | source/bsp/processor/tm4c123/bsp_Gpio_tm4c123.c:70-86 | every pending pin with a handler is called |
| Gpio.PortIsr | source/bsp/processor/tm4c123/bsp_Gpio_tm4c123.c:60-89 | the port ISR clears exactly the masked interrupt status read, and calls the handler of each pending pin that has one, once, in ascending order |
| Gpio.PinIsr | source/bsp/processor/tm4c123/bsp_Gpio_tm4c123.c:92-124 | a per-pin ISR ignores a shared interrupt whose own bit is clear; otherwise it clears that bit and calls the handler if one is registered |
| Gpio.PinIsrAsWritten | source/bsp/bsp_Gpio_tm4c123.c:53-82 | the legacy per-pin ISR calls through the handler entry even when it is NULL |
| Gpio.PinIsrAsWrittenCallsNull | source/bsp/bsp_Gpio_tm4c123.c:71-78 | right after init a pending pin makes the legacy ISR call a NULL handler, where the processor copy calls nothing |
| Gpio.PinIsrAgreeWithCallback | source/bsp/bsp_Gpio_tm4c123.c:53-82 | with a handler registered the two copies behave the same |
| Interrupt.ModeCode | source/bsp/bsp_Interrupt.h:73-76 | each priority mode is written as its PRIGROUP code |
| Interrupt.GroupSubgroup | source/bsp/bsp_Interrupt.h:39-47 | a group and subgroup that fit the selected mode pack into the three implemented priority bits |
| Interrupt.GroupSubgroupRoundTrip | source/bsp/bsp_Interrupt.h:39-47 | the NVIC reads a packed priority back as the group it was built from, and as its subgroup in every mode that has one |
| Interrupt.GroupOrderKept | source/bsp/bsp_Interrupt.h:39-47 | a smaller group always packs to a smaller (more urgent) priority, whatever the subgroups |
| Interrupt.BuildPriReg | source/bsp/bsp_Interrupt.h:53-59 | four 3-bit priorities land in bits 5-7 of their own bytes and every other bit is clear |
| Interrupt.BuildPriRegBytes | source/bsp/bsp_Interrupt.h:53-59 | byte k of a built priority register holds priority k in its top three bits |
| Button.PullFor | source/bsp/bsp_Button.c:101-107 | a button pressed low gets the pull-up and every other polarity the pull-down |
| Button.EdgeFor | source/bsp/bsp_Button.c:151-159 | a button pressed low interrupts on the falling edge and every other polarity on the rising edge |
| Button.Init | source/bsp/bsp_Button.c:86-111 | every button starts disabled with no handler; for each button, in table order, its interrupt is masked and then its pin is made an input with the pull for its polarity |
| Button.IoHandler | source/bsp/bsp_Button.c:54-80 | the first button on the interrupting pin that is enabled and has a handler is disabled, its interrupt masked and its handler called; when none matches nothing changes |
| Button.FirstMatch | source/bsp/bsp_Button.c:58-62 | the index found is the first matching button at or after the start, or -1 exactly when none matches |
| Button.Control | source/bsp/bsp_Button.c:114-140 | only the addressed button changes; disabling always disables; enabling takes effect only with a handler; the GPIO interrupt is touched exactly when the enabled flag flips |
| Button.RegisterHandler | source/bsp/bsp_Button.c:143-164 | the handler is stored without touching the enabled flag and the pin is set to interrupt on the edge of its polarity |
| Button.Pressed | source/bsp/bsp_Button.c:167-178 | a button reads pressed exactly when it is pressed low and its pin reads 0 |
| Button.HighNeverPressed | source/bsp/bsp_Button.c:174-177 | a button pressed high never reads pressed, whatever its pin reads |
| Button.ControlIdempotent | source/bsp/bsp_Button.c:114-140 | repeating the same control request changes nothing and touches no GPIO |
| Button.FiresOncePerEnable | source/bsp/bsp_Button.c:54-80 | after a handler call a second interrupt on the same pin cannot call that button again until it is re-enabled |
| ButtonEh.ButtonHandler | source/svc/svc_ButtonEh.c:189-202 | a press interrupt disables the button, moves it to debouncing and starts the 100 ms poll, keeping the count |
| ButtonEh.Poll | source/svc/svc_ButtonEh.c:113-186 | each poll: a release returns to unpressed, re-enables the button and stops polling, sending a release only after a real press; a held button keeps polling without re-enabling; the press and long-press indications are sent on their transitions |
| ButtonEh.Polls | source/svc/svc_ButtonEh.c:113-186 | a run of polls keeps the button record well formed |
| ButtonEh.PressCountsDown | source/svc/svc_ButtonEh.c:132-143 | while held in the press state each poll counts down one, and the long press is announced exactly once, on the poll that reaches zero |
| ButtonEh.LongPressAfterTwoSeconds | source/svc/svc_ButtonEh.c:41-43 | holding a debounced button for twenty polls of 100 ms (2000 ms) sends one press and one long press; one poll fewer is still a plain press |
| ButtonEh.PressNotRepeated | source/svc/svc_ButtonEh.c:124-175 | once in the press or long-press state, further polls while held never send another press indication |
| ButtonEh.ApplyControl | source/bsp/bsp_Button.c:114-140 | the driver's enabled flag after a batch of control requests: enable alone enables a button with a handler, disable alone disables, neither leaves it |
| ButtonEh.StartUp | source/svc/svc_ButtonEh.c:205-220 | after init the handler is registered, the button is enabled and its handler state is unpressed, with driver and handler agreeing |
| ButtonEh.Edge | source/bsp/bsp_Button.c:54-80 | an edge on an enabled button leaves it disabled and debouncing with the poll timer running |
| ButtonEh.Tick | source/svc/svc_ButtonEh.c:113-186 | after a poll the interrupt is enabled exactly when the button is no longer held, so driver and handler stay in step |
| ButtonEh.TimerName | source/svc/svc_ButtonEh.c:40-65 | the timer name is the decimal button id followed by "_BUTTONEH", at most eleven characters |
| ButtonEh.NameRecoversId | source/svc/svc_ButtonEh.c:120 | for a one-digit button id the timer callback reads back the id the name was built from |
| ButtonEh.TwoDigitIdMisread | source/svc/svc_ButtonEh.c:120 | the callback reads only the first digit, so button 12 would be taken for button 1 |
| Led.SetColor | source/bsp/bsp_Led.c:62-77 | one write per element of the group: on level for each element whose colour bits meet the requested colour, off level otherwise |
| Led.Init | source/bsp/bsp_Led.c:45-59 | init writes each element of every group once, in order, to its off level: the writes for group i start at Offset(i), after all earlier groups |
| Led.InitIsBlack | source/bsp/bsp_Led.c:45-77 | the writes init makes for each group are exactly those of setting that group to colour 0 |
| Led.Off | source/bsp/bsp_Led.c:54 | the off write of each element of a group |
| Led.BlackIsInitLevel | source/bsp/bsp_Led.c:54-74 | setting colour 0 drives a group exactly to the level init leaves it at |
| Led.AnyOverlapIsFullOn | source/bsp/bsp_Led.c:66-74 | any colour sharing a bit with an element lights it fully, the same as its own colour |
| Led.PolarityDecides | source/bsp/bsp_Led.c:72-74 | on and off levels differ for a non-empty mask, and an active-low element is on at 0 |
| LedEh.ProcessPattern | source/svc/svc_LedEh.c:93-112 | while elements remain, the next one is shown, its time started and the count advanced; after the last the pattern message is released and dropped |
| LedEh.Init | source/svc/svc_LedEh.c:183-199 | every LED starts with no pattern and count 0 |
| LedEh.ColorReq | source/svc/svc_LedEh.c:115-128 | an out-of-range LED is ignored; otherwise the colour is set, and a confirm goes back exactly when the sender is another handler |
| LedEh.PatternReq | source/svc/svc_LedEh.c:131-155 | an out-of-range LED is ignored; otherwise only that LED changes: an earlier pattern is released, the new message retained and its first element shown, with a confirm to another sender |
| LedEh.TimerExpiry | source/svc/svc_LedEh.c:173-180 | a timer expiry advances only the LED it belongs to, by one pattern step |
| LedEh.MsgHandler | source/svc/svc_LedEh.c:158-170 | colour and pattern requests go to their handlers and any other message is ignored |
| LedEh.Expiries | source/svc/svc_LedEh.c:173-180 | any number of timer expiries keeps the LED record consistent |
| LedEh.ExpiriesStep | source/svc/svc_LedEh.c:173-180 | k expiries are one step followed by k-1 more |
| LedEh.PlaysRest | source/svc/svc_LedEh.c:93-112 | from element c on, the remaining expiries show exactly the remaining colours in order, then release the message |
| LedEh.PatternReqColors | source/svc/svc_LedEh.c:131-155 | a pattern request retains the message and shows what the first pattern step shows |
| LedEh.PatternPlaysInOrder | source/svc/svc_LedEh.c:93-155 | a pattern request followed by one expiry per element shows every colour of the pattern in order, then releases the message it retained |
| Reset.HwReasonAsWritten | source/bsp/bsp_Reset.c:89-90 | as written the hardware reason byte is the low seven cause bits or'ed with the whole cause shifted down six, narrowed to a byte |
| Reset.HwReason | source/bsp/bsp_Reset.c:89-90 | the corrected reason byte keeps the seven low cause bits and shows the host-request cause (bit 12) at bit 7 |
| Reset.HwReasonFaithful | source/bsp/bsp_Reset.h:41-48 | in the corrected byte each cause flag shows by its own bit exactly when the cause has it |
| Reset.HwReasonAsWrittenConfuses | source/bsp/bsp_Reset.c:89-90 | as written a hibernate wake also reads as an external reset (0x41) and a host request reads as a hibernate wake |
| Reset.Pack | source/bsp/bsp_Reset.c:92-93 | the last reason holds the hardware byte in bits 16-23 and the software byte in bits 0-7 |
| Reset.GetSwReason | source/bsp/bsp_Reset.c:153-157 | the software reason is the low byte of the last reason |
| Reset.GetHwReason | source/bsp/bsp_Reset.c:160-164 | the hardware reason is bits 16-23 of the last reason |
| Reset.UnpackPack | source/bsp/bsp_Reset.c:153-164 | the two getters give back the bytes the last reason was packed from |
| Reset.Init | source/bsp/bsp_Reset.c:66-103 | a power-on reset zeroes the count and forgets the software reason, any other reset counts up (32-bit); fault registers survive only a fault; the last reason packs the hardware reason and the surviving software reason; the software reason is cleared and the assert location moves to "last" and is cleared |
| Reset.InitAsWritten | source/bsp/bsp_Reset.c:66-103 | init as written differs from the corrected one only in the hardware byte of the last reason |
| Reset.SystemReset | source/bsp/bsp_Reset.c:106-115 | a software reset records its reason and changes nothing else |
| Reset.SystemFault | source/bsp/bsp_Reset.c:118-135 | a fault saves the eight stacked registers and records the fault reason, changing nothing else |
| Reset.SetAssertInfo | source/bsp/bsp_Reset.c:138-143 | the assert location is recorded and nothing else changes |
| Reset.ReasonSurvivesReset | source/bsp/bsp_Reset.c:66-115 | the reason and assert location recorded before a reset are reported after it, unless the reset was a power-on one, which reports an unknown reason and count 0 |
| Reset.FaultRegsSurvive | source/bsp/bsp_Reset.c:118-135 | the registers saved by a fault are still there after the reset that follows, unless it is a power-on reset |
| Reset.ReasonReportedOnce | source/bsp/bsp_Reset.c:84-94 | a reason is reported by one boot only: a second boot with no reset request in between reports unknown and clears the fault registers |
| Mfg.HdrAt | source/bsp/bsp_Mfg.c:43-66 | the header is the last eight bytes of flash: lengths, format, and the little-endian signature |
| Mfg.Init | source/bsp/bsp_Mfg.c:81-97 | the record is used exactly when the signature, format 1 and the record length match; it then sits just below the header with the user data below it, and otherwise the default record and no user data are used |
| Mfg.Record | source/bsp/bsp_Mfg.c:51-75 | the record read is the default one when flash is not set up, and otherwise each field decoded little-endian from its offset in the packed record |
| Mfg.ProductId | source/bsp/bsp_Mfg.c:100-103 | an unset flash reports product id 0 |
| Mfg.SerialNumber | source/bsp/bsp_Mfg.c:106-109 | an unset flash reports serial number 0 |
| Mfg.HwRevision | source/bsp/bsp_Mfg.c:112-115 | an unset flash reports hardware revision 0 |
| Mfg.DataBytes | source/bsp/bsp_Mfg.c:51-57 | the packed record layout: two 64-bit randoms, product id, serial number, revision, little-endian |
| Mfg.Image | source/bsp/bsp_Mfg.c:43-89 | a flash image with user data, the record and a header at the end, in that order |
| Mfg.RecordReadsBack | source/bsp/bsp_Mfg.c:100-127 | a record written in the packed layout reads back as itself |
| Mfg.HdrReadsBack | source/bsp/bsp_Mfg.c:60-66 | a written header reads back with its fields |
| Mfg.ImageRoundTrip | source/bsp/bsp_Mfg.c:81-127 | init accepts an image laid out as the manufacturing tool writes it, finds the record and user data where they were placed, and the getters read the record back |
| Mfg.ErasedFlashUsesDefault | source/bsp/bsp_Mfg.c:74-94 | on erased flash the default record is used, every getter reports 0 and there is no user data |
| Nvm.Size32 | source/svc/svc_Nvm.c:39-41 | the stored size in words is the structure size rounded up to whole words |
| Nvm.Encode | source/svc/product/TivaBspSensor/svc_Nvm_TivaBspSensor.h:40-55 | the record as 32-bit words: CRC, signature, type and version, length, channel count, then one word per channel |
| Nvm.Decode | source/svc/product/TivaBspSensor/svc_Nvm_TivaBspSensor.h:40-55 | the words read back into a record, one channel per word after the fifth |
| Nvm.DecodeEncode | source/svc/product/TivaBspSensor/svc_Nvm_TivaBspSensor.h:40-55 | decoding an encoded record gives the record back |
| Nvm.EncodeDecode | source/svc/product/TivaBspSensor/svc_Nvm_TivaBspSensor.h:40-55 | encoding decoded words gives the words back |
| Nvm.SetHdr | source/svc/product/TivaBspSensor/svc_Nvm_TivaBspSensor.h:68-76 | after setting the header the record passes the validity check, with CRC and channel data untouched |
| Nvm.InitData | source/svc/product/TivaBspSensor/svc_Nvm_TivaBspSensor.h:79-85 | the data part is zeroed with the channel count set; the header is untouched |
| Nvm.UpdateCalData | source/svc/product/TivaBspSensor/svc_Nvm_TivaBspSensor.h:88-96 | only the addressed channel's two offsets change |
| Nvm.BusOffset | source/svc/product/TivaBspSensor/svc_Nvm_TivaBspSensor.h:99-104 | the stored bus offset of the channel |
| Nvm.ShuntOffset | source/svc/product/TivaBspSensor/svc_Nvm_TivaBspSensor.h:107-112 | the stored shunt offset of the channel |
| Nvm.GetAfterUpdate | source/svc/product/TivaBspSensor/svc_Nvm_TivaBspSensor.h:88-112 | after an update the getters report the new offsets for that channel and the old ones for every other |
| Nvm.Save | source/svc/svc_Nvm.c:79-90 | a save, with the EEPROM length corrected to the record's word count, sets the header and writes the record's words with the CRC of everything after the CRC word, channel data unchanged |
| Nvm.SaveAsWritten | source/svc/svc_Nvm.c:86-88 | as written the byte size goes where bsp_Eeprom_write expects words, so four times the record's words are programmed: the record, then the three record-sized stretches of RAM after it |
| Nvm.SaveAsWrittenProgramsPastRecord | source/svc/svc_Nvm.c:40-41 | the as-written save programs more words than the record holds and agrees with the corrected save on the record's own words |
| Nvm.Init | source/svc/svc_Nvm.c:50-76 | stored words whose CRC matches and whose header is valid are used as they are, with nothing written; otherwise a fresh zeroed record with a fresh CRC is built and saved |
| Nvm.SaveThenInit | source/svc/svc_Nvm.c:50-90 | what a save writes is accepted unchanged by the next init |
| Nvm.InitIsStable | source/svc/svc_Nvm.c:50-90 | what init leaves in RAM is accepted by the following init without a write |
| Nvm.CrcMismatchReinitialises | source/svc/svc_Nvm.c:60-73 | a CRC mismatch makes init write a record with every channel offset zero |
| StdIo.Init | source/bsp/toolchain/gcc/bsp_Io_gcc.c:208-213 | all three stream entries start with cookie 0 and no handlers |
| StdIo.PathToIdx | source/bsp/toolchain/gcc/bsp_Io_gcc.c:61-75 | the index found is the first stream whose path matches, or the count when none does |
| StdIo.FdToIdx | source/bsp/toolchain/gcc/bsp_Io_gcc.c:78-86 | descriptors 1, 2 and 0 map to the stdout, stderr and stdin entries and every other descriptor to none |
| StdIo.Dispatch | source/bsp/toolchain/gcc/bsp_Io_gcc.c:97-175 | a call is delegated exactly when the entry exists and has that handler, with the entry's cookie; otherwise it fails with -1 |
| StdIo.OpenR | source/bsp/toolchain/gcc/bsp_Io_gcc.c:97-107 | open is delegated exactly when the path names a stream whose entry has an open handler |
| StdIo.FdCall | source/bsp/toolchain/gcc/bsp_Io_gcc.c:110-175 | close, read, write and lseek reach a device only for the three standard descriptors, with that entry's cookie |
| StdIo.AddDevice | source/bsp/toolchain/gcc/bsp_Io_gcc.c:216-244 | every stream whose path matches gets the new device and the others keep theirs |
| StdIo.FileToDfd | source/bsp/toolchain/gcc/bsp_Io_gcc.c:247-258 | a standard stream reports its entry's cookie and any other file 0 |
| StdIo.AddedDeviceReceivesWrites | source/bsp/toolchain/gcc/bsp_Io_gcc.c:216-244 | once a device is added under a stream's path, writes to that stream's descriptor go to it with its cookie; adding under another path does not change where they go |
| StdIo.OpenReachesAddedDevice | source/bsp/toolchain/gcc/bsp_Io_gcc.c:97-107 | opening a path reaches the device added under it |
| StdIo.InitFailsEverything | source/bsp/toolchain/gcc/bsp_Io_gcc.c:208-213 | before any device is added every call fails and every cookie is 0 |
| StdIo.Exit | source/bsp/toolchain/gcc/bsp_Io_gcc.c:89-94 | exit is a software reset with reason EXIT |
| StdIo.SbrkAsWritten | source/bsp/toolchain/gcc/bsp_Io_gcc.c:150-156 | as written the call returns the heap end after the increment |
| StdIo.SbrkAsWrittenPastEnd | source/bsp/toolchain/gcc/bsp_Io_gcc.c:153-155 | as written the first 16-byte request on a heap at 0x2000_0000 is handed 0x2000_0010, a block wholly past the new heap end; the corrected call hands out 0x2000_0000 |
| StdIo.Sbrk | source/bsp/toolchain/gcc/bsp_Io_gcc.c:150-156 | the corrected call moves the heap end by the increment (32-bit) and returns where it was, the start of the block it reserves |
| StdIo.SbrkBlocksAdjacent | source/bsp/toolchain/gcc/bsp_Io_gcc.c:150-156 | without wrap-around, each block handed out ends at the new heap end and the next call's block starts there |
| StdIo.SbrksSum | source/bsp/toolchain/gcc/bsp_Io_gcc.c:150-156 | after any run of calls from the unset state the heap end is the heap start plus the sum of the increments, as long as it never passes through 0 |
| UsbSerial.SerialDigits | source/bsp/bsp_Usb.c:449-469 | the twelve digits are the eight hex digits of the product id followed by the low four hex digits of the serial number, most significant first |
| UsbSerial.SerialString | source/bsp/bsp_Usb.c:261-277 | the descriptor is 26 bytes: its length, the string type, then each digit as an upper-case hex character followed by a zero byte |
| UsbSerial.Ascii | source/bsp/bsp_Usb.c:457 | each digit is written as its character of "0123456789ABCDEF" and reads back as the same digit |
| UsbSerial.Digits | source/bsp/bsp_Usb.c:459-469 | n hex digits of a value, most significant first |
| UsbSerial.DigitAt | source/bsp/bsp_Usb.c:459-469 | digit j is the value shifted down by 4(n-1-j) bits, masked to four |
| UsbSerial.ValueOfDigits | source/bsp/bsp_Usb.c:459-469 | the n digits read back as the value modulo 16^n |
| UsbSerial.Units | source/bsp/bsp_Usb.c:261-277 | each digit becomes a UTF-16 code unit: its character then a zero byte |
| UsbSerial.ParseUnits | source/bsp/bsp_Usb.c:261-277 | code units parse exactly when every one is a hex character followed by a zero byte |
| UsbSerial.Parse | source/bsp/bsp_Usb.c:261-277 | only a descriptor of the right length and type parses |
| UsbSerial.ParseUnitsOfUnits | source/bsp/bsp_Usb.c:261-277 | the code units of any digit string parse back to it |
| UsbSerial.ValueOfSmall | source/bsp/bsp_Usb.c:459-469 | a value below 16^n is recovered exactly from its n digits |
| UsbSerial.SerialStringRoundTrip | source/bsp/bsp_Usb.c:449-469 | the descriptor built at init parses back to the product id and serial number it was built from |
| MsgFwk.IdBuild | source/svc/svc_MsgFwk.h:42-55 | an id built from entity, type and number gives those three back through the getters |
| MsgFwk.IdOfFields | source/svc/svc_MsgFwk.h:42-55 | every 16-bit id is rebuilt exactly from its three fields |
| MsgFwk.HdrBytes | source/svc/svc_MsgFwk.h:72-78 | the packed 6-byte header: little-endian id, eh, a byte holding alloc in bit 0 and cnt in bits 1-7, little-endian length |
| MsgFwk.ParseHdr | source/svc/svc_MsgFwk.h:72-78 | a header is read exactly when six bytes are there |
| MsgFwk.MsgBytes | source/svc/svc_MsgFwk.h:57-78 | a message is its header followed by the payload |
| MsgFwk.MsgBytesRoundTrip | source/svc/svc_MsgFwk.h:57-78 | the header and payload are read back from a message's bytes |
| MsgFwk.HostReadsBitFieldsShifted | test/EventHandler.py:50-52 | the host takes alloc from bit 7 and cnt from bits 0-6, so it reads a firmware header's cnt as (2*cnt + alloc) mod 128 and its alloc as cnt's top bit; id and length agree |
| MsgFwk.IncDecInverse | source/svc/svc_MsgFwk.c:174-185 | the 7-bit ++ and -- on cnt undo each other, and 127 + 1 wraps to 0 |
| MsgFwk.Alloc | source/svc/svc_MsgFwk.c:93-108 | allocation succeeds exactly when the length covers the header and memory is there; it sets eh, id and length and leaves the alloc and cnt bits as the allocator left them |
| MsgFwk.AllocCopy | source/svc/svc_MsgFwk.c:72-86 | the copy succeeds with the allocation and its payload is the first len - 6 data bytes |
| MsgFwk.DestOfBuiltIds | source/svc/svc_MsgFwk.c:111-119 | a request goes to the entity named in its id, a confirm or indication to the header's eh |
| MsgFwk.HostHeaderReachesDestination | test/EventHandler.py:35-47 | a header the host builds for a destination is sent by the firmware to that destination, whatever its type |
| MsgFwk.Init | source/svc/svc_MsgFwk.c:54-57 | no queue is registered and the table is empty at start |
| MsgFwk.RegisterEh | source/svc/svc_MsgFwk.c:216-223 | only the addressed eh's queue changes |
| MsgFwk.Send | source/svc/svc_MsgFwk.c:111-119 | a send enqueues on the destination's queue with cnt one higher and the rest of the header unchanged |
| MsgFwk.SendAfterRegisterEh | source/svc/svc_MsgFwk.c:216-223 | a send reaches the queue last registered for its destination |
| MsgFwk.ZeroCopy | source/svc/svc_MsgFwk.c:164-171 | a zero-copy adds one reference and changes nothing else |
| MsgFwk.Release | source/svc/svc_MsgFwk.c:174-185 | a release drops one reference and frees the message exactly when that was the last one |
| MsgFwk.ReleaseUndoesReference | source/svc/svc_MsgFwk.c:164-185 | a release after a zero-copy restores the header and frees only a message that had no reference |
| MsgFwk.ReleaseAtZeroWraps | source/svc/svc_MsgFwk.c:174-185 | releasing a message with cnt 0 wraps cnt to 127 and does not free it |
| MsgFwk.EnqueueN | source/svc/svc_MsgFwk.c:60-69 | n enqueues add n to cnt modulo 128 |
| MsgFwk.Targets | source/svc/svc_MsgFwk.c:140-146 | the queues a broadcast goes to are those of the table slots with its id, one per matching slot |
| MsgFwk.Broadcast | source/svc/svc_MsgFwk.c:132-152 | a broadcast enqueues on every matching slot's queue and then drops its own reference: cnt rises by the number of enqueues and the message is freed exactly when that leaves 0 |
| MsgFwk.BroadcastCount | source/svc/svc_MsgFwk.c:138-150 | taking a reference, enqueuing n times and releasing once adds n to cnt |
| MsgFwk.BroadcastOfFreshMessage | source/svc/svc_MsgFwk.c:132-152 | a fresh message broadcast to nobody is freed, and otherwise holds one reference per enqueue |
| MsgFwk.AllocAndBroadcast | source/svc/svc_MsgFwk.c:155-161 | the allocated copy goes out addressed to the broadcast eh, to every queue registered for its id |
| MsgFwk.AllocAndSend | source/svc/svc_MsgFwk.c:122-129 | the allocated copy goes to the header's eh for a confirm or indication and to the id's entity for a request or response |
| MsgFwk.ScanForMapping | source/svc/svc_MsgFwk.c:193-203 | the mapping is saved exactly when no filled slot already sends the id to the same queue |
| MsgFwk.RegisterMsg | source/svc/svc_MsgFwk.c:188-213 | an existing mapping changes nothing; otherwise the mapping is written at the fill index, which advances (8-bit), and no other slot changes |
| MsgFwk.RegisterMsgIdempotent | source/svc/svc_MsgFwk.c:188-213 | registering the same mapping twice is the same as once |
| MsgFwk.SharedQueueRegisteredOnce | source/svc/svc_MsgFwk.c:196-201 | two ehs on one queue register an id once between them, so a broadcast reaches that queue once |
| MsgFwk.RegisteredIdIsBroadcast | source/svc/svc_MsgFwk.c:188-213 | after a registration that fits in the table, broadcasts of the id reach the eh's queue |
| MsgFwk.RegistrationPastTableIsLost | source/svc/svc_MsgFwk.c:188-213 | a registration once the ten slots are used leaves the broadcast table as it was |
| MsgFwk.EmptySlotsMatchIdZero | source/svc/svc_MsgFwk.c:132-152 | in the zero table every slot matches id 0, so a broadcast of id 0 goes to eh 0's queue once per slot |
| Eh.RegisterAll | source/svc/svc_Eh.c:56-60 | registering a list of ids leaves the queue table alone |
| Eh.MappedStays | source/svc/svc_MsgFwk.c:188-213 | a mapping present stays present after any further registration |
| Eh.RegisterAllMapsEvery | source/svc/svc_Eh.c:56-60 | while the fill index does not wrap, every id of the list ends up mapped for the eh |
| Eh.KeepsMapped | source/svc/svc_Eh.c:56-60 | registering more ids keeps earlier mappings |
| Eh.Init | source/svc/svc_Eh.c:43-63 | the init handler is called when there is one, the eh is mapped to the queue with no other eh changed, and its broadcast ids are mapped when they fit |
| Eh.ListInit | source/svc/svc_Eh.c:66-76 | every listed eh is mapped to the shared queue, every other eh keeps its queue, and exactly the listed ehs' init handlers are called |
| Eh.Called | source/svc/svc_Eh.c:79-97 | the handlers called are exactly those with a handler whose eh is the destination or which get a broadcast |
| Eh.ListMsgHandler | source/svc/svc_Eh.c:100-115 | a dequeued message is offered to the handlers of the list and then released once |
| Eh.PointToPointReachesOnlyAddressee | source/svc/svc_Eh.c:86-93 | a message not broadcast reaches only the handler of its destination |
| Eh.BroadcastReachesEveryHandler | source/svc/svc_Eh.c:86-93 | a broadcast reaches every handler of the list |
| Eh.SentMessageIsHandled | source/svc/svc_Eh.c:66-115 | after list init, a message sent to a listed eh lands on the shared queue and its handler is called |
| Eh.RunQueue | source/svc/svc_Eh.c:121-135 | the queue is created only when memory and a depth are given, and is NULL otherwise |
| Eh.ListRunInit | source/svc/svc_Eh.c:121-137 | the list's ehs are mapped to the created queue, or to NULL without memory or depth |
| Cmd.Init | source/svc/svc_Cmd.c:161-168 | the console starts on buffer 0, empty, in text mode |
| Cmd.Total | source/svc/svc_Cmd.c:197-202 | the binary total is the length byte plus the two header bytes, capped at the 64-byte buffer |
| Cmd.AddChar | source/svc/svc_Cmd.c:172-300 | every character keeps the console state consistent; a text command is shorter than the buffer and a binary one holds 2 to 64 bytes |
| Cmd.Prepare | source/svc/svc_Cmd.c:183-202 | at the start of a line binary mode begins exactly on '$', which forgets the history and restarts on buffer 0; the byte after '$' fixes the total |
| Cmd.BinChar | source/svc/svc_Cmd.c:209-213 | in binary mode each byte is stored; the command completes exactly when the total is reached, going out whole and leaving buffer 1 empty |
| Cmd.TextStep | source/svc/svc_Cmd.c:214-299 | text characters go through the same editing as the event-handler console; a finished text line is shorter than the buffer |
| Cmd.InLine | source/svc/svc_Cmd.c:183-186 | inside a line or an escape a character is always text editing |
| Cmd.TextStepEffects | source/svc/svc_Cmd.c:272-287 | a printable character with room is appended, and a newline hands over the line and moves to the next buffer |
| Cmd.CmdList | source/svc/svc_Cmd.c:281-299 | at most one command per character |
| Cmd.Run | source/svc/svc_Cmd.c:305-347 | feeding characters yields at most one command each |
| Cmd.RunAppend | source/svc/svc_Cmd.c:305-347 | feeding a + b is feeding a then b, with the commands concatenated |
| Cmd.RunKeepsInv | source/svc/svc_Cmd.c:172-300 | any run of characters keeps the console state consistent |
| Cmd.Feed | source/svc/svc_Cmd.c:305-347 | feeding a string keeps the state consistent and yields at most one command per character |
| Cmd.FeedAppend | source/svc/svc_Cmd.c:305-347 | feeding is compositional over concatenation |
| Cmd.FeedOne | source/svc/svc_Cmd.c:172-300 | feeding one character is one AddChar |
| Cmd.FeedFirst | source/svc/svc_Cmd.c:305-347 | feeding a string is its first character then the rest |
| Cmd.FeedLast | source/svc/svc_Cmd.c:305-347 | feeding a string is all but its last character, then the last |
| Cmd.Opens | source/svc/svc_Cmd.c:183-196 | at the start of a line exactly '$' enters binary mode, on buffer 0 holding '$' |
| Cmd.LengthByte | source/svc/svc_Cmd.c:199-213 | the length byte is stored; a zero length completes the command "$\0" at once, any other sets the total |
| Cmd.BinaryBody | source/svc/svc_Cmd.c:209-213 | the bytes up to the total complete exactly one binary command holding everything received |
| Cmd.BinaryCommand | source/svc/svc_Cmd.c:172-300 | '$', a length n and the bytes it announces (capped by the buffer) come out as one binary command of exactly those bytes, whatever the bytes are, including newlines |
| Cmd.TypeLine | source/svc/svc_Cmd.c:272-277 | printable characters with room are appended to the current line and complete nothing |
| Cmd.TypeLineKeepsOther | source/svc/svc_Cmd.c:272-277 | typing leaves the other history buffer untouched |
| Cmd.TypeFirstLine | source/svc/svc_Cmd.c:183-196 | a line not starting with '$' is typed into the current buffer in text mode |
| Cmd.FirstChar | source/svc/svc_Cmd.c:183-196 | a first printable character other than '$' starts a text line |
| Cmd.NewlineCompletes | source/svc/svc_Cmd.c:279-299 | a newline hands over the current line, keeps it in history and moves to the next buffer |
| Cmd.TextCommand | source/svc/svc_Cmd.c:172-300 | a printable line and a newline come out as one text command of exactly that line, kept in history |
| Cmd.EmptyTextCommand | source/svc/svc_Cmd.c:279-299 | a lone newline hands over the empty line |
| Cmd.TextCommandLine | source/svc/svc_Cmd.c:172-300 | a typed line and newline complete as that line, with the state the completion describes |
| Cmd.RecallAfterCommand | source/svc/svc_Cmd.c:225-253 | the up arrow after a command brings that command back on its buffer |
| Cmd.UpArrowAtStart | source/svc/svc_Cmd.c:225-253 | the up arrow on an empty line switches to the other buffer and shows its content with NULs turned to spaces |
| Cmd.EscapeIsText | source/svc/svc_Cmd.c:183-186 | ESC at the start of a line is handled as text editing, not binary |
| Cmd.RecalledFullLineOverflows | source/svc/svc_Cmd.c:272-279 | as written, a recalled 63-character line takes one more printable character, so the fill index reaches 64, one past the 64-byte buffer |
| Cmd.ProcessText | source/svc/svc_Cmd.c:140-157 | a line is split at white space into words and handed to the text command handler |
| Cmd.ShortLineWords | source/svc/svc_Cmd.c:140-157 | for a line shorter than 256 the 8-bit length passed loses nothing, so the words are those of the whole line |
| Cmd.ProcessBinary | source/svc/svc_Cmd.c:121-136 | a binary command goes to the binary handler, which reports success |
| Console.AddChar | source/svc/svc_CmdEh.c:83-88 | adding a character appends it to the line and ends whatever lay beyond the fill index |
| Console.Backspace | source/svc/svc_CmdEh.c:371-378 | backspace or delete drops the last character from the line but only moves the fill index, so the character stays in the buffer just beyond it; an empty line is unchanged |
| Console.OtherTwice | source/svc/svc_CmdEh.c:351 | switching to the other of the two buffers twice comes back to the first |
| Console.Init | source/svc/svc_CmdEh.c:239-245 | both buffers start empty, buffer 0 selected, no escape pending |
| Console.SetCur | source/svc/svc_CmdEh.c:80-81 | editing the current buffer changes only that buffer |
| Console.Next | source/svc/svc_CmdEh.c:406-407 | after a command the other buffer is selected and emptied, and the finished line stays in history |
| Console.NulSpaces | source/svc/svc_CmdEh.c:222-225 | the tokenizer overwrites each white-space character with a NUL and keeps every other |
| Console.SpacesForNuls | source/svc/svc_CmdEh.c:354-361 | recall turns each NUL back into a space and keeps every other character |
| Console.RecallRestoresLine | source/svc/svc_CmdEh.c:354-361 | a printable line tokenized and then recalled is the line that was typed |
| Console.Recall | source/svc/svc_CmdEh.c:339-362 | the up arrow selects the other buffer and shows its line with NULs turned to spaces, leaving the buffer left behind alone |
| Console.Edit | source/svc/svc_CmdEh.c:365-388 | one editing key keeps the two buffers well formed |
| Console.TextCharAsWritten | source/svc/svc_CmdEh.c:333-388 | a text-mode character as written, recall loop with an 8-bit counter included, keeps the buffers well formed |
| Console.TextChar | source/svc/svc_CmdEh.c:333-388 | a text-mode character, recall with a counter as wide as the fill index, keeps the buffers well formed |
| Console.TextCharEffects | source/svc/svc_CmdEh.c:333-388 | a line completes exactly on a newline or a full buffer outside an escape; a printable character with room is appended; backspace erases; ESC starts a 3-byte escape |
| Console.TextCharFits | source/svc/svc_CmdEh.c:379-387 | no text character ever fills a buffer past its last byte, before or after the completion step |
| Console.RecalledFullLineOverflows | source/svc/svc_CmdEh.c:379-387 | as written, recalling a line of size - 1 characters and typing one more completes it as a full line; with the 512-byte buffers of this handler such a line already hangs the 8-bit recall loop, so the overflow shows in the 64-byte console |
| Console.UpArrowRecalls | source/svc/svc_CmdEh.c:339-362 | ESC [ A recalls the other buffer's line with spaces for NULs and completes nothing |
| Console.RecallLoop | source/svc/svc_CmdEh.c:355-360 | the recall loop, with its uint8_t counter, either ends with a line of the same length or never ends |
| Console.RecallLoopShortLine | source/svc/svc_CmdEh.c:355-360 | for a line shorter than 256 the loop ends, turning exactly the NULs from the counter on into spaces |
| Console.PrintableKeepsRecall | source/svc/svc_CmdEh.c:355-360 | a line with no NUL is shown unchanged |
| Console.RecallLoopLongLineHangs | source/svc/svc_CmdEh.c:355 | for a line of 256 or more characters the 8-bit counter wraps before reaching the fill index and the loop never ends |
| Console.WordLen | source/svc/svc_CmdEh.c:229-231 | the length of the leading run of non-space characters, stopping at the first space |
| Console.Tokens | source/svc/svc_CmdEh.c:222-232 | the words of a string are non-empty runs without white space, and there are at most half its length, rounded up |
| Console.TokensOfJoin | source/svc/svc_CmdEh.c:222-232 | words joined with single spaces are split back into the same words |
| Console.WordLenOfWord | source/svc/svc_CmdEh.c:229-231 | the run scanned from a word followed by a space or the end is that word |
| Console.CString | source/svc/svc_CmdEh.c:227 | each argv entry is read as a C string: up to the first NUL |
| Console.Argv | source/svc/svc_CmdEh.c:222-232 | the tokenizer gives one argv entry per word |
| Console.ProcessTextWords | source/svc/svc_CmdEh.c:215-236 | processText over the first len bytes gives one argument per word of those bytes |
| Console.LineWords | source/svc/svc_CmdEh.c:215-236 | the words of the line the user sees: non-empty and at most half its length |
| Console.ArgvIsTokens | source/svc/svc_CmdEh.c:222-232 | without NULs in the line the argv strings are exactly its words |
| Console.NoNulCString | source/svc/svc_CmdEh.c:227 | a string without NUL is its own C string |
| Console.CStringAppend | source/svc/svc_CmdEh.c:227 | a C string read across a NUL-free prefix continues into what follows |
| Console.ProcessTextWordsWithoutTail | source/svc/svc_CmdEh.c:215-236 | with nothing left beyond the fill index, the arguments are the words of the line the user sees |
| Console.BackspaceErasesChar | source/svc/svc_CmdEh.c:371-378 | the words the user sees after typing a character and erasing it are those before |
| Console.BackspaceLeaksIntoArgv | source/svc/svc_CmdEh.c:371-378 | typing "ab" and backspace shows the word "a", but the tokenizer reads past the fill index and hands over "ab" |
| CmdEh.AsciiToDec | source/svc/svc_CmdEh.c:248-260 | a hex digit in either case gives its value and any other character 0 |
| CmdEh.AsciiOf | test/Protocol.py:58-64 | the bytes of a host text string |
| CmdEh.AsciiOfAppend | test/Protocol.py:58-64 | text bytes of a concatenation are the concatenation of the bytes |
| CmdEh.HexDigit | source/svc/svc_CmdEh.c:248-260 | the digit the host writes for a nibble is read back as that nibble |
| CmdEh.HexDigits | test/Protocol.py:34-40 | the two digits the host writes for a byte are read back as its high and low nibble |
| CmdEh.HexText | test/Protocol.py:58-64 | a byte string is written as two digits per byte |
| CmdEh.HexDigitsAreAscii | test/Protocol.py:34-40 | the two digits of a byte are the characters of the host's "02X" formatting |
| CmdEh.HexTextIsAscii | test/Protocol.py:58-64 | the hex text of a byte string is the bytes of the host's hex string |
| CmdEh.HexTextAppend | test/Protocol.py:58-64 | the hex text of a concatenation is the concatenation of the hex texts |
| CmdEh.Init | source/svc/svc_CmdEh.c:239-245 | the console starts at the beginning of a line, in text mode |
| CmdEh.AddChar | source/svc/svc_CmdEh.c:263-410 | every character keeps the console state consistent |
| CmdEh.AddCharPhases | source/svc/svc_CmdEh.c:277-315 | '$' at the start of a line opens a binary command with four length digits and nothing stored; length digits never complete a command; a text-mode character other than an opening '$' stays in text mode; a binary command completes only from binary mode and ends it |
| CmdEh.Step | source/svc/svc_CmdEh.c:263-410 | one character in any phase keeps the console state consistent |
| CmdEh.Opened | source/svc/svc_CmdEh.c:277-293 | '$' at the start of a line resets the binary state: four length digits expected, nothing stored, buffer 0 emptied |
| CmdEh.StartStep | source/svc/svc_CmdEh.c:277-293 | '$' at the start of a line opens a binary command and stores nothing |
| CmdEh.StepInLength | source/svc/svc_CmdEh.c:296-315 | in binary mode before the length is complete a character is a length digit |
| CmdEh.StepInData | source/svc/svc_CmdEh.c:321-331 | in binary mode after the length a character is a data digit |
| CmdEh.Feed | source/svc/svc_CmdEh.c:479-487 | reading every available character keeps the state consistent and completes at most one command per character |
| CmdEh.FeedAppend | source/svc/svc_CmdEh.c:479-487 | feeding two strings one after the other is feeding their concatenation |
| CmdEh.FeedOne | source/svc/svc_CmdEh.c:479-487 | feeding one character is one call of the character handler |
| CmdEh.RunKeepsInv | source/svc/svc_CmdEh.c:479-487 | any run of characters keeps the console state consistent |
| CmdEh.TextCharsGoToConsole | source/svc/svc_CmdEh.c:333-408 | in text mode each character goes through the console's editing, and a finished line is handed over as a text command |
| CmdEh.TextStep | source/svc/svc_CmdEh.c:333-388 | text-mode characters keep the state consistent and stay in text mode |
| CmdEh.LenDigit | source/svc/svc_CmdEh.c:296-315 | each length digit keeps the state consistent, completes nothing, and stores at most one byte |
| CmdEh.DataDigit | source/svc/svc_CmdEh.c:321-331 | each data digit stores at most one byte; the command completes with everything stored and the console returns to the start of a line |
| CmdEh.Finish | source/svc/svc_CmdEh.c:392-408 | after a binary command the console is back in text mode on the next, empty buffer |
| CmdEh.LenDigitStep | source/svc/svc_CmdEh.c:296-315 | each length digit shifts a nibble in; every second digit stores a byte; after the fourth the data digit count is twice the little-endian length, as int16 |
| CmdEh.DataDigitStep | source/svc/svc_CmdEh.c:321-331 | each data digit shifts a nibble in; every second digit stores a byte; the command completes when the count reaches 0 |
| CmdEh.DataByte | source/svc/svc_CmdEh.c:321-331 | two data digits store one byte, completing the command when they were the last |
| CmdEh.LenByte | source/svc/svc_CmdEh.c:296-315 | two length digits store one length byte, the second one ending the length phase |
| CmdEh.LengthRead | source/svc/svc_CmdEh.c:309-313 | after the length the two length bytes are stored and the digit count is twice the length wrapped to int16 |
| CmdEh.LengthPhaseBy | source/svc/svc_CmdEh.c:296-315 | the four digits of a length read that length |
| CmdEh.DataPhaseBy | source/svc/svc_CmdEh.c:321-331 | the digits of the announced bytes complete one binary command holding them |
| CmdEh.LastDataByte | source/svc/svc_CmdEh.c:321-331 | the last byte's digits complete the command |
| CmdEh.DataByteThenRest | source/svc/svc_CmdEh.c:321-331 | the digits of several bytes are the first byte then the rest |
| CmdEh.CommandDigitsBy | source/svc/svc_CmdEh.c:296-331 | the hex digits of a command whose length field matches its size complete exactly that command |
| CmdEh.BinaryCommandText | source/svc/svc_CmdEh.c:263-410 | '$' and the hex text of a command whose length field matches complete that one binary command and return to an empty line |
| CmdEh.TrailerIsEmptyTextCommand | source/svc/svc_CmdEh.c:383-387 | the host's "\n\r" trailer after a command is an empty text command |
| CmdEh.HexLineChars | test/Protocol.py:58-64 | the host's request text is '$', the hex digits of the command and "\n\r" |
| CmdEh.ReqTextChars | test/Protocol.py:34-64 | the text of a host request is '$', the hex of its binary form, and the trailer |
| CmdEh.HostRequestReachesBinaryHandler | test/Protocol.py:58-64 | a host request typed on the console reaches the binary handler as exactly its binary form, followed by one empty text command for the trailer |
| CmdEh.LengthTyped | source/svc/svc_CmdEh.c:277-315 | '$' and four length digits read that length |
| CmdEh.DigitAfterLength | source/svc/svc_CmdEh.c:321-331 | once the count is at or below 0 each further digit completes a command at once |
| CmdEh.EmptyCommandSwallowsNextChar | source/svc/svc_CmdEh.c:309-331 | a command of length 0 completes only on the next character, which is eaten |
| CmdEh.LastAfterEmpty | source/svc/svc_CmdEh.c:321-331 | with the count at 0 the next character completes the command as stored |
| CmdEh.EmptyLengthRead | source/svc/svc_CmdEh.c:309-313 | a zero length stores the two zero bytes and leaves no data digits |
| CmdEh.LengthOver0x3FFFWraps | source/svc/svc_CmdEh.c:311 | a length of 0x4000 makes the int16 digit count -0x8000, so the next digit completes nothing and wraps the count to 0x7FFF |
| CmdEh.TextArgvAsWritten | source/svc/svc_CmdEh.c:403 | as written the text handler sees the words of the first (length mod 256) characters only |
| CmdEh.TextArgv | source/svc/svc_CmdEh.c:215-236 | the corrected handler sees every word of the line |
| CmdEh.ShortLineArgv | source/svc/svc_CmdEh.c:403 | for a line under 256 characters the two agree |
| CmdEh.LongLineVanishes | source/svc/svc_CmdEh.c:403 | as written a 256-character word is handed over as no word at all |
| CmdEh.HandlerText | source/svc/svc_CmdEh.c:144-189 | the same walk as the menu module, plus one more help listing of the level reached whenever no leaf was called |
| CmdEh.HelpPrintedTwice | source/svc/svc_CmdEh.c:153-186 | a lone "?" prints the top menu twice |
| CmdEh.EmptyLinePrintsTopMenu | source/svc/svc_CmdEh.c:148-186 | an empty line returns an error and prints the top menu once |
| CmdEh.BinarySendSerial | source/svc/svc_CmdEh.c:192-204 | a serial reply is '!', two hex digits per byte and a newline; the count grows by two per byte plus one |
| CmdEh.SerialReplyParsesOnHost | test/Protocol.py:70-86 | the host parses a serial reply back to the header and data that were sent |
| CmdEh.TxCountOmitsNewline | source/svc/svc_CmdEh.c:200-202 | the serial count adds one less than the characters sent: the newline is not counted |
| CmdEh.BulkFrame | source/svc/svc_CmdEh.c:499-511 | a bulk read takes the little-endian length plus two bytes; a frame longer than the buffers is refused |
| CmdEh.BulkFrameOfHostRequest | test/Protocol.py:42-56 | the bytes of a host request are read back as exactly one frame, the rest left for the next |
| CmdEh.BulkLengthWraps | source/svc/svc_CmdEh.c:503 | a length field of 0xFFFE wraps in the 16-bit sum to a 2-byte frame |
| CmdEh.Forward | source/svc/svc_CmdEh.c:524-533 | a message for the broadcast eh or an eh off the board goes to the host with a command header (length + 2, EHMSG) in front of the message bytes; any other is dropped |
| CmdEh.ForwardedMessageParsesOnHost | test/Protocol.py:187-192 | the host reads a forwarded message as an EHMSG confirm carrying the message bytes |
| CmdEh.IoCallback | source/svc/svc_CmdEh.c:413-422 | a data callback sets the skip flag and broadcasts an indication exactly when the flag was clear |
| CmdEh.Indications | source/svc/svc_CmdEh.c:413-422 | any number of callbacks before the indication is handled broadcast at most one indication |
| CmdEhCmds.StatsBytes | source/svc/svc_MsgFwk.h:80-88 | the statistics bytes: four little-endian counters and three byte fields |
| CmdEhCmds.Confirm | source/svc/product/TivaBspCore/svc_CmdEh_cmds.h:53-56 | a confirm is a length excluding itself, the command id, then the body |
| CmdEhCmds.HandlerBinary | source/svc/product/TivaBspCore/svc_CmdEh_cmds.c:38-88 | a buffer too short for a header is refused; VERSION, EHSTATS and BCAST_REG reply with a confirm of their own id and length; EHMSG forwards; every other id is ignored |
| CmdEhCmds.EhMsg | source/svc/product/TivaBspCore/svc_CmdEh_cmds.c:69-85 | the message is allocated with the inner header's eh and id and length len - 2, its payload copied, and sent; a length below a header faults as the allocation assert does |
| CmdEhCmds.VersionReplyParses | test/Protocol.py:107-114 | the host parses the VERSION reply to the hardware and firmware versions |
| CmdEhCmds.StatsReplyParses | test/Protocol.py:129-142 | the host parses the EHSTATS reply to the framework's statistics |
| CmdEhCmds.ConfirmHeader | test/Protocol.py:70-86 | the host reads any confirm back as its header and body |
| CmdEhCmds.BcastRegFromHost | test/Protocol.py:157-177 | the host's broadcast registration registers (eh, msgId) and gets an empty confirm it accepts |
| CmdEhCmds.EhMsgFromHost | test/Protocol.py:179-186 | a message the host wraps in EHMSG is sent by the firmware with the host's header and payload |
| Tst.Listed | source/tst/tst.h:38-40 | the entries of a menu level: everything before the end element |
| Tst.Find | source/tst/tst.c:82-107 | the search stops at the first entry with the word or at the end element |
| Tst.Walk | source/tst/tst.c:63-111 | a leaf is called with the words after its name, a strict suffix of the line |
| Tst.WalkFollowsEntry | source/tst/tst.c:84-104 | a word naming a submenu descends into it and a word naming a leaf calls it with the rest |
| Tst.UnknownWordSilencesRest | source/tst/tst.c:82-107 | after an unknown word no leaf can be called and nothing more is listed |
| Tst.AtEndStaysAtEnd | source/tst/tst.c:82-107 | at the end element no later word can match |
| Tst.HandlerText | source/tst/tst.c:63-111 | a leaf reached is called and its status returned, otherwise the status is an error; "?" lists the level reached |
| Tst.HandlerBinary | source/tst/tst.c:114-118 | the binary handler reports success for any buffer |
| PwrMonChannel.Init | source/svc/svc_PwrMon_channel.c:68-73 | every channel zeroed and no channel configured |
| PwrMonChannel.StoredName | source/svc/svc_PwrMon_channel.c:82-83 | the stored name is the longest NUL-free prefix of the given name, cut at the name length |
| PwrMonChannel.TakeName | source/svc/svc_PwrMon_channel.c:82-83 | strncpy keeps the given string up to its first NUL or the limit, whichever comes first |
| PwrMonChannel.Config | source/svc/svc_PwrMon_channel.c:76-97 | the channel gets its id, shunt and stored name with all counters and sums cleared; every other channel is untouched |
| PwrMonChannel.ConfigBitmap | source/svc/svc_PwrMon_channel.c:92 | configuring sets the channel's bit and leaves every other bit as it was |
| PwrMonChannel.UpdateInfo | source/svc/svc_PwrMon_channel.c:104-107 | a sample bumps both 32-bit counters with wrap-around and adds the readings, as int16, to the sums |
| PwrMonChannel.Update | source/svc/svc_PwrMon_channel.c:100-109 | only the sampled channel changes, and the bitmap is kept |
| PwrMonChannel.ResetInfo | source/svc/svc_PwrMon_channel.c:115-117 | a reset clears the average count and the sums and keeps the sample count, id, shunt and name |
| PwrMonChannel.AvgReset | source/svc/svc_PwrMon_channel.c:112-120 | only the given channel is reset |
| PwrMonChannel.ConfiguredExists | source/svc/svc_PwrMon_channel.c:56-62 | a configured bit always names a channel of the table |
| PwrMonChannel.AvgResetAll | source/svc/svc_PwrMon_channel.c:123-137 | exactly the configured channels are reset and the others kept |
| PwrMonChannel.EmptyAbove | source/svc/svc_PwrMon_channel.c:127-135 | once the shifted bitmap is zero no later bit is set, so the loop may stop |
| PwrMonChannel.Avg | source/svc/svc_PwrMon_channel.c:154-155 | C division truncating toward zero: the quotient is the mean rounded toward zero |
| PwrMonChannel.UDiv | source/svc/svc_PwrMon_channel.c:154-155 | unsigned division: the floor of the quotient |
| PwrMonChannel.AvgGetAsWrittenLosesSign | source/svc/svc_PwrMon_channel.c:144-155 | as written the int32 sum is converted to unsigned for the division by the uint32 count, so two samples summing to -10 average to 2147483643 rather than -5 |
| PwrMonChannel.AvgGet | source/svc/svc_PwrMon_channel.c:140-158 | the corrected averages are the signed sums divided by the count, truncated toward zero; no sample gives 0 |
| PwrMonChannel.FeedAfterReset | source/svc/svc_PwrMon_channel.c:104-117 | after a reset, n samples leave a count of n and the sums of exactly those samples |
| PwrMonChannel.SumsBounded | source/svc/svc_PwrMon_channel.c:106-107 | the sum of n int16 readings lies between -0x8000 n and 0x7FFF n |
| PwrMonChannel.AverageIsI16 | source/svc/svc_PwrMon_channel.c:154-155 | the average of samples since a reset always fits the int16 field it is stored in |
| PwrMonChannel.MeanBounded | source/svc/svc_PwrMon_channel.c:154-155 | the mean of a sum within int16 bounds is itself an int16 |
| PwrMonChannel.Entry | source/svc/svc_PwrMon_channel.c:172-177 | an average entry holds the channel id and, when in range, the two corrected averages |
| PwrMonChannel.EntryAsWritten | source/svc/svc_PwrMon_channel.c:172-177 | the as-written entry holds the channel id |
| PwrMonChannel.EntryAsWrittenLosesSign | source/svc/svc_PwrMon_channel.c:172-177 | as written a channel with three samples summing to -9 reports 21842 instead of -3 |
| PwrMonChannel.Entries | source/svc/svc_PwrMon_channel.c:162-185 | one entry per listed channel, in order |
| PwrMonChannel.MembersInTable | source/svc/svc_PwrMon_channel.c:166-182 | every configured channel the loop visits is in the table |
| PwrMonChannel.AvgGetAll | source/svc/svc_PwrMon_channel.c:162-185 | the loop writes one entry per configured channel, in increasing channel order |
| PwrMonChannel.MembersStable | source/svc/svc_PwrMon_channel.c:167-182 | bits above the highest set bit add no member |
| PwrMonChannel.MembersNoneAbove | source/svc/svc_PwrMon_channel.c:167-182 | a bitmap below 2^k has the same members below n as below k |
| PwrMonChannel.EntriesAreConfigured | source/svc/svc_PwrMon_channel.c:162-185 | the entries are as many as the set bits, each for a configured channel, strictly increasing, and every configured channel has one |
| PwrMonChannel.CntGet | source/svc/svc_PwrMon_channel.c:194-204 | the count is the number of configured channels |
| PwrMonDev.CmdHdr | source/dev/dev_PwrMon.c:60-61 | the INA239 command byte carries the 6-bit register address above the 2-bit command |
| PwrMonDev.I2cRegWrite | source/dev/dev_PwrMon.c:136-161 | a register write sends the register id and the value high byte first, reads nothing, and leaves the cache on that register |
| PwrMonDev.I2cRegRead | source/dev/dev_PwrMon.c:165-191 | a read of the cached register is a plain read; any other register is a write-read of its id; both read regLen bytes in reverse and leave the cache on the register |
| PwrMonDev.SsiRegWrite | source/dev/dev_PwrMon.c:219-247 | an SSI write sends the write command header and the value high byte first, and leaves the cache alone |
| PwrMonDev.SsiRegRead | source/dev/dev_PwrMon.c:251-278 | an SSI read sends the read command header padded to regLen + 1 bytes and reads regLen bytes in reverse |
| PwrMonDev.CommonRead | source/dev/dev_PwrMon.c:315-334 | a read goes over SSI exactly for the INA239 and over I2C otherwise, with the callback recorded |
| PwrMonDev.CommonWrite | source/dev/dev_PwrMon.c:337-353 | a write goes over SSI exactly for the INA239 and over I2C otherwise, with the callback recorded |
| PwrMonDev.TransDone | source/dev/dev_PwrMon.c:110-118 | completion clears the active flag, changes nothing else, and calls the client exactly when one was given |
| PwrMonDev.I2cOp | source/dev/dev_PwrMon.c:136-191 | any I2C register access leaves the cache on the register it named |
| PwrMonDev.RunI2c | source/dev/dev_PwrMon.c:136-191 | a run of accesses queues one transaction each |
| PwrMonDev.I2cOpHits | source/dev/dev_PwrMon.c:165-191 | when the cache agrees with the device's pointer, an access leaves the pointer on its own register and the cache still in agreement |
| PwrMonDev.EveryAccessHitsItsRegister | source/dev/dev_PwrMon.c:165-191 | starting in agreement, every access of a run reaches the register it names, although repeated reads skip the address byte |
| PwrMonDev.RepeatedReadSkipsAddress | source/dev/dev_PwrMon.c:173-183 | reading the same register twice sends its id only the first time |
| PwrMonDev.InitCtx | source/dev/dev_PwrMon.c:368-369 | a fresh context knows no register, has no callback, and is in agreement with any device |
| PwrMonDev.DeviceEnables | source/dev/dev_PwrMon.c:371-395 | a device enables only its own bus, only when its bit is still clear, and as its first effect |
| PwrMonDev.MaskStep | source/dev/dev_PwrMon.c:375-383 | after a device the mask of its bus kind has that bus's bit set, and nothing else changes |
| PwrMonDev.InitDevicesEnables | source/dev/dev_PwrMon.c:367-396 | the device loop enables a bus exactly when it was not already enabled and some device sits on it |
| PwrMonDev.UsesSplit | source/dev/dev_PwrMon.c:367-396 | a bus is used by the devices from k on when device k or a later one uses it |
| PwrMonDev.InitDevicesOnce | source/dev/dev_PwrMon.c:367-396 | no bus is enabled twice |
| PwrMonDev.AppendOnce | source/dev/dev_PwrMon.c:367-396 | one device's effects followed by the rest still enable no bus twice |
| PwrMonDev.Init | source/dev/dev_PwrMon.c:358-428 | every device context starts fresh |
| PwrMonDev.InitEnablesEachBusOnce | source/dev/dev_PwrMon.c:358-428 | init enables every bus some device uses, each exactly once, and no other |
| PwrMonDev.ChannelsEnableNothing | source/dev/dev_PwrMon.c:399-425 | the channel loop enables no bus |
| PwrMonDev.ChannelHead | source/dev/dev_PwrMon.c:400-424 | a channel configures its shunt device for both voltages when that device is in BOTH mode, and otherwise the shunt device for the shunt and the bus device for the bus |
| PwrMonDev.ChannelsConfigure | source/dev/dev_PwrMon.c:399-425 | a device is configured in a mode exactly when some channel asks for it |
| PwrMonDev.AsksSplit | source/dev/dev_PwrMon.c:399-425 | some channel from k on asks for a mode when channel k or a later one does |
| PwrMonDev.CalEnable | source/dev/dev_PwrMon.c:292-299 | calEnable writes the pin exactly when the channel has one |
| PwrMonDev.CalDisable | source/dev/dev_PwrMon.c:302-309 | calDisable writes the pin exactly when the channel has one |
| PwrMonDev.CalShortCycle | source/dev/dev_PwrMon.c:281-309 | calInit leaves the calibration pin high, calEnable pulls it low, and calDisable restores the level calInit set |
| PwrMonMsgs.Num | source/svc/svc_PwrMonEh.h:46-60 | the fifteen message numbers are 0 to 14 |
| PwrMonMsgs.Id | source/svc/svc_PwrMonEh.h:83-97 | each id carries the handler's entity id, the message number, and the request type exactly for the requests |
| PwrMonMsgs.IdRoundTrip | source/svc/svc_PwrMonEh.h:83-97 | every id names its message back, and an id naming a message is that message's id |
| PwrMonMsgs.IdsDistinct | source/svc/svc_PwrMonEh.h:83-97 | two messages share an id only when they are the same message |
| PwrMonMsgs.BitFieldWord | source/svc/svc_PwrMonEh.h:226-228 | numCh takes bits 0-5, numSmplSet bits 6-11 and smplFmt bits 12-15 of one 16-bit unit |
| PwrMonMsgs.DataIndHdrBytes | source/svc/svc_PwrMonEh.h:224-232 | the data indication's fields after the framework header take ten bytes |
| PwrMonMsgs.ParseDataIndHdr | source/svc/svc_PwrMonEh.h:224-232 | the fields can be read from any ten or more bytes and from nothing shorter |
| PwrMonMsgs.DataIndHdrRoundTrip | source/svc/svc_PwrMonEh.h:224-232 | the header fields are read back from their bytes |
| PwrMonMsgs.DataIndHdrBytesOfParse | source/svc/svc_PwrMonEh.h:224-232 | any ten bytes are the bytes of the fields read from them |
| PwrMonMsgs.WordOfFields | source/svc/svc_PwrMonEh.h:226-228 | any 16-bit unit is the packing of its three bit-fields |
| PwrMonMsgs.CellOffset | source/svc/svc_PwrMonEh.h:233-234 | every cell of the data array lies inside the message, on a 4-byte boundary |
| PwrMonMsgs.CellBytes | source/svc/svc_PwrMonEh.h:202-222 | each cell of the union is four bytes |
| PwrMonMsgs.AsHdr | source/svc/svc_PwrMonEh.h:213-216 | four bytes read as the header view of a cell |
| PwrMonMsgs.AsFmt0 | source/svc/svc_PwrMonEh.h:202-205 | four bytes read as the two-voltage view of a cell |
| PwrMonMsgs.AsFmt1 | source/svc/svc_PwrMonEh.h:208-210 | four bytes read as the power view of a cell |
| PwrMonMsgs.CellRoundTrip | source/svc/svc_PwrMonEh.h:202-222 | each view of a cell is read back from its bytes |
| PwrMonMsgs.HostReadsCells | test/Sample.py:15-21 | the host's "<hh" and "<i" decoders read back the two voltages and the power the firmware stored |
| PwrMonMsgs.FromLEAppend | test/Sample.py:15-21 | a little-endian value over a 2-byte prefix is the prefix plus 0x10000 times the rest |
| PwrMonMsgs.StatsBytes | source/svc/svc_PwrMonEh.h:265-279 | the stats confirm payload is a 64-bit sample count and three 32-bit counters, 20 bytes |
| PwrMonMsgs.HostReadsStats | test/EventHandler_PwrMon.py:121-131 | the host's "<QLLL" decoder reads back the four counters the firmware sent |
| PwrMonMsgs.ChAvgEntryBytes | source/svc/svc_PwrMon_channel.c:175-177 | a channel-average entry is the channel id and the two averages, five bytes |
| PwrMonMsgs.ChAvgEntriesBytes | source/svc/svc_PwrMon_channel.c:162-185 | the entries take five bytes each |
| PwrMonMsgs.ChAvgCnfPayload | source/svc/svc_PwrMonEh.c:154-166 | the confirm payload is the entry count followed by the entries |
| PwrMonMsgs.HostView | test/EventHandler_PwrMon.py:150-156 | the host's unsigned view of an entry holds the same id and the same averages read as int16 |
| PwrMonMsgs.HostViews | test/EventHandler_PwrMon.py:166-176 | one host view per entry |
| PwrMonMsgs.HostReadsChAvgs | test/EventHandler_PwrMon.py:166-176 | the host's decoder reads the confirm payload back as one view per entry |
| PwrMonMsgs.SameEntryBytes | test/EventHandler_PwrMon.py:150-160 | the firmware's entry bytes are the bytes the host's view would pack |
| PwrMonSampler.Init | source/svc/svc_PwrMon_sampler.c:325-331 | init stops the timer and leaves every counter zero and no packet in flight |
| PwrMonSampler.InitInv | source/svc/svc_PwrMon_sampler.c:325-331 | the state init leaves satisfies the sampler invariant |
| PwrMonSampler.Stop | source/svc/svc_PwrMon_sampler.c:334-337 | stop only stops the timer |
| PwrMonSampler.Primes | source/svc/svc_PwrMon_sampler.c:389-397 | start reads current then bus voltage of each configured channel once, with no callback |
| PwrMonSampler.Reads | source/svc/svc_PwrMon_sampler.c:294-309 | a tick requests current then bus voltage of each configured channel into consecutive cells from the base |
| PwrMonSampler.Start | source/svc/svc_PwrMon_sampler.c:347-402 | start clears the statistics and marks the next tick as the first, keeping the packet index |
| PwrMonSampler.StartInv | source/svc/svc_PwrMon_sampler.c:347-402 | the state start leaves satisfies the invariant, with an empty current packet |
| PwrMonSampler.StartPrimesConfigured | source/svc/svc_PwrMon_sampler.c:389-402 | start issues two priming reads per configured channel and then starts the 400 us periodic timer; a channel is primed exactly when configured |
| PwrMonSampler.StartHeaders | source/svc/svc_PwrMon_sampler.c:361-386 | both packet headers get the channel count (the bitmap's popcount), the sets per packet, the sample size and the bitmap, with sequence number and start index 0 |
| PwrMonSampler.PrimesName | source/svc/svc_PwrMon_sampler.c:389-397 | a channel is primed exactly when it is listed |
| PwrMonSampler.PacketLengthFits | source/svc/svc_PwrMon_sampler.c:369-372 | the packet length computed in 32 bits does not wrap for any valid channel count and sample size |
| PwrMonSampler.CheckForCompletion | source/svc/svc_PwrMon_sampler.c:177-229 | the first tick only clears the first-sample flag; otherwise the set count and sample count go up, an incomplete set counts an error, and a full packet switches buffers, counts a send (and an error if the last one is still in flight) and stamps the new header |
| PwrMonSampler.Tick | source/svc/svc_PwrMon_sampler.c:276-318 | a tick keeps the context well formed |
| PwrMonSampler.TickState | source/svc/svc_PwrMon_sampler.c:276-318 | the context after a tick is well formed |
| PwrMonSampler.VoltageDone | source/svc/svc_PwrMon_sampler.c:255-262 | a voltage callback toggles the channel's bit in the voltage bitmap of the current packet and nothing else |
| PwrMonSampler.CurrentDone | source/svc/svc_PwrMon_sampler.c:265-272 | a current callback toggles the channel's bit in the current bitmap of the current packet and nothing else |
| PwrMonSampler.RepeatedVoltageDoneRestores | source/svc/svc_PwrMon_sampler.c:259 | the XOR means a second voltage callback for the same channel undoes the first |
| PwrMonSampler.RepeatedCurrentDoneRestores | source/svc/svc_PwrMon_sampler.c:269 | the XOR means a second current callback for the same channel undoes the first |
| PwrMonSampler.SentDone | source/svc/svc_PwrMon_sampler.c:166-173 | the sent callback clears the bytes in flight and nothing else |
| PwrMonSampler.CallbacksKeepInv | source/svc/svc_PwrMon_sampler.c:166-272 | the three callbacks keep the invariant |
| PwrMonSampler.CheckKeepsInv | source/svc/svc_PwrMon_sampler.c:177-229 | closing a set keeps the invariant: the header of the packet being filled holds the send count and the index of its first sample |
| PwrMonSampler.CheckKeepsInvMid | source/svc/svc_PwrMon_sampler.c:193-202 | closing a set that does not fill the packet keeps the invariant |
| PwrMonSampler.CheckKeepsInvFull | source/svc/svc_PwrMon_sampler.c:204-225 | closing the last set of a packet keeps the invariant on the other buffer |
| PwrMonSampler.SameOffset | source/svc/svc_PwrMon_sampler.c:194-195 | bumping both the sample count and the set count keeps the start index the header records |
| PwrMonSampler.TickKeepsInv | source/svc/svc_PwrMon_sampler.c:276-318 | a tick keeps the invariant |
| PwrMonSampler.TickReadsCells | source/svc/svc_PwrMon_sampler.c:286-315 | a tick requests current and voltage of each configured channel into the cells of the current set, then hands over the previous packet when one is full |
| PwrMonSampler.TickStateParts | source/svc/svc_PwrMon_sampler.c:283-293 | after the completion check a tick only reloads both bitmaps with the channel bitmap |
| PwrMonSampler.TickParts | source/svc/svc_PwrMon_sampler.c:283-315 | a tick is the completion check, then the reads of the set being filled, then the hand-over when the check said so |
| PwrMonSampler.SlotBounds | source/svc/svc_PwrMon_sampler.c:289 | the 16-bit cell offset of a set does not wrap and every cell of the set lies inside the packet |
| PwrMonSampler.TickHandsOverFullPacket | source/svc/svc_PwrMon_sampler.c:204-225 | the tick after the last set of a packet hands that packet over with the packet length, switches to the other buffer and records the length as in flight |
| PwrMonSampler.TickKeepsFilling | source/svc/svc_PwrMon_sampler.c:185-228 | any other tick keeps the buffer, the bytes in flight and the packet counters |
| PwrMonSampler.ReadAt | source/svc/svc_PwrMon_sampler.c:294-309 | every request of a tick is a current or a voltage read |
| PwrMonSampler.Run | source/svc/svc_PwrMon_sampler.c:276-318 | any number of ticks keeps the context well formed |
| PwrMonSampler.RunCounts | source/svc/svc_PwrMon_sampler.c:177-229 | after a start and n + 1 ticks n samples are counted, one packet is sent per full set count, and the set being filled is n mod sets |
| PwrMonSampler.RunOneMore | source/svc/svc_PwrMon_sampler.c:177-229 | one more tick moves the count from n - 1 to n |
| PwrMonSampler.FirstTick | source/svc/svc_PwrMon_sampler.c:185-190 | the first tick after a start counts nothing |
| PwrMonSampler.RunStep | source/svc/svc_PwrMon_sampler.c:193-221 | each later tick adds one sample and completes a packet every sets samples |
| PwrMonSampler.TickCounts | source/svc/svc_PwrMon_sampler.c:193-221 | a tick after the first adds one sample, wrapping at 2^64, and one send exactly when the packet fills |
| PwrMonSampler.NextBuffer | source/svc/svc_PwrMon_sampler.c:213 | with two buffers the next index is the other one |
| PwrMonSampler.BitsOfToggleAll | source/svc/svc_PwrMon_sampler.c:255-272 | after callbacks for distinct channels exactly the bits of those channels are flipped |
| PwrMonSampler.ToggleAllClears | source/svc/svc_PwrMon_sampler.c:157-159 | the bitmap reaches zero exactly when the channels reporting are the channels whose bits were set |
| PwrMonSampler.NoneSet | source/svc/svc_PwrMon_sampler.c:361-366 | a bitmap with no bit set counts no channel |
| PwrMonSampler.Callbacks | source/svc/svc_PwrMon_sampler.c:255-272 | a run of callbacks flips the bits of the channels that reported |
| PwrMonSampler.SetCompletesWhenAllReport | source/svc/svc_PwrMon_sampler.c:157-202 | a set is complete exactly when every configured channel has reported one current and one voltage, so the error count grows otherwise |
| PwrMonEh.EhInit | source/svc/svc_PwrMonEh.c:388-397 | init enters the INIT state with no channel configured and stops the sampler timer |
| PwrMonEh.Samplers | source/svc/svc_PwrMonEh.c:225-303 | the sampler's effects are passed on one for one |
| PwrMonEh.ProcessConfig | source/svc/svc_PwrMonEh.c:169-180 | a configuration succeeds exactly when every entry names a channel of the table (the channel assert faults otherwise), and keeps the table valid |
| PwrMonEh.ConfigBitmap | source/svc/svc_PwrMonEh.c:169-180 | after a configuration a channel is configured exactly when it was before or some entry names it |
| PwrMonEh.ConfigEntries | source/svc/svc_PwrMonEh.c:169-180 | a channel no entry names is unchanged, and a named channel holds the last entry naming it |
| PwrMonEh.RowsGrow | source/svc/svc_PwrMonEh.c:267-281 | n rows of numCh cells end where row n - 1 ends plus numCh |
| PwrMonEh.CellBelow | source/svc/svc_PwrMonEh.c:276-277 | the cell of column k in the last row lies inside the first n rows |
| PwrMonEh.Column | source/svc/svc_PwrMonEh.c:267-281 | the readings of one column over n rows are n readings |
| PwrMonEh.UpdateRow | source/svc/svc_PwrMonEh.c:269-280 | one row of cells updates channels but keeps the table size and the bitmap |
| PwrMonEh.UpdateSets | source/svc/svc_PwrMonEh.c:267-281 | all the rows of an indication keep the table size and the bitmap |
| PwrMonEh.RowHits | source/svc/svc_PwrMonEh.c:269-280 | within a row each target channel gets exactly its own column's reading |
| PwrMonEh.RowMisses | source/svc/svc_PwrMonEh.c:269-280 | a channel no column targets is untouched by a row |
| PwrMonEh.SetsFeedColumn | source/svc/svc_PwrMonEh.c:267-281 | over all rows each target channel is fed its column's readings in order |
| PwrMonEh.RowFeedsColumn | source/svc/svc_PwrMonEh.c:267-281 | one more row appends that row's reading to the column fed so far |
| PwrMonEh.SetsMiss | source/svc/svc_PwrMonEh.c:267-281 | a channel no column targets is untouched by the whole indication |
| PwrMonEh.ColumnStep | source/svc/svc_PwrMonEh.c:276-277 | the column over n rows is the column over n - 1 rows plus the cell of the last row |
| PwrMonEh.FeedSnoc | source/svc/svc_PwrMon_channel.c:104-107 | feeding one more reading is one more channel update |
| PwrMonEh.Ranks | source/svc/svc_PwrMonEh.c:269-275 | the as-written loop targets channel k for column k |
| PwrMonEh.DataIndAsWritten | source/svc/svc_PwrMonEh.c:263-282 | as written the indication updates channels 0 .. numCh - 1 and keeps the table size and bitmap |
| PwrMonEh.DataIndAsWrittenFeedsRanks | source/svc/svc_PwrMonEh.c:269-280 | as written column k of the packet is folded into channel k, whatever channel the column came from |
| PwrMonEh.Owners | source/svc/svc_PwrMon_sampler.c:294-308 | the channels owning the columns are as many as the bitmap's set bits |
| PwrMonEh.MembersTargetable | source/svc/svc_PwrMon_sampler.c:294-308 | the owning channels are distinct channels of the table |
| PwrMonEh.DataIndUpdate | source/svc/svc_PwrMonEh.c:263-282 | the corrected indication keeps the table valid, its size and its bitmap |
| PwrMonEh.DataIndFeedsOwners | source/svc/svc_PwrMonEh.c:263-282 | with the correction, the channel of the r-th set bit of the packet's bitmap gets the readings of column r, and every other channel is untouched |
| PwrMonEh.DataIndAsWrittenMisroutes | source/svc/svc_PwrMonEh.c:275-277 | with channels 1 and 3 configured, the readings of channel 3 are folded into channel 1 as written, while the correction gives them to channel 3 |
| PwrMonEh.BitsOfTen | source/svc/svc_PwrMonEh.c:275-277 | the bitmap 0b1010 has bits 1 and 3 set |
| PwrMonEh.LedColor | source/svc/svc_PwrMonEh.c:283-285 | the status LED is off or white |
| PwrMonEh.LedBlinks | source/svc/svc_PwrMonEh.c:283-285 | the LED colour changes exactly every 64 packets sent |
| PwrMonEh.BitmapFits | source/svc/svc_PwrMonEh.c:225 | the channel bitmap handed to the sampler fits 16 bits |
| PwrMonEh.Handle | source/svc/svc_PwrMonEh.c:321-384 | handling a message keeps the handler valid unless it faults |
| PwrMonEh.HandleInit | source/svc/svc_PwrMonEh.c:187-215 | the INIT handler keeps the handler valid |
| PwrMonEh.HandleConfigured | source/svc/svc_PwrMonEh.c:218-248 | the CONFIGURED handler keeps the handler valid |
| PwrMonEh.HandleSampling | source/svc/svc_PwrMonEh.c:258-318 | the SAMPLING handler keeps the handler valid |
| PwrMonEh.Cnfs | source/svc/svc_PwrMonEh.c:104-166 | the confirms among the outputs, in order |
| PwrMonEh.CnfsAppend | source/svc/svc_PwrMonEh.c:104-166 | the confirms of two output lists are the confirms of each |
| PwrMonEh.NoCnfsFromSampler | source/svc/svc_PwrMonEh.c:225-303 | sampler effects carry no confirm |
| PwrMonEh.HandleFatal | source/svc/svc_PwrMonEh.c:169-180 | handling faults exactly for a configuration naming a channel beyond the table, outside CALIBRATION |
| PwrMonEh.HandleFollowsTables | source/svc/svc_PwrMonEh.c:187-384 | every message moves the state as the state table says and yields exactly the confirm (id, destination and status) the confirm table says, or none |
| PwrMonEh.OneOut | source/svc/svc_PwrMonEh.c:104-166 | a single output is its own confirm list when it is a confirm |
| PwrMonEh.CnfsAroundSamplers | source/svc/svc_PwrMonEh.c:289-313 | sampler effects between outputs add no confirm |
| PwrMonEh.ConfigFollows | source/svc/svc_PwrMonEh.c:192-296 | configuration requests follow the tables in every state |
| PwrMonEh.ConfigCnfsSampling | source/svc/svc_PwrMonEh.c:289-297 | a configuration while sampling confirms success once |
| PwrMonEh.StartFollows | source/svc/svc_PwrMonEh.c:199-305 | start requests follow the tables in every state |
| PwrMonEh.StartCnfs | source/svc/svc_PwrMonEh.c:223-305 | a start when configured or sampling confirms success once |
| PwrMonEh.CnfsBeforeSamplers | source/svc/svc_PwrMonEh.c:298-305 | a confirm before or after sampler effects is the only confirm |
| PwrMonEh.StopFollows | source/svc/svc_PwrMonEh.c:204-313 | stop requests follow the tables in every state |
| PwrMonEh.StopCnfsSampling | source/svc/svc_PwrMonEh.c:306-313 | a stop while sampling confirms success once |
| PwrMonEh.TimerRunsExactlyWhenSampling | source/svc/svc_PwrMonEh.c:187-384 | the sampler timer runs after a message exactly when the handler is in SAMPLING |
| PwrMonEh.TimerOutsideSampling | source/svc/svc_PwrMonEh.c:187-248 | outside SAMPLING the timer runs afterwards exactly when the new state is SAMPLING |
| PwrMonEh.TimerInSampling | source/svc/svc_PwrMonEh.c:258-318 | in SAMPLING the timer still runs afterwards exactly when the state stays SAMPLING |
| PwrMonEh.TimerConfigSampling | source/svc/svc_PwrMonEh.c:289-297 | a configuration while sampling stops and restarts the timer and stays in SAMPLING |
| PwrMonEh.TimerStopSampling | source/svc/svc_PwrMonEh.c:306-313 | a stop while sampling leaves the timer stopped and the state CONFIGURED |
| PwrMonEh.TimerSkips | source/svc/svc_PwrMonEh.c:187-384 | outputs other than sampler effects do not touch the timer |
| PwrMonEh.StatsReqReports | source/svc/svc_PwrMonEh.c:335-344 | a stats request in any state answers the requester with the sampler statistics (zero after a reset request) and changes nothing else |
| PwrMonEh.ChAvgReqReports | source/svc/svc_PwrMonEh.c:345-354 | a channel-average request in any state answers the requester with one entry per configured channel, each once, in ascending id; after a reset request every average is zero |
| PwrMonEh.StartUsesConfiguration | source/svc/svc_PwrMonEh.c:218-228 | a start after a configuration enters SAMPLING and starts the sampler on the configured channels' bitmap with the saved sample format, counters cleared |
| SamplerEh.Samplers | source/svc/svc_SamplerEh.c:268-279 | the sampler's effects are passed on one for one |
| SamplerEh.EhInit | source/svc/svc_SamplerEh.c:383-400 | init enters INIT with nothing left to write, no sent callback stored, USB disconnected and no channel configured |
| SamplerEh.SizeFor | source/svc/svc_SamplerEh.c:151-152 | the 24-bit sample size is chosen exactly when the request names the 24-bit format, the 32-bit size otherwise |
| SamplerEh.Configure | source/svc/svc_SamplerEh.c:141-155 | a configuration succeeds exactly when every entry names a channel of the table; it then applies the entries, sets the sample size for the format and changes nothing else |
| SamplerEh.PktUpdateAsWritten | source/svc/svc_SamplerEh.c:245-254 | as written a packet updates channels 0 .. numCh - 1 and keeps the table size and bitmap |
| SamplerEh.PktAsWrittenFeedsRanks | source/svc/svc_SamplerEh.c:246-254 | as written column k of the packet is folded into channel k, whatever channel the column was sampled from |
| SamplerEh.Owners | source/svc/svc_SamplerEh.c:246-254 | the channels a packet's columns belong to are as many as the bits set in its channel bitmap |
| SamplerEh.PktUpdate | source/svc/svc_SamplerEh.c:245-254 | the corrected update keeps the channel table valid, its size and its bitmap |
| SamplerEh.PktUpdateFeedsOwners | source/svc/svc_SamplerEh.c:246-254 | corrected, channel j is fed the column whose rank is the number of bitmap bits below j when bit j is set, and is untouched otherwise |
| SamplerEh.PktAsWrittenMisroutes | source/svc/svc_SamplerEh.c:250-252 | with bitmap 0b1010, channel 3's readings land in channel 1 as written and channel 3 gets nothing; corrected, channel 3 gets them |
| SamplerEh.Handle | source/svc/svc_SamplerEh.c:297-333 | handling a message keeps the handler state valid |
| SamplerEh.HandleInit | source/svc/svc_SamplerEh.c:162-190 | handling in INIT keeps the handler state valid |
| SamplerEh.HandleConfigured | source/svc/svc_SamplerEh.c:193-223 | handling in CONFIGURED keeps the handler state valid |
| SamplerEh.HandleSampling | source/svc/svc_SamplerEh.c:233-294 | handling in SAMPLING keeps the handler state valid |
| SamplerEh.Connection | source/svc/svc_SamplerEh.c:340-346 | the connection callback records the new connection state and changes nothing else |
| SamplerEh.TxStep | source/svc/svc_SamplerEh.c:352-353 | the remaining count drops by the bytes sent, wrapped to int32, and the sent callback is due exactly when it is no longer positive |
| SamplerEh.TxDone | source/svc/svc_SamplerEh.c:349-358 | a transmit-done faults exactly when the callback is due and none is stored; otherwise it runs the sampler's sent callback exactly when due and leaves the sampler alone when not |
| SamplerEh.PktReady | source/svc/svc_SamplerEh.c:361-380 | a ready packet is posted to the handler, once, exactly when USB is connected |
| SamplerEh.Cnfs | source/svc/svc_SamplerEh.c:105-138 | the confirms picked from a list of outputs are confirms from that list |
| SamplerEh.CnfsAppend | source/svc/svc_SamplerEh.c:105-138 | picking the confirms distributes over concatenation |
| SamplerEh.NoCnfsFromSampler | source/svc/svc_SamplerEh.c:268-279 | sampler effects never contain a confirm |
| SamplerEh.HandleFatal | source/svc/svc_SamplerEh.c:141-155 | outside CALIBRATION a message faults exactly when it is a configuration naming a channel beyond the table |
| SamplerEh.HandleFollowsTables | source/svc/svc_SamplerEh.c:297-333 | every message moves the handler along the same state table as the power-monitor handler and sends exactly the confirm that table names, with its status |
| SamplerEh.InitFollows | source/svc/svc_SamplerEh.c:162-190 | in INIT a configuration succeeds into CONFIGURED, start and stop are refused, and nothing else is answered |
| SamplerEh.ConfiguredFollows | source/svc/svc_SamplerEh.c:193-223 | in CONFIGURED start moves to SAMPLING, configure and stop stay, each with its success confirm |
| SamplerEh.ConfiguredStartCnfs | source/svc/svc_SamplerEh.c:198-204 | a start in CONFIGURED answers with exactly one successful start confirm |
| SamplerEh.SamplingFollows | source/svc/svc_SamplerEh.c:233-294 | in SAMPLING configure and start restart and stay, stop drops to CONFIGURED, each with its success confirm; packets send no confirm |
| SamplerEh.SamplingStopFollows | source/svc/svc_SamplerEh.c:282-289 | a stop in SAMPLING drops to CONFIGURED with a successful stop confirm |
| SamplerEh.SamplingConfigCnfs | source/svc/svc_SamplerEh.c:265-273 | a valid configuration in SAMPLING answers with exactly one successful configuration confirm |
| SamplerEh.SamplingStartCnfs | source/svc/svc_SamplerEh.c:274-281 | a start in SAMPLING answers with exactly one successful start confirm |
| SamplerEh.PostedPacketIsWritten | source/svc/svc_SamplerEh.c:238-263 | a packet posted while connected is, in SAMPLING, written whole to the USB endpoint with the sent callback stored and the remaining count set to its length; in any other state it is dropped and nothing changes |
| SamplerEh.Fires | source/svc/svc_SamplerEh.c:349-358 | a run of transmit-done counts gives one verdict per count |
| SamplerEh.FiresWhenDrained | source/svc/svc_SamplerEh.c:352-356 | the k-th transmit-done fires the sent callback exactly when the counts so far reach the packet length |
| SamplerEh.SentOnceAtEnd | source/svc/svc_SamplerEh.c:349-358 | when the positive counts add up to the packet length the sent callback fires on the last one and on no other |
| Ina226.GetRegInfo | source/dev/dev_PwrMon_ina226.c:124-136 | every register the lookup finds is two bytes long |
| Ina226.GetRegInfoFaithful | source/dev/dev_PwrMon_ina226.c:124-136 | a register of the chip finds its own table entry with its read-only flag; ids 0xF6 to 0xFD wrap back into the table through the unsigned index and land on the wrong entry; every other id falls outside the table |
| Ina226.ConfigBuild | source/dev/dev_PwrMon_ina226.c:95-98 | the configuration word fits in 12 bits |
| Ina226.ConfigFieldsRoundTrip | source/dev/dev_PwrMon_ina226.c:95-98 | mode, shunt conversion time, bus conversion time and averaging are each read back from their own bits, masked to three bits |
| Ina226.ModeFor | source/dev/dev_PwrMon_ina226.c:283-297 | shunt and bus are converted together exactly when both mask bits are set, bus alone exactly when only the bus bit is, and shunt alone whenever the bus bit is clear, an empty mask included |
| Ina226.ConfigWritesMode | source/dev/dev_PwrMon_ina226.c:276-307 | configuring writes the configuration register with the mode for the mask, 332 us conversions and no averaging |
| Ina226.Cvrf | source/dev/dev_PwrMon_ina226.c:99 | the conversion-ready flag is bit 3 of the alert register |
| Ina226.Format | source/dev/dev_PwrMon_ina226.c:412-421 | a reading whose bit 15 is clear is returned unchanged |
| Ina226.FormatSignExtends | source/dev/dev_PwrMon_ina226.c:412-421 | a raw 16-bit reading comes out as its two's-complement value, and formatting twice is formatting once |
| Ina226.ConvertScales | source/dev/dev_PwrMon_ina226.c:395-409 | bus readings become millivolts at 1.25 mV per bit and shunt readings microvolts at 2.5 uV per bit, truncated toward zero, with the products never overflowing int32 |
| Ina226.ReadReg | source/dev/dev_PwrMon_ina226.c:141-211 | every register read fetches two bytes and leaves the pointer cache on the register read |
| Ina226.WriteReg | source/dev/dev_PwrMon_ina226.c:213-257 | every register write leaves the pointer cache on the register written |
| Ina226.Init | source/dev/dev_PwrMon_ina226.c:260-273 | init queues five transactions and leaves the pointer cache on the calibration register |
| Ina226.InitTransactions | source/dev/dev_PwrMon_ina226.c:260-273 | on a fresh context init reads the manufacturer and device ids, then resets the device, clears the alert mask and zeroes the calibration, in that order |
| Ina228.GetRegInfo | source/dev/dev_PwrMon_ina228.c:154-166 | the lookup finds an entry exactly for a register of the chip or an id between 0x2C and the manufacturer id; a register finds its own entry and length, the other ids an entry for a different register |
| Ina228.GetRegInfoFaithful | source/dev/dev_PwrMon_ina228.c:154-166 | every register of the chip finds its own entry in the table |
| Ina228.I2cRegWrite | source/dev/dev_PwrMon_ina228.c:193-208 | a register write is one 3-byte write of the register id followed by the value least significant byte first, and leaves the pointer cache alone |
| Ina228.I2cRegRead | source/dev/dev_PwrMon_ina228.c:212-235 | a register read fetches the register's length; it sends the register id first exactly when the cache names another register, reads without an address otherwise, and caches the register |
| Ina228.ManufacturerId | source/dev/dev_PwrMon_ina228.c:239-251 | the manufacturer-id helper stores the callback and destination and reads two bytes, from the device-id register |
| Ina228.DeviceId | source/dev/dev_PwrMon_ina228.c:254-266 | the device-id helper stores the callback and destination and reads two bytes, from the manufacturer-id register |
| Ina228.Init | source/dev/dev_PwrMon_ina228.c:272-287 | the corrected init, with its own transaction per read, queues two reads per device and stores no callback |
| Ina228.InitIdsLandInTheirFields | source/dev/dev_PwrMon_ina228.c:272-287 | the corrected init reads the device-id register into the device-id field and the manufacturer-id register into the manufacturer-id field, the swapped helpers and swapped destinations cancelling out |
| Ina228.InitAsWritten | source/dev/dev_PwrMon_ina228.c:212-287 | as written both id reads fill and queue the one shared transaction record before the first byte has left the bus: one transfer runs, with the first register byte and the second read; the context ends naming MFGR_ID |
| Ina228.InitAsWrittenLosesDeviceId | source/dev/dev_PwrMon_ina228.c:272-287 | as written the DEV_ID register is read into the manufacturer-id field, nothing reaches the device-id field and the register cache disagrees with the device, while the corrected init fills the device-id field |
| Ina228.IdHelpersReadSwappedRegisters | source/dev/dev_PwrMon_ina228.c:239-266 | the manufacturer-id helper reads the device-id register and the device-id helper the manufacturer-id register |
| Ina228.ReadHits | source/dev/dev_PwrMon_ina228.c:212-235 | while the cache agrees with the device's pointer, every read reaches the register it names and the cache keeps agreeing |
| Ina228.WriteLeavesCacheStale | source/dev/dev_PwrMon_ina228.c:193-235 | a register write moves the device's pointer but not the cache, so a later read of the cached register sends no address and reads the register written |
| HostProtocol.DecodeHexString | test/Protocol.py:7-12 | a decoded hex string has half as many bytes as it has characters, and only even-length strings decode |
| HostProtocol.DecodeHexMeaning | test/Protocol.py:7-12 | a string decodes exactly when it has even length and every character is a hex digit, and byte k is the value of characters 2k and 2k + 1 as high and low nibble |
| HostProtocol.DecodeHexOfHex | test/Protocol.py:7-12 | decoding the two-digit upper-case hex of a byte string gives the byte string back |
| HostProtocol.DecodeHexPair | test/Protocol.py:7-12 | a string whose first two digits spell byte b decodes to b followed by the decoding of the rest |
| HostProtocol.HdrFromId | test/Protocol.py:22-24 | a header built from an id carries that id and the length 2 of the id field alone |
| HostProtocol.HdrFromBin | test/Protocol.py:26-31 | a header is read exactly from four or more bytes, as little-endian length then id |
| HostProtocol.HdrFromText | test/Protocol.py:26-31 | a header read from text comes from a string of at least eight hex digits |
| HostProtocol.HdrBinary | test/Protocol.py:42-43 | packing succeeds exactly when length and id fit 16 bits, into four bytes that read back as the same header |
| HostProtocol.HdrText | test/Protocol.py:34-40 | the text header is always eight characters, and for a header that fits 16 bits it is the hex of its binary form |
| HostProtocol.HdrRoundTrips | test/Protocol.py:20-43 | a header that fits 16 bits reads back unchanged from its binary and from its text form |
| HostProtocol.NewReq | test/Protocol.py:50-53 | a new request has the given id, no data and the length of the id field |
| HostProtocol.ReqBinary | test/Protocol.py:55-56 | a request packs exactly when its header fits 16 bits, into its binary header followed by its data |
| HostProtocol.ReqText | test/Protocol.py:58-64 | a request's text is '$', its hex header and data, and the newline-return trailer; for a packable header it is the hex of its binary form |
| HostProtocol.FrameShape | test/Protocol.py:58-64 | a framed line is its start mark, then its body, then the two-character trailer |
| HostProtocol.CnfFromText | test/Protocol.py:76-87 | a text line shorter than nine characters or not starting with '!' leaves the confirm unparsed; a parsed one is valid and its data is the decoding of everything after the header |
| HostProtocol.CnfFromBin | test/Protocol.py:83-86 | a binary confirm parses exactly when it has a four-byte header, is valid, and its data is the rest |
| HostProtocol.CnfText | test/Protocol.py:89-95 | a confirm's text is one mark, eight header digits, two digits per data byte and the trailer |
| HostProtocol.HdrFromBinPrefix | test/Protocol.py:30-31 | only the first four bytes decide the header |
| HostProtocol.CnfTextRoundTrip | test/Protocol.py:76-95 | a confirm's text without its trailer parses back as the same valid confirm |
| HostProtocol.CnfLine | test/Protocol.py:89-95 | a confirm line is '!' and the hex of header and data, its data digits starting at character nine |
| HostProtocol.CnfTextWithTrailerFails | test/Protocol.py:76-95 | a confirm's text with its trailer still attached fails to parse, the trailer not being hex |
| HostProtocol.ParseVersionCnf | test/Protocol.py:107-113 | the version confirm parses exactly when the data is eight bytes, gives the two little-endian 32-bit fields, and is valid only with the VERSION id; an unparsed confirm raises AttributeError |
| HostProtocol.ParseEhStatsCnf | test/Protocol.py:129-141 | the statistics confirm parses exactly when the data is nineteen bytes, gives four 32-bit counters and three byte fields in order, and is valid only with the EHSTATS id |
| HostProtocol.BcastRegReq | test/Protocol.py:157-164 | the broadcast registration request has length 5 and id BCAST_REG, and carries the handler byte and the little-endian message id |
| HostProtocol.ParseEmptyCnf | test/Protocol.py:167-172 | a confirm with no fields parses whenever it was parsed at all, and is valid exactly when its id is the one expected |
| HostProtocol.EhMsgReq | test/Protocol.py:179-184 | the event-handler message request has id EHMSG and carries the message, its length counting it |
| HostProtocol.EhMsgLenOverflow | test/Protocol.py:179-184 | a 65534-byte message makes a length of 65536, which the binary header cannot pack |
| HostProtocol.EhMsgLenTextWraps | test/Protocol.py:34-40 | the text header keeps only the low 16 bits of that length and sends 0 |
| HostEventHandler.MsgId | test/EventHandler.py:30-33 | a message id holds the handler in its high byte, the type in bit 7 and the number in the low seven bits |
| HostEventHandler.BuildHdr | test/EventHandler.py:35-58 | a header is built exactly when the length fits 16 bits; it counts the six header bytes, has no count or alloc flag, and puts the source in the header for requests and responses and the destination for confirms and indications, the other in the message id |
| HostEventHandler.EncodeHdr | test/EventHandler.py:55-58 | a header encodes to six bytes |
| HostEventHandler.DecodeHdr | test/EventHandler.py:48-52 | a header decodes exactly from six or more bytes; the alloc flag is bit 7 of byte 3, the count its low seven bits, the handler byte 2 |
| HostEventHandler.HdrRoundTrip | test/EventHandler.py:35-58 | every header decodes back from its encoding |
| HostEventHandler.HdrEncodeOfDecode | test/EventHandler.py:35-58 | every six bytes re-encode from their decoding |
| HostEventHandler.BuildMsg | test/EventHandler.py:70-73 | a message is built exactly when its length fits, carries its payload and counts it in the header |
| HostEventHandler.MsgBinary | test/EventHandler.py:80-81 | a message's bytes are its six header bytes followed by its payload |
| HostEventHandler.ParseMsg | test/EventHandler.py:74-76 | a message parses exactly from six or more bytes, the payload being everything after the header |
| HostEventHandler.MsgRoundTrip | test/EventHandler.py:69-81 | every message parses back from its bytes |
| HostEventHandler.TypeOf | test/EventHandler.py:91-113 | requests and responses have type REQ_RSP, confirms and indications CNF_IND |
| HostEventHandler.BuildKindMsg | test/EventHandler.py:91-113 | for requests and responses the destination is in the message id and the source in the header; for confirms and indications the other way round; the type bit matches the kind |
| HostPwrMon.Utf8Char | test/EventHandler_PwrMon.py:29 | a character encodes to one to four bytes, and to itself alone exactly when it is ASCII |
| HostPwrMon.Utf8 | test/EventHandler_PwrMon.py:29 | an encoded name has at least as many bytes as characters |
| HostPwrMon.Utf8Ascii | test/EventHandler_PwrMon.py:29 | an ASCII name encodes to its own character codes, one byte each |
| HostPwrMon.Zeros | test/EventHandler_PwrMon.py:30 | the padding is n zero bytes |
| HostPwrMon.ChConfigEntry | test/EventHandler_PwrMon.py:22-31 | a channel entry is its id byte, its little-endian shunt value, its encoded name and 41 - len(name) padding bytes (none when the name is longer) |
| HostPwrMon.ChConfigEntryAscii | test/EventHandler_PwrMon.py:22-31 | for an ASCII name of at most 41 characters the entry is 44 bytes: id, shunt, the name and zeros to the end |
| HostPwrMon.ConfigReq | test/EventHandler_PwrMon.py:37-51 | 256 channels or more fail to pack; otherwise the payload is the sample format, the channel count and the entries in order, sent from PYTHON to PWRMON as CONFIG_REQ |
| HostPwrMon.StatsPayload | test/EventHandler_PwrMon.py:126-131 | the statistics payload is twenty bytes |
| HostPwrMon.ParseStats | test/EventHandler_PwrMon.py:123-125 | the statistics parse exactly from twenty bytes |
| HostPwrMon.StatsRoundTrip | test/EventHandler_PwrMon.py:121-136 | statistics parse back from the payload built for them |
| HostPwrMon.ParseChAvg | test/EventHandler_PwrMon.py:152-154 | a channel average parses exactly from five bytes |
| HostPwrMon.ChAvgBytesAsWritten | test/EventHandler_PwrMon.py:155-159 | as written building an entry always raises, since three fields are named and two values given |
| HostPwrMon.ChAvgAsWrittenNeverBuilds | test/EventHandler_PwrMon.py:150-160 | no entry can be built as written, while the intended packing of the same entry parses back to it |
| HostPwrMon.ChAvgBytes | test/EventHandler_PwrMon.py:150-160 | the intended entry is five bytes and parses back to the same id, voltage and current |
| HostPwrMon.ParseChAvgs | test/EventHandler_PwrMon.py:166-175 | a confirm parses exactly when the payload holds the count byte and that many five-byte entries; it gives that many entries, each parsed from its own five bytes |
| HostPwrMon.ParseEntries | test/EventHandler_PwrMon.py:172-175 | n entries parse exactly when the payload is long enough for them, each from its own five bytes |
| HostPwrMon.ChAvgsRoundTrip | test/EventHandler_PwrMon.py:166-185 | fewer than 256 averages parse back from their count byte and their packed entries |
| HostPwrMon.ChAvgsBytes | test/EventHandler_PwrMon.py:177-180 | packed entries take five bytes each |
| HostPwrMon.ChAvgsBytesAt | test/EventHandler_PwrMon.py:177-180 | entry k sits at bytes 5k to 5k + 5 of the packing |
| HostPwrMon.EntriesRoundTrip | test/EventHandler_PwrMon.py:172-175 | when every five-byte slot holds an entry's packing, the first n entries parse back |
| HostPwrMon.ParsePktHdr | test/EventHandler_PwrMon.py:188-206 | a packet header of other than twelve bytes reads as all zero; a twelve-byte one has 4-byte samples, counts below 64, a format below 16 and a 16-bit sequence number |
| HostPwrMon.PktHdrBytes | test/EventHandler_PwrMon.py:188-206 | a packed packet header is twelve bytes |
| HostPwrMon.PktHdrRoundTrip | test/EventHandler_PwrMon.py:188-206 | every header whose fields fit their bit widths parses back from its packing |
| HostPwrMon.Word0Fields | test/EventHandler_PwrMon.py:192-195 | the sequence number, format, sample count and channel count are each read back from their own bits of the first word |
| HostPwrMon.Samples | test/EventHandler_PwrMon.py:219 | the sample bytes are those after the header, cut to the data length, or fewer when the payload is short |
| HostPwrMon.ParseDataInd | test/EventHandler_PwrMon.py:212-227 | an indication under six bytes fails; otherwise it parses exactly when its sample bytes are absent or complete (numpy refuses a partial buffer), has no grid exactly when they are absent, and its grid has numSmpl rows of numCh cells |
| HostPwrMon.Grid | test/EventHandler_PwrMon.py:221-224 | the grid has numSmpl rows of numCh cells, each the cell at its row-major index |
| HostPwrMon.DataIndCell | test/EventHandler_PwrMon.py:212-227 | in a parsed indication, cell (s, c) is the two int16 values at byte 18 + 4(s * numCh + c) of the message |
| HostPwrMon.GridIsCells | test/EventHandler_PwrMon.py:216-224 | a parsed grid is exactly the sample bytes read row-major |
| HostPwrMon.DataIndRoundTrip | test/EventHandler_PwrMon.py:188-227 | a message of a packet header and a grid of cells parses back to the same header and grid |
| HostPwrMon.GridOfBytes | test/EventHandler_PwrMon.py:221-224 | a grid packed row-major reads back unchanged |
| HostPwrMon.StatusCnfAsWritten | test/EventHandler_PwrMon.py:54-63 | host-built confirms name PYTHON as the sender in the message id and PWRMON in the header |
| HostPwrMon.StopCnfAsWrittenHasReqNumber | test/EventHandler_PwrMon.py:98-107 | as written the stop confirm carries the number of STOP_REQ, not STOP_CNF |
| HostPwrMon.StopCnf | test/EventHandler_PwrMon.py:98-107 | the corrected stop confirm carries STOP_CNF with the confirm type bit and the status as its only byte |
| HostSample.SampleHdr | test/Sample.py:11-13 | the header cell splits into its low and high 16-bit halves |
| HostSample.NewSampleSet | test/Sample.py:26-29 | a sample set is built exactly from a non-empty cell list, keeps the cells and has no channel bitmap |
| HostSample.HeaderFieldsSwapped | test/Sample.py:26-29 | the constructor stores the header's first half as validBitmap and the second as ioBitmap, the reverse of the names sampleHdr returns |
| HostSample.ChIdx | test/Sample.py:36-49 | the index of a channel is -1 exactly when it is not in the bitmap, and otherwise the number of bitmap channels below it |
| HostSample.ChNumToIdx | test/Sample.py:36-49 | the counting loop computes that index |
| HostSample.ChIdxExample | test/Sample.py:36-49 | with bitmap 0b1011 channel 3 has index 2 and channel 2 is absent |
| HostSample.ChIdxRank | test/Sample.py:36-49 | channels of the bitmap have increasing indices below the bitmap's population count |
| HostSample.SetChNumToIdx | test/Sample.py:36-49 | a set without a channel bitmap raises AttributeError; with one it gives the channel's index |
| HostSample.ConstructedSetCannotLookUp | test/Sample.py:26-49 | a freshly built set never has a channel bitmap, so every channel look-up raises |
| HostSample.ChIdxGet | test/Sample.py:62-63 | index k reads cell k + 1, Python's negative indices included, and raises outside the list |
| HostSample.UnconfiguredChannelReadsHeader | test/Sample.py:52-63 | looking up a channel not in the bitmap reads the header cell instead of failing |
| HostSample.ChNumIsValid | test/Sample.py:57-59 | with no bitmap it raises AttributeError; for a channel outside the bitmap the negative shift raises ValueError; otherwise it is the valid bit at the channel's index |
| HostSample.Fmt0Cell | test/Sample.py:15-17 | a (vBus, vShunt) pair stored in a cell reads back through sampleFmt0 |
| HostSample.Fmt1Cell | test/Sample.py:19-21 | a power value stored in a cell reads back through sampleFmt1 |
| HostTivaUsb.ConfirmIsRequestPlusOne | test/TivaUsb.py:37-54 | every request constant's paired confirm constant is the request plus one |
| HostTivaUsb.SplitCmd | test/TivaUsb.py:56-59 | a command splits exactly when its list is non-empty, into an id and a payload that together are the list |
| HostTivaUsb.AcceptReply | test/TivaUsb.py:576-582 | a reply is kept exactly when its id is the request id plus one, with the rest as its payload; an empty reply raises |
| HostTivaUsb.AcceptsPairedConfirm | test/TivaUsb.py:576-582 | for every named request, a reply is kept exactly when it carries the paired confirm code |
| HostTivaUsb.SampleSetsFor | test/TivaUsb.py:228-229 | a capture of n seconds asks for exactly 2500 sample sets per second |
| HostTivaUsb.OnDataInd | test/TivaUsb.py:432-444 | an indication counts as received exactly when it parses and the sample handler does not raise; every other one counts as an error, one count per indication |
| SensorBus.WriteOf | source/dev/dev_Humid_sht21.c:135-152 | a queued write sends exactly the given bytes to the given address, reads nothing and carries the given callback |
| SensorBus.Place | source/dev/dev_Humid_sht21.c:182-191 | a reply placed in a driver buffer at an offset overwrites exactly its own positions and keeps the buffer's length and every other byte |
| SensorBus.PlaceReadBack | source/dev/dev_Humid_sht21.c:182-191 | the placed bytes read back from the buffer |
| Sht21.ResOf | source/dev/dev_Humid_sht21.c:56-68 | the resolution read from the user register is one of four values |
| Sht21.SetResAsWritten | source/dev/dev_Humid_sht21.c:68 | as written the macro keeps bits 1-6, but resolution bit 1 is shifted to bit 8 and lost in the uint8_t, so only resolution bit 0 survives |
| Sht21.SetRes | source/dev/dev_Humid_sht21.c:68 | corrected, bits 1-6 are kept and the resolution's two bits go to bits 7 and 0 |
| Sht21.SetResIdempotent | source/dev/dev_Humid_sht21.c:68 | setting the same resolution twice is setting it once |
| Sht21.SetResOnlyResolution | source/dev/dev_Humid_sht21.c:68 | a resolution below four reads back from the register, nothing else changes, and a register already at that resolution is left unchanged |
| Sht21.SetResAsWrittenLosesPlatformResolution | source/dev/dev_Humid_sht21.c:68 | with the platform resolution the as-written macro selects resolution 1 while the corrected one selects the platform's |
| Sht21.Raw | source/dev/dev_Humid_sht21.c:205 | the raw word has its two status bits cleared, the first byte as high byte and the second with its low two bits dropped |
| Sht21.RawRoundTrip | source/dev/dev_Humid_sht21.c:205 | a measurement word is recovered from its two bytes whatever the status bits hold |
| HumidSht21.SndCmd | source/dev/dev_Humid_sht21.c:158-164 | a command is a one-byte write of the command to the device |
| HumidSht21.RegWriteTrans | source/dev/dev_Humid_sht21.c:169-177 | a register write sends the write command followed by the register value |
| HumidSht21.RegReadTrans | source/dev/dev_Humid_sht21.c:181-191 | a register or measurement read writes the command from a zeroed buffer and reads three bytes, changing nothing but the buffer |
| HumidSht21.TriggerHumidity | source/dev/dev_Humid_sht21.c:218-223 | a humidity trigger stores the callback and queues the hold-master humidity read |
| HumidSht21.TriggerTemperature | source/dev/dev_Humid_sht21.c:249-254 | a temperature trigger stores the callback, keeps the humidity and combined callback, and queues the hold-master temperature read |
| HumidSht21.RunMeasCb | source/dev/dev_Humid_sht21.c:266-274 | a client callback is called with the value; the combined step calls the client with humidity then temperature, when one is set |
| HumidSht21.RegReadStepAsWritten | source/dev/dev_Humid_sht21.c:308-313 | as written the register-read completion rewrites the command byte at buffer[0], not the register read back, through the as-written resolution macro |
| HumidSht21.RegReadStep | source/dev/dev_Humid_sht21.c:308-313 | corrected, it writes back the register read into buffer[1] with only its resolution bits changed |
| HumidSht21.Callback | source/dev/dev_Humid_sht21.c:201-303 | the register-write completion marks the write done; a humidity or temperature completion stores the raw word of the reply |
| HumidSht21.Complete | source/dev/dev_Humid_sht21.c:122-131 | a completion with no callback does nothing further |
| HumidSht21.Config | source/dev/dev_Humid_sht21.c:321-331 | configuration clears the done flag, records the resolution and queues the user-register read |
| HumidSht21.Init | source/dev/dev_Humid_sht21.c:338-360 | init zeroes both readings, sends the soft reset, then reads the user register to configure it |
| HumidSht21.ClientCb | source/dev/dev_Humid_sht21.c:380-411 | a client callback is stored exactly when one is given |
| HumidSht21.MeasTrigger | source/dev/dev_Humid_sht21.c:364-376 | a combined trigger stores the client and starts with a humidity read whose completion chains on |
| HumidSht21.MeasTriggerHumidity | source/dev/dev_Humid_sht21.c:380-388 | a humidity trigger stores the client and queues the humidity read |
| HumidSht21.MeasTriggerTemperature | source/dev/dev_Humid_sht21.c:403-411 | a temperature trigger stores the client and queues the temperature read |
| HumidSht21.MeasTriggerChain | source/dev/dev_Humid_sht21.c:266-283 | a combined measurement reads humidity, then temperature, then calls the client with the raw humidity and temperature words of the two replies |
| HumidSht21.ConfigChain | source/dev/dev_Humid_sht21.c:300-331 | corrected, configuration reads the register, writes it back with the new resolution, and the write's completion marks it done |
| HumidSht21.ConfigAsWrittenIgnoresRegister | source/dev/dev_Humid_sht21.c:308-327 | as written the value written back is built from the read command byte 0xE7, whatever the register holds |
| HumidSht21.ConfigAsWrittenExample | source/dev/dev_Humid_sht21.c:308-327 | for a register reading 0x3A and the platform resolution, 0x67 is written as written instead of 0xBB |
| TempSht21.SndCmd | source/dev/dev_Temp_sht21.c:160-166 | a command is a one-byte write of the command, leaving the read buffer alone |
| TempSht21.RegWriteTrans | source/dev/dev_Temp_sht21.c:171-179 | a register write sends the write command followed by the register value |
| TempSht21.ReadTrans | source/dev/dev_Temp_sht21.c:185-190 | a read is a plain read of the given length into the read buffer |
| TempSht21.HumidReadCallAsWritten | source/dev/dev_Temp_sht21.c:205-208 | as written the client is called with humidity in the temperature position and temperature in the humidity position |
| TempSht21.HumidReadCall | source/dev/dev_Temp_sht21.c:205-208 | corrected, the client gets temperature then humidity, as the callback type declares, and only when one is set |
| TempSht21.RegReadStep | source/dev/dev_Temp_sht21.c:274-279 | the corrected completion writes the register read back with only its resolution bits changed |
| TempSht21.RegReadStepAsWritten | source/dev/dev_Temp_sht21.c:68 | as written the completion writes back the register through the macro that loses resolution bit 1 |
| TempSht21.Callback | source/dev/dev_Temp_sht21.c:197-288 | a temperature read stores the temperature word, a humidity read stores the humidity word and keeps the temperature, a register write marks the write done |
| TempSht21.Complete | source/dev/dev_Temp_sht21.c:125-135 | a completion with no callback does nothing further |
| TempSht21.MeasTrigger | source/dev/dev_Temp_sht21.c:242-248 | a trigger stores the client and sends the hold-master temperature command |
| TempSht21.Config | source/dev/dev_Temp_sht21.c:296-306 | configuration clears the done flag, records the resolution and sends the register-read command |
| TempSht21.Init | source/dev/dev_Temp_sht21.c:313-343 | init zeroes both readings, sends the soft reset, starts the configuration and triggers the first measurement for the client |
| TempSht21.MeasRead | source/dev/dev_Temp_sht21.c:356-365 | a read returns the stored temperature and humidity |
| TempSht21.MeasTriggerChain | source/dev/dev_Temp_sht21.c:212-248 | a measurement sends the temperature command, reads three bytes, sends the humidity command, reads three bytes, then calls the client with both raw words |
| TempSht21.HumidReadCallAsWrittenSwaps | source/dev/dev_Temp_sht21.c:205-208 | whenever the two readings differ, the as-written call hands the humidity over as the temperature |
| TempSht21.ConfigChain | source/dev/dev_Temp_sht21.c:266-306 | with the corrected resolution macro, configuration sends the read command, reads one byte, writes it back with the new resolution, and the write's completion marks it done |
| TempSht21.RegReadStepAsWrittenLosesPlatformResolution | source/dev/dev_Temp_sht21.c:68 | with the platform resolution the as-written completion writes resolution 1, the corrected one the platform's, so the two differ |
| Tmp006.ConfigBuild | source/dev/dev_Temp_tmp006.c:69-75 | the configuration word has an empty low byte |
| Tmp006.ConfigFields | source/dev/dev_Temp_tmp006.c:69-75 | reset, mode, conversion rate and data-ready enable each read back from their own bits, masked as the macro masks them |
| Tmp006.RegWriteBytes | source/dev/dev_Temp_tmp006.c:153-164 | a register write is the pointer byte followed by the value, most significant byte first |
| Tmp006.Raw14 | source/dev/dev_Temp_tmp006.c:206 | the reading is the 16-bit register word with its two unused low bits dropped, below 2^14 |
| Tmp006.Raw14RoundTrip | source/dev/dev_Temp_tmp006.c:206 | a 14-bit reading is recovered from the register bytes whatever the two unused bits hold |
| Tmp006.Fixed10p6 | source/dev/dev_Temp_tmp006.c:206-207 | the stored 10.6 value is twice the reading, exactly |
| Tmp006.RegWrite | source/dev/dev_Temp_tmp006.c:153-164 | a register write queues a three-byte write with no callback |
| Tmp006.RegSelect | source/dev/dev_Temp_tmp006.c:167-174 | selecting a register writes its pointer byte alone |
| Tmp006.Init | source/dev/dev_Temp_tmp006.c:232-282 | init writes the reset word 0x8200, waits 100 ms, writes the power-on word 0x7300, waits 1 ms, then leaves the pointer on the temperature register |
| Tmp006.InitWords | source/dev/dev_Temp_tmp006.c:180-198 | the reset word decodes to reset, power down, two samples and data-ready off, the power-on word to continuous conversion, two samples and data-ready on |
| Tmp006.DataReady | source/dev/dev_Temp_tmp006.c:217-226 | a data-ready edge queues a two-byte read and changes nothing else |
| Tmp006.ReadCompleteStep | source/dev/dev_Temp_tmp006.c:203-214 | a completed read stores the 10.6 temperature of the two bytes and calls the client, when one is set |
| Tmp006.Complete | source/dev/dev_Temp_tmp006.c:119-128 | a completion with no callback does nothing further |
| Tmp006.MeasTrigger | source/dev/dev_Temp_tmp006.c:286-294 | a trigger stores the client and changes nothing else |
| Tmp006.MeasRead | source/dev/dev_Temp_tmp006.c:298-304 | a read returns the stored temperature |
| Tmp006.DataReadyChain | source/dev/dev_Temp_tmp006.c:203-226 | after a trigger, a data-ready edge and its read give the client the stored temperature, twice the reading of the two reply bytes |
| Isl29023.CmdBuild | source/dev/dev_Light_isl29023.c:158 | the command word fits in 12 bits |
| Isl29023.CmdFields | source/dev/dev_Light_isl29023.c:158 | in the little-endian command word, the low byte holds the mode above the persistence bits and the high byte the resolution above the range, each read back unchanged |
| Isl29023.RangeLuxAsWritten | source/dev/dev_Light_isl29023.c:134-137 | the driver's lux table agrees with the range codes except at code 1 |
| Isl29023.RangeLux | source/dev/dev_Light_isl29023.c:129-132 | the full-scale range of code n is 1000 lux times 4^n |
| Isl29023.RangeLuxAsWrittenWrongAtCode1 | source/dev/dev_Light_isl29023.c:130-135 | range code 1 selects 4000 lux, but the table scales by 2000 |
| Isl29023.RangeOf | source/dev/dev_Light_isl29023.c:318-326 | the two ALS modes scale by the configured 64000-lux range, every other mode by the IR range 65535 |
| Isl29023.LuxAsWritten | source/dev/dev_Light_isl29023.c:314-330 | as written the reading is data times range over 65356, in 24.8 fixed point, rounded down |
| Isl29023.Lux | source/dev/dev_Light_isl29023.c:314-330 | corrected, the reading is data times range over 65536, in 24.8 fixed point, rounded down |
| Isl29023.LuxWithinRange | source/dev/dev_Light_isl29023.c:314-330 | no count reads above the full-scale range |
| Isl29023.LuxMonotone | source/dev/dev_Light_isl29023.c:314-330 | more counts never read as less light |
| Isl29023.LuxAsWrittenExceedsRange | source/dev/dev_Light_isl29023.c:314 | as written a full-scale ALS count reads above the 64000-lux range, while the corrected reading stays within it |
| Isl29023.RegWriteTrans | source/dev/dev_Light_isl29023.c:216-230 | a register write sends the register byte then the value least significant byte first, leaving client and mode alone |
| Isl29023.RegReadTrans | source/dev/dev_Light_isl29023.c:236-249 | a register read writes the register byte from a zeroed buffer and reads two bytes after it |
| Isl29023.Data | source/dev/dev_Light_isl29023.c:302 | the data word is the little-endian value of the two bytes read |
| Isl29023.ThresholdReadStep | source/dev/dev_Light_isl29023.c:299-332 | a completed data read first re-reads the command register to clear the interrupt, then hands the client, when set, the lux of the data word at the mode's range |
| Isl29023.Callback | source/dev/dev_Light_isl29023.c:255-332 | every driver callback keeps the client and the mode |
| Isl29023.Complete | source/dev/dev_Light_isl29023.c:190-198 | a completion with no callback does nothing further, and client and mode are kept |
| Isl29023.Init | source/dev/dev_Light_isl29023.c:369-403 | init clears the client and writes the command word for per-cycle ALS at the configured settings, chaining into the interrupt clear |
| Isl29023.MeasTriggerCommon | source/dev/dev_Light_isl29023.c:345-362 | a trigger stores the client and the mode and writes the command word for that mode |
| Isl29023.MeasTriggerAls | source/dev/dev_Light_isl29023.c:407-412 | an ALS trigger scales by 64000 lux and writes command bytes 0x20, 0x03 |
| Isl29023.MeasTriggerIr | source/dev/dev_Light_isl29023.c:416-421 | an IR trigger scales by the IR range and writes command bytes 0x40, 0x03 |
| Isl29023.IntHandler | source/dev/dev_Light_isl29023.c:335-341 | an interrupt reads the data register, chaining into the threshold handler |
| Isl29023.ResetChain | source/dev/dev_Light_isl29023.c:255-286 | reset writes the command register, reads it back to clear the interrupt, then writes the high threshold and then the low threshold |
| Isl29023.MeasAlsChain | source/dev/dev_Light_isl29023.c:299-341 | after an ALS trigger, the interrupt's data read ends with the interrupt clear and the client getting the lux of the two bytes at 64000 lux |
| Eh.RegisterAllMapsEveryIfRoom | source/svc/svc_Eh.c:56-60 | when the fill index has room for the whole list, every id of the list ends up mapped for the eh |
| UartIo.WriteStep | source/bsp/bsp_UartIo.c:345-372 | one pass of bsp_UartIo_bufferWrite's copy loop extends the held contents by the next n client bytes, so after it the contents end with the first k + n bytes of the client data |
| UartIo.ReadStep | source/bsp/bsp_UartIo.c:428-444 | one pass of bsp_UartIo_bufferRead's copy loop hands out the next n oldest bytes after those already read and leaves exactly the bytes not yet read |
| StdIo.SbrksFrom | source/bsp/toolchain/gcc/bsp_Io_gcc.c:150-156 | from a set heap end, a run of calls moves it by the sum of the increments, modulo 2^32, while it never wraps to zero |
| Cmd.Step | source/svc/svc_Cmd.c:172-300 | processing one character from a consistent console state leaves it consistent |
| PwrMonEh.DataIndAsWrittenAgreesOnLowChannels | source/svc/svc_PwrMonEh.c:269-280 | the as-written and corrected indications update the table identically whenever the packet's channels are channels 0 to numCh - 1, so the routing differs only for other bitmaps |
| SamplerEh.PktAsWrittenAgreesOnLowChannels | source/svc/svc_SamplerEh.c:246-254 | the as-written and corrected packet updates agree whenever the packet's channels are channels 0 to numCh - 1 |
| PwrMonChannel.AvgGetAsWrittenAgreesWhenNonNegative | source/svc/svc_PwrMon_channel.c:140-158 | the unsigned division of the source gives the signed truncated averages whenever both sums are non-negative and fit in int32_t |
| Console.TextCharAsWrittenAgreesWithRoom | source/svc/svc_CmdEh.c:333-388 | the unguarded edit of the source and the guarded one agree on every character except a printable one arriving at a line of size - 1 characters |

## Left out

- Hardware register I/O, the RTOS (queues, timers, critical sections) and interrupt masking are not modelled as memory. They appear as effects the model returns (transactions queued, callbacks run, timers started) or as flags (interrupts left masked).
- Log output, terminal echo and `printf` help text are left out. So are the timer names of the LED handler.
- The SHT21 humidity and temperature drivers keep the raw measurement words. The floating-point conversion to 10.6 fixed point is not modelled.
- Isl29023.Lux: models the float expression `data * range / 65536 * 256` as an exact rational rounded down. Float rounding of the source is not modelled, so results may differ by the last unit.
- Tmp006.Fixed10p6: treats the 14-bit reading as unsigned, as the driver's uint16_t arithmetic does. The device's two's-complement sign bit is not interpreted.
- The busy-waits are not modelled: the I2C completion spin with its 10000-count timeout in dev_PwrMon.c (lines 158-160 and 188-190), the SSI completion spin with no timeout (lines 243-245 and 274-276), and the SHT21 configuration waits (dev_Humid_sht21.c line 330, dev_Temp_sht21.c line 305). The model returns the transaction and its completion is a separate step. A completion that never comes is therefore not representable.
- The INA226 bus and shunt calibration (dev_PwrMon_ina226.c:309-393) polls the conversion-ready flag in a loop against the device. Only the flag test (Ina226.Cvrf) is modelled. dev_PwrMon_channelOffsetCal and the channel read/convert/format dispatch (dev_PwrMon.c:431-514) are left out with it.
- The delays between driver steps are effects with their millisecond value. Time does not pass in the model.
- MsgFwk.RegisterMsg: the broadcast table has ten slots and nothing checks the 8-bit fill index against them. The model gives the index a reach of 256 slots. Writes past slot 9 are undefined behaviour in C, and the model keeps them without modelling what they overwrite; broadcasts scan only the first ten.
- CmdEh.DataDigit: stores binary bytes in an unbounded sequence. The firmware writes them through the two 512-byte history buffers as one 1024-byte area. A length above 1022 runs past that area, which C leaves undefined.
- Console.RecallLoop: carries a fuel bound, so the non-terminating recall of a line of 256 or more characters is reported as no result (RecallLoopLongLineHangs) rather than as divergence.
- PwrMonChannel.AvgGet: returns 0 for a zero count. The C division by zero is undefined there; the Cortex-M UDIV instruction gives 0, which UDiv models.
- samplerStatsReset is not among the modelled sources; it is taken to zero the four counters.
- The ChAvg confirm entry follows svc_PwrMon_channel.c (5 bytes) rather than the 17-byte struct in svc_PwrMonEh.h:289-296.
- dev_Light.h is not part of this model. The ISL29023 constants are taken from dev_Light_isl29023.c.
- ButtonEh.NameRecoversId: holds for one-digit button ids only. Ids of ten or more are misread by the source (TwoDigitIdMisread) and are not modelled further.
- The USB stack, descriptors other than the serial-number string, and the bulk/CDC transport are left out.
- The sensor drivers queue WRITE_READ transactions that the I2C engine sends as plain writes. They are modelled with the write-then-read semantics they rely on (see the note above the table).
- The host harness in test/TivaUsb.py: only the command split, the request/confirm pairing, the timed-start sample count and the data-indication counting are modelled. The USB transport, reader processes, pipes and threading are left out.
- The host StartReq, StopReq, StatsReq and ChAvgReq classes carry no payload. Each is HostEventHandler.BuildKindMsg applied to its message number and gets no member of its own.
- numpy arrays in the host sample decoding are modelled as sequences of 16-bit integers. Array views and dtypes are not modelled.
- The PwrMon event handler passes the sample format where the sampler expects a sample size (svc_PwrMonEh.c:225, 294, 303). The numeric constants that would make this matter are not in the modelled sources, so it is kept as written and not claimed as a finding.
- Ina228.InitAsWritten: assumes one device on an idle bus, with the second id call made before the first register byte has left. A bus already busy, or a slower caller, gives other interleavings, which are not modelled.
- Nvm.SaveAsWritten: the words after svc_Nvm_data in RAM are a parameter. What the linker places there, and what the extra EEPROM words overwrite, are not modelled.
- Ssi.Receive: assumes that when TXEOT fires the receive FIFO holds every byte of the transfer, the skipped ones and the ones read. The FIFO's finite depth, and the bytes lost when a longer transfer overruns it, are not modelled.

## Findings

Where one of these members is needed, the rest of the model uses the corrected member. The as-written member stays beside it, with the lemma that exhibits the difference. Lemmas named `…AgreesOn…`/`…AgreesWhen…`/`…AgreesWith…` show that the two halves coincide outside the exhibited inputs.

| source | as written | input that shows it | evidently intended | confidence | as-written member | corrected member |
|---|---|---|---|---|---|---|
| source/svc/svc_PwrMon_channel.c:144-155 | the int32 sum is divided by the uint32 count, so it is converted to unsigned first | three samples summing to -9 report 21842 in the ChAvg confirm | a signed average, -3 | not executed | PwrMonChannel.EntryAsWrittenLosesSign | PwrMonChannel.Entry |
| source/svc/svc_PwrMonEh.c:269-280 | column k of a DATA_IND updates channel number k | bitmap 0b1010: channel 3's readings go to channel 1 and channel 3 gets nothing | column k updates the channel of the k-th set bit | not executed | PwrMonEh.DataIndAsWrittenMisroutes | PwrMonEh.DataIndFeedsOwners |
| source/svc/svc_SamplerEh.c:246-254 | the same column-to-channel routing in the older handler | bitmap 0b1010, as above | column k updates the channel of the k-th set bit | not executed | SamplerEh.PktAsWrittenMisroutes | SamplerEh.PktUpdateFeedsOwners |
| source/svc/svc_CmdEh.c:355 | the recall loop counts with a uint8_t up to a 16-bit fill index | a recalled line of 256 characters: the loop never ends | a counter as wide as the fill index | not executed | Console.RecallLoopLongLineHangs | Console.Recall |
| source/svc/svc_Cmd.c:272-279 | a printable character is stored with no room check | in the 64-byte console, recall a 63-character line and type one more: the fill index reaches 64 and the NUL lands one byte past the buffer | store only while the line has room | not executed | Cmd.RecalledFullLineOverflows | Console.TextCharFits |
| source/svc/svc_CmdEh.c:403 | processText receives the line length as uint8_t | a 256-character word is handed over as no word | the full length | not executed | CmdEh.LongLineVanishes | CmdEh.TextArgv |
| source/bsp/bsp_I2c.c:400-403 | a non-empty queue links the new record after the tail but never moves the tail | queue A, queue B, complete A, queue C: C never runs | the new record becomes the tail | not executed | I2c.StaleTailLosesTransaction | I2c.CorrectedQueueKeepsTransaction |
| source/bsp/bsp_Gpio.c:149-160 | the PCTL mask and value are shifted up one nibble per bit of the whole pin mask | pins 0 and 1 with function 2: pin 0 keeps its old function | one nibble per selected pin at its own position | not executed | Gpio.PctlAsWrittenDropsLowPin | Gpio.Pctl |
| source/bsp/bsp_Gpio.c:350-360 | LEVEL_LOW sets IEV and LEVEL_HIGH clears it | a LEVEL_LOW request arms a high-level trigger | IEV set for the high level only | not executed | Gpio.SenseAsWrittenSwapsLevels | Gpio.SenseSelects |
| source/bsp/bsp_Gpio_tm4c123.c:71-78 | the legacy per-pin ISR calls the handler entry without a NULL check | a pending pin right after init calls a NULL handler | call only a registered handler | not executed | Gpio.PinIsrAsWrittenCallsNull | Gpio.PinIsr |
| source/bsp/bsp_Reset.c:89-90 | the hardware byte ORs the whole cause shifted down six into the low seven bits | a hibernate wake also reads as an external reset (0x41) | host request at bit 7, each cause on its own bit | not executed | Reset.HwReasonAsWrittenConfuses | Reset.HwReasonFaithful |
| source/bsp/toolchain/gcc/bsp_Io_gcc.c:153-155 | _sbrk_r returns the heap end after the increment | a 16-byte request on a heap at 0x2000_0000 is handed 0x2000_0010 | return the heap end before the increment | not executed | StdIo.SbrkAsWrittenPastEnd | StdIo.SbrkBlocksAdjacent |
| source/dev/dev_Humid_sht21.c:68 | the resolution's bit 1 is shifted to bit 8 and lost in the uint8_t | the platform resolution is replaced by resolution 1 | resolution bits at 7 and 0 | not executed | Sht21.SetResAsWrittenLosesPlatformResolution | Sht21.SetResOnlyResolution |
| source/dev/dev_Humid_sht21.c:308-313 | the register-read completion rewrites buffer[0], the command byte | a register reading 0x3A is written back as 0x67, not 0xBB | rewrite the register read into buffer[1] | not executed | HumidSht21.ConfigAsWrittenExample | HumidSht21.ConfigChain |
| source/dev/dev_Temp_sht21.c:205-208 | the client is called with (humidity, temperature) | any two different readings come out swapped | (temperature, humidity), as the callback type declares | not executed | TempSht21.HumidReadCallAsWrittenSwaps | TempSht21.HumidReadCall |
| source/dev/dev_Light_isl29023.c:130-135 | the lux table holds 2000 for range code 1 | code 1 selects 4000 lux but scales by 2000 | 1000 lux times 4^code | not executed | Isl29023.RangeLuxAsWrittenWrongAtCode1 | Isl29023.RangeLux |
| source/dev/dev_Light_isl29023.c:314 | the full-scale ADC count is written 65356 | a full-scale count reads above the 64000-lux range | 65536 | not executed | Isl29023.LuxAsWrittenExceedsRange | Isl29023.LuxWithinRange |
| source/dev/dev_PwrMon_ina228.c:272-287 | both id reads share one transaction record and are queued back to back | one device on an idle bus: the DEV_ID byte goes out with the MFGR_ID read, the device-id field is never written | one transaction per read | not executed | Ina228.InitAsWrittenLosesDeviceId | Ina228.InitIdsLandInTheirFields |
| source/svc/svc_Nvm.c:86-88 | bsp_Eeprom_write is given SVC_NVM_DATA_SIZE, a byte count, where it takes words | any save: four times the record is programmed, the RAM after svc_Nvm_data included | SVC_NVM_DATA_SIZE32 | not executed | Nvm.SaveAsWrittenProgramsPastRecord | Nvm.SaveThenInit |
| source/dev/dev_Temp_sht21.c:68 | the resolution's bit 1 is shifted to bit 8 and lost in the uint8_t, as in the humidity driver | the platform resolution is written back as resolution 1 | resolution bits at 7 and 0 | not executed | TempSht21.RegReadStepAsWrittenLosesPlatformResolution | TempSht21.ConfigChain |
| test/EventHandler_PwrMon.py:155-159 | the entry packs "<BHH" with only two values | building any ChAvg entry raises struct.error | pack the id, voltage and current | not executed | HostPwrMon.ChAvgAsWrittenNeverBuilds | HostPwrMon.ChAvgBytes |
| test/EventHandler_PwrMon.py:103-106 | the stop confirm uses the STOP_REQ number | any locally built stop confirm | the STOP_CNF number | not executed | HostPwrMon.StopCnfAsWrittenHasReqNumber | HostPwrMon.StopCnf |

## Observations

These behaviours are reproduced and exhibited, with no corrected member:

- INA228 reads the manufacturer id from DEV_ID and the device id from MFGR_ID (Ina228.IdHelpersReadSwappedRegisters). Init passes swapped destinations, so with one transaction per read the two would cancel out (Ina228.InitIdsLandInTheirFields). As written the shared record defeats this; see the finding above.
- A button whose press polarity is HIGH never reads as pressed; only the LOW polarity is tested (Button.HighNeverPressed).
- Sample.py stores the header halves in swapped fields (HostSample.HeaderFieldsSwapped) and never sets chBitmap, so a freshly built set cannot look up a channel (HostSample.ConstructedSetCannotLookUp).
- Timer callbacks read a button id of one digit only (ButtonEh.TwoDigitIdMisread).
- Releasing a message whose count is 0 wraps the count to 127 (MsgFwk.ReleaseAtZeroWraps).
- A binary length of 0x4000 or more wraps the int16 digit count (CmdEh.LengthOver0x3FFFWraps), and a bulk length of 0xFFFE wraps the 16-bit frame size (CmdEh.BulkLengthWraps).
- Backspace only moves the fill index, so the tokenizer still sees the erased character (Console.BackspaceLeaksIntoArgv).
- A 65534-byte EHMSG payload cannot be packed by the host (HostProtocol.EhMsgLenOverflow), and its text header wraps the length to 0 (HostProtocol.EhMsgLenTextWraps).
- Host-built confirms name PYTHON as the sender in the message id (HostPwrMon.StatusCnfAsWritten).
