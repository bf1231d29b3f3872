# GPS bridge firmware, modelled in Dafny

The firmware runs on an 8-bit PIC18 and bridges a GPS receiver to an I2C bus. A single
high-priority interrupt handler serves two sources:

- **UART.** Each received byte goes to a line framer. The framer captures everything from `$` to
  `\n` into the 256-byte `input_message`.
- **Decoding.** On `\n`, the handler copies the built-in sentence `rmc` into `print_buffer` and
  runs `parseData` on it. `parseData` walks the string with an index and a comma counter and
  writes the fields of the global record `gps_data`. If the bus stop bit `P` is set, it copies
  the record's 15-byte image into `gps_buffer` and then clears the record.
- **I2C slave.** On each bus interrupt, it hands the master the next byte of `gps_buffer`
  through a static cursor.

The model follows that structure, one module per part.

| module | file | what it holds |
|---|---|---|
| `Bytes` | bytes.dfy | `unsigned char` and 16-bit `unsigned int`, the C conversions (`% 256`, `% 65536`) and the zero-filled buffer reader `At` |
| `FixRecord` | fix.dfy | the record `gps_data_read` and its 15-byte image |
| `FixStore` | fix_store.dfy | the working and published slots, and the publish step |
| `Decoder` | decoder.dfy | `parseData`'s loop: one iteration (`Step`), the loop (`Run`), `Decode` |
| `LineFramer` | framer.dfy | the UART branch of the handler |
| `BusServer` | bus.dfy | the SSP branch of the handler, as written and corrected |
| `Firmware` | firmware.dfy | the whole handler as a step function `Next`, and the class `Bridge` |

`Bridge` holds the firmware's globals and statics:

- `input_message` and `gps_buffer` are arrays.
- `gps_data`, the two indices and `save_input` are fields.

Its methods are proved to follow `Next` through an abstraction function. These methods are
`ParseData` (the `while` loop, in place), `OnUartByte` and `OnBusEvent`.

Modelling assumptions:

- **Record image.** The target compiler lays `gps_data_read` out as follows:
  - The three 1-bit flags sit in bits 0, 1 and 2 of byte 0, and the unused bits are zero.
  - Then come one byte per field.
  - Each decimal-minutes `unsigned int` takes two bytes, low byte first.
  - There is no padding.
- **Integer widths.** `unsigned int` is 16 bits. Digit arithmetic goes through `unsigned char`
  locals, so every decoded field is taken modulo 256. Decimal minutes are taken modulo 65536.
- **Events.** UART errors, the stop bit and the three SSP status bits are event parameters. A
  handler invocation that serves both sources is the UART event followed by the bus event.

What the proofs say, in brief:

- **The decoder's quirk.** The `switch` runs on every loop iteration, not only after a comma.
  - A field that is not directly followed by a comma is decoded again and again.
  - The reads inside the `switch` step over commas without counting them.
  - `DecodeWellFormed` proves that a sentence whose decoded fields are each directly followed by
    a comma decodes field by field.
  - `DecodeRmc` proves what the built-in sentence actually gives. Its time field `555555.000`
    keeps the comma count at 1 for the whole sentence. Only hour, minute and second change, to
    124, 240 and 240.
  - So every published image carries that time, and the other fields stay as the previous
    publish left them (`PublishedLine`). From power-on, whatever arrives, `gps_buffer` only ever
    holds fifteen zero bytes or the image of the cleared record with that time
    (`OnlyTwoImages`). The bytes the framer captured are never used (`CapturedBytesIgnored`).
- **Framer.** A line `$`…`\n` runs the decoder exactly once. Between lines the buffer is all
  zero. Every store stays inside the buffer.
- **Bus.**
  - One read transaction with the stop bit clear sees a single snapshot, sent in order
    (`SnapshotPerTransaction`).
  - The cursor is never checked against 15 (see Findings).

## Model

| member | source | states |
|---|---|---|
| `Bytes.At` | main.c:52 | reading the zero-filled 256-byte buffer at `i` yields the sentence's byte inside it and 0 past its end |
| `FixRecord.FlagByte` | main.c:27-30 | the flag byte of the image lies below 8: the five unused bits are zero |
| `FixRecord.Image` | main.c:26-47 | the image of a record is 15 bytes with a flag byte below 8, and reading it back gives the same record |
| `FixRecord.ImageOfFromImage` | main.c:26-47 | every 15-byte image whose unused bits are zero is the image of the record read back from it |
| `FixRecord.ImageInjective` | main.c:167 | two records with the same image are equal, so `gps_buffer` determines the record |
| `FixRecord.ImageOfCleared` | main.c:168 | the cleared record images to exactly fifteen zero bytes |
| `FixStore.Publish` | main.c:166-169 | with the stop bit, `gps_buffer` becomes exactly the image of the working record (which reads back as that record) and the working record becomes the cleared one; without it, nothing changes |
| `Decoder.TwoDigits` | main.c:80-90 | a two-digit field is `10*(c1-48)+(c2-48)` modulo 256, and for ASCII digits exactly that value, at most 99 |
| `Decoder.ThreeDigits` | main.c:125-128 | the longitude degrees are `100*(c1-48)+10*(c2-48)+(c3-48)` modulo 256, and exactly that when the digits' value fits in a byte |
| `Decoder.DecimalMinutes` | main.c:110-115 | decimal minutes are `1000*d1+100*d2+10*d3+d4` modulo 65536 over the byte-wrapped digits, and for ASCII digits the plain value, at most 9999 |
| `Decoder.Fields` | main.c:78-163 | the `switch` changes nothing outside groups 1, 2, 3, 4, 5, 6 and 9, and each of those groups changes only its own fields: the time, the status, the latitude, the north flag, the longitude, the east flag, the date |
| `Decoder.FieldWidth` | main.c:78-163 | the `switch` consumes characters exactly in groups 1, 2, 3, 4, 5, 6 and 9 |
| `Decoder.Step` | main.c:74-163 | every loop iteration moves the index forward |
| `Decoder.Run` | main.c:72-164 | the loop stops on a NUL, never moves the index back and never lowers the comma count |
| `Decoder.StepCountsCommas` | main.c:74-76 | the comma count rises by one exactly when the tested byte is a comma, and the index moves past it and the group's width |
| `Decoder.StepOutsideFields` | main.c:78-163 | an iteration in a group the `switch` does not decode leaves `gps_data` unchanged and moves on by one byte |
| `Decoder.StepFlags` | main.c:92-148 | status, north and east are set exactly when the byte read is `A`, `N` or `E`, and no other field changes |
| `Decoder.Decode` | main.c:67-164 | the loop of `parseData` from index and comma count 0 leaves the record as it was when the first byte is already NUL |
| `Decoder.RunPastDateKeepsFix` | main.c:150-163 | once the comma count is past the date group, the rest of the loop changes nothing |
| `Decoder.SkipPlain` | main.c:72-78 | in a group that is not decoded, bytes that are neither a comma nor NUL are passed over one per iteration |
| `Decoder.DecodeWithoutCommaKeepsFix` | main.c:72-78 | a sentence without a comma leaves `gps_data` exactly as it was |
| `Decoder.RunComma` | main.c:74-78 | reading a comma opens the next group and runs its case of the `switch` right away |
| `Decoder.DecodeWellFormed` | main.c:67-165 | when each decoded field is directly followed by a comma, every field of `gps_data` is overwritten with its field-by-field reading, whatever it held before |
| `Decoder.RmcLayout` | main.c:54 | the built-in sentence is 68 bytes with no NUL among them, its terminator is at byte 68, and its commas are at bytes 2, 13, 15, 25, 27, 38, 40, 45, 52, 59, 60 and 61 |
| `Decoder.DecodeRmc` | main.c:54 | decoding the built-in sentence sets hour, minute and second to 124, 240 and 240 and leaves every other field as it was |
| `LineFramer.Receive` | main.c:180-208 | a byte runs the decoder exactly when it is an error-free `\n` during a capture; a byte with a receive error changes nothing; the buffer stays 256 bytes |
| `LineFramer.StartCapture` | main.c:184-190 | `$` while idle starts a capture with `$` at index 0, the index at 1 and the rest of the buffer untouched |
| `LineFramer.IgnoredBytes` | main.c:185-207 | `$` during a capture, and any other byte while idle, leave the framer unchanged and run nothing |
| `LineFramer.AppendByte` | main.c:203-207 | during a capture an ordinary byte is stored at the index, only there, and the index moves on by one modulo 256 |
| `LineFramer.EndCapture` | main.c:191-201 | `\n` during a capture runs the decoder, ends the capture and zeroes the buffer |
| `LineFramer.IdleIsClean` | main.c:51 | the framer at reset is idle with an all-zero buffer |
| `LineFramer.ReceiveKeepsClean` | main.c:183-208 | every byte keeps the invariant that the buffer is all zero while idle |
| `LineFramer.Feed` | main.c:174-210 | the handler over a sequence of error-free bytes keeps the 256-byte buffer |
| `LineFramer.Triggers` | main.c:191-197 | the number of decoder runs over a sequence of bytes is at most its length |
| `LineFramer.CaptureLine` | main.c:183-207 | from idle, `$` and a payload leave exactly `$`, the payload and zeros in the buffer, the index past the payload, and no decoder run |
| `LineFramer.WholeLine` | main.c:183-208 | a whole line `$`…`\n` runs the decoder exactly once and ends idle with a zero buffer |
| `BusServer.Load` | main.c:220-223 | `gps_buffer[n]` gives the byte at the cursor exactly when the cursor is inside the buffer, and otherwise a read at that same index past its end |
| `BusServer.Respond` | main.c:218-224 | address+read resets the cursor and sends byte 0; data+read with start sends the byte at the cursor; both move the cursor on by one modulo 256; anything else sends nothing |
| `BusServer.RespondPadded` | main.c:218-224 | the corrected server sends byte 0 or the byte at the cursor, 0 past the buffer, never reads outside the buffer, and stops the cursor at 255 |
| `BusServer.Replay` | main.c:212-225 | a sequence of bus interrupts gets one reply each |
| `BusServer.ContinuingReplies` | main.c:222-224 | without a new address event, the replies are the successive reads from the cursor and the cursor ends that many places on, modulo 256 |
| `BusServer.Transaction` | main.c:218-224 | a read transaction sends byte `i mod 256` of the buffer as its `i`-th byte, so `gps_buffer[0]`, `gps_buffer[1]`, … in order while it stays within the buffer |
| `BusServer.OverrunOnSixteenthRead` | main.c:223 | the sixteenth read of a transaction on the 15-byte buffer reads index 15, past its end |
| `BusServer.SixteenReadsExist` | main.c:218-224 | an address event followed by fifteen data events makes sixteen reads |
| `BusServer.PaddedTransaction` | main.c:218-224 | with the corrected server a transaction sends the buffer and then zeros, and nothing outside the buffer is read |
| `BusServer.PaddedAgreesWithinBuffer` | main.c:218-224 | on every transaction that stays within the buffer, the corrected server sends exactly what the original sends |
| `Firmware.InitialState` | main.c:49-51 | after reset the framer is idle with a zero buffer, `gps_data` is cleared and `gps_buffer` is the cleared record's image |
| `Firmware.Sentence` | main.c:196-197 | a completed line decodes the built-in sentence into the working record, publishes it and clears it when the stop bit is set, and otherwise keeps it |
| `Firmware.Next` | main.c:172-226 | a bus event changes neither the framer nor the records; a UART event sends nothing and keeps the cursor; the records change only on a terminated line, and the published image only with the stop bit |
| `Firmware.CapturedBytesIgnored` | main.c:195-196 | the records, the cursor and the bus reply after any event do not depend on the bytes held in `input_message` |
| `Firmware.PublishedLine` | main.c:191-201 | a published line puts the previous record with time 124:240:240 into `gps_buffer`, clears `gps_data` and ends the capture |
| `Firmware.NextKeepsClean` | main.c:183-208 | every event keeps `input_message` all zero while the framer is idle |
| `Firmware.NextKeepsReachable` | main.c:166-197 | every event keeps `gps_data` either cleared or the cleared record with time 124:240:240, and `gps_buffer` the image of one of those two |
| `Firmware.Trace` | main.c:172-226 | a sequence of events gets one reply each and keeps the buffers' sizes |
| `Firmware.TraceKeepsReachable` | main.c:172-226 | the same two-record invariant holds after any sequence of events |
| `Firmware.OnlyTwoImages` | main.c:166-169 | from power-on, whatever the events, `gps_buffer` holds the cleared record's image (fifteen zero bytes) or that of the cleared record with time 124:240:240, and `gps_data` one of those two records |
| `Firmware.QuietTrace` | main.c:212-225 | while no decoder run sees the stop bit, the handler's bus replies are the bus server's over the bus events alone, and the image stays as it was |
| `Firmware.SnapshotPerTransaction` | main.c:166-169 | when the stop bit stays clear during a read transaction, the image does not change and the master receives `gps_buffer[0]`, `gps_buffer[1]`, … in order |
| `Firmware.Bridge.Abs` | main.c:49-51 | the firmware's globals always form a consistent state |
| `Firmware.Bridge.constructor` | main.c:236 | the state after power-on and `main`'s clearing of `gps_data` is the initial state |
| `Firmware.Bridge.ReadTwoDigits` | main.c:80-82 | reading a digit pair into the `unsigned char` locals gives the two-digit field value |
| `Firmware.Bridge.ReadThreeDigits` | main.c:125-128 | reading three digits gives the longitude degrees |
| `Firmware.Bridge.ReadDecimalMinutes` | main.c:110-115 | the two-step 16-bit computation gives the decimal minutes |
| `Firmware.Bridge.DecodeGroup` | main.c:78-163 | the `switch`, in place, assigns the group's fields and returns the index past its width |
| `Firmware.Bridge.ParseData` | main.c:67-170 | the loop, in place on `gps_data`, leaves in it the record `Decode` gives; the publish step then copies its image into `gps_buffer` and clears it when the stop bit is set, and otherwise leaves both |
| `Firmware.Bridge.OnUartByte` | main.c:174-210 | the UART branch, in place on the arrays and statics, moves the firmware state exactly as `Next` does |
| `Firmware.Bridge.SendNext` | main.c:220 | the byte sent is `gps_buffer` at the cursor, or a read past the array, and the cursor moves on by one modulo 256 |
| `Firmware.Bridge.OnBusEvent` | main.c:212-225 | the SSP branch, in place on the cursor, moves the state and replies exactly as `Next` does |

## Left out

- The hardware plumbing of `uart_layer.c` is not part of this model: `uartInit`, the busy-wait
  senders, and the register reads and error clearing in `uartReceive`. Only the receive's result
  is modelled, as a byte and an `ok` flag that is true when neither a framing nor an overrun
  error was pending (uart_layer.c:55-68).
- The I2C plumbing of `I2CCom.c` is not part of this model:
  - `I2CInit` register setup and the empty `I2CReceive`.
  - The buffer and clock-stretch handshake inside `I2CSend`. `I2CSend` is modelled as the reply
    it hands to the bus.
  - `I2CCheckError` (I2CCom.c:48-58), which reads `SSPBUF` to clear `BF` when a byte is pending
    and clears the overflow flag `SSPOV` and the collision flag `WCOL`.
  - The handler's software clearing of `SSPIF` (main.c:215).
- Config pragmas, `portSetup`, interrupt enables and `main`'s idle loop are one-time hardware
  configuration and are not part of this model. `main`'s clearing of `gps_data` is modelled in
  the initial state.
- Interrupt timing and the hardware behaviour of the `P`, `S`, `D_NOT_A` and `R_NOT_W` bits are
  not modelled. They are event parameters. The snapshot property assumes that `P` reads clear
  during a transaction, and it says so in its hypothesis.
- `sprintf` is modelled as the copy of the constant `rmc` into the zero-filled `print_buffer`.
  The sentence contains no `%`, so formatting does not change it.
- `print_buffer` is not kept as an array. The decoder reads the sentence through `At`, which
  yields 0 past its end, as the zero-filled buffer does. For an arbitrary input whose decode
  reads past byte 255, C would read outside `print_buffer`. The model reads 0 there. The
  firmware only ever decodes `rmc`, which stops at byte 72.
- `parseData`'s `int` locals `n` and `group` are unbounded in the model. On the 16-bit target
  they could overflow only on inputs longer than the 256-byte buffer.
- The value a read past `gps_buffer` actually puts on the bus is undefined in C. It is modelled
  as `OutOfBounds(index)`, with no byte.
- The C compiler evaluates `tens*10 + ones` in 16-bit `int`. That cannot overflow for
  `unsigned char` operands, so the model uses unbounded integers for it.
- Decoder.DecimalMinutes: `(int)(tens*10 + ones)*100` (main.c:112 and main.c:138) is a 16-bit
  signed `int` product. On non-digit bytes it reaches up to 280500, which overflows `int`, and
  signed overflow is undefined behaviour in C. The model assumes two's-complement wrap-around
  and takes the value modulo 65536 when it is stored in the `unsigned int` field. For ASCII
  digits the product is at most 9900 and no overflow happens.

## Findings

| source | as written | input that shows it | evidently intended | confidence | as-written member | corrected member |
|---|---|---|---|---|---|---|
| main.c:223 | on a data+read event with the start bit, the SSP branch reads `gps_buffer` at its static `unsigned char` cursor and increments it with no check against the 15-byte array | an address+read event followed by fifteen data+read events with the start bit: the sixteenth read is at index 15, one past the end | send only the 15 image bytes; a master that reads on gets a defined filler byte and no read leaves the buffer | not executed; high, the missing bound is plain in the handler | `BusServer.OverrunOnSixteenthRead` | `BusServer.PaddedTransaction` |

`Firmware.Next` and `Bridge.OnBusEvent` keep the as-written server, because they model the
firmware as it is built. `BusServer.PaddedAgreesWithinBuffer` proves that the corrected server
sends exactly the same bytes on every transaction of at most 15 reads. So everything proved about
such transactions holds for both servers.
