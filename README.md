# libtouchmouse: image decoding and reassembly, modelled in Dafny

The Microsoft TouchMouse can send a picture of the fingers on its surface: a
13 x 15 grid of grey levels whose outline is a rounded diamond of 181 active
cells. The picture arrives compressed, in 32-byte HID input reports with ID
0x27. Each report carries a length byte, four magic bytes, a timestamp and up
to 25 data bytes. Each data byte holds two nybbles, the low one first. A
nybble 0..E is one pixel code. The nybble F announces a run: the next nybble
X stands for X + 3 zero codes. Once 181 codes have been collected, they are
laid out row by row on the active cells of the diamond, each through a
15-entry grey table. An image may span several reports that share one
timestamp.

The model covers two programs that share this decoder:

- **the library** (`src/touchmouse.c`). A device handle holds the decoder,
  the timestamp of the image in progress and the timestamp of the last
  completed image. `touchmouse_process_events_timeout` reads reports until a
  deadline. It abandons a partial image when a report with a new timestamp
  arrives. It hands a completed image to the callback and returns 0. It
  returns -1 on a decoding error and -2 on a failed read.
  `touchmouse_set_device_mode` rewrites one byte of a feature report to turn
  the image stream on or off.
- **the standalone viewer** (`touchmouse.c`). It switches the mouse to image
  mode, then polls. Any change of timestamp resets its decoder. It prints
  each completed image and keeps polling. A decoding error ends the program.
  Its `process_nybble` and `reset_decoder` (`touchmouse.c:122-204`) are
  line-for-line the library's, so one `Decoder` class models both.

Modules, in dependency order:

- `Types`: bytes, `Option`, generic sequence facts.
- `Grid`: the diamond layout, the grey table and `Unpack`, the value-level
  meaning of the unpacking loop.
- `Codec`: the decoder state as a value.
  - `Step` is one call of `process_nybble`.
  - `Feed` folds `Step` over a nybble stream until the image completes or
    fails.
  - `Encode` is a compressor following the scheme described at
    `src/touchmouse.c:84-87`, written as the decoder's inverse. The round
    trip is proved.
- `Decoding`: the `Decoder` class. Its fields are the cursor, the run flag, a
  181-byte code buffer and a 195-byte image, all updated in place. Every
  method is proved against `Step`, `Feed` or `Unpack`.
- `Reports`: the report envelope and the low-nybble-first byte split, proved
  inverse to packing.
- `Library`: the `Device` class.
  - `ProcessReport` is proved against the value-level `FrameStep`.
  - `ProcessEvents` is proved against `Events`.
  - `SetDeviceMode` is modelled here.
  - Lemmas prove that images are reassembled correctly across reports, and
    that the `buf_index != 0` guard loses nothing.
- `Standalone`: the viewer's `Poller` class, proved against `PollStep` and
  `Polling`. Also `enable_mouse_image_mode`, and a lemma showing that viewer
  and library decode alike.

The image callback (and the viewer's `print_table`) is modelled as a ghost
log `delivered` of (image, timestamp) pairs. Reads from the device are a
parameter, `arrivals`. Each arrival is `Failed(code)` for a negative
`hid_read_timeout` result, or `Received(bytes)` for the bytes it returned.
The end of that sequence stands for the deadline (library) or for the user
quitting (viewer).

## Model

| member | source | states |
|---|---|---|
| `Grid.CodeIndex` | src/touchmouse.c:138-163 | the running index `i` of the unpacking loop, at any active cell, is below 181 (no read past the code buffer) |
| `Grid.RowOffsetClosedForm` | src/touchmouse.c:142-163 | the rows before row r consume 0, 9, 20, 33, then 46 + 15(r - 4) codes (row widths 9, 11, 13, 13, then 15) |
| `Grid.RowsConsumeAllCodes` | src/touchmouse.c:142-163 | the 13 rows together consume exactly the 181 codes |
| `Grid.CodesInRowMajorOrder` | src/touchmouse.c:161-162 | of two active cells, the one earlier in the image takes the earlier code, so no code is used twice |
| `Grid.CellOfCode` | src/touchmouse.c:142-163 | every code index below 181 lands on some active cell, so no code is skipped |
| `Grid.UnpackLayout` | src/touchmouse.c:137-164 | in the unpacked image, cells outside the diamond are 0 and each active cell holds the grey level of the code at its row-major code index |
| `Grid.DecoderTableIsRoundedScale` | src/touchmouse.c:100-102 | the grey table maps code c to round(255c/14): strictly increasing from 0 to 255 |
| `Codec.ResetState` | src/touchmouse.c:92-98 | after a reset the cursor is 0, no run is pending and both buffers are all zero |
| `Codec.Step` | src/touchmouse.c:104-168 | one nybble: an error exactly for a nybble of 16 or more, or a run that would overflow 181, with the state untouched; the cursor never moves back or past 181; completion exactly when it reaches 181, with the image unpacked from the codes |
| `Codec.StepEffect` | src/touchmouse.c:111-132 | a literal writes itself and advances by one; F only sets the run flag; a run length X writes X + 3 zeros and advances past them; nothing outside the written window changes |
| `Codec.Feed` | src/touchmouse.c:379-413 | feeding nybbles stops at the first completion or error; an unfinished stream leaves the cursor below 181; a completed one leaves the unpacked image; the unread nybbles are a suffix |
| `Codec.FeedAppend` | src/touchmouse.c:372-379 | a stream split across reports decodes like the whole stream, as long as the first part did not end the image |
| `Codec.FeedStops` | src/touchmouse.c:383-397 | once the decoder has completed or failed, whatever follows is left unread |
| `Codec.FeedBeforeEnd` | src/touchmouse.c:136-167 | a decoder that completes exactly at the end of a stream was still in progress on every proper prefix |
| `Codec.Encode` | src/touchmouse.c:84-87 | a compressor following the F, X scheme: the compressed form of a code sequence is no longer than the sequence and consists of nybbles; `RoundTrip` gives its meaning |
| `Codec.FeedEncoded` | src/touchmouse.c:104-168 | decoding the compressed form of the remaining codes completes on its last nybble, with the codes appended to those already held |
| `Codec.RoundTrip` | src/touchmouse.c:104-168 | for any 181 codes, a reset decoder fed their compressed form completes on the last nybble and holds exactly those codes and their unpacked image |
| `Decoding.Decoder.constructor` | src/touchmouse.c:258-259 | a newly opened device has a zero-filled decoder |
| `Decoding.Decoder.Reset` | src/touchmouse.c:92-98 | `reset_decoder` brings the fields to the reset state |
| `Decoding.Decoder.ProcessNybble` | src/touchmouse.c:104-168 | the in-place `process_nybble`, including its zero-writing run loop and the unpacking, changes the fields exactly as `Step` says and returns its outcome |
| `Decoding.Decoder.ProcessByte` | src/touchmouse.c:381-412 | one data byte: low nybble, then high nybble unless the low one ended the image; the effect equals `Feed` on the two nybbles |
| `Decoding.Decoder.ProcessData` | src/touchmouse.c:379-413 | the loop over the `length - 1` data bytes of a report equals `Feed` on the report's nybble stream |
| `Decoding.Decoder.UnpackImage` | src/touchmouse.c:136-164 | clearing the image and running the row/column loops, with one running code index `i` carried from row to row, leaves exactly `Unpack` of the code buffer |
| `Decoding.Decoder.UnpackRow` | src/touchmouse.c:142-163 | one row of the loop, entered with the running index at the codes already used by earlier rows, fills that row's cells with their pixels, leaves earlier rows as they were and later rows black, and returns the index advanced by the row's width |
| `Reports.DataLength` | src/touchmouse.c:379 | a report announces one data byte less than its length byte, and none for a length of 0 |
| `Reports.Payload` | src/touchmouse.c:36-53 | the useful data of a report are the `length - 1` bytes from offset 7 on |
| `Reports.Nybbles` | src/touchmouse.c:381-397 | each data byte gives two nybbles below 16 |
| `Reports.NybbleOrder` | src/touchmouse.c:379-391 | byte i gives nybble 2i (its low half) and nybble 2i + 1 (its high half) |
| `Reports.NybblesAppend` | src/touchmouse.c:379-413 | the nybbles of concatenated bytes are the concatenated nybble streams |
| `Reports.PackNybbles` | src/touchmouse.c:381-397 | packing the nybbles of some bytes gives the bytes back |
| `Reports.NybblesPack` | src/touchmouse.c:379-391 | splitting packed nybbles gives the nybbles back |
| `Library.OpenSession` | src/touchmouse.c:256-259 | an opened device has a decoder with room for the first nybble |
| `Library.FrameStep` | src/touchmouse.c:364-415 | a read that is not a 32-byte 0x27 report changes nothing; otherwise the in-progress timestamp becomes the report's. The loop ends with 0 exactly when an image is delivered, or with -1 on a decoding error, leaving a reset decoder either way. A delivered image is an unpacked code buffer stamped with the report's timestamp, which becomes the last completed timestamp (`FrameAbandons` and `FrameContinues` give the decoder each report starts from and leaves behind) |
| `Library.Events` | src/touchmouse.c:335-415 | the event loop returns 0, -1 or -2, delivers at most one image, and returns 0 whenever it delivers; a failed first read returns -2 at once with nothing changed, and -2 only ever comes from a failed read |
| `Library.ModeReport` | src/touchmouse.c:300-310 | the report written back is the one read, with byte 4 set to 0x00 (default) or 0x06 (raw image), and unchanged for any other enum value (one that is neither 0 nor 1) |
| `Library.SetDeviceMode` | src/touchmouse.c:279-322 | returns 0 exactly when both the read and the write moved 27 bytes, else -1; a report is written exactly when the read moved 27 bytes, and it is `ModeReport` of what was read |
| `Library.Device.constructor` | src/touchmouse.c:256-259 | `touchmouse_open` zero-fills the whole handle: decoder and both timestamps |
| `Library.Device.Deliver` | src/touchmouse.c:384-390 | a completion records the timestamp, hands the image to the callback, then resets the decoder |
| `Library.Device.ProcessReport` | src/touchmouse.c:364-415 | the in-place handling of one read changes the handle, returns the loop's code and calls back exactly as `FrameStep` says |
| `Library.Device.ProcessEvents` | src/touchmouse.c:335-415 | the in-place event loop over the reads that arrive before the deadline ends in the state, return code and deliveries `Events` gives |
| `Library.FrameAbandons` | src/touchmouse.c:373-413 | a report with a new timestamp while an image is under way decodes its data from a reset decoder: the loop returns -1 exactly when that decoding fails, delivers exactly when it completes, and otherwise keeps the decoder where the data took it |
| `Library.FrameContinues` | src/touchmouse.c:373-413 | a report with the in-progress timestamp, or one arriving at cursor 0, decodes its data from the decoder as it stands, with the same exit, delivery and leftover state as above |
| `Library.BytesSettled` | src/touchmouse.c:379-413 | after whole data bytes, a decoder at cursor 0 is the reset decoder: an escape read at cursor 0 is a low nybble, so its run length is in the same byte and moves the cursor on |
| `Library.FrameStepSettled` | src/touchmouse.c:373-377 | with settled decoders, the guard `buf_index != 0 && timestamp changed` resets exactly as a bare timestamp test would |
| `Library.FrameCarriesOn` | src/touchmouse.c:373-413 | a report with the in-progress timestamp continues the image already begun: its nybbles extend the decoded stream |
| `Library.ReassembleNext` | src/touchmouse.c:373-413 | a report before the one that finishes the image keeps the loop reading, with the image still in progress |
| `Library.ReassembleFrom` | src/touchmouse.c:335-415 | the induction behind `ReassembleImage`, from any point of the series |
| `Library.ReassembleImage` | src/touchmouse.c:335-415 | from a reset decoder, reports with one timestamp whose nybbles begin with the compressed form of an image (the last report finishing it) make the loop deliver exactly that image with that timestamp, return 0 and leave a reset decoder |
| `Standalone.PollStep` | touchmouse.c:303-340 | a read that is not an image report changes nothing; otherwise the last timestamp becomes the report's; a printed image is an unpacked code buffer stamped with the report's timestamp, after which the decoder is reset and polling goes on (`PollAbandons` and `PollContinues` give the decoder left behind and when the program stops) |
| `Standalone.Polling` | touchmouse.c:289-342 | the polling loop's exit code is -1 or 0 and it leaves a well-formed decoder; `PollingExitCodes` and `PollReassembleImage` say when each code comes and what is printed |
| `Standalone.PollingExitCodes` | touchmouse.c:289-342 | a failed first read exits with -1 at once, printing nothing and changing nothing, and -1 only ever comes from a failed read, so reads that all returned data end with 0 |
| `Standalone.PollAbandons` | touchmouse.c:312-339 | a report with a timestamp other than the last one decodes its data from a reset decoder: the program stops exactly when that decoding fails, prints exactly when it completes (then resetting the decoder), and otherwise keeps the decoder where the data took it |
| `Standalone.PollContinues` | touchmouse.c:312-339 | a report with the last timestamp decodes its data from the decoder as it stands, with the same stop, print and leftover state as above |
| `Standalone.PollCarriesOn` | touchmouse.c:312-339 | a report with the timestamp of the image under way continues it: its nybbles extend the decoded stream |
| `Standalone.PollReassembleNext` | touchmouse.c:312-339 | a report before the one that finishes the image keeps the viewer polling, prints nothing and leaves the image in progress |
| `Standalone.PollReassembleFrom` | touchmouse.c:289-342 | the induction behind `PollReassembleImage`, from any point of the series |
| `Standalone.PollReassembleImage` | touchmouse.c:289-342 | from a reset decoder, or any decoder when the timestamp changes, reports with one timestamp whose nybbles begin with the compressed form of an image (the last report finishing it) print exactly that image with that timestamp, leave a reset decoder, and polling goes on with the reads that follow |
| `Standalone.PollingIgnoresAbandoned` | touchmouse.c:312-315 | a first report with a new timestamp makes the viewer poll exactly as if its decoder had been reset |
| `Standalone.Poller.constructor` | touchmouse.c:279-283 | the viewer starts with a zero-filled decoder and a last timestamp of 0 |
| `Standalone.Poller.PollReport` | touchmouse.c:305-340 | the in-place handling of one report changes the decoder and timestamp, prints and stops exactly as `PollStep` says |
| `Standalone.Poller.PollLoop` | touchmouse.c:289-347 | the in-place polling loop ends in the state, exit code and printed images `Polling` gives |
| `Standalone.EnableMouseImageMode` | touchmouse.c:206-240 | returns 0 exactly when both transfers moved 27 bytes; it writes the report read with byte 4 set to 0x06 |
| `Standalone.PollStepMatchesFrameStep` | touchmouse.c:312-339 | the viewer and the library decode a report alike: the same image is printed as delivered; the viewer stops exactly where the library returns -1; otherwise both are left with the same decoder |

## Left out

- Transfers through hidapi are not modelled as I/O. Each read is an element of
  `arrivals`. The feature-report read and write in
  `touchmouse_set_device_mode` and `enable_mouse_image_mode` become the
  parameters `received`, `transferred` and `written`.
- Device enumeration, `touchmouse_init`/`touchmouse_exit`, opening by path and
  `touchmouse_close` are left out, and so is the viewer's device search. They
  only call into hidapi and manage memory.
- The monotonic timer and the deadline are left out. The end of `arrivals`
  stands for the deadline. A wait of -1 (no deadline) is a sequence that ends
  only with a delivery, an error or a failed read. The timer-failure return
  of -1 at the start of `touchmouse_process_events_timeout` is not modelled.
  In the code, only a timeout of exactly -1 means no deadline
  (`src/touchmouse.c:340-344`). Any other negative value (small enough that
  the product by 1000000 fits an `int`) gives a deadline in the past, so the
  do-while loop makes one read, although
  `libtouchmouse/libtouchmouse.h:52` promises blocking for any negative
  value. In the model both cases are just sequences of arrivals (a single
  read for the second).
- The SIGINT handler and the `quit` flag are left out. The end of `arrivals`
  stands for quitting.
- Printing and logging are left out: the viewer's dump of each read,
  `print_table`, and every `printf`/`fprintf`. The callback's `userdata`
  pointer and `touchmouse_set_image_update_callback` are left out too. The
  callback itself is the ghost log `delivered`.
- The viewer's `main` sequence around the loop is not modelled. That is, it
  aborts when `enable_mouse_image_mode` fails, and it closes the device at
  `cleanup`. The two pieces are modelled separately.
- `Library.FrameStep`, `Decoding.Decoder.ProcessData` and
  `Standalone.PollStep` require `LengthFits`: a length byte of at most 26 in
  an accepted report. With a larger length byte the C loop reads past the 32
  bytes of the report, into whatever an earlier read left in the 256-byte
  buffer. The model has no such stale buffer.
- On a decoding error the library's loop resets the decoder and returns -1 at
  once, even with time left (`src/touchmouse.c:393-396`, `409-412`), and
  `Library.FrameStep` and `Library.Events` model exactly that.
  `examples/qtview/mousepoller.cpp:75` treats -1 as recoverable, and calls
  again.
- `Codec.Encode` is one compressor that follows the scheme at
  `src/touchmouse.c:84-87`. It escapes every run of three or more zeros and
  splits long runs greedily into chunks of 18. The source does not say how the
  device's own encoder chooses between these options, so the device's encoder
  is not part of this model.
