# Pulse-oximeter frame decoding and sample averaging

This project models the core of `o2.py`. That program reads a pulse-oximeter sensor over a serial port. For each measurement it:

- waits for the frame marker byte `0xFA`;
- takes the next 10 bytes as the payload;
- decodes heart rate and SpO2 from four packed-BCD bytes of that payload;
- repeats this five times, then averages the values it collected.

The model has four modules:

- `Bcd` (`bcd.dfy`) models `conv_value`. It decodes a byte as a two-digit decimal number: the high nibble is the tens digit and the low nibble the ones digit. Nibbles 10 to 15 are accepted as they are. The module also defines the inverse encoding `ToBcd`.
- `FrameSync` (`frame_sync.dfy`) models `read_data`. The serial input is a finite sequence of `Event`s that is read from the front. An event is either `Byte(b)` or `Timeout`. A `Timeout` is a read deadline that expires before a byte arrives:
  - a one-byte read then returns nothing, and the scan goes on;
  - a ten-byte read returns early with what it has, and uses the timeout up.
  - The end of the sequence means nothing more arrives.
  - `Sync` is the specification. `ReadData` is the imperative scan-then-collect loop, proved equal to `Sync`.
- `Cycle` (`cycle.dfy`) models the body of `main`. `RunCycle` is a `for` loop of five attempts. It appends to the parallel lists `hrValues` and `spo2Values`. A payload shorter than six bytes is skipped. After the loop each list is averaged, with 0 for an empty list. `RunCycle` is proved against the specification functions `ReadFrames`, `Decoded`, `CountDecodable` and `Mean`.
- `Wrappers` (`wrappers.dfy`) holds the `Option` datatype.

The serial port is an external object. The model threads its input through as a value: every read returns the input that is left.

## Model

| member | source | states |
|---|---|---|
| Bcd.HighNibble | o2.py:25 | `(n & 0xF0) >> 4` is a number below 16 and equals `n / 16` |
| Bcd.LowNibble | o2.py:26 | `n & 0x0F` is a number below 16 and equals `n % 16` |
| Bcd.ConvValue | o2.py:24-27 | the decoded value of any byte is at most 165, and at most 99 when both nibbles are decimal digits |
| Bcd.ConvValueIsNibbleDigits | o2.py:24-27 | for every byte, the masked-and-shifted computation equals tens digit × 10 + ones digit, that is `(n / 16) * 10 + n % 16` |
| Bcd.ConvValueMaximum | o2.py:25-26 | the value 165 is reached by exactly one byte, 0xFF |
| Bcd.ToBcd | o2.py:24-27 | the packed-BCD encoding of a number below 100 is valid BCD, with the tens in the high nibble and the ones in the low nibble |
| Bcd.ConvValueToBcd | o2.py:24-27 | decoding undoes encoding for every number 0..99 |
| Bcd.ToBcdConvValue | o2.py:24-27 | encoding undoes decoding for every valid BCD byte, so decoding is injective there |
| Bcd.NonDecimalNibblesAccepted | o2.py:25-26 | non-decimal nibbles are not rejected: 0xFF decodes to 165, and 0x0A decodes to 10, like the valid byte 0x10 |
| Bcd.ConvValueNotInjective | o2.py:25-26 | two different bytes can decode to the same value |
| FrameSync.ReadData | o2.py:29-38 | the byte-by-byte scan loop and the payload loop give exactly `Sync` of the input: the payload and the input left, or no marker |
| FrameSync.ScanFindsMarker | o2.py:32-35 | the scan stops exactly when the input holds a 0xFA byte |
| FrameSync.ScanStopsAtFirstMarker | o2.py:32-35 | the scan resumes right after the first 0xFA, discarding all earlier bytes and timeouts and the marker itself |
| FrameSync.ReadUpToShape | o2.py:37 | `read(n)` returns at most n bytes, each the next byte of the input in order. It stops short only at a timeout, which it uses up, or at the end of the input. The rest of the input is left untouched |
| FrameSync.ReadUpToBytes | o2.py:37 | on an input with no timeouts, `read(n)` takes exactly the next min(n, available) bytes |
| FrameSync.SyncAfterFirstMarker | o2.py:29-38 | with the first marker at index k, the payload is the run of bytes right after k. It has at most 10 bytes and ends early only at a timeout or the end of the input |
| FrameSync.SyncPayloadBound | o2.py:37 | a payload never has more than 10 bytes, and its length is not checked inside `read_data` |
| FrameSync.SyncNoMarker | o2.py:32-35 | `read_data` finds no frame if and only if the input holds no 0xFA byte |
| FrameSync.SyncOnByteStream | o2.py:29-38 | on a timeout-free input whose first marker is at k, the payload is exactly the bytes from k+1 up to min(k+11, end), and reading resumes right after them |
| FrameSync.MarkerInsidePayloadIsData | o2.py:37 | a 0xFA right after the marker is copied into the payload, not taken as a new marker |
| Cycle.Field | o2.py:83-84 | a two-byte field `conv(a)*100 + conv(b)` is at most 16665, and at most 9999 when both bytes are valid BCD |
| Cycle.FieldBytes | o2.py:83-84 | every value below 10000 has a two-byte valid BCD encoding |
| Cycle.DecodeSample | o2.py:78-84 | decoding fails exactly when the payload is shorter than 6 bytes, so length 6 decodes and length 5 does not. Both values are at most 16665, and at most 9999 when their bytes are valid BCD |
| Cycle.FieldRoundTrip | o2.py:83-84 | decoding recovers every value 0..9999 from its BCD field bytes |
| Cycle.FieldBytesRoundTrip | o2.py:83-84 | on valid BCD bytes, the decoded field value determines the two bytes |
| Cycle.DecodeSampleRoundTrip | o2.py:83-84 | for a payload of at least 6 bytes whose field bytes are valid BCD: it decodes to a sample if and only if bytes 2..3 and 4..5 are that sample's BCD encoding, whatever the other bytes are |
| Cycle.ReadFramesShape | o2.py:75-76 | n completed frame reads give exactly n payloads, each of at most 10 bytes |
| Cycle.ReadFramesStalls | o2.py:75-76 | once a frame read finds no marker, the cycle never completes |
| Cycle.DecodedCount | o2.py:78-88 | the cycle keeps exactly one sample per payload of at least 6 bytes, so never more samples than attempts |
| Cycle.DecodedFromPayloads | o2.py:83-88 | every kept sample is the decoding of one of the cycle's payloads |
| Cycle.SumBounds | o2.py:95-96 | a sum of n values, each between lo and hi, lies between n·lo and n·hi |
| Cycle.MeanBounds | o2.py:95-96 | an empty list averages to 0. A non-empty average lies between any lower and upper bound of the list's values |
| Cycle.MeanOfConstant | o2.py:95-96 | a non-empty list of equal values averages to that value |
| Cycle.RunCycle | o2.py:72-96 | stalls exactly when one of the five scans runs out of input. Otherwise both lists have equal length. That length is the number of payloads of at least 6 bytes among the five, so it is at most 5. Entry j of the two lists is the j-th decoded sample, in order. Each average is the exact mean of its list (0 if empty) and lies in 0..16665 |
| Cycle.DecodeFixture | o2.py:83-84 | field bytes `00 78` and `00 95` decode to heart rate 78 and SpO2 95 |

## Left out

- Opening and closing the serial port, and exiting when it cannot be opened (`open_serial`, `close_serial`): hardware I/O.
- `flushInput()`: the modelled input is what arrives after the flush, so the flush does nothing in the model.
- The serial timeout is modelled as `Timeout` events in the input. The model does not capture the wall-clock time each read takes or where a deadline falls.
- The scan that never ends: when the finite input holds no marker, the model reports `NoMarker` and the cycle reports `Stalled`. The source keeps polling forever.
- `save_to_database`: a MySQL connection, insert and commit, all foreign calls.
- `time.sleep(1)`: pacing only. It runs only after a successful decode, because the `continue` for short payloads skips it, and it has no effect on the values.
- `datetime.now().date()`: a clock read. The model's result carries no date.
- The `print` diagnostics and the `KeyboardInterrupt` handler: console output and asynchronous cancellation.
- Cycle.RunCycle: the averages are exact `real` quotients. The model does not capture Python's floating-point rounding of `sum / len`.
