# GPS_Pico_VX8DR translator core in Dafny

The program runs on a Raspberry Pi Pico. It sits between a GPS receiver and
a Yaesu VX-8DR radio. It reads NMEA 0183 sentences from the receiver and
checks their `$…*hh\r\n` envelope and checksum. The GPRMC and GPGGA
sentences are rewritten into the fixed-width layout of the radio's own GPS
unit. GPGSV and GPGSA sentences are forwarded unchanged, and every other
sentence is dropped. While doing this it tracks two globals, `FIX_TIME` and
`FIX_STATUS`, and blinks an LED once for a position fix and twice for a
time fix only.

The model has five modules, one file each:

- `checksum.dfy` (`Checksum`) covers `checkSum`. It models Python's `^` on
  non-negative integers (`Xor`) and the left fold over character codes
  (`XorAll`). It also models `"{:02X}"` formatting (`Hex02`) and reading
  the hex digits back (`HexValue`). `ComputeCheckSum` is the source's loop,
  proved against `XorAll`.
- `framing.dfy` (`Framing`) covers `verifySentence`, `stripSentence` and
  the framing done in `writeSentence`. `Check` returns a `Verdict` that
  names the `return False` branch that fires, in the source's order.
- `fields.dfy` (`Fields`) models Python's `str.split(',')` (`Split`) and
  the comma layout of the translated sentences (`Join`). It proves that
  each undoes the other.
- `translator.dfy` (`Translator`) covers one pass of the main loop.
  - `Step`, `Rmc` and `Gga` are the specification functions. They return
    the new fix state, the sentence handed to `writeSentence`, the number
    of blinks, and whether the pass was refused, raised into the `except`,
    or completed.
  - The class `FixState` holds the globals as fields, plus the sequence of
    lines written to the radio. Its methods run the loop body as the
    source does, and their postconditions tie the new state to `Step`.
  - A Python exception is modelled as the `Raised` path together with the
    exact partial state update that happened before it.
- `properties.dfy` (`LoopProperties`) proves what the loop promises:
  - which sentence kinds change which global;
  - when output is written and how it is laid out, field by field;
  - that forwarded satellite sentences are the very line received;
  - that everything written passes `verifySentence`;
  - how the fix state evolves over a run of lines.

Number formatting (`"{0:010.3f}".format(float(x))` and the like) is
treated as a parameter, `convert`. It returns `None` where `float` raises.
The fixed widths and precisions are recorded as `NumFormat` constants.

Three points of the code that the model keeps as written:

- A GPRMC with fewer than three fields raises `IndexError` at `elems[1]`
  or `elems[2]`. With exactly two fields, `FIX_TIME` has already been set
  when it raises, and the model keeps that partial update. A GPGGA whose
  list ends before an empty field raises inside the `and` chain at
  main.py:170 and changes nothing.
- The second GPRMC field copied into the output is `elems[2]`, the A/V
  status field. The date, `elems[9]`, is copied near the end.
- `verifySentence` returns a bool and prints the reason for a refusal.
  `Check` returns a `Verdict` that records which branch fired, and
  `VerifySentence` is `Check(line) == Valid`.

## Model

| member | source | states |
|---|---|---|
| Checksum.Xor | main.py:90 | Python's `^`: the lowest bit of `a ^ b` is set iff exactly one operand's lowest bit is, and `a ^ b` never exceeds `a + b` |
| Checksum.XorDigits | main.py:90 | The bits of `a ^ b` above the lowest are the bits of `(a // 2) ^ (b // 2)` |
| Checksum.XorAll | main.py:88-90 | The accumulator after the whole loop; for ASCII input it stays below 128 |
| Checksum.CheckSum | main.py:86-92 | `checkSum` returns at least two upper-case hex digits whose value is the exclusive-or of all character codes, exactly two for ASCII text |
| Checksum.ComputeCheckSum | main.py:86-92 | The checksum loop returns `CheckSum`: `{:02X}` of the exclusive-or of all character codes, and its digits read back as that value |
| Checksum.XorAllDetectsChange | main.py:88-90 | Changing any single character changes the accumulated exclusive-or |
| Checksum.XorCancelRight | main.py:90 | `a ^ b == a ^ c` implies `b == c` |
| Checksum.XorCancelLeft | main.py:90 | `a ^ c == b ^ c` implies `a == b` |
| Checksum.XorBound | main.py:90 | Exclusive-or of two values below 2^k is below 2^k |
| Checksum.Hex | main.py:91 | Unpadded upper-case hex: all digits hex, one digit exactly below 16, two digits from 16 to 255 |
| Checksum.HexValueOfHex | main.py:91 | The printed hex digits read back as the number printed |
| Checksum.Hex02 | main.py:91 | `{:02X}` gives at least two upper-case hex digits, exactly two iff the value is below 256, reading back as the value |
| Checksum.Hex02Injective | main.py:91 | Different values never print the same |
| Framing.Check | main.py:63-78 | The first check fails iff the line is empty or lacks `$`; the second iff it then lacks `*hh\r\n`; a mismatch carries the body's checksum and the line's two digits, which differ; a line with a sound envelope is Valid iff its two digits equal the body's checksum |
| Framing.VerifySentence | main.py:63-78 | A line is accepted iff it starts with `$`, has `*` five characters from the end, ends with CR LF, and its two digits equal the checksum of the body |
| Framing.StripSentence | main.py:80-84 | A refused line strips to the empty string; an accepted one loses exactly six envelope characters |
| Framing.Frame | main.py:94-97 | The framed sentence starts with `$`, ends with CR LF, and is the body plus four characters plus the checksum |
| Framing.FrameRoundTrip | main.py:63-97 | A framed ASCII sentence passes `verifySentence`, and `stripSentence` gives it back |
| Framing.VerifiedIsFrame | main.py:63-84 | Every accepted line is the frame of its stripped body, whose checksum has two digits |
| Framing.AcceptedChecksumIsUpperHex | main.py:71-73 | The checksum of an accepted line is written in upper-case hex (lower case is refused) |
| Framing.CorruptionDetected | main.py:71-77 | Corrupting any one body character of a framed sentence makes it fail verification |
| Fields.FirstComma | main.py:131 | The returned index is the first comma, or the length when there is none |
| Fields.Split | main.py:131 | `split(',')` returns at least one piece, none containing a comma |
| Fields.JoinSplit | main.py:131 | Joining the split pieces with commas gives the text back |
| Fields.SplitJoin | main.py:131 | Splitting comma-joined comma-free fields gives the same fields back |
| Fields.SplitCount | main.py:131-133 | There is one piece more than there are commas, so the `len(elems) == 0` branch never runs |
| Fields.SplitAfterField | main.py:131 | A comma-free first field followed by a comma is split off as the first piece |
| Fields.SplitKeepsEmptyFields | main.py:131 | One worked example: `"GPRMC,,,"` splits into the tag and three empty pieces (the general fact is `SplitJoin`) |
| Translator.AllPresent | main.py:138 | Python's short-circuit `and` over `elems[k]`..`elems[hi-1]`: it can only come out false at a field that exists |
| Translator.AllPresentMeaning | main.py:138 | The `and` chain over fields holds iff every field in range exists and is non-empty, and raises iff the list ends before an empty field is met |
| Translator.Blinks | main.py:160-165 | One blink iff position fix, two iff only time fix, none iff neither |
| Translator.Elems | main.py:130-133 | The fields of a received line are never an empty list |
| Translator.RmcFields | main.py:140-149 | The translated GPRMC fields exist iff all five conversions succeed, with empty speed and course read as "0.0"; there are twelve, with the tag, status, hemispheres and date copied in place and two empty fields at the end; sound conversions of comma-free input give comma-free fields |
| Translator.GgaFields | main.py:172-178 | The translated GPGGA fields need all thirteen input fields; there are fifteen, with tag, hemispheres, quality, satellites and units copied in place and the trailer `000.0`, `0000`; sound conversions of comma-free input give comma-free fields |
| Translator.GgaFieldsDefined | main.py:172-178 | The GPGGA translation succeeds exactly when the line has at least thirteen fields and all six of time, latitude, longitude, HDOP, altitude and geoid separation convert |
| Translator.Rmc | main.py:137-165 | A GPRMC completes iff it has at least three fields and, when the output test holds, every conversion succeeds; completed, the fix is (field 1 non-empty, field 2 is A), the blinks follow the fix and output is written iff the output test holds; raised, nothing is written, no blink and `FIX_STATUS` is unchanged |
| Translator.Gga | main.py:169-183 | A GPGGA never refuses, blinks or changes `FIX_STATUS`; completed, `FIX_TIME` is "field 1 non-empty"; raised, nothing changes and nothing is written; output needs fields 1-7 present and the fields to translate |
| Translator.Step | main.py:123-187 | A pass is refused iff `verifySentence` refuses the line, and then changes nothing; only a GPRMC changes `FIX_STATUS` or blinks; only GPRMC and GPGGA change `FIX_TIME` |
| Translator.RunFix | main.py:107-190 | The fix globals after the loop has handled a sequence of lines in order; it has no contract of its own, and its properties are `StatusPersists`, `RunUnchangedAfter` and `LatestRmcDecides` |
| Translator.RunOutput | main.py:107-190 | What a run writes: at most one sentence per line, each starting with `$` |
| Translator.BuildRmc | main.py:140-149 | The GPRMC rewrite succeeds iff every conversion succeeds, and then equals the comma-join of the twelve translated fields (speed and course defaulting to "0.0") |
| Translator.BuildGga | main.py:172-178 | The GPGGA rewrite succeeds iff fields 8 to 12 exist and every conversion succeeds, and then equals the comma-join of the fifteen translated fields |
| Translator.RmcJoin | main.py:144-149 | The GPRMC concatenation equals the comma-join of its fields |
| Translator.GgaJoin | main.py:172-178 | The GPGGA concatenation equals the comma-join of its fields |
| Translator.JoinSnoc | main.py:144-149 | Appending a comma and a field to a join is the join with one more field |
| Translator.FixState.constructor | main.py:60-61 | Both fix globals start false, nothing written yet |
| Translator.FixState.WriteSentence | main.py:94-101 | Appends exactly `$` + sentence + `*` + checksum + CR LF to the radio output |
| Translator.FixState.ProcessSentence | main.py:123-190 | One loop pass leaves the fix globals, the radio output, the blink count and the path exactly as `Step` describes |
| Translator.FixState.ProcessRmc | main.py:137-165 | The GPRMC branch updates globals, output and blinks as `Rmc` describes, including the partial update before an exception |
| Translator.FixState.ProcessGga | main.py:169-183 | The GPGGA branch updates `FIX_TIME` and the output as `Gga` describes and never blinks |
| Translator.FixState.MainLoop | main.py:107-190 | After any finite run of lines, the globals and the radio output are those of the run as the specification functions compute them |
| LoopProperties.RmcSetsFix | main.py:151-165 | A GPRMC that gets past its output sets `FIX_TIME` to "field 1 non-empty" and `FIX_STATUS` to "field 2 is A", and blinks accordingly |
| LoopProperties.RmcOverwrites | main.py:151-158 | A completed GPRMC's resulting state does not depend on the previous state |
| LoopProperties.RmcConversionFailure | main.py:138-150 | A GPRMC whose conversion raises writes nothing and leaves the fix state unchanged |
| LoopProperties.ShortRmc | main.py:137-158 | A GPRMC with fewer than three fields raises; with exactly two it has already set `FIX_TIME` |
| LoopProperties.RmcOutput | main.py:138-150 | GPRMC output is written iff there are at least ten fields, fields 1-6 are non-empty and all conversions succeed |
| LoopProperties.RmcPayload | main.py:140-150 | The sentence a GPRMC writes is the join of its translated fields |
| LoopProperties.RmcLayout | main.py:140-150 | Split as the radio reads it, the GPRMC output has twelve fields, each converted or copied from the right input field |
| LoopProperties.RmcFieldsSplit | main.py:144-149 | The joined GPRMC fields split back into themselves |
| LoopProperties.GgaOutput | main.py:170-179 | GPGGA output is written iff fields 1-7 are non-empty and all thirteen fields exist and convert |
| LoopProperties.GgaRaises | main.py:170-178 | GPGGA raises iff the list ends before an empty field among 1-7, or those are present but a later field is missing or fails to convert |
| LoopProperties.GgaPayload | main.py:172-179 | The sentence a GPGGA writes is the join of its translated fields |
| LoopProperties.GgaLayout | main.py:172-179 | Split, the GPGGA output has fifteen fields at their places, ending with `000.0` and `0000` |
| LoopProperties.GgaFieldsSplit | main.py:172-178 | The joined GPGGA fields split back into themselves and end in `,000.0,0000` |
| LoopProperties.JoinTrailer | main.py:178 | Joining the two fixed trailer fields ends the text in `,000.0,0000` |
| LoopProperties.SatellitesForwarded | main.py:186-187 | GPGSV/GPGSA are written unchanged: the framed output equals the line received; the state is unchanged |
| LoopProperties.OtherSentencesIgnored | main.py:135-187 | Any other accepted sentence changes nothing and writes nothing |
| LoopProperties.RmcBlinks | main.py:160-165 | After a completed GPRMC: one blink iff status A, two iff not A but time present, none otherwise |
| LoopProperties.SplitAscii | main.py:116-131 | The fields of ASCII text are ASCII |
| LoopProperties.JoinAscii | main.py:144-178 | Comma-joined ASCII fields are ASCII |
| LoopProperties.RmcFieldsAscii | main.py:140-149 | The translated GPRMC built from ASCII fields and sound conversions is ASCII |
| LoopProperties.GgaFieldsAscii | main.py:172-178 | The translated GPGGA built from ASCII fields and sound conversions is ASCII |
| LoopProperties.WrittenSentencesVerify | main.py:94-100 | For an ASCII input line and sound conversions, every sentence written to the radio is ASCII, passes `verifySentence` and strips back to what was written |
| LoopProperties.FrameAscii | main.py:97-100 | The frame of ASCII text is ASCII, so its `encode('ascii')` cannot fail |
| LoopProperties.StatusPersists | main.py:107-190 | Over any run without a GPRMC, `FIX_STATUS` keeps its value (a stale fix never times out) |
| LoopProperties.RunIgnoresLast | main.py:107-190 | A final line that is neither GPRMC nor GPGGA leaves the run's fix state unchanged |
| LoopProperties.RunUnchangedAfter | main.py:107-190 | Lines that are neither GPRMC nor GPGGA leave the fix state of a run unchanged; with `m = 0`, a run made only of such lines leaves the fix state as it was |
| LoopProperties.LatestRmcDecides | main.py:107-190 | If the last GPRMC/GPGGA in a run is a completed GPRMC, the final fix state is what that GPRMC said, whatever came before |

## Left out

- Hardware I/O (the UART setup, `readline`, `gpsModule.write`, the exit pin at main.py:108-110) is not modelled. The received lines are a parameter, and the output channel is the `radio` field.
- The LED (`blinkLED`, `time.sleep_ms`) is not modelled: only the number of blinks is.
- The ASCII decoding at main.py:115-121 is not modelled. Lines are given already decoded. A line that fails to decode, or an empty read after a timeout, does not appear in the sequence.
- `float()` parsing and fixed-width formatting are not modelled. They are the `convert` parameter, so widths and rounding are not checked. Properties about output text assume `Sound(convert)`, meaning the formatted numbers are ASCII and contain no comma.
- `print` diagnostics, `DEBUG_APP` and `GPGSV_IN_PROGRESS` have no effect on the state or the output, and are left out.
- The `while True` loop runs until the exit pin is grounded. `MainLoop` covers any finite prefix of it.
- `.encode('ascii')` in `writeSentence` is not modelled as able to fail. `FrameAscii` and `WrittenSentencesVerify` prove the framed output is ASCII, and so encodable, whenever the input line is ASCII and the conversions are sound; a non-ASCII input line is outside what the model covers.
