# rpi-gps-nav in Dafny

A model of the core of rpi-gps-nav. This is a Raspberry Pi GPS navigator
that reads NMEA 0183 sentences from a UART GPS receiver, keeps a position
record, and draws either a text screen or a rotated patch of a raster map
on a 128x160 ST7735 TFT display. The model covers:

- **`rpi/util.c`**: the NMEA sentence layer. This is the `$`/`*` framing, the XOR checksum, field extraction, the in-place `lstrip`/`rstrip`, and `nmea_update_pos`, which decodes GGA and RMC sentences into the position record and sets the GGA/RMC sync flag. Modules `Util`, `NmeaPosition`, `Bytes` and `CText` (the C library's `isspace`, `atoi`, `strtol` and `sscanf` conversions on text).
- **`rpi/pilcd.c`**: the frame-buffer side of the display driver. This is RGB565 packing, rotation-dependent screen size, the address window and its cursor, the byte-swapped buffer fill, and glyph drawing from the 5x7 font. Module `PiLcd`, class `PiLcd.Display`. Module `PiLcdInit` covers the decoding of the `initSeq` command table.
- **`rpi/vt100lcd.c`**: the VT100 text terminal. This is the escape-sequence state machine, the parameter decoder, cursor motion, erasing, colours and line wrap. Glyph draws and screen clears are emitted as events. Module `Vt100`, class `Vt100.Terminal`, and the properties over character streams in `Vt100Props`.
- **`rpi/nav.c`**: the navigator. This is the state machine with its main menu (`NavMenu`), the loops of the GPS data and map sessions (`NavSession`), and the viewport fill of `get_map_patch` (`NavPatch`). The class `Nav.Navigator` holds the globals and runs it all over a sequence of button presses and UART reads.
- **`imgconvert.py`** and **`showrawimg.py`**: the RGB565 raw-image encoder and decoder loops. Modules `ImgConvert` and `ShowRawImg`.
- **`nmea.py`**: `process_nmea`, the reference NMEA decoder. Module `NmeaPy`, proved side by side with the C decoder.

`Wrappers` holds `Option`. `Arith` holds small arithmetic facts. `Streams` folds a step function over an input sequence.

Imperative code is modelled as methods on arrays and classes, each proved against a specification function. The properties of those functions are proved as lemmas. Numbers parsed from text are `real`s. The C integer widths (`uint8_t` globals, `char` indices, 16-bit colours) are written out with `% 256`, `bv8` and `bv16`.

The model follows the code as written:

- RMC speed is read with `sscanf("%4f")` (rpi/util.c:485-487). "022.4" therefore reads as 22 (`NmeaPosition.GroundSpeedWidth`).
- On a checksum mismatch `nmea_update_pos` returns 0 and leaves the position record completely unchanged, sync flag included.
- A sentence that is neither a fixed GGA nor an active RMC returns 0 and clears only the sync flag.
- When `nmea_get_field` fails it leaves the destination untouched. The C decoder then reads the previous field's text again (`NmeaPosition.NextField`).
- In the terminal, H and f ignore an out-of-range coordinate and keep the old one. B and C stop at `maxRows` and `maxCols`, one past the last row and column (`Vt100Props.DownPastLastRow`).
- The Python decoder raises on a malformed number. The C decoder never stops on one: a `sscanf` conversion that matches nothing assigns nothing, and the decoder carries on with what the variables held.
- `lcdDrawChar` takes a plain `char`. The model reads it unsigned, as on the Raspberry Pi's ARM targets where plain `char` is unsigned. `PiLcd.FontIndexAsWritten` and `PiLcd.UpperGlyphsUnreachable` show what a signed `char` would index.

## Model

| member | source | states |
|---|---|---|
| Util.NmeaChecksum | rpi/util.c:399-409 | the result is the XOR of every byte before the terminator, so it lies in 0..255 and the empty string gives 0 |
| Bytes.XorAllAppend | rpi/util.c:399-409 | the checksum of a concatenation is the XOR of the parts' checksums |
| Bytes.XorAllDetectsSingleChange | rpi/util.c:399-409 | changing any one byte of a text changes its checksum |
| Util.FindSpec | rpi/util.c:363-371 | the `strchrnul` scan stops at the first delimiter, or at the end when there is none |
| Util.StrChrNul | rpi/util.c:363-371 | the scanning loop returns the index of the first delimiter at or after its start, or the end |
| Util.Fields | rpi/util.c:351-386 | a string always has at least one delimiter-separated field |
| Util.FieldsJoin | rpi/util.c:351-386 | joining the fields with the delimiter gives back the string, so no text is lost or invented |
| Util.FieldsAvoidDelimiter | rpi/util.c:362-385 | no field contains the delimiter |
| Util.JoinFields | rpi/util.c:351-386 | splitting a join of delimiter-free fields gives back exactly those fields |
| Util.NextField | rpi/util.c:363-371 | the field that starts at a position ends at the next delimiter, and the rest are the fields after it |
| Util.GetField | rpi/util.c:351-386 | there is a result exactly when 0 <= field < the number of fields and the size is positive; the result is the whole field when it is shorter than the size, else its first size-1 characters |
| Util.SeekField | rpi/util.c:360-373 | the search for the field-th delimiter succeeds exactly when the field exists and returns its bounds |
| Util.CopyField | rpi/util.c:375-385 | the destination receives the field text cut to size-1 characters, then a terminator; the later bytes are unchanged and the length is returned |
| Util.NmeaGetField | rpi/util.c:351-386 | returns -1 and leaves the destination unchanged for a null string or buffer, a negative field, a zero size or a missing field; otherwise the destination holds the field text, terminated, and its length is returned |
| Util.GetFieldTerminatorAsWritten | rpi/util.c:379-383 | as written, the terminator of a field of `field_size` or more characters goes to index `field_size` |
| Util.GetFieldAsWrittenOverflows | rpi/util.c:379-383 | for "GPGLL*1234", field 1 and size 4, the code as written puts the terminator at index 4, past a 4-byte buffer, while the corrected copy is "123" |
| Util.LStrippedSpec | rpi/util.c:222-269 | what `lstrip` leaves is a suffix of the text; everything removed is strippable, and the first character kept, if any, is not |
| Util.LStrip | rpi/util.c:222-269 | a null buffer is returned as it is; otherwise the buffer holds the stripped text, then NULs where characters moved out, then its old bytes after the terminator |
| Util.ShiftOut | rpi/util.c:244-264 | one pass of the `lstrip` loop moves the rest of the string, terminator included, one place left |
| Util.LStripFinal | rpi/util.c:242-268 | when the loop stops at a character that is not strippable, the buffer holds exactly the stripped text |
| Util.LStrippedStep | rpi/util.c:242-266 | removing one leading strippable character does not change what stripping leaves |
| Util.RStrippedSpec | rpi/util.c:285-333 | what a right strip leaves is a prefix of the text; everything removed is strippable, and the last character kept, if any, is not |
| Util.RStrippedIsPrefix | rpi/util.c:285-333 | a right strip only removes characters from the end |
| Util.RStrip | rpi/util.c:285-333 | the corrected right strip: the buffer holds the stripped text followed by NULs, and nothing after the old terminator changes |
| Util.ClearLast | rpi/util.c:303-330 | one pass of the loop overwrites the last kept character with a NUL |
| Util.RStripFinal | rpi/util.c:303-331 | when the loop stops at a character that is not strippable, the buffer holds exactly the stripped text |
| Util.RStrippedStep | rpi/util.c:303-330 | removing one trailing strippable character does not change what stripping leaves |
| Util.RStripAsWritten | rpi/util.c:285-333 | as written, the empty string has no result (the loop reads index -1), and otherwise at least the first character is always kept |
| Util.RStripAsWrittenAgrees | rpi/util.c:303-330 | as written, the code agrees with the intended strip whenever the first character is not strippable |
| Util.RStripAsWrittenCounterexamples | rpi/util.c:303-307 | "" makes the code read before the buffer, and " " is left as " " where the intended strip gives "" |
| CText.DecimalTextValue | rpi/util.c:442-490 | the decimal digits of a number read back as that number |
| CText.DigitRunEndSpec | rpi/util.c:449-490 | a digit run ends at a non-digit or at the field width, and everything before that is digits |
| CText.SkipSpaceSpec | rpi/util.c:449-490 | the leading white space skipped by the conversions is exactly the leading run of `isspace` characters |
| CText.ScanIntDigits | rpi/util.c:449-468 | `%Nd` and `atoi` read a run of digits within the width as its decimal value and stop before the next non-digit |
| CText.ScanIntDecimalText | rpi/util.c:449-468 | printing a number in decimal and scanning it back gives the number |
| CText.ScanRealWholeWidth | rpi/util.c:485-490 | `%Nf` on a run of exactly N digits reads their value |
| CText.ScanRealDecimal | rpi/util.c:453-465 | `%Nf` on digits, a point and digits that fill the width reads the decimal value and leaves the rest |
| NmeaPosition.UpdatePos | rpi/util.c:422-506 | the line buffer is left-stripped of its leading '$' characters and its result agrees with `UpdatePosSpec` on the original text |
| NmeaPosition.SplitSentence | rpi/util.c:431-433 | the payload buffer receives the text between `$` and `*`, and the checksum buffer receives the text after `*` |
| NmeaPosition.FetchField | rpi/util.c:442-490 | `data_field` receives the k-th comma field, or keeps its previous text when the field is missing |
| NmeaPosition.DecodePayload | rpi/util.c:442-505 | the sentence-id dispatch agrees with `Decode` |
| NmeaPosition.DecodeGga | rpi/util.c:444-476 | the GGA branch agrees with `Gga` |
| NmeaPosition.DecodeCoordinate | rpi/util.c:453-465 | a coordinate is degrees plus minutes over 60, negated on 'S' or 'W', and the locals `deg` and `min` keep their old values when the scan fails |
| NmeaPosition.DecodeRmc | rpi/util.c:477-495 | the RMC branch agrees with `Rmc` |
| NmeaPosition.ChecksumMismatchKeepsPosition | rpi/util.c:436-439 | on a checksum mismatch the result is 0 and the position record is unchanged, sync flag included |
| NmeaPosition.UpdatePosAnswer | rpi/util.c:422-506 | the result is 0 or 1, and it is 1 exactly when the checksum matches and the sentence is a GGA with fix flag 1 or an RMC with status "A" |
| NmeaPosition.DecodeAnswer | rpi/util.c:442-505 | after the checksum, 1 is returned exactly for a fixed GGA or an active RMC |
| NmeaPosition.GgaAnswer | rpi/util.c:446-447 | GGA answers 1 exactly when `atoi` of the fix field is 1 |
| NmeaPosition.RmcAnswer | rpi/util.c:479-480 | RMC answers 1 exactly when the status field is "A" |
| NmeaPosition.SyncFlag | rpi/util.c:500-504 | after a call past the checksum, the sync flag is 1 exactly when the call returned 1 and the GGA time equals the RMC time; otherwise it is 0 |
| NmeaPosition.GgaTouchesOnly | rpi/util.c:444-476 | a fixed GGA returns 1 and leaves the RMC time, speed and heading unchanged |
| NmeaPosition.RmcTouchesOnly | rpi/util.c:477-495 | an active RMC returns 1 and leaves the GGA time, clock, satellites, latitude and longitude unchanged |
| NmeaPosition.OtherSentencesClearSync | rpi/util.c:496-504 | any other sentence returns 0 and its only change is clearing the sync flag |
| NmeaPosition.HexByteValue | rpi/util.c:436 | two hex digits of a byte read back by `strtol(..., 16)` as that byte |
| NmeaPosition.FramedParts | rpi/util.c:431-433 | a framed sentence `$payload*cs` splits back into its payload and declared checksum |
| NmeaPosition.FramedChecksum | rpi/util.c:436-439 | a framed sentence passes the checksum test exactly when its declared hex value equals the XOR of its payload |
| NmeaPosition.SentenceAccepted | rpi/util.c:422-506 | a well-formed payload framed with its own checksum is decoded as the payload alone |
| NmeaPosition.FlippedByteRejected | rpi/util.c:436-439 | a payload with one byte changed and its old checksum is rejected, and the position record stays unchanged |
| NmeaPosition.FlippedByteFailsChecksum | rpi/util.c:436-439 | a payload with one byte changed fails the checksum it had before |
| NmeaPosition.StaleChecksumDiffers | rpi/util.c:399-409 | the old checksum of a payload differs from the checksum of the payload with one byte changed |
| NmeaPosition.ScanDegMinDecimal | rpi/util.c:453-465 | "ddmm.mmmm" scans as the leading degree digits and the decimal minutes |
| NmeaPosition.GroundSpeedWidth | rpi/util.c:485-487 | with `%4f`, "ddd.f" reads as its three integer digits only |
| NmeaPy.Partition | nmea.py:25 | when the separator is present, the three parts joined give back the line and the head has no separator; otherwise the line is the head |
| NmeaPy.ChecksumTest | nmea.py:29-31 | the loop returns the XOR of the character codes before `*`, a value in 0..255 |
| NmeaPy.ProcessNmea | nmea.py:23-79 | agrees with `Process`: strip `$`, split at `*`, convert the hex, compare checksums and interpret |
| NmeaPy.Interpret | nmea.py:43-79 | only GPGGA and GPRMC print anything, their first line being the checksum status; every other id prints nothing and raises nothing |
| NmeaPy.ChecksumDoesNotGate | nmea.py:33-73 | a good and a bad checksum give the same decoded lines and the same exception; only the status line differs |
| NmeaPy.FramedProcess | nmea.py:23-36 | a framed sentence is interpreted with status ok exactly when its hex checksum equals the XOR of its payload; a checksum that is not hex raises |
| NmeaPy.PyHexByte | nmea.py:26 | Python's `int(s, 16)` reads two hex digits of a byte as that byte |
| NmeaPy.BadChecksumStillDecoded | nmea.py:43-73 | for a payload with one byte changed and its old checksum, the C decoder rejects the line and keeps the position, while the Python decoder still decodes it with status "[err]" |
| NmeaPy.SentenceOk | nmea.py:23-36 | a well-formed payload framed with its own checksum is interpreted with status ok |
| NmeaPy.PyFloatDecimal | nmea.py:48 | `float` of digits, a point and digits is their decimal value |
| NmeaPy.PyFloatWhole | nmea.py:48 | `float` of a run of digits is its value |
| NmeaPy.DegreesOfField | nmea.py:48 | a coordinate field is its leading degree digits plus the remaining minutes over 60 |
| NmeaPy.CoordinateAgrees | nmea.py:48-55 | for a "ddmm.mmmm" field, the Python coordinate equals the C decoder's degrees plus minutes over 60 |
| NmeaPy.SpeedDecodersDiffer | nmea.py:68 | on "ddd.f" Python reads the full decimal speed while the C `%4f` drops the fraction |
| NmeaPy.GgaPosition | nmea.py:43-55 | a GGA with fix 1 prints the status, fix time, satellites, latitude (negated for 'S') and longitude (negated for 'W') |
| NmeaPy.RmcMotion | nmea.py:65-71 | an active RMC prints the status, the speed in knots times 1.150779 and the heading |
| NmeaPy.NoFix | nmea.py:45-73 | a GGA without fix 1, or an RMC without status 'A', prints the status and "Invalid fix." |
| PiLcd.Color565 | rpi/pilcd.c:686-689 | red's top 5 bits are in bits 15-11, green's top 6 in bits 10-5 and blue's top 5 in bits 4-0 |
| PiLcd.HiLoColor | rpi/pilcd.c:948-949 | the high and low bytes written to the buffer make up the colour again |
| PiLcd.ScreenSize | rpi/pilcd.c:624-663 | a mode outside 0..3 gives no size, and every rotation covers the same number of pixels |
| PiLcd.QuarterTurnSwaps | rpi/pilcd.c:630-660 | each quarter turn swaps width and height: modes 0 and 2 are 128x160, modes 1 and 3 are 160x128 |
| PiLcd.Advance | rpi/pilcd.c:535-545 | the cursor stays in its window: x moves right or wraps to the window's left edge on the next row, and y is pegged at the bottom row |
| PiLcd.WalkVisitsRowByRow | rpi/pilcd.c:535-545 | from the window's corner, the n-th advance reaches column n mod width and row n div width, so the window is walked row by row |
| PiLcd.CellIndex | rpi/pilcd.c:948 | the byte index 2*(x + y*width) and the byte after it lie in the buffer |
| PiLcd.WriteTouchesOnlyCell | rpi/pilcd.c:948-950 | a pixel write puts the high byte at the pixel's index and the low byte after it, and changes no other byte |
| PiLcd.WriteReadsBack | rpi/pilcd.c:948-950 | the pixel just written reads back as its colour |
| PiLcd.Paint | rpi/pilcd.c:994-1029 | painting a sequence of pixel steps keeps the buffer size, keeps the cursor in its window and leaves a buffer and cursor fit for more steps |
| PiLcd.RowMaskShift | rpi/pilcd.c:1028 | shifting the row mask left selects the next font row |
| PiLcd.NextLine | rpi/pilcd.c:1028 | the `line = line << 1` step gives the mask of the next font row |
| PiLcd.FontIndex | rpi/pilcd.c:1008 | for an unsigned character code, the glyph's column byte lies in the font table |
| PiLcd.FontIndexAsWritten | rpi/pilcd.c:1008 | with a signed `char` the index agrees with the unsigned one for ASCII codes |
| PiLcd.UpperGlyphsUnreachable | rpi/pilcd.c:1008 | with a signed `char`, codes 128..255 index before the start of the font table |
| PiLcd.RowPattern | rpi/pilcd.c:1004-1024 | column `col` of a font row is the text colour when its bit is set, else the background, or nothing in transparent mode |
| PiLcd.GlyphLength | rpi/pilcd.c:1000-1028 | a glyph makes exactly 8*scale*6*scale pixel steps |
| PiLcd.GlyphStepAt | rpi/pilcd.c:1000-1028 | step (row*scale+i)*(6*scale)+(col*scale+j) paints the text colour exactly when bit `row` of the glyph's column byte `col` is set; otherwise it paints the background, or skips in transparent mode |
| PiLcd.Display.constructor | rpi/pilcd.c:120-122 | the driver starts with a zero-sized screen and the cursor at the origin |
| PiLcd.Display.SetRotation | rpi/pilcd.c:624-667 | a mode above 3 changes nothing; otherwise the size is that of the mode, the window is the full screen with the cursor at the origin, and the MADCTL byte is the mode's |
| PiLcd.Display.SetAddrWindow | rpi/pilcd.c:699-721 | the window becomes (x0, y0)-(x1, y1) with the cursor at (x0, y0), and the screen size is unchanged |
| PiLcd.Display.UpdateRowColumnAddr | rpi/pilcd.c:535-545 | the cursor advances as `Advance` states |
| PiLcd.Display.PushColor | rpi/pilcd.c:941-962 | the buffer gets the colour at the cursor's pixel, and the cursor then advances |
| PiLcd.Display.FrameBufferColor | rpi/pilcd.c:905-917 | byte 2i becomes the colour's high byte and byte 2i+1 its low byte for every pixel i < width*height, and no other byte changes |
| PiLcd.Display.DrawChar | rpi/pilcd.c:982-1030 | a glyph box that does not fit on the screen changes nothing; otherwise the window becomes the box and the buffer and cursor are what the glyph's pixel steps make of them |
| PiLcd.Display.GlyphRows | rpi/pilcd.c:1000-1028 | the outer loop paints the steps of all eight font rows |
| PiLcd.Display.GlyphRow | rpi/pilcd.c:1002-1026 | one font row is painted `scale` times over |
| PiLcd.Display.GlyphLine | rpi/pilcd.c:1004-1024 | one screen line of a font row is painted column by column |
| PiLcd.Display.GlyphRun | rpi/pilcd.c:1006-1023 | one font pixel is painted `scale` times |
| PiLcd.Display.PaintPixel | rpi/pilcd.c:1008-1022 | one pixel step is painted, extending the painted steps by one |
| PiLcd.Display.GlyphPixel | rpi/pilcd.c:1008-1022 | a lit pixel pushes the text colour, an unlit one the background, and in transparent mode an unlit one only advances the cursor |
| PiLcdInit.ArgCount | rpi/pilcd.c:515-516 | the argument count is the low seven bits of the count byte |
| PiLcdInit.MasksOfByte | rpi/pilcd.c:515-516 | the count byte's 0x80 bit flags a delay and the other bits count the arguments |
| PiLcdInit.DelayMs | rpi/pilcd.c:519-523 | a delay byte of 255 means 500 ms, and any other byte is that many ms |
| PiLcdInit.ParseEntry | rpi/pilcd.c:510-525 | a decoded entry ends after its start and within the table |
| PiLcdInit.ParseEntries | rpi/pilcd.c:502-527 | n decoded entries are n entries ending within the table |
| PiLcdInit.IssueEntryOrder | rpi/pilcd.c:510-525 | an entry sends its command byte, then its arguments as data in order, then its delay if flagged |
| PiLcdInit.DataOf | rpi/pilcd.c:517-518 | the arguments go out as data bytes, one for one |
| PiLcdInit.CommandList | rpi/pilcd.c:502-527 | walking the table sends exactly what the decoded entries say, in order |
| PiLcdInit.IssueEntryAt | rpi/pilcd.c:510-525 | one entry is sent as decoded, and the walk resumes just after it |
| PiLcdInit.ArgByte | rpi/pilcd.c:515-516 | a count and a delay flag make a count byte that decodes back to them |
| PiLcdInit.EntryRoundTrip | rpi/pilcd.c:510-525 | an encoded entry decodes back to itself and ends just after its bytes |
| PiLcdInit.BodyRoundTrip | rpi/pilcd.c:502-527 | a sequence of encoded entries decodes back to itself |
| PiLcdInit.RoundTrip | rpi/pilcd.c:502-527 | a table built from fewer than 256 encodable entries decodes back to exactly those entries |
| PiLcdInit.InitSeqDecodes | rpi/pilcd.c:389-448 | `initSeq` decodes as its 21 commands and ends exactly at its last byte |
| Vt100.U8 | rpi/vt100lcd.c:41-50 | assignment to a `uint8_t` gives 0..255 and keeps values already in range |
| Vt100.TruncDiv | rpi/vt100lcd.c:82-83 | C integer division agrees with floor division on non-negative operands |
| Vt100.Params | rpi/vt100lcd.c:500-534 | an empty accumulator gives (-1, -1), both parameters are at least -1, and n2 is set only when there is a ';' |
| Vt100.ParamsPrepend | rpi/vt100lcd.c:510-532 | the reverse loop's step: a leading ';' makes the rest's first number the second, and a leading digit extends the first number |
| Vt100.ParamsOfNumbers | rpi/vt100lcd.c:500-534 | "a;b" decodes as (a, b) |
| Vt100.ParamsOfNumber | rpi/vt100lcd.c:500-534 | "a" decodes as (a, -1) |
| Vt100.ParamsJoin | rpi/vt100lcd.c:500-534 | digits, ';' and digits decode as the two decimal values |
| Vt100.GetEscapeParam | rpi/vt100lcd.c:500-534 | the reverse accumulating loop returns `Params` of the collected text |
| Vt100.ConvertToColor | rpi/vt100lcd.c:546-580 | colour code c is the full-intensity RGB565 colour with red for bit 0, green for bit 1 and blue for bit 2 |
| Vt100.ColorsDistinct | rpi/vt100lcd.c:546-580 | the eight colours are different |
| Vt100.Grid | rpi/vt100lcd.c:81-83 | the text grid's rows and columns fit in a byte |
| Vt100.Shown | rpi/vt100lcd.c:228-247 | `printf` feeds at most 79 characters, a prefix of the formatted text that stops at any NUL |
| Vt100.PlainFits | rpi/vt100lcd.c:170-210 | an ordinary character keeps every `uint8_t` global in 0..255 |
| Vt100.CommandFits | rpi/vt100lcd.c:316-480 | every command keeps the `uint8_t` globals in 0..255 |
| Vt100.MotionFits | rpi/vt100lcd.c:319-414 | every cursor command keeps the `uint8_t` globals in 0..255 |
| Vt100.Terminal.constructor | rpi/vt100lcd.c:41-50 | the globals start zeroed, with no escape in progress and an empty accumulator |
| Vt100.Terminal.Init | rpi/vt100lcd.c:72-88 | the display is rotated; the cursor, saved cursor and line wrap are reset, the colours set, and the grid is the screen size over the scaled font cell |
| Vt100.Terminal.Reset | rpi/vt100lcd.c:76-87 | the globals take their initial values for the given screen |
| Vt100.Terminal.Putc | rpi/vt100lcd.c:126-213 | one character changes the terminal and emits the events as `Step` states |
| Vt100.Terminal.PutPlain | rpi/vt100lcd.c:168-211 | a character outside a sequence acts as `Plain` states |
| Vt100.Terminal.ParseEscapeSeq | rpi/vt100lcd.c:273-488 | a character inside a sequence acts as `Parse` states, and the returned state is the new parser state |
| Vt100.Terminal.ClearCode | rpi/vt100lcd.c:288-292 | the accumulator is emptied |
| Vt100.Terminal.Collect | rpi/vt100lcd.c:297-305 | a digit or ';' is appended while there is room for 32 and dropped otherwise |
| Vt100.Terminal.RunCommand | rpi/vt100lcd.c:316-480 | a final letter runs the command that `Command` states |
| Vt100.Terminal.Move | rpi/vt100lcd.c:319-414 | the cursor and line-wrap commands act as `Motion` states |
| Vt100.Terminal.SetPosition | rpi/vt100lcd.c:340-353 | H and f act as `MoveTo` states |
| Vt100.Terminal.MoveVertical | rpi/vt100lcd.c:357-377 | A and B act as `Vertical` states |
| Vt100.Terminal.MoveHorizontal | rpi/vt100lcd.c:381-401 | C and D act as `Horizontal` states |
| Vt100.Terminal.SetAttribute | rpi/vt100lcd.c:464-477 | one attribute code acts as `SetColor` states |
| Vt100.Terminal.EraseLine | rpi/vt100lcd.c:420-447 | the erase loop emits the space glyphs that `Erase` lists |
| Vt100.Terminal.Printf | rpi/vt100lcd.c:228-247 | returns the formatted length and feeds the shown text through `putc` one character at a time |
| Vt100.Terminal.PutcAfter | rpi/vt100lcd.c:240-244 | one more character of the `printf` loop extends the fed text by one |
| Vt100Props.FeedAppend | rpi/vt100lcd.c:126-213 | feeding two texts in turn is feeding their concatenation, and the events are concatenated |
| Vt100Props.StepCoherent | rpi/vt100lcd.c:126-213 | the escape and parser states stay among their values and the accumulator holds at most 32 digits or ';' |
| Vt100Props.EscapeStarts | rpi/vt100lcd.c:134-141 | ESC outside a sequence only moves to ESC_FOUND |
| Vt100Props.EscapeConfirmed | rpi/vt100lcd.c:144-163 | after ESC, '[' moves to ESC_BRACKET and any other character returns to ESC_NONE, neither drawn nor moving the cursor |
| Vt100Props.Kept | rpi/vt100lcd.c:297-305 | the accumulator keeps the first 32 characters of the sequence's text |
| Vt100Props.Collected | rpi/vt100lcd.c:286-305 | the text of a sequence is collected from an empty accumulator, keeping its first 32 characters, and nothing is drawn |
| Vt100Props.CollectStep | rpi/vt100lcd.c:286-305 | a digit or ';' is collected, after the accumulator is cleared at the start of a sequence |
| Vt100Props.Finish | rpi/vt100lcd.c:312-487 | any other character runs the command with the collected text's parameters and ends the sequence |
| Vt100Props.EscapeSequence | rpi/vt100lcd.c:134-488 | ESC, '[', parameter text and a final letter run that letter's command with the kept text's parameters, and the terminal is back outside a sequence |
| Vt100Props.NumbersText | rpi/vt100lcd.c:500-534 | "a;b" for numbers below 1000 is collected whole and decodes as (a, b) |
| Vt100Props.MoveToSequence | rpi/vt100lcd.c:340-353 | ESC [ r ; c H with r and c on the grid puts the cursor at row r, column c and draws nothing |
| Vt100Props.ColourSequence | rpi/vt100lcd.c:460-477 | ESC [ 3f ; 4b m sets the foreground to colour f and the background to colour b |
| Vt100Props.ColourCommand | rpi/vt100lcd.c:460-477 | the m command with 30+f and 40+b sets both colours |
| Vt100Props.CursorPosition | rpi/vt100lcd.c:340-353 | H and f take each coordinate only when it lies on the grid and leave it otherwise, and no parameters at all home the cursor; nothing else changes |
| Vt100Props.CursorMoves | rpi/vt100lcd.c:357-401 | A and D move by the count (1 when missing) and stop at 0; B and C move by the count and stop at exactly `maxRows` or `maxCols`; only that coordinate changes |
| Vt100Props.EraseAt | rpi/vt100lcd.c:425-445 | an erase emits one space glyph per column from `lo` up to `hi`, in order, on the cursor row |
| Vt100Props.EraseInLine | rpi/vt100lcd.c:420-447 | K erases columns [0, col) for 1, [0, maxCols) for 2 and [col, maxCols) otherwise, without moving the cursor |
| Vt100Props.EraseInDisplay | rpi/vt100lcd.c:449-457 | J acts only for 2, clearing to the background and homing the cursor |
| Vt100Props.SelectRendition | rpi/vt100lcd.c:460-477 | m ignores both parameters when n1 is outside 30..47; otherwise 30..37 set the foreground and 40..47 the background, n2 last |
| Vt100Props.PlainRun | rpi/vt100lcd.c:187-210 | printable text that fits on the row draws each character at (col*6, row*8) in turn and advances the column by its length |
| Vt100Props.PlainStep | rpi/vt100lcd.c:187-210 | an ordinary character is drawn at (col*6, row*8) with the current colours and the column advances |
| Vt100Props.LineEnd | rpi/vt100lcd.c:196-208 | at the last column, with line wrap a character moves to column 0 of the next row (the last row stays), and without it the cursor stays put |
| Vt100Props.ControlCharacters | rpi/vt100lcd.c:170-185 | CR sets column 0; LF moves a row down but steps back on reaching `maxRows`; BS moves left with a floor of 0; none draws |
| Vt100Props.PlainOnScreen | rpi/vt100lcd.c:168-211 | an ordinary character keeps the cursor on the grid |
| Vt100Props.CommandOnScreen | rpi/vt100lcd.c:316-480 | every command except B and C keeps the cursor on the grid |
| Vt100Props.MotionOnScreen | rpi/vt100lcd.c:319-414 | every cursor command except B and C keeps the cursor on the grid |
| Vt100Props.StepOnScreen | rpi/vt100lcd.c:126-213 | every character except a final B or C keeps the cursor on the grid |
| Vt100Props.DownPastLastRow | rpi/vt100lcd.c:369-377 | B by at least the rows left puts the row at `maxRows`, off the grid, and a following LF moves it further down |
| Vt100Props.SaveRestoreRoundTrip | rpi/vt100lcd.c:405-414 | s, any cursor command other than s, then u restores the cursor |
| Vt100Props.GridFits | rpi/vt100lcd.c:81-83 | in every rotation the grid is the largest number of scaled font cells that fit on the screen |
| Vt100Props.GridFitsScreen | rpi/vt100lcd.c:81-83 | for any screen below 256 cells, the grid is the largest number of scaled font cells that fit |
| Vt100Props.GridAtScaleOne | rpi/vt100lcd.c:81-83 | at scale 1 the grid is 20x21 in portrait and 16x26 in landscape |
| NavMenu.Selected | rpi/nav.c:903-917 | SELECT on a menu entry starts its state, and an entry off the menu stays in the main menu |
| NavMenu.SelectedInjective | rpi/nav.c:903-917 | different entries start different states: 0 is MAP_NAV, 1 GPS_DATA, 2 LOGGER and 3 EXIT |
| NavMenu.MenuKey | rpi/nav.c:899-938 | UP decrements the selection wrapping 0 to 3, DOWN increments it wrapping 3 to 0, other buttons keep it, and only SELECT leaves the main menu |
| NavMenu.UpDownInverse | rpi/nav.c:920-930 | UP then DOWN, and DOWN then UP, return to the same entry |
| NavMenu.MenuRun | rpi/nav.c:888-945 | the menu leaves on a SELECT press for one of the four session states |
| NavMenu.MenuLeftOnSelect | rpi/nav.c:888-945 | the menu is left exactly when a SELECT press comes, and at the first one |
| NavMenu.UpThenSelectExits | rpi/nav.c:888-967 | from the freshly entered menu, UP then SELECT chooses EXIT |
| NavMenu.SelectStartsMap | rpi/nav.c:888-917 | from the freshly entered menu, SELECT starts map navigation |
| NavMenu.SessionEnd | rpi/nav.c:1204-1210 | a session runs up to the first LEFT press, or to the end of the input |
| NavMenu.SessionEndAt | rpi/nav.c:1204-1210 | the session end is the first LEFT press after the start |
| NavSession.DataStepFacts | rpi/nav.c:1204-1272 | no data or a read error changes nothing; a line updates the position; a valid fix resets the invalid counter and any other line adds one; the advisory shows exactly when the count exceeds 60; a record is written and the count of logged points grows by one exactly when logging is on, the sync flag is set and the file is open |
| NavSession.RecordsNumbered | rpi/nav.c:1249-1255 | over a session the records are numbered consecutively from the starting count, which ends one past the last |
| NavSession.DataStepCounts | rpi/nav.c:1212-1267 | after an iteration, the invalid counter is the number of lines since the last valid fix |
| NavSession.CounterIsLinesSinceFix | rpi/nav.c:1204-1272 | over a whole session, the invalid counter counts the lines since the last valid fix |
| NavSession.FirstCovering | rpi/nav.c:1368-1375 | the scan finds the first map whose edges, inclusive, contain the position, and none when no map does |
| NavSession.Theta | rpi/nav.c:1490 | `(int)heading` truncates toward zero: the index is the whole part of the heading's magnitude, so every heading in (-1, 360) gives an index of the sine and cosine tables, and a heading in (-1, 0) gives 0 |
| NavSession.MapStep | rpi/nav.c:1317-1412 | a faulted session stays as it is; a line updates the position; a valid fix resets the invalid counter and any other line adds one; the advisory shows exactly when the count exceeds 60 |
| NavSession.FaultStays | rpi/nav.c:1483-1530 | a faulted map session does nothing more |
| NavSession.FaultEndsRun | rpi/nav.c:1483-1530 | once a map session faults, the later ticks change nothing |
| NavSession.MapRunConsistent | rpi/nav.c:1351-1387 | a loaded raster always holds its whole map |
| NavSession.StaleMapFaults | rpi/nav.c:1296-1417 | a session that starts with the previous session's map still loaded and its raster freed faults on a valid fix inside that map |
| NavPatch.Sample | rpi/nav.c:1524-1527 | a viewport cell reads the raster exactly when its source point lies inside the map, and then at an index inside the raster |
| NavPatch.SampleIndex | rpi/nav.c:1524-1527 | the raster is read at v*map width + u |
| NavPatch.PatchRow | rpi/nav.c:1514-1531 | a viewport row has one pixel per column |
| NavPatch.Patch | rpi/nav.c:1512-1532 | the viewport has width*height pixels |
| NavPatch.PatchAt | rpi/nav.c:1512-1532 | viewport cell (x, y) is at index y*width + x and holds the raster pixel at its source, or black outside the map |
| NavPatch.RasterlessPatchIsBlack | rpi/nav.c:1483-1530 | with no raster, a viewport that never reaches the map is all black |
| Nav.NavStep | rpi/nav.c:853-969 | a pass of the navigator never goes back in the input and leaves the machine in the main menu or a session state; only INIT moves on without reading a tick |
| Nav.NavigationCodes | rpi/nav.c:857-977 | the navigator returns 0, or -1 only when started in INIT with the hardware failing |
| Nav.UpSelectShutsDown | rpi/nav.c:888-967 | in the main menu, UP then SELECT ends the navigator with 0 |
| Nav.ReturnToMapFaults | rpi/nav.c:1296-1533 | after a map session, returning to map navigation with a fix inside the same map reads through the freed raster and faults |
| Nav.FaultEndsSession | rpi/nav.c:1317-1412 | a map session that faulted ends as it was then, whatever ticks remain |
| Nav.Navigator.constructor | rpi/nav.c:825-835 | the navigator starts in INIT with no map loaded and a frame buffer of the screen's size |
| Nav.Navigator.Navigate | rpi/nav.c:847-977 | the whole run returns what `Navigation` states |
| Nav.Navigator.Pass | rpi/nav.c:855-968 | one pass of the loop acts as `NavStep` states and keeps a loaded raster whole |
| Nav.Navigator.MainMenu | rpi/nav.c:888-945 | the menu loop leaves with the state and tick that `MenuRun` gives, or stays in the menu when the input runs out |
| Nav.Navigator.ClearFrame | rpi/nav.c:1483-1487 | the first n pixels become black and the rest are unchanged |
| Nav.Navigator.GetMapPatch | rpi/nav.c:1473-1533 | a missing raster reports a load error without returning; the call succeeds exactly when the heading is in the tables and it never reads a missing raster, and then the viewport holds the patch and the rest of the buffer is unchanged |
| Nav.Navigator.CopyPatch | rpi/nav.c:1512-1532 | every viewport cell is written once, at y*width + x, with the patch pixel, unless a missing raster would be read |
| Nav.Navigator.PatchRowInto | rpi/nav.c:1514-1531 | one viewport row is written with the row's patch pixels, and nothing outside the row changes |
| Nav.Navigator.DataIteration | rpi/nav.c:1212-1267 | one iteration of the GPS data loop acts as `DataStep` states |
| Nav.Navigator.DataTick | rpi/nav.c:1204-1272 | the loop state after one more tick is the run over one more tick |
| Nav.Navigator.DataLoop | rpi/nav.c:1204-1272 | the loop ends at the first LEFT press with the position and notices of the run |
| Nav.Navigator.GpsData | rpi/nav.c:1164-1280 | the logger file is opened only in logger mode with the USB stick mounted, and the session ends at LEFT with the run's position and notices |
| Nav.Navigator.MapIteration | rpi/nav.c:1322-1410 | one iteration of the map loop acts as `MapStep` states and keeps a loaded raster whole |
| Nav.Navigator.MapTick | rpi/nav.c:1317-1412 | the loop state after one more tick is the run over one more tick |
| Nav.Navigator.MapLoop | rpi/nav.c:1317-1412 | the loop ends at the first LEFT press, or earlier on a fault, with the state and notices of the run |
| Nav.Navigator.GpsMapNav | rpi/nav.c:1296-1417 | a session that does not fault ends at LEFT with the run's position and loaded map and with the raster freed |
| Nav.Navigator.ScanMaps | rpi/nav.c:1368-1375 | the list walk returns the first covering map |
| ImgConvert.Mask | imgconvert.py:103-105 | blue and red keep their top 5 bits and green its top 6, with the low bits cleared |
| ImgConvert.PackNoCarry | imgconvert.py:118-119 | the two sums combine disjoint bits, so each byte is at most 255 and the additions equal bitwise or |
| ImgConvert.PackIsColor565 | imgconvert.py:103-119 | the two bytes are the high and low bytes of `lcdColor565(r, g, b)` |
| ImgConvert.PackMasked | imgconvert.py:103-119 | packing the masked pixel gives the same bytes as packing the original |
| ImgConvert.EncodePixels | imgconvert.py:118-122 | each pixel emits exactly two bytes |
| ImgConvert.EncodeLayout | imgconvert.py:98-122 | the output has 2*h*w bytes, and pixel (x, y) is at 2*(y*w + x), high byte first |
| ImgConvert.Picture | imgconvert.py:96-99 | reading the image array gives a rectangular grid of its pixels |
| ImgConvert.Convert | imgconvert.py:96-122 | the preview copy holds the masked pixels, the original image is unchanged, and the output is the row-by-row encoding |
| ImgConvert.ConvertRow | imgconvert.py:99-122 | one row is masked in the preview and its encoding is appended |
| ImgConvert.ConvertPixel | imgconvert.py:103-119 | one pixel is masked in place and its two bytes are returned; no other pixel changes |
| ImgConvert.ReducePixel | imgconvert.py:103-112 | the reduced channels are the masked pixel and are stored back in BGR order |
| ShowRawImg.Channels | showrawimg.py:57-63 | the decoded channels are each at most 255 |
| ShowRawImg.Unpack | showrawimg.py:57-63 | red is the high byte's top 5 bits, green the next 6 bits and blue the low byte's last 5, each with its low bits zero |
| ShowRawImg.UnpackPack | showrawimg.py:57-63 | decoding the encoder's bytes gives back the masked pixel |
| ShowRawImg.PackUnpack | showrawimg.py:57-63 | encoding a decoded pixel gives back the two bytes |
| ShowRawImg.UnpackColor565 | showrawimg.py:57-63 | the decoded channels make up the RGB565 word the two bytes hold |
| ShowRawImg.DecodePixels | showrawimg.py:46-63 | n pixels are decoded from the first 2n bytes |
| ShowRawImg.DecodeEncode | showrawimg.py:46-70 | decoding an encoding gives back the masked pixels |
| ShowRawImg.EncodeDecode | showrawimg.py:46-70 | encoding a decoding gives back the bytes |
| ShowRawImg.Show | showrawimg.py:36-70 | the image is 128x160; pixel (x, y) is decoded from bytes 2*(y*160 + x) and the next; the read is complete exactly when the file holds every pixel |
| ShowRawImg.ShowRow | showrawimg.py:47-70 | one row of pixels is read in order, two bytes each |
| ShowRawImg.ShowPixel | showrawimg.py:51-70 | one pixel is decoded from its two bytes and stored, with no other pixel changed |
| ShowRawImg.SplitPair | showrawimg.py:57-63 | the channel arithmetic gives `Channels` |
| ShowRawImg.StorePixel | showrawimg.py:68-70 | the channels are stored blue, green, red at indices 0, 1, 2, with no other pixel changed |
| ShowRawImg.RoundTrip | showrawimg.py:46-70 | showing the encoding of a 128x160 image gives every pixel masked, as `imgconvert.py` stores it in its preview |

## Left out

- UART, GPIO, SPI and file I/O are not modelled. This covers `uart_*`, `gpio_init`, `push_button_read` with its debounce, `lcdWriteCommand`/`lcdWriteData`, the direct-to-screen branches of the drawing functions, `lcdFrameBufferPush`, `lcdInit`, `lcdOn`/`lcdOff` and `wait`. Button presses and UART reads are inputs (`Tick`), commands sent to the panel are a list of bus bytes, and glyph and clear calls from the terminal are events.
- rpi/nav.c:1207 and 1320 pass n=512 to `uart_read_line` for a 128-byte buffer. Reading a line is an input here, so that overflow is not modelled.
- The libxml2 map catalogue (`new_map_list`, `get_maps`, `get_map_elements`, `del_map_list`, `dump_map_list`) and `load_map_image` are not modelled. The catalogue is a given sequence of map records, and reading an image is a function returning an optional raster.
- Floating point is replaced by reals. The sine and cosine tables, the rotated source coordinates and the map resolution division in `get_map_patch` are one given function of the heading index and the viewport cell. The centre of the patch is a given function of the position and map.
- In `nmea_update_pos`, the locals `deg` and `min` are read before they are ever set when the first coordinate scan fails. They are parameters (`deg0`, `min0`).
- The `frame_buffer` union that views the same bytes as `uint8_t` and `uint16_t` is not modelled. The navigator's buffer is an array of 16-bit pixels, the driver's an array of bytes, and the byte order between the two views is not modelled.
- Text overlays printed through `vt100_lcd_printf` in nav.c are notices in the model, without their format strings, and so is the position marker. `vsnprintf` is not modelled; `printf` feeds an already formatted string.
- The contents of `Font[]` are a parameter of 1536 bytes. The initialisation table `initSeq` is modelled byte for byte, because its decoding is proved.
- In the map session, a heading whose truncation falls outside 0..359 indexes outside the sine and cosine tables (rpi/nav.c:1490, 1519-1520). The model stops the session there as a fault.
- `usb_mounted` is never reset once set in rpi/nav.c. The model keeps that.
- `Nav.Navigator` uses the specification function of `nmea_update_pos` for each line rather than calling `NmeaPosition.UpdatePos` on a character array. `NmeaPosition.UpdatePos` is proved against that same function.
- `lcdInvertDisplay`, `lcdFillScreen`, `lcdDrawPixel`, `lcdDrawFastVLine`, `lcdDrawFastHLine`, `lcdFillRect`, `lcdFrameBufferInit`, `lcdFrameBufferFree` and `lcdFrameBufferScroll` are not part of this model. They only reach the panel directly or allocate memory.
- `vt100_lcd_columns`, `vt100_lcd_rows` and `clearScreen` are not modelled apart from their effect. A clear is the `Clear` event with the background colour.
- In `parseEscapeSeq`, a sequence of 32 or more parameter characters fills `codeString` without a terminator, and `getEscapeParam` would then read past it. The model reads only the 32 kept characters.
- In imgconvert.py, the XML editing (lines 65-88) and cv2 `imread`/`imshow`/`waitKey` are not modelled. The same goes for showrawimg.py's file open and display.
- nmea.py's printed output is modelled as a list of decoded lines, without `format`'s rounding. Python's `float` is modelled for digits with an optional point and sign; exponents, `inf` and `nan` are not modelled.
- nmea.py's GSA, GSV, GLL and VTG branches do nothing, like unknown ids. The model does not tell them apart.
- ShowRawImg.Channels: the arithmetic is on 16-bit values. It does not model numpy's `uint8` wrap on the store, because every channel is proved to fit in a byte anyway.
- CText.ScanReal: `%f` is modelled for an optional sign, digits and an optional fraction only. glibc also reads exponents, hexadecimal floats, `inf` and `nan`; for example `%6f` of "1e2" gives 100.0 where the model reads 1.0.
- CText.ScanInt: reads the unbounded value of the digit run. `atoi` (rpi/util.c:447, 468) and `%d` overflow `int` on runs of 10 or more digits, which is undefined behaviour in C; glibc truncates, so "4294967297" reads as 1.
- Vt100.Params: the source accumulates the digits in C `int temp` and `p` (rpi/vt100lcd.c:502, 523-524), and `parseEscapeSeq` keeps up to 32 digits, so a run of 10 or more digits overflows `int` (undefined behaviour in C). The model reads the unbounded decimal value of the run instead.
- Vt100.GetEscapeParam: the same `int` overflow on runs of 10 or more digits is not modelled; the loop returns the unbounded value that `Vt100.Params` states.
- maproirotate.py, mapcoord.py, mapmeta.py, rpi/main.c and rpi/test.c are not part of this model.

## Findings

| source | as written | input that shows it | evidently intended | confidence | as-written member | corrected member |
|---|---|---|---|---|---|---|
| rpi/util.c:303-307 | `rstrip` starts at index `strlen(str) - 1` and loops while the index is non-zero | "" reads the byte before the buffer, and " " is returned unchanged | strip every trailing strippable character, including the first, and return the empty string as it is | not executed; follows from the loop bounds | Util.RStripAsWrittenCounterexamples | Util.RStripFinal |
| rpi/util.c:379-383 | a field of `field_size` or more characters is cut to `field_size` characters with the terminator at index `field_size` | "GPGLL*1234", field 1, `field_size` 4: the terminator goes to index 4 of a 4-byte buffer | cut to `field_size - 1` characters so that the terminator fits | not executed; follows from the copy bounds | Util.GetFieldAsWrittenOverflows | Util.GetField |
