# Subtitle converters: SCC codec, cue list and TTML times, in Dafny

This project models three parts of a PHP subtitle-conversion library and
proves properties of them.

- **The Scenarist (SCC) converter.**
  - It wraps caption lines to 32 characters.
  - It encodes each line as CEA-608 byte pairs written as four-digit hex codes. A `80` fill keeps the special and extended codes aligned.
  - It decodes a record payload back to lines through the command, extended, special and character tables.
  - It folds timecoded records into cues, giving every cue an end.
  - It writes each cue as a bottom-aligned caption record, followed by a clearing record unless the next cue starts within one frame.
  - It converts between seconds and `HH:MM:SS:FF` timecodes at 29.97 frames per second.
- **The cue list (`Subtitles`).**
  - A class whose `internalFormat` field is a sequence of cues.
  - `Add`, `Remove`, `Trim` and `ShiftTime` change the list in place, and `MaxTime` computes the latest end.
  - The list is re-sorted by start time (a stable sort) after each addition or shift.
- **The TTML converter.**
  - Reading times: ticks ending in `t`, seconds ending in `s`, and `H:M:S` clock times.
  - Writing times to a tenth of a second.
  - Writing the document: a fixed head, one `<p>` per cue carrying `id="p{k}"`, and a fixed foot, with the line ends then normalised to CRLF.

Times are exact Dafny `real`s, and 29.97 is the exact rational 2997/100.
Strings are sequences of characters. Where the source works in a loop that
appends to a string or rewrites a list, the model is a `method` with a loop,
proved equal to a function that specifies it. The properties are proved about
those functions.

Files:

| file | contents |
|---|---|
| `wrappers.dfy`, `cues.dfy` | `Option`; the cue of the internal format |
| `text.dfy` | `explode`, `implode`, `trim`, `substr` on strings |
| `numerals.dfy` | decimal and hexadecimal numerals |
| `scc_tables.dfy` | the CEA-608 code tables and their flipped lookups |
| `scc_time.dfy` | SCC timecodes |
| `scc_wrap.dfy` | `splitLongLines` |
| `scc_text.dfy` | `lineToText`, `addSpaceAfter4Characters`, `sccToLines`, `removeEmptyLinesFromArray` |
| `scc_decoder.dfy` | the decode fold of `fileContentToInternalFormat` |
| `scc_encoder.dfy` | `textToSccLine`, `internalFormatToFileContent`, and reading the records back |
| `scc_round_trip.dfy` | the records the encoder writes for a whole list of cues, and what the decoder reads back from them |
| `subtitles.dfy` | the `Subtitles` class |
| `ttml.dfy` | TTML times and the TTML writer |

## Model

| member | source | states |
|---|---|---|
| Text.Split | src/Code/Converters/SccConverter.php:89 | explode() yields at least one piece |
| Text.SplitPiecesLackSeparator | src/Code/Converters/SccConverter.php:251 | no piece of explode() holds the delimiter |
| Text.SplitJoin | src/Code/Converters/SccConverter.php:251 | explode undoes implode when no piece holds the delimiter |
| Text.JoinSplit | src/Code/Converters/SccConverter.php:251 | implode undoes explode |
| Text.SplitAround | src/Code/Converters/SccConverter.php:224 | splitting at a delimiter that is present splits the two sides apart |
| Text.SplitWithout | src/Code/Converters/SccConverter.php:224 | a string without the delimiter is one piece |
| Text.TrimLeftSuffix | src/Code/Converters/SccConverter.php:224 | ltrim() drops only trimmable characters from the front and stops at one it keeps |
| Text.TrimRightPrefix | src/Code/Converters/SccConverter.php:224 | rtrim() drops only trimmable characters from the back and stops at one it keeps |
| Text.TrimTrailingCR | src/Code/Converters/SccConverter.php:224 | trim() removes the carriage return a record line ends with |
| Text.Substr | src/Code/Converters/SccConverter.php:246-247 | substr() is the slice when it lies inside the string, and never longer than asked |
| Numerals.DecimalOfNatToDecimal | src/Code/Converters/TtmlConverter.php:95 | an integer's decimal string reads back as that integer |
| Numerals.Pad2Value | src/Code/Converters/SccConverter.php:110 | sprintf("%02d") writes two digits that read back as the number |
| Numerals.Pad2OfDecimal | src/Code/Converters/SccConverter.php:110 | two digits read and written back are the same two digits |
| Numerals.ParseHex2OfHex2 | src/Code/Converters/SccConverter.php:246-248 | a byte's two-digit hex key reads back as that byte |
| Numerals.ParseHex4OfHex4 | src/Code/Converters/SccConverter.php:228-240 | a 16-bit code's four-digit hex key reads back as that code |
| Numerals.ParseHex4OfHex2Pair | src/Code/Converters/SccConverter.php:181-191 | two byte keys written together read as one 16-bit code |
| SccTables.CharacterKeys | src/Code/Converters/SccConverter.php:811-909 | every character key is a byte whose high nibble is neither 1 nor 9, standing for at most one character |
| SccTables.PaddingIsEmpty | src/Code/Converters/SccConverter.php:907-908 | 7f and 80 stand for the empty string, and no other character code does |
| SccTables.CommandKeys | src/Code/Converters/SccConverter.php:267-809 | every command is a 16-bit code whose first byte has high nibble 1 or 9 |
| SccTables.CommandLows | src/Code/Converters/SccConverter.php:267-809 | the second byte of every command is a control byte (0x20-0x2f, or 0xa0-0xaf) or a preamble address byte (0x40-0x7f, or 0xc0-0xff) |
| SccTables.SpecialKeys | src/Code/Converters/SccConverter.php:911-928 | special characters are single characters whose codes are neither commands nor extended characters |
| SccTables.ExtendedKeys | src/Code/Converters/SccConverter.php:930-995 | extended characters are single characters with 16-bit codes starting 0x1 or 0x9 |
| SccTables.ExtendedNotCommand | src/Code/Converters/SccConverter.php:228-238 | no extended code is also a command, so the decoder's lookup order does not hide one |
| SccTables.NoNewlineCharacter | src/Code/Converters/SccConverter.php:811-909 | no character code stands for a newline |
| SccTables.NoNewlineSpecial | src/Code/Converters/SccConverter.php:911-928 | no special code stands for a newline |
| SccTables.NoNewlineExtended | src/Code/Converters/SccConverter.php:930-995 | no extended code stands for a newline |
| SccTables.LastKeyOf | src/Code/Converters/SccConverter.php:173-175 | the array_flip lookup finds a key that holds the value |
| SccTables.LastKeyOfIsLast | src/Code/Converters/SccConverter.php:173-175 | the key found is the last one holding the value, as with array_flip, and a miss means no key holds it |
| SccTime.SplitTimecode | src/Code/Converters/SccConverter.php:89 | explode(':') of a timecode gives its four two-digit fields |
| SccTime.SccTimeToInternal | src/Code/Converters/SccConverter.php:87-92 | a timecode is H*3600 + M*60 + S + F/29.97 seconds |
| SccTime.TimecodeFields | src/Code/Converters/SccConverter.php:110 | the fields written into a timecode are the fields read from it |
| SccTime.TimecodeOfFields | src/Code/Converters/SccConverter.php:110 | a timecode is written back from its own fields |
| SccTime.Frame | src/Code/Converters/SccConverter.php:106-108 | the frame is always between 0 and 29 |
| SccTime.FrameWithin | src/Code/Converters/SccConverter.php:107-108 | the frame is within half a frame of fraction*29.97; only when it is capped at 29 does it lie up to a whole frame below that product, which is then at least 28.5 |
| SccTime.ClockTimecodeFields | src/Code/Converters/SccConverter.php:110 | gmdate("H:i:s") of a time of day gives hours below 24 and minutes and seconds below 60 |
| SccTime.InternalTimeToSccFields | src/Code/Converters/SccConverter.php:102-113 | every time, negative or past a day, is written as a well-formed timecode with frame at most 29 |
| SccTime.SccOfDayTime | src/Code/Converters/SccConverter.php:104-110 | a time within the day is written from its whole seconds and the frame of its fraction |
| SccTime.WholeAndFrames | src/Code/Converters/SccConverter.php:91 | a whole second plus f/29.97 with f <= 29 stays in that second and has frame f |
| SccTime.DayFields | src/Code/Converters/SccConverter.php:110 | hours, minutes and seconds of a clock make a time of day that splits back into them |
| SccTime.ClockTimecodeTime | src/Code/Converters/SccConverter.php:87-92 | the timecode of a time of day reads back as those seconds plus f/29.97 |
| SccTime.FormatThenParseWithinFrame | src/Code/Converters/SccConverter.php:87-113 | a time of day written and read back stays in the same second and within one frame |
| SccTime.ParseThenFormat | src/Code/Converters/SccConverter.php:87-113 | a timecode of a valid time of day with frame at most 29 is read and written back unchanged |
| SccWrap.LastSpace | src/Code/Converters/SccConverter.php:157 | strrpos finds the last space, and misses exactly when there is none |
| SccWrap.WrapLine | src/Code/Converters/SccConverter.php:155-166 | each line yields at least one row |
| SccWrap.WrapLines | src/Code/Converters/SccConverter.php:154-167 | the lines yield at least as many rows as there are lines |
| SccWrap.WrapLineFits | src/Code/Converters/SccConverter.php:156-166 | every row of a wrapped line is at most 32 characters |
| SccWrap.WrapLinesFit | src/Code/Converters/SccConverter.php:152-169 | every row of the result is at most 32 characters |
| SccWrap.SplitLongLines | src/Code/Converters/SccConverter.php:152-169 | the loop computes the rows of the lines, line after line |
| SccWrap.WrapLinesAppend | src/Code/Converters/SccConverter.php:155-167 | rows come in input order: the rows of a concatenation are the concatenated rows |
| SccWrap.WrapLinesKeepsShortLines | src/Code/Converters/SccConverter.php:156-166 | lines of at most 32 characters pass through unchanged |
| SccWrap.WrapLinesIdempotent | src/Code/Converters/SccConverter.php:152-169 | wrapping wrapped lines changes nothing |
| SccWrap.WrapLineLosesOnlyCutSpaces | src/Code/Converters/SccConverter.php:156-166 | putting one space back at each cut made at a space restores the line; a cut at a space leaves a row under 32 characters and a cut without one leaves exactly 32 |
| SccText.HexString | src/Code/Converters/SccConverter.php:181-191 | the digits of the codes are two per byte, with no space |
| SccText.HexStringBlocks | src/Code/Converters/SccConverter.php:183-198 | the digits fill whole four-digit blocks exactly when the bytes come in pairs |
| SccText.NoSymbolCode | src/Code/Converters/SccConverter.php:193 | '#', written for a character no table holds, has a character code that decodes to '#' |
| SccText.Fill | src/Code/Converters/SccConverter.php:197-199 | after the final fill the bytes come in pairs, so the digit string is a multiple of 4 long |
| SccText.HexOfFill | src/Code/Converters/SccConverter.php:183-199 | the fill appends `80` exactly when the digits end in the middle of a block |
| SccText.HexOfWide | src/Code/Converters/SccConverter.php:186-191 | a special or extended code appends its four hex digits |
| SccText.Chunks4 | src/Code/Converters/SccConverter.php:206-220 | the groups are at most four characters, all taken from the string |
| SccText.GroupedSnoc | src/Code/Converters/SccConverter.php:210-217 | one more character adds a space first exactly at a multiple of four |
| SccText.AddSpaceAfter4Characters | src/Code/Converters/SccConverter.php:206-220 | the loop writes the four-character groups joined by single spaces |
| SccText.LineToText | src/Code/Converters/SccConverter.php:171-204 | the loop writes the grouped hex digits of the line's codes and the final fill |
| SccText.RemoveEmptyLines | src/Code/Converters/SccConverter.php:257-264 | the filter never yields more lines than it is given |
| SccText.RemoveEmptyLinesMembers | src/Code/Converters/SccConverter.php:259-261 | the filter keeps exactly the lines that trim() leaves non-empty |
| SccText.RemoveEmptyLinesAppend | src/Code/Converters/SccConverter.php:257-264 | the filter keeps the lines in order and renumbers them |
| SccText.SccToLines | src/Code/Converters/SccConverter.php:222-255 | the loop over the blocks computes the lines of the payload |
| SccText.Printed | src/Code/Converters/SccConverter.php:180-194 | every character of a line is shown as exactly one character |
| SccText.PrintedHasNoNewline | src/Code/Converters/SccConverter.php:180-194 | no character of a line is shown as a newline |
| SccText.DecodeCharacterPair | src/Code/Converters/SccConverter.php:246-248 | a block that is no control code reads as its two character halves |
| SccText.LookupCharacterCode | src/Code/Converters/SccConverter.php:248 | a character code reads back through the character table |
| SccText.DecodeWideCode | src/Code/Converters/SccConverter.php:235-243 | a special or extended code reads back as its character |
| SccText.DecodeCommand | src/Code/Converters/SccConverter.php:228-233 | a block in the command table adds a newline exactly when its command holds `break`, and nothing otherwise |
| SccText.SilentControls | src/Code/Converters/SccConverter.php:228-233 | the commands `9425`, `94ad`, `97a1` and `9120` hold no `break`, so each adds no text |
| SccText.DecodedHex | src/Code/Converters/SccConverter.php:224-249 | the digits of an even number of bytes decode two bytes at a time |
| SccText.AppendWideCode | src/Code/Converters/SccConverter.php:183-191 | a special or extended code is written after the fill, so it starts a block of its own |
| SccText.AppendCodeDecode | src/Code/Converters/SccConverter.php:178-195 | each character appended decodes to its printable form, and the bytes stay block-aligned |
| SccText.CodesDecode | src/Code/Converters/SccConverter.php:171-199 | the codes of a line, filled, decode to the line's printable form |
| SccText.LineRoundTrip | src/Code/Converters/SccConverter.php:171-255 | decoding the codes lineToText writes gives the line back, with unknown characters as '#' |
| SccDecoder.ParseRecords | src/Code/Converters/SccConverter.php:25-33 | one parsed row per record |
| SccDecoder.ContentRows | src/Code/Converters/SccConverter.php:38 | the rows that show text, in increasing order |
| SccDecoder.ContentRowsComplete | src/Code/Converters/SccConverter.php:38 | every row that shows text is listed |
| SccDecoder.Scan | src/Code/Converters/SccConverter.php:39-53 | a cue followed by any record gets an end |
| SccDecoder.FoldIsPending | src/Code/Converters/SccConverter.php:35-56 | after each record the fold holds one cue per content record so far, with the end the records so far give it |
| SccDecoder.FoldEndsAll | src/Code/Converters/SccConverter.php:35-56 | once every record is read, every cue has an end |
| SccDecoder.FoldRows | src/Code/Converters/SccConverter.php:35-56 | the loop with counter $i and in-place end updates computes the decoded cues |
| SccDecoder.FileContentToInternalFormat | src/Code/Converters/SccConverter.php:24-56 | parsing the records and folding them gives the decoded cues |
| SccDecoder.CuesOfRows | src/Code/Converters/SccConverter.php:42-49 | cue c has the time and lines of the c-th content record |
| SccDecoder.DecodedCues | src/Code/Converters/SccConverter.php:37-54 | exactly one cue per record with lines, in record order, each with non-empty lines |
| SccDecoder.EndOfLastRecord | src/Code/Converters/SccConverter.php:47-49 | a cue from the last record ends one second after it starts |
| SccDecoder.EndAtNextCue | src/Code/Converters/SccConverter.php:39-41 | a cue directly followed by a content record ends when that one starts |
| SccDecoder.EndAtLastControl | src/Code/Converters/SccConverter.php:51-53 | a cue followed by control records ends at the last of them, which overwrite the end |
| SccEncoder.TextToSccLine | src/Code/Converters/SccConverter.php:121-150 | the loop writes the caption record and, when needed, the clearing record |
| SccEncoder.InternalFormatToFileContent | src/Code/Converters/SccConverter.php:65-75 | the header, then each cue's records in input order, each told the next cue's start |
| SccEncoder.OpeningText | src/Code/Converters/SccConverter.php:125 | `94ae 94ae 9420 9420` reads back as no text |
| SccEncoder.ClosingText | src/Code/Converters/SccConverter.php:137 | `942f 942f` reads back as no text |
| SccEncoder.StopText | src/Code/Converters/SccConverter.php:142 | `942c 942c` reads back as no text |
| SccEncoder.PositionText | src/Code/Converters/SccConverter.php:127-134 | each row code reads back as a line break; an index outside the table reads as nothing |
| SccEncoder.PlacedLinesText | src/Code/Converters/SccConverter.php:133-136 | the placed lines read back as each line's printed form after its row's breaks |
| SccEncoder.PayloadText | src/Code/Converters/SccConverter.php:125-137 | a caption payload reads back as the printed lines between row breaks |
| SccEncoder.SplitShown | src/Code/Converters/SccConverter.php:251-252 | splitting that text at newlines and dropping blank lines gives the shown lines |
| SccEncoder.PayloadRoundTrip | src/Code/Converters/SccConverter.php:121-137 | a caption payload with its record's carriage return decodes to the printed lines less the blank ones |
| SccEncoder.PayloadRoundTripFits | src/Code/Converters/SccConverter.php:127-134 | up to four lines come back as printed, less the blank ones |
| SccEncoder.ExtraLinesJoin | src/Code/Converters/SccConverter.php:134 | with more than four lines, the lines above the top row come back run together with the first placed line |
| SccRoundTrip.FileContentRecords | src/Code/Converters/SccConverter.php:65-75 | the file is the header, then one line per record: each cue's caption record, and its clearing record when one is written |
| SccRoundTrip.EncodedWellFormed | src/Code/Converters/SccConverter.php:23 | every record written starts with a timecode of four two-digit fields, the form the decoder's pattern reads |
| SccRoundTrip.CaptionRowAt | src/Code/Converters/SccConverter.php:121-137 | cue c's caption record reads back as its start, written and read, and its lines as wrapped, printed and filtered |
| SccRoundTrip.ClearRowAt | src/Code/Converters/SccConverter.php:139-147 | cue c's clearing record reads back as its end, written and read, with no lines |
| SccRoundTrip.ContentRowsStarts | src/Code/Converters/SccConverter.php:37-38 | the records read back that show text are exactly the caption records, in cue order |
| SccRoundTrip.DecodedAt | src/Code/Converters/SccConverter.php:35-56 | reading the records back gives one cue per cue written; decoded cue c takes the time and lines of cue c's caption record and the end the records after it give |
| SccRoundTrip.StartRoundTrip | src/Code/Converters/SccConverter.php:102-137 | for times of day, decoded cue c starts within a frame of cue c and shows its lines as wrapped, printed and filtered |
| SccRoundTrip.StopEndRoundTrip | src/Code/Converters/SccConverter.php:139-147 | when a clearing record is written after cue c, the decoded cue ends within a frame of cue c's end |
| SccRoundTrip.NextEndRoundTrip | src/Code/Converters/SccConverter.php:39-41 | when no clearing record is written after cue c, cue c is not the last, and the decoded cue ends where the next decoded cue starts |
| SccRoundTrip.SccRoundTrip | src/Code/Converters/SccConverter.php:21-150 | decoding what the encoder writes for cues whose times lie within a day and whose lines show text gives as many cues, in order: each starts within a frame of the cue written and shows its lines as wrapped, printed and filtered; it ends within a frame of the cue's end when a clearing record was written, and otherwise where the next decoded cue starts |
| SccEncoder.StopPayloadIsEmpty | src/Code/Converters/SccConverter.php:142 | a clearing record decodes to no lines, so the decoder takes it as a cue's end |
| SccEncoder.ReadBack | src/Code/Converters/SccConverter.php:224 | the carriage return at a record's end is trimmed before decoding |
| SccEncoder.StopUnlessNextWithinFrame | src/Code/Converters/SccConverter.php:139-147 | the clearing record is left out exactly when the next cue starts within one frame of the end |
| SccEncoder.CaptionRecordRoundTrip | src/Code/Converters/SccConverter.php:25-32 | a caption record read back has a time within one frame of the cue's start and the cue's printed wrapped lines |
| SccEncoder.LastLineOnBottomRow | src/Code/Converters/SccConverter.php:127-134 | the last line of a caption is always placed on row 9470 |
| Subtitles.InsertByStart | src/Subtitles.php:160-171 | insertion adds exactly one cue |
| Subtitles.SortByStart | src/Subtitles.php:160-171 | the sort keeps the number of cues |
| Subtitles.InsertPermutes | src/Subtitles.php:160-171 | insertion adds the cue and keeps every cue of the list |
| Subtitles.SortSorted | src/Subtitles.php:160-171 | the sort yields a permutation of the list in non-decreasing order of start |
| Subtitles.SortStable | src/Subtitles.php:160-171 | cues with equal starts keep their relative order |
| Subtitles.SortKeepsSorted | src/Subtitles.php:160-171 | a list already in order is left unchanged |
| Subtitles.Survivors | src/Subtitles.php:90-101 | remove never adds cues |
| Subtitles.SurvivorsMembers | src/Subtitles.php:185-188 | remove deletes exactly the cues that start or end strictly inside the interval |
| Subtitles.SurvivorsAppend | src/Subtitles.php:92-98 | the survivors keep their relative order and are renumbered from 0 |
| Subtitles.SurvivorsSorted | src/Subtitles.php:90-101 | a list in order of start stays in order |
| Subtitles.MaxEndIsLatest | src/Subtitles.php:173-183 | maxTime is at least 0, no cue ends later, and it is 0 or some cue's end |
| Subtitles.Shifted | src/Subtitles.php:105-112 | a shift keeps the number of cues |
| Subtitles.ShiftedCues | src/Subtitles.php:105-112 | a selected cue has both times moved by the seconds; every other cue, and all lines, are unchanged |
| Subtitles.ShiftTwice | src/Subtitles.php:103-118 | two shifts of every cue are one shift by the sum |
| Subtitles.ShiftByZero | src/Subtitles.php:103-118 | a shift by 0 changes nothing |
| Subtitles.Subtitles.constructor | src/Subtitles.php:25 | a new document has no cues |
| Subtitles.Subtitles.Add | src/Subtitles.php:67-80 | one cue is added, with the array of lines or the single line wrapped in one, and the list is re-sorted |
| Subtitles.Subtitles.SortInternalFormat | src/Subtitles.php:160-171 | the list becomes its stable sort by start: sorted and a permutation |
| Subtitles.Subtitles.Remove | src/Subtitles.php:90-101 | the list becomes the survivors of the interval |
| Subtitles.Subtitles.MaxTime | src/Subtitles.php:173-183 | the loop returns the latest end, or 0, and no cue ends later |
| Subtitles.Subtitles.Trim | src/Subtitles.php:82-88 | remove(0, start), then remove(end, maxTime) with maxTime taken after the first removal |
| Subtitles.TrimKeepsCuesInside | src/Subtitles.php:82-88 | a cue within startTime..endTime survives trim |
| Subtitles.TrimRemovesCuesOutside | src/Subtitles.php:82-88 | a cue ending before startTime, or starting after endTime without ending last, is removed |
| Subtitles.Subtitles.ShiftTime | src/Subtitles.php:103-118 | the selected cues are moved by the seconds, then the list is re-sorted |
| Subtitles.Subtitles.SetInternalFormat | src/Subtitles.php:145-156 | what is set is what getInternalFormat returns |
| Ttml.TicksTime | src/Code/Converters/TtmlConverter.php:117-119 | a time ending in 't' is the number before it divided by 10,000,000 |
| Ttml.TrimAppendedEsses | src/Code/Converters/TtmlConverter.php:121 | rtrim takes off exactly the trailing run of 's' |
| Ttml.SecondsTime | src/Code/Converters/TtmlConverter.php:120-121 | a time ending in 's' is the number before its trailing 's' characters |
| Ttml.LeadingDigitsBefore | src/Code/Converters/TtmlConverter.php:124-126 | an (int) cast reads the digits up to the first non-digit |
| Ttml.IntCastOfDigits | src/Code/Converters/TtmlConverter.php:124-126 | the (int) of digits followed by something else is the value of the digits |
| Ttml.SplitThree | src/Code/Converters/TtmlConverter.php:123 | explode(':') of three colon-free fields gives those fields |
| Ttml.ClockForm | src/Code/Converters/TtmlConverter.php:122-128 | a time without suffix is read field by field as a clock time |
| Ttml.ClockTime | src/Code/Converters/TtmlConverter.php:123-128 | H:M:S with digit fields is H*3600 + M*60 + S seconds |
| Ttml.ClockDropsFraction | src/Code/Converters/TtmlConverter.php:126 | a fraction on the seconds of a clock time is truncated away |
| Ttml.BareNumberIsHours | src/Code/Converters/TtmlConverter.php:123-128 | a bare number is read as hours, its missing minute and second fields counting 0 |
| Ttml.RoundHalfAway | src/Code/Converters/TtmlConverter.php:112 | rounding moves a value by at most one half |
| Ttml.PointNumeral | src/Code/Converters/TtmlConverter.php:121 | digits, a point and digits read as the integer part plus the fraction |
| Ttml.TenthsValue | src/Code/Converters/TtmlConverter.php:112 | a time written to one decimal reads back as that many tenths |
| Ttml.TimeRoundTrip | src/Code/Converters/TtmlConverter.php:110-121 | a written time read back with its 's' is the time rounded to tenths, at most 0.05 seconds away |
| Ttml.ParagraphLines | src/Code/Converters/TtmlConverter.php:90-96 | one paragraph per cue |
| Ttml.AppendParagraphs | src/Code/Converters/TtmlConverter.php:90-96 | the loop appends one paragraph line per cue, in order |
| Ttml.InternalFormatToFileContent | src/Code/Converters/TtmlConverter.php:74-106 | the method writes the head, the paragraphs and the foot, then normalises the line ends |
| Ttml.ParagraphOrder | src/Code/Converters/TtmlConverter.php:90-96 | paragraph k is cue k's and carries id="p{k}" |
| Ttml.DocumentJoin | src/Code/Converters/TtmlConverter.php:76-100 | the document is its head lines, one line per cue and its foot lines, joined by newlines |
| Ttml.ImplodeLacks | src/Code/Converters/TtmlConverter.php:93 | implode with `<br />` adds no character that neither the lines nor the glue hold |
| Ttml.ParagraphOneLine | src/Code/Converters/TtmlConverter.php:95 | a paragraph is one line when its cue's lines are |
| Ttml.WithoutCRDropsCR | src/Code/Converters/TtmlConverter.php:102 | the first replacement removes every '\r' and keeps a text without one as it is |
| Ttml.CrlfOfText | src/Code/Converters/TtmlConverter.php:103 | the second replacement on a text without '\r' gives CRLF line ends only |
| Ttml.UndoCrlf | src/Code/Converters/TtmlConverter.php:103 | taking the '\r' out again gives the text back |
| Ttml.FileContentLineEnds | src/Code/Converters/TtmlConverter.php:102-103 | every '\r' of the file is followed by '\n' and every '\n' preceded by '\r'; without the '\r' it is the document |
| Ttml.NormaliseIdempotent | src/Code/Converters/TtmlConverter.php:102-103 | normalising the line ends twice is normalising them once |
| Ttml.FileContentFrame | src/Code/Converters/TtmlConverter.php:76-100 | the file is the normalised head, body and foot, and the head and foot are the same for every list of cues |
| Ttml.FootEnds | src/Code/Converters/TtmlConverter.php:98-100 | the normalised foot ends with `</tt>` |
| Ttml.FileContentEnds | src/Code/Converters/TtmlConverter.php:98-103 | the file written for any list of cues ends with `</tt>` |

## Left out

- The record scan of `fileContentToInternalFormat` is a regular expression, which Dafny has no model of. The decoder starts from the list of (timecode, payload) records it delivers. `WellFormed` requires every timecode to be four two-digit fields, as that expression admits. The payload keeps its trailing carriage return. In the same way, the round trip stops at the records: `FileContentRecords` states the file the encoder writes as the header and one line per record, and the decoding of `SccRoundTrip` starts from those records, not from the file text.
- `canParseFileContent` of both converters is a regular-expression or substring test and is not modelled.
- The TTML reader is not modelled: its `DOMDocument` parsing, and the unreachable code after its `return`. Only its time parser `ttmlTimeToInternal` is.
- File I/O is not modelled. That covers `save`, `loadFromFile` and `convert`.
- Calls into `Helpers` are not modelled, because `Helpers` is not part of this model.
  - `content`, `loadFromString` and `shiftTimeGradually` are therefore left out.
  - `shiftTime` takes the test `shouldBlockTimeBeShifted(from, till, start, end)` as a parameter `selects`.
- Text is a sequence of characters. `splitLongLines` counts bytes with `strlen`, where `lineToText` walks characters. The model counts characters in both, which is faithful for single-byte text only.
- Times are exact reals, not binary floats.
  - `internalTimeToScc` reads the float's decimal string form. The model takes the truncated whole seconds and the exact fraction instead.
  - `number_format` is modelled as round-half-away-from-zero on exact values.
- Numeric strings in TTML times are read by a simplified grammar: an optional '-', digits, and an optional point followed by digits.
  - An exponent, leading whitespace, and forms such as `1.` or `.5` are not read.
  - In a time in ticks, a string PHP's division would reject with a warning or an error gives `None`.
- Ttml.TtmlTimeToInternal: a time ending in 's' is, in PHP, the rtrimmed string itself, returned without a conversion and without a warning (`abcs` gives `abc`, `s` gives the empty string, `.5s` gives `.5`). The model reads that string as a number instead. `None` there marks a string PHP would return as it is, and a numeral it accepts stands for the number PHP's later arithmetic would make of it.
- Ttml.TtmlTimeToInternal: a clock time with fewer than three fields reads PHP's missing array keys as 0. The warnings PHP 8 raises for them are not modelled.
- The `(int)` casts of the clock fields read an optional sign and the leading digits. Whitespace and exponents are not read.
- The tick rate of TTML times is fixed at 10,000,000, as in the source. `ttp:tickRate` is not read.
- Subtitles.Subtitles.constructor: the PHP field starts as `null`; the model starts from the empty sequence. On a document no cue was ever added to, PHP 8 behaves otherwise, and these error paths are not modelled:
  - `remove` and `trim` throw a `TypeError` from `array_values(null)` (src/Subtitles.php:98);
  - `shiftTime` throws a `TypeError` from `usort(null)` (src/Subtitles.php:162);
  - `getInternalFormat` returns `null`, not an empty list;
  - only `maxTime` gives 0, after a warning.
- The holes `unset` leaves in a PHP array are not modelled, because `remove` renumbers the array straight after. The model filters the sequence.
- `usort` is modelled as a stable insertion sort. PHP 8's sort is stable.
- The TTML head and foot lines are not proved to be free of newlines. So the document's lines are stated by `DocumentJoin` as a join, not as an `explode` equality.
- In two places the code's behaviour is modelled where a reading of its comments could suggest otherwise:
  - a control-only record overwrites the end of the latest cue even when that cue already has one;
  - a cut at a space drops that space, so the rows joined do not rebuild the line (`WrapLineLosesOnlyCutSpaces` states what is lost).
