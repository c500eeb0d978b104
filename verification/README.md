# Verification of the crest client library

This project models the stateful C code of the repository in Dafny and proves what it does, for
all inputs, all read scripts and all histories of calls:

- the HTTP response reader of `http_lib.c`, a byte-at-a-time state machine for headers,
  Content-Length bodies and chunked bodies (RFC 9112, sections 6.3 and 7.1);
- the base64 codec of `encode.c` and `decode.c` (section 4 of RFC 4648);
- the event scanner and the block copy of `het/src/hetAcquire.c`;
- the control-unit store and publisher of `chaos_crest.c`: attribute slots, document assembly,
  registration, push and the counters;
- the value extractor of `chaos_crest.c`, whose second run reads the buffer that it writes.

Code that works by loops and assignments is modelled by methods over arrays and object fields,
each proved equal to a function of its inputs or of its old state; what the code is for is then
proved of those functions.

| files | content |
|---|---|
| `CText.dfy` | C strings, `snprintf` truncation, the libc scanners, decimal printing |
| `HttpMachine.dfy`, `HttpReader.dfy` | the reader as functions, and in its own form |
| `HttpText.dfy`, `HttpLines.dfy` | pauses in the stream; the header line by line, and the status code |
| `HttpFraming.dfy`, `HttpExact.dfy` | framing of successive responses; how far it reaches |
| `HttpEdges.dfy` | answers that are not well formed, header lines of every kind, the limits in figures |
| `Base64.dfy`, `Base64Laws.dfy`, `Base64Codec.dfy` | the RFC's definition, its laws, the two C functions |
| `HetScanner.dfy`, `HetEvents.dfy`, `HetBlocks.dfy` | the scanner; what it counts; block boundaries and byte order |
| `CrestModel.dfy`, `CrestStore.dfy` | the store as values and histories; the handle and its operations |
| `CrestLaws.dfy`, `CrestDocs.dfy` | the last-write map, sizes, documents, counters |
| `CrestTexts.dfy` | the posted characters, spelled out, and what a reader finds in them; the order of sweeps |
| `Bson.dfy`, `BsonLaws.dfy` | the extractor, and what it returns |
| `Acquisition.dfy` | the acquisition loop, and the blocks read back from the posted texts |

## Main results

- Framing never loses sync (`HttpFraming.FramingNeverLosesSync`): of any sequence of well-formed
  responses, successive calls return all, in order, and consume nothing else, exactly when
  their bytes come in time: with fewer than 30 zero-length reads before the first byte of a
  header or body, fewer than 50 before the other header bytes, fewer than 30 before the other
  body bytes. The line feed behind a chunk does not renew the retry count, so the pauses on
  both sides of it share one budget. `HttpText.HeaderPauses` and `HttpText.BodyPauses` give
  the same condition for arbitrary bytes.
- The header loop does, on every text, what a line-by-line reader does
  (`HttpLines.HeaderIsByLine`), which settles what a call returns on every script
  (`HttpLines.HeaderCodeExact`).
- `HttpExact.SizedExact` and `HttpExact.ChunkedExact` say exactly which bodies come back intact:
  those without a CR LF pair, because the reader drops the LF of such a pair. The code and its
  purpose disagree here; the model follows the code. What comes back instead is proved for every
  text: `HttpEdges.SizedAlways`, `HttpEdges.CopySqueezed`. Of a body of any length without such
  pairs the buffer holds what it has room for (`HttpEdges.AnyLength`).
- The two codec functions are mutually inverse on canonical text (`Base64Laws.RoundTrip`,
  `Base64Laws.CanonicalExact`), and the decoder is characterised on every text.
- The scanner counts exactly the marker-to-marker segments that contain the event pattern as a
  subsequence (`HetEvents.ScannerCountsEvents`), and reading in blocks loses exactly the event
  that straddles a boundary (`HetBlocks.BlocksLoseStraddler`).
- In every history the store is the last-write map (`CrestLaws.StoreRefinesLastWrite`), and every
  posted document is assembled from it (`CrestDocs.PostedShowsLatest`), character by character
  (`CrestTexts.PostedText`); name, number, clock and values read back from it
  (`CrestTexts.PostedHeader`, `CrestTexts.WrittenReadsBack`).
- From the board to the server (`Acquisition.Acquire`): over any run of the acquisition loop, in
  both builds, one document is pushed for every turn in which the board is ready, and from each
  the status, the running count of events and the words of the last block can be read back.
- The value extractor is characterised on every text (`BsonLaws.ScanExact`).

Behaviour that differs from what the interface suggests, each with its exact condition:

- pauses that end a call and lose a byte: `HttpText.HeaderPauseExact`, `HttpText.BodyPauseExact`,
  `HttpText.SkippedByteRenewsNothing`;
- the codes for a timeout and for a read error are returned only when a status line prints them,
  and a header cut behind its status line is answered with its status: `HttpLines.HeaderCodeExact`,
  `HttpExact.CutHeader`; a body cut short is reported like a whole one:
  `HttpExact.TruncatedLooksComplete`;
- a header line that fills its buffer without a NUL is scanned past its end: `HttpLines.LineEnds`;
- an answer without a length takes the next line of the stream with it, and so do a body that
  is too long for the buffer and trailer fields: `HttpEdges.NoLength`, `HttpEdges.LongBody`,
  `HttpEdges.Trailers`; a chunked answer that also declares a length may end inside a chunk:
  `HttpEdges.BothFramings`; chunk sizes from 2^31 on count as negative: `HttpEdges.LargeSize`;
  an encoding field without a value is decided by uninitialised memory: `HttpEdges.GarbageDecides`;
- bodies with a CR LF pair come back changed: `HttpExact.SizedExact`, `HttpExact.ChunkedExact`;
- of 16-bit vectors only half is encoded: `CrestLaws.WholeVectors`; long names cut the format:
  `CrestLaws.PrintedAttribute`; long values are cut in their slots: `CrestDocs.PostedValueExact`;
  documents are cut in their buffer, or their NUL is written behind it:
  `CrestDocs.DocumentFitsExactly`;
- a unit without outputs, or an input dataset, gives a push no buffer to print into, and inputs
  give a registration no format: the `wild` results of `CrestStore.Handle`;
- the value extractor writes its NUL behind a buffer that the value fills: `Bson.ValueIsCut`,
  `Bson.GetBsonValueR`, with `BsonLaws.OverrunHappens` as an input; it keeps a closing brace
  behind a plain value: `BsonLaws.ScalarExact`.

In addition `CrestStore.Handle.Valid` keeps `minPush` at 0 in every reachable state.

## Model

| member | source | states |
|---|---|---|
| CText.StrtoulDigits | http_lib.c:354-355 | hexadecimal digits behind blanks and before a stop character convert to their value |
| CText.ScanPrinted | http_lib.c:207-215 | a number printed in decimal behind any blanks is what `%d` reads, and the scan stops behind it |
| CText.ScanSigned | http_lib.c:207-215 | a printed number of 32 bits reads back with its sign |
| CText.ScanLarge | http_lib.c:213 | a number that does not fit 64 bits scans as -1, its negative as 0 |
| CText.SignedReadsBack | chaos_crest.c:538-544 | a printed number reads back, and starts with a minus sign iff it is negative |
| CText.HexReadsBack | http_lib.c:355 | a number printed in hexadecimal, in either case, reads back |
| CText.StrtoulPrinted | http_lib.c:355 | `strtoul` returns the printed number, also behind 0x, negated in 64 bits behind a minus sign, and the largest one when it does not fit |
| CText.ReadDec | chaos_crest.c:777-784 | reading the decimal digits of n, then whatever follows, is reading what follows onto n |
| CText.CutTwice | chaos_crest.c:789-794 | truncating after each append is truncating the concatenation once |
| CText.Find | chaos_crest.c:995-1000 | `strstr` returns the first occurrence, and None only when there is none |
| HttpMachine.HeaderByte | http_lib.c:178-231 | one header byte keeps the used part of `stringa` within its 256 characters |
| HttpMachine.BodyByte | http_lib.c:298-379 | one body byte keeps the answer below max and `encoding_buf` below 256 characters |
| HttpMachine.BodyRun | http_lib.c:288-394 | on every script the loop ends, by bytes left and retries, with fewer than max characters |
| HttpMachine.GetReply | http_lib.c:247-403 | the answer buffer is written exactly when a body was read, and never after an overrun |
| HttpReader.HttpHandle.Read | http_lib.c:288 | one item is taken from the script; past its end reads return nothing |
| HttpReader.HttpHandle.GetResponseHeader | http_lib.c:153-245 | code, size, encoding and consumed bytes are those of `HeaderRun`, and an unterminated line is reported |
| HttpReader.HttpHandle.TakeHeaderByte | http_lib.c:182-230 | the array code for one byte has the effect of `HeaderByte` |
| HttpReader.HttpHandle.StoreHeaderByte | http_lib.c:184-200 | a byte is appended, or the line terminated over its CR, only while there is room |
| HttpReader.HttpHandle.GetResponse | http_lib.c:247-403 | for every script: the buffer holds the text of `GetReply` and a NUL inside max, nothing past max changes, `recvid` rises only for a body, `recvb` by the bytes consumed |
| HttpReader.HttpHandle.ReadBody | http_lib.c:285-394 | the loop over the buffers yields `BodyRun`'s text, terminated, and its rest of the stream |
| HttpReader.HttpHandle.TakeBodyByte | http_lib.c:300-378 | the array code for one byte has the effect of `BodyByte` |
| HttpReader.HttpHandle.Append | http_lib.c:329-333 | the answer grows by the byte and stays terminated, or stays as it is when full |
| HttpReader.HttpHandle.ChunkSize | http_lib.c:354-355 | the size is converted from the collected line without its last character |
| HttpReader.HttpHandle.Receive | http_lib.c:44-54 | the codes and answers of successive rounds, and the two counters, are those of `Serve` |
| HttpText.HeaderPauses | http_lib.c:168-176 | on every script the header run does what it does on the bytes alone iff the bytes it takes come in time, and what is left then |
| HttpText.BodyPauses | http_lib.c:288-326 | the same for the body, where a skipped line feed does not renew the retry count |
| HttpText.PausesAreInvisible | http_lib.c:247-403 | a call answers a script as its bytes if header and body come in time, and, when the bytes hold a whole header, only then |
| HttpText.HeaderPauseExact | http_lib.c:168-176 | a pause before a header byte changes nothing iff it is shorter than the budget; otherwise the call ends after one more read |
| HttpText.BodyPauseExact | http_lib.c:288-326 | the same before a body byte that renews the retry count |
| HttpText.SkippedByteRenewsNothing | http_lib.c:320-326 | pauses before and after the line feed behind a chunk change nothing iff their sum is below the budget |
| HttpLines.HeaderIsByLine | http_lib.c:153-245 | on every text the byte machine is the line reader: lines up to CR LF, a blank one or a leading NUL ends the header, nothing behind it is read |
| HttpLines.LineEnds | http_lib.c:184-230 | the string of a line reaches the parser iff the line has at most 254 characters or a NUL among the first 256; otherwise its end is not marked |
| HttpLines.HeaderTakes | http_lib.c:168-176 | on every script the run does to the bytes that it takes what the text run does; it can only stop sooner |
| HttpLines.LinesAreFolded | http_lib.c:204-230 | what a header amounts to is the fold of its lines, and it is dropped iff one of them drops it |
| HttpLines.HeaderCodeExact | http_lib.c:168-244 | on every script the result is the drop code, or the code of the last complete status line, or the parsing error; timeout and read error only if such a line prints them |
| HttpFraming.HeaderLines | http_lib.c:153-245 | header lines and a blank line end the header with what the lines mean, and nothing behind it is read |
| HttpFraming.BodyCopy | http_lib.c:327-345 | bytes without CR LF are copied in order, cut to the room in the buffer |
| HttpFraming.SizeLine | http_lib.c:348-371 | a size line, with any extension and a CR left before it, sets exactly the printed number of bytes |
| HttpFraming.AnySizeLine | http_lib.c:346-371 | any line where a size is due sets the number that its first 254 characters convert to |
| HttpFraming.ChunkEnd | http_lib.c:320-325 | the line end behind a chunk leaves one CR in `encoding_buf` and nothing else |
| HttpFraming.OneChunk | http_lib.c:327-371 | one printed chunk takes the reader from chunk boundary to chunk boundary with its data appended |
| HttpFraming.ChunksDecode | http_lib.c:288-376 | the invariant of chunked decoding, for any list of chunks |
| HttpFraming.ChunkedBody | http_lib.c:288-376 | chunked decoding inverts the chunk printer, cut to max - 1 characters, and stops behind the last CR LF; all bytes but the line feeds behind chunks renew the budget |
| HttpFraming.SizedBody | http_lib.c:327-340 | a Content-Length body that fits and has no CR LF comes back whole, with nothing behind it read; every byte renews the budget |
| HttpFraming.ResponseText | http_lib.c:247-403 | one well-formed response yields its status and body and leaves the rest |
| HttpFraming.ResponseInTime | http_lib.c:247-403 | a call returns a well-formed response with its bytes and no others iff they come in time |
| HttpFraming.FramingNeverLosesSync | http_lib.c:44-54 | k well-formed responses are returned by k calls in order iff their bytes come in time; then each is counted once with all its bytes, and the rest is unread |
| HttpExact.SizedExact | http_lib.c:315-345 | a Content-Length body comes back intact iff it is not empty, fits, and has no CR LF pair |
| HttpExact.ChunkedExact | http_lib.c:315-371 | a chunked body that fits comes back intact iff no chunk holds a CR LF pair |
| HttpExact.AnswerGrows | http_lib.c:327-334 | what is in the answer is never taken back |
| HttpExact.StatusWhateverFollows | http_lib.c:247-403 | behind a complete header the status code is returned whatever follows |
| HttpExact.TruncatedLooksComplete | http_lib.c:395-402 | a body, sized or chunked, cut anywhere before its end is reported with the status of a whole one, and with a part of its content |
| HttpExact.CutHeader | http_lib.c:168-244 | a header cut behind complete lines is answered with their last status and an empty body |
| HttpExact.PrintedHeader | http_lib.c:207-224 | a printed status line with a length or chunked field among neutral fields means what it says |
| HttpExact.PrintedResponseOk | http_lib.c:207-224 | a printed response, sized or chunked, is well formed, so that the framing theorem applies to it |
| HttpExact.OtherFieldIsNeutral | http_lib.c:207-229 | fields with other initials are passed over unless they hold NO CARRIER |
| HttpEdges.AnyLength | http_lib.c:327-345 | of a Content-Length body of any length without CR LF the buffer gets the first max - 1 characters; where the call stops reading, for each length |
| HttpEdges.LongBody | http_lib.c:320-345 | behind a body that is too long for the buffer the call goes on to the next CR LF |
| HttpEdges.SizedAnswer | http_lib.c:247-403 | a whole call on such an answer returns its status and as much of the body as there is room for |
| HttpEdges.NoLength | http_lib.c:372-376 | without a positive length there is no body, and everything up to the next CR LF is taken |
| HttpEdges.SizedAlways | http_lib.c:320-345 | on every text a sized call returns the first n bytes that are not the line feed of a CR LF pair, and takes no more |
| HttpEdges.CopySqueezed | http_lib.c:320-345 | the same inside a chunk or a longer body |
| HttpEdges.BodyTakes | http_lib.c:288-394 | on every script, with errors and late bytes, the answer is what the text run makes of the bytes taken |
| HttpEdges.ErrorBreaks | http_lib.c:288 | an error ends the body at once, and nothing else breaks it |
| HttpEdges.BytesAnswer | http_lib.c:247-403 | without pauses a call answers as on the text |
| HttpEdges.BothFramings | http_lib.c:336-340 | a chunked answer that declares a length ends in the middle of the chunk where its data reach it; otherwise the length has no effect |
| HttpEdges.LargeSize | http_lib.c:355 | a chunk size that needs the sign bit copies nothing, and the data are read as size lines |
| HttpEdges.PrintedSize | http_lib.c:354-355 | a size printed in hexadecimal is a size line for its chunk |
| HttpEdges.Trailers | http_lib.c:315-319 | behind the last chunk the call goes on to the next CR LF and no further, so of trailer fields it takes only the first |
| HttpEdges.OtherLineReads | http_lib.c:226-230 | a line that is no known field drops the connection iff NO CARRIER stands in it, and is passed over otherwise |
| HttpEdges.BrokenFields | http_lib.c:207-230 | a status line without two numbers and a length without one are lines like any other |
| HttpEdges.LengthReads | http_lib.c:211-215 | a length is taken with its sign, and replaces an earlier one |
| HttpEdges.EncodingReads | http_lib.c:217-224 | an encoding field counts as chunked iff its first word holds it |
| HttpEdges.GarbageDecides | http_lib.c:217-224 | an encoding field without a word, or the beginning of one, is decided by what the local buffer held |
| HttpEdges.CarrierLost | http_lib.c:226-230 | a header with NO CARRIER is answered with -6, no body and the rest unread |
| HttpEdges.NoStatus | http_lib.c:158-202 | a header without a status line is answered with -111 |
| HttpEdges.FirstPauses | http_lib.c:168 | before the first byte of header or body a pause is harmless iff it has fewer than 30 reads |
| HttpEdges.LaterPauses | http_lib.c:180 | before later bytes iff it has fewer than 50 in the header and 30 in the body |
| HttpEdges.LineLimit | http_lib.c:184-207 | a line without NUL overruns its buffer iff it has 255 characters or more |
| Base64.TableHoldsAlphabet | b64.h:27-36 | every table entry is an alphabet character, at the index the RFC gives it |
| Base64.AlphabetIsInTable | decode.c:44 | every character the decoder accepts is in the table |
| Base64.OctetsOfSextets | encode.c:40-43 | splitting 24 bits in four and joining them gives the bytes back, and short groups end in zero bits |
| Base64.SextetsOfOctets | decode.c:63-65 | joining four numbers and splitting them gives them back |
| Base64.Alphabetic | decode.c:43-44 | the decoder stops at the first character outside the alphabet |
| Base64Laws.EncodeLength | encode.c:34-84 | the text has 4 * ceil(n / 3) characters |
| Base64Laws.EncodePads | encode.c:78-83 | it ends in (3 - n mod 3) mod 3 pad characters and has no others |
| Base64Laws.EncodeAppend | encode.c:34-57 | encoding may be cut after any multiple of three bytes |
| Base64Laws.RoundTrip | decode.c:41-129 | decoding the text of any bytes returns them, whatever non-alphabet character and text follow |
| Base64Laws.DecodedLength | decode.c:82-114 | k leading alphabet characters give floor(3k / 4) bytes, for every text |
| Base64Laws.DecodePrefix | decode.c:41-114 | decoding a prefix of a text gives a prefix of its decoding |
| Base64Laws.EncodingIsCanonical | encode.c:59-84 | encoded text has whole groups, correct padding and zero dropped bits |
| Base64Laws.CanonicalExact | encode.c:59-84 | re-encoding a decoding returns the text iff the text is canonical |
| Base64Laws.TestVectors | encode.c:20-91 | the test vectors of section 10 of RFC 4648 |
| Base64Codec.B64Encode | encode.c:20-91 | the loop with its staging buffer and remainder computes the RFC's encoding, terminated |
| Base64Codec.EncodeRest | encode.c:59-84 | the remainder path encodes the one or two bytes left over |
| Base64Codec.EncodeGroup | encode.c:40-43 | the shifts and masks cut the 24 bits of a group in four |
| Base64Codec.B64DecodeEx | decode.c:26-130 | for every text: the decoding of its alphabet prefix, terminated, and its size |
| Base64Codec.DecodeRest | decode.c:82-114 | the remainder path gives one byte less than it has characters |
| Base64Codec.FindInTable | decode.c:53-59 | the linear search returns the only index of the character, or leaves the character |
| Base64Codec.DecodeGroup | decode.c:63-65 | the shifts and masks put 24 bits together |
| HetScanner.ScanBlock | het/src/hetAcquire.c:411-465 | the event counter rises by the block's count in 64 bits, and `fifo` is the block with every word swapped |
| HetScanner.TakeWord | het/src/hetAcquire.c:418-464 | by ranges of numbers, the next state and the trigger number for each state; an event ends iff the word is in 0xF7F00000..0xF7FFFFFF in the last state; equally, by the pattern |
| HetScanner.CopyBlock | het/src/hetAcquire.c:468 | the other build copies the block |
| HetEvents.ContainsSnoc | het/src/hetAcquire.c:426-464 | a further word takes the last place of a subsequence or is not needed for it |
| HetScanner.KindOrder | het/src/hetAcquire.c:418-464 | following the pattern and taking the conditions in the order of the code are the same |
| HetScanner.KindRanges | het/src/hetAcquire.c:418-452 | the kinds of words as ranges of numbers, and the one marker |
| HetScanner.OneEvent | het/src/hetAcquire.c:418-464 | marker, header, low, high, high, footer count as one event, and not before the footer |
| HetEvents.GreedyStep | het/src/hetAcquire.c:426-464 | the machine has always matched the longest prefix of the pattern |
| HetEvents.ScannerCountsEvents | het/src/hetAcquire.c:411-465 | the count is the number of markers whose segment contains the pattern as a subsequence |
| HetBlocks.BlocksLoseStraddler | het/src/hetAcquire.c:411-413 | count(a + b) is count(a) + count(b), plus one iff an event straddles the boundary |
| HetBlocks.OneBeforeMarker | het/src/hetAcquire.c:418-464 | from any state at most one event is counted before the next marker |
| HetBlocks.SwapBytes | het/src/hetAcquire.c:63-67 | a swapped word on a big-endian machine has the bytes of the word on a little-endian one |
| HetBlocks.ByteOrder | het/src/hetAcquire.c:63-67 | the order of the bytes, on one word |
| HetBlocks.BuildsAgree | het/src/hetAcquire.c:465-468 | both builds leave the same bytes in memory for every block |
| HetBlocks.ReassembleMemory | het/src/hetAcquire.c:63-67 | reading those bytes as little-endian words gives the block back |
| CrestStore.Handle.constructor | chaos_crest.c:392-398 | a new handle has an empty history and zero counters |
| CrestStore.Handle.AddCu | chaos_crest.c:426-528 | the unit is appended behind the others, its number is their count, and only output descriptors get their size |
| CrestStore.CountDirections | chaos_crest.c:444-448 | the first pass counts the slots of each direction |
| CrestStore.Partition | chaos_crest.c:460-524 | the cursors of the second pass never pass those counts, end at them, and the arrays are the filtered descriptors in order |
| CrestStore.MakeOutSlot | chaos_crest.c:474-516 | format and sizes of an output slot, branch by branch |
| CrestStore.Handle.UpdateAttribute | chaos_crest.c:530-573 | the write of one attribute enters the history, or -7 and nothing changes |
| CrestStore.UpdateSlot | chaos_crest.c:538-569 | every branch, with the base64 text and the growing buffer, prints the value into the slot |
| CrestStore.Handle.UpdateAt | chaos_crest.c:575-586 | the write enters the history of that unit, or -8 or -7 and nothing changes |
| CrestStore.Handle.UpdateByName | chaos_crest.c:588-608 | the first output of that name is written; -9 iff there is none |
| CrestStore.Handle.PushCuInt | chaos_crest.c:743-817 | one post enters the history with the document of the state, and the counters follow its outcome; `wild` iff there is no buffer to print into |
| CrestStore.Assemble | chaos_crest.c:767-795 | the bounded appends build the header, the values and the brace, cut once |
| CrestStore.Handle.PushCu | chaos_crest.c:888-891 | one push is one turn of the unit, or wild |
| CrestStore.Handle.RegisterCu | chaos_crest.c:818-886 | the outputs go back to their defaults, then the unit posts with number 0, whether or not the post succeeds; `wild` iff it has no outputs or has inputs |
| CrestStore.RegisterSlots | chaos_crest.c:837-857 | every output slot is printed with its type's default |
| CrestStore.Handle.Register | chaos_crest.c:892-911 | one unit, or all in order up to the first failure or wild unit; 0 iff every post succeeded |
| CrestStore.Handle.Push | chaos_crest.c:913-932 | the same for pushes of either dataset, which change no slot |
| CrestLaws.PrintedAttribute | chaos_crest.c:482-484 | a formatted attribute is its quoted name and its value wrapped as its type asks, for every value, iff name and format fit the 256 characters |
| CrestLaws.SlotHoldsExactly | chaos_crest.c:485-516 | a slot of any type holds the text of an attribute whole iff it leaves room for a NUL |
| CrestLaws.NeverGrows | chaos_crest.c:554-567 | the base64 text never exceeds the slot of 3n + 16 characters, so the buffer never grows |
| CrestLaws.NotTruncated | chaos_crest.c:566 | a binary value is whole iff its wrapped text fits, and always when 5n >= 3f - 43 |
| CrestLaws.WholeVectors | chaos_crest.c:488-511 | all bytes of a vector are encoded iff its elements are not 16 bits wide; of those, half are |
| CrestLaws.PartitionKeepsOrder | chaos_crest.c:460-524 | each descriptor stands behind those of its direction that came before it |
| CrestLaws.StoreRefinesLastWrite | chaos_crest.c:530-586 | in every history each attribute shows its last write, or its default if registered since, and units stay as declared |
| CrestDocs.ValuesAlwaysFit | chaos_crest.c:767-773 | all values with commas and a NUL fit the summed size |
| CrestDocs.DocumentFitsExactly | chaos_crest.c:773-795 | the text is whole iff the slack is at least the header length h, and fits with its NUL iff it is at least h + 1 |
| CrestDocs.PostedShowsLatest | chaos_crest.c:743-817 | every posted document is the declared name, the current number and the latest values in dataset order, cut to its buffer, and whole iff the slack covers the header |
| CrestDocs.PostedValueExact | chaos_crest.c:538-569 | in every posted document a value is whole iff its text fits its slot: 63 characters for a scalar |
| CrestDocs.OthersDoNotShow | chaos_crest.c:575-586 | an event of another unit does not show, and a write shows in its own attribute only |
| CrestDocs.SameUnitSamePost | chaos_crest.c:743-817 | two histories that agree on the declaration, writes and registrations of a unit, whatever else they do, post the same text under the same number and clock |
| CrestTexts.Formats | chaos_crest.c:269-313 | the format of every type by its number, and the types that have none |
| CrestTexts.UnitOfDescriptors | chaos_crest.c:460-524 | each descriptor fills a slot for each of its directions, with its name, description, type, format and sizes |
| CrestTexts.WrittenReadsBack | chaos_crest.c:538-569 | a written value of any type reads back from the text of its attribute |
| CrestTexts.Defaults | chaos_crest.c:837-857 | what a registration shows, for the scalar types and plain binary |
| CrestTexts.VectorDefaults | chaos_crest.c:837-857 | the same for the vector types |
| CrestTexts.PostedText | chaos_crest.c:767-795 | every posted document is its opening with the declared name, the direction, number and clock, the values with commas between them, cut to the buffer, and a brace |
| CrestTexts.PostedHeader | chaos_crest.c:774-785 | with room, it starts with the declared name, has the direction field iff the post registers, and number and clock read back |
| CrestTexts.RegistrationShowsDefaults | chaos_crest.c:837-860 | a registration posts every attribute at its default |
| CrestTexts.TurnIs | chaos_crest.c:818-891 | a registration resets and then posts its unit, a push only posts it |
| CrestTexts.PushOrder | chaos_crest.c:913-932 | a push of all posts the units once each, in order, up to the first failure |
| CrestTexts.RegisterOrder | chaos_crest.c:892-911 | a registration of all resets and posts them once each, in order |
| CrestDocs.CountersStep | chaos_crest.c:800-808 | only posts touch the counters, and a failed push leaves them |
| CrestDocs.SequenceNumber | chaos_crest.c:774-808 | the sequence number counts the successful posts since the last registration attempt |
| CrestDocs.JthPushCarriesJ | chaos_crest.c:774-808 | after a successful registration the j-th successful push carries j, and a failed one leaves its number |
| CrestDocs.PushedNumber | chaos_crest.c:777 | that number is what a reader finds in the posted text |
| CrestDocs.PushTimes | chaos_crest.c:802-804 | total and maximum are those of the durations of all successful posts |
| Bson.Scan | chaos_crest.c:1007-1039 | the scan returns at most maxsize characters, all from the input |
| Bson.ValueIsCut | chaos_crest.c:1007-1041 | the bound cuts the unbounded value and changes nothing else; the value fills it iff the unbounded one is as long |
| BsonLaws.ScanExact | chaos_crest.c:1007-1039 | on every text: the value ends at the first comma or at the brace that closes its outermost one, and keeps all but blanks, quotes and outermost open braces |
| BsonLaws.ValueExact | chaos_crest.c:989-1043 | the same for a key in a document |
| BsonLaws.KeysAreCut | chaos_crest.c:993-999 | the patterns that are looked for, cut to 255 characters |
| Bson.GetBsonValueR | chaos_crest.c:989-1043 | also when input and buffer are one array, the buffer ends up with the cut value in the old input, terminated unless the value fills the buffer; `overrun` iff it does |
| Bson.ScanValue | chaos_crest.c:1004-1039 | the write index stays behind the read index, so unread characters are intact |
| Bson.FindStart | chaos_crest.c:994-1000 | the value starts right behind the first occurrence of the quoted key, or, when there is none, of the bare one |
| Bson.CleanBson | chaos_crest.c:1045-1059 | the string is left without its quotes, in place |
| BsonLaws.UnquotedExact | chaos_crest.c:1045-1059 | removing quotes keeps everything else in place |
| Bson.CuGet | chaos_crest.c:1084-1093 | the two extractions, the second on its own output, yield the time stamp of the answer, unless its first value has 1024 characters or more |
| BsonLaws.NestedValue | chaos_crest.c:1015-1035 | the value of a sub-document is its inside without blanks and quotes and with every inner brace, up to the matching brace or the first comma, cut to maxsize; it fills the bound iff it is as long |
| BsonLaws.OverrunHappens | chaos_crest.c:1041 | a document whose value has 1024 characters, on which the NUL goes behind the buffer |
| BsonLaws.BareValue | chaos_crest.c:998-999 | in text without quotes the bare key in front is found and the rest returned |
| BsonLaws.NestedExtraction | chaos_crest.c:1086-1088 | the second extraction yields exactly the inner value, in any spacing |
| BsonLaws.ScalarExact | chaos_crest.c:1007-1038 | a plain value comes back alone iff a comma or nothing follows; before a closing brace it keeps the brace |
| BsonLaws.TimestampReadBack | chaos_crest.c:1086-1090 | a printed 64-bit time stamp is the number returned |
| BsonLaws.AtollPrinted | chaos_crest.c:1090 | any printed number is taken with its sign, limited to 64 bits, and returned unsigned |
| Acquisition.DeclaredHetUnit | het/src/hetAcquire.c:70-83 | in every history a unit declared with the program's dataset has the outputs that the program updates |
| Acquisition.Cycle | het/src/hetAcquire.c:387-496 | the status is always written; when the board is ready, events and block after a good read, in both builds as the same bytes, and one push, whose document carries the status, the count and the words of `evtbuf`, or those of the last good read |
| Acquisition.Acquire | het/src/hetAcquire.c:358-497 | over any sequence of polls: one push per ready turn; from each document after a good read the status, the running count as a signed 64-bit number, and the last block read back |
| Acquisition.NumberIsReadBack | chaos_crest.c:538-544 | in every history the last value written to an integer attribute reads back from the posted text, behind the quoted name |
| Acquisition.BlockIsReadBack | chaos_crest.c:554-568 | in every history the posted text of a vector decodes, behind the quoted name, to the words last written |
| Acquisition.FifoSlot | het/src/hetAcquire.c:79-80 | the FIFO slot leaves more room than any header of the unit needs |
| Acquisition.HetBlockIsReadBack | het/src/hetAcquire.c:487-492 | every document of the acquisition unit carries its last block, word for word |

## Left out

- The mutex and condition handshake of `http_lib.c`, the requests it writes, and the mongoose client: the outcome of every post is a parameter of the handle, and `exit` is a number of rounds.
- HttpReader.HttpHandle.Receive: stops at a header line that fills its buffer without a NUL (`HttpLines.LineEnds` says when); the C code reads past the buffer there.
- HttpFraming.FramingNeverLosesSync: well-formed responses have no trailer fields, one framing and a positive length; `HttpEdges.dfy` says what the others give.
- `min_push` stays 0 in every reachable state, so the average and minimum times are not stated further.
- CrestStore.Handle.Register, CrestStore.Handle.Push: end with `wild` where the C code leaves its buffers: input slots have neither format nor buffer, and a dataset without slots has no buffer.
- `nin` and `nout` are 0 when no attribute has that direction; the C code leaves them unset.
- CrestLaws.PrintedAttribute: for names without `%`; what `printf` makes of others is not defined.
- The text of a double is a parameter, since `%lf` is not modelled; 16-bit vectors are given by the bytes that the C code reads.
- CrestStore.Handle.PushCuInt: when the document and its NUL do not fit the buffer (`CrestDocs.DocumentFitsExactly` says when), the C code writes the NUL past it; the model goes on with the text.
- `CREST_TYPE_BINARY` text is not well-formed JSON, since its format has one brace too many; sizes and decoding hold for it.
- Bson.CuGet: ends with `overrun` where the C code writes behind its buffer.
- Acquisition.Acquire: the first updates and pushes of the program, before its loop, and the board's other registers are not modelled.
- `chaos_crest_cu_get_key_value`: its meaning is set by `strtok`, `sscanf` and overlapping `sprintf`.
- `chaos_crest_cu_get`: in the built configuration the request is compiled out and its result is unset, so the result is a parameter.
- Allocation always succeeds and sizes are unbounded; counters, durations and parsed numbers have their C widths.
- The board access in `het/src`, the debug branches, the C# client, LabVIEW and the build files.
