# dictconv StarDict decoder, in Dafny

This project models how dictconv reads a StarDict dictionary:

- `.ifo` metadata, a text file of `name=value` lines;
- `.idx` index, made of records that each hold a zero-terminated headword, a big-endian u32 payload offset and a big-endian u32 payload size;
- `.dict` payloads, each cut into typed chunks.

There are two readers:

- `lib/dict.js`, with `convertDictData`, `parseDictData` and the class `Dictionary` (`loadIfo`, `loadIdx` and `loadDict`);
- the older `lib/stardict.js`, with `loadIfo`, `loadIdx` and the `dictID` derivation in `fromIfo`.

The file contents are parameters: text for the `.ifo` file, a byte sequence for the others.

The model follows the JavaScript as written, quirks included:

- Node's `readUInt32BE` throws a RangeError past the end of the buffer. This becomes `Failure(OutOfRange(offset, length))`.
- `Buffer.slice` clamps its bounds.
- The 'ascii' decoding of a tag byte drops its high bit.
- `parseInt` follows ECMAScript, and NaN counts as a loop bound of zero passes.
- `x && parseInt(x)` is kept as three cases: undefined, the empty string, or a number.
- `types.split()` with no separator gives the one-element array `[types]`.
- The headword scan never tests the headword's first byte.
- A self-described media chunk advances the cursor by its length twice.
- A declared media type swallows the rest of the payload.
- A missing `wordcount` runs zero passes and throws nothing, because `0 < undefined` is false (`Dict.MissingWordcount`).
- The placeholder texts carry the prefix "dictconv: ", as the code writes them.

Modules:

- `Wrappers`: `Option`, `Result`, and `Prepend` on results.
- `Buffers`: bytes, u32, `readUInt32BE`, `slice`, the tag-byte decoding and the zero-terminator scan.
- `JsNumbers`: `parseInt(s, 10)` and the pass count of `for (let i = 0; i < n; i += 1)`.
- `IfoText`: the `.ifo` parse that both readers share, made of two regular expressions and a reduce with object spread.
- `IdxFormat`: the `.idx` scan that both readers share, as a method `ScanIdx` proved against the function `IdxEntries`. It also gives an encoder for records and the round trip through it.
- `DictData`: `convertDictData` and `parseDictData`. The method `ParseDictData` is proved equal to the function `Chunks`. Lemmas prove a round trip for each of the two modes, the quirks, and the examples from `tests/dict.test.js`.
- `Dict`: the class `Dictionary`, with fields `ifo`, `idx` and `data` and a method per load, plus `Open` for its constructor.
- `Stardict`: the older reader's `loadIdx`, a lemma that both readers derive the same loop bound and size warning, and the `dictID` derivation.

## Model

| member | source | states |
|---|---|---|
| Buffers.ReadUInt32BE | lib/dict.js:139-143 | succeeds exactly when four bytes remain at the offset; then it yields their big-endian value; otherwise it fails with the offset and the buffer length |
| Buffers.WriteReadU32BE | lib/dict.js:139-143 | the four bytes read are the big-endian encoding of the number read |
| Buffers.ReadWriteU32BE | lib/dict.js:139-143 | reading back an encoded u32 gives the same number |
| Buffers.ReadU32BEAt | lib/dict.js:139-143 | a u32 whose encoding sits at an offset is read back from there |
| Buffers.BigEndianDigits | lib/dict.js:139-143 | the four bytes are the base-256 digits of the value they form |
| Buffers.ReadU32BE | lib/dict.js:139-143 | the big-endian value of four bytes; `WriteReadU32BE` and `ReadWriteU32BE` prove it inverse to the encoding |
| Buffers.Slice | lib/dict.js:154 | an in-range `slice` is the sub-sequence; a range crossing the end is cut at the end; a start at or past the end gives an empty buffer |
| Buffers.SliceWithin | lib/dict.js:154 | whatever the bounds, a slice is a contiguous run of its buffer |
| Buffers.TagChar | lib/dict.js:29 | the decoded tag is 7-bit: a byte below 0x80 decodes to itself, and a byte of 0x80 or more to the byte minus 0x80 |
| Buffers.ZeroRun | lib/dict.js:51 | the run from the cursor has no zero byte; it ends at a zero byte or at the end of the buffer; it is empty past the end |
| Buffers.ZeroRunIs | lib/dict.js:51 | a zero-free run that ends at a zero byte or at the end of the buffer is the scanned run |
| Buffers.FindZero | lib/dict.js:51 | the `while` scan for the terminator returns the length of the zero-free run |
| JsNumbers.ParseInt | lib/dict.js:119 | the result is a number exactly when a digit follows the leading whitespace and the optional sign; a negative result comes only after a '-' |
| JsNumbers.Unsigned | lib/dict.js:119 | drops one leading '-' or '+' and nothing else |
| JsNumbers.TrimStart | lib/dict.js:119 | what `parseInt` keeps is a suffix of the string that does not start with whitespace |
| JsNumbers.TrimStartDropsSpaces | lib/dict.js:119 | everything dropped before it is JavaScript whitespace |
| JsNumbers.LeadingDigits | lib/dict.js:119 | the digits read are the longest all-digit prefix |
| JsNumbers.Decimal | lib/dict.js:119 | a decimal rendering is a non-empty string of digits |
| JsNumbers.DigitsValueDecimal | lib/dict.js:119 | the digits of `n` have the value `n` |
| JsNumbers.ParseIntDecimal | lib/dict.js:119 | `parseInt` reads back `n` from its decimal rendering, after any whitespace and before any non-digit text |
| JsNumbers.ParseIntOfDecimal | lib/dict.js:119 | `parseInt(String(n), 10)` is `n` |
| JsNumbers.ParseIntNegative | lib/dict.js:119 | the same holds with a minus sign, giving `-n` |
| JsNumbers.ParseIntNoDigits | lib/dict.js:119 | without a digit after the whitespace and the sign, the result is NaN |
| JsNumbers.TrimSpaces | lib/dict.js:119 | any whitespace prefix is dropped, and nothing after it |
| JsNumbers.LeadingDigitsOf | lib/dict.js:119 | the digits read stop at the first non-digit |
| JsNumbers.Trips | lib/dict.js:133 | the loop runs once for each `i` with `i < wordcount`, so NaN and non-positive counts give no pass |
| IfoText.Lines | lib/dict.js:115 | the `m` flag splits the text into at least one line, none holding a line terminator |
| IfoText.LinesOfJoin | lib/dict.js:115 | splitting lines joined with newlines gives the lines back |
| IfoText.LinesPrefix | lib/dict.js:115 | text without a terminator joins the first line that follows it |
| IfoText.LastEq | lib/dict.js:116 | finds the last '=' or reports that there is none |
| IfoText.Matches | lib/dict.js:115 | the test of `^.+=.+$` on one line; `MatchesIff` states which lines it accepts |
| IfoText.MatchesIff | lib/dict.js:115 | a line matches `^.+=.+$` if and only if it has an '=' that is neither its first nor its last character |
| IfoText.SplitPair | lib/dict.js:116 | the name and the value are non-empty and rebuild the line around an '='; the value has no '=' except possibly its last character |
| IfoText.SplitPairOf | lib/dict.js:116 | a name and a value with no inner '=' are split back out of `name=value` |
| IfoText.GreedyNameExamples | lib/dict.js:115-116 | "a=b=c" splits into "a=b" and "c"; "a=b=" into "a" and "b="; "=b", "a=" and "[Dictionary]" are skipped |
| IfoText.PairsOf | lib/dict.js:115-116 | at most one pair per line, both parts non-empty |
| IfoText.PairsOfAppend | lib/dict.js:115-116 | the pairs of two line blocks are the pairs of each, in order |
| IfoText.Fold | lib/dict.js:115-118 | every entry of the map comes from some pair |
| IfoText.FoldLastWins | lib/dict.js:117 | a key maps to the value of its last pair |
| IfoText.FoldKeys | lib/dict.js:115-118 | a key is in the map if and only if some pair carries it |
| IfoText.ParseIfo | lib/dict.js:113-121 | keys and values of the metadata map are non-empty; the same parse is `loadIfo` at lib/stardict.js:8-15 |
| IfoText.ParseIfoAppendLine | lib/dict.js:115-118 | an added line sets its pair when it matches, overwriting any earlier value, and changes nothing when it does not |
| IdxFormat.HeadwordLen | lib/dict.js:134-135 | the scan starts one byte in and stops at a zero byte or the end of the buffer; the headword has at least one byte |
| IdxFormat.IdxRecord | lib/dict.js:134-145 | one record succeeds exactly when the headword, its terminator and both u32 fields fit; the entry gets the ordinal; the cursor advances by at least ten bytes and stays in the buffer |
| IdxFormat.RecordLayout | lib/dict.js:134-145 | a read record is its headword bytes, a zero byte, the offset's and then the size's big-endian encoding |
| IdxFormat.IdxFrom | lib/dict.js:133-146 | the remaining passes give one entry each, numbered consecutively |
| IdxFormat.IdxEntries | lib/dict.js:131-147 | on success there are `wordcount` entries with ids 0 to `wordcount - 1`; a zero count gives no entry and no error |
| IdxFormat.ScanIdx | lib/dict.js:131-147 | the record loop computes `IdxEntries` |
| IdxFormat.ReadRecord | lib/dict.js:134-145 | one loop pass computes `IdxRecord` |
| IdxFormat.IdxRecordOf | lib/dict.js:134-145 | with both fields readable, the record holds the sliced headword, both numbers and the cursor `pos + l + 9` |
| IdxFormat.IdxFromDone | lib/dict.js:133 | no pass is left once `i` reaches the count |
| IdxFormat.HeadwordLenOf | lib/dict.js:135 | a headword written with its terminator is scanned back whole |
| IdxFormat.RecordFieldsAt | lib/dict.js:134-145 | an encoded record lays out the headword, a zero byte, the offset and the size |
| IdxFormat.RecordAt | lib/dict.js:134-145 | an encoded record is read back as the same entry, with the cursor just past it |
| IdxFormat.IdxFromStep | lib/dict.js:133-146 | a successful pass prepends its entry to the rest of the scan |
| IdxFormat.IdxFromFails | lib/dict.js:139-143 | a pass that throws makes the whole load throw the same error |
| IdxFormat.IdxFromEncoded | lib/dict.js:133-146 | encoded records, numbered from `i`, are scanned back from the cursor |
| IdxFormat.IdxFromCons | lib/dict.js:133-146 | an encoded record at the cursor is the first entry of the rest of the scan |
| IdxFormat.IdxEntriesEncoded | lib/dict.js:131-147 | a buffer that starts with encoded records gives them back |
| IdxFormat.IdxRoundTrip | lib/dict.js:131-147 | encoding entries numbered 0..n-1 and loading `n` records gives the entries back, whatever follows |
| IdxFormat.FirstHeadwordByteNeverTested | lib/dict.js:134-135 | a headword that is a single zero byte is still read; a record whose first byte is its terminator is misread, its fields shifted by one byte, and a one-entry index holding only such a record throws |
| DictData.IsMedia | lib/dict.js:33-35 | the media types are exactly "W", "P" and "X" |
| DictData.IsResource | lib/dict.js:43 | the resource type is exactly "r" |
| DictData.IsHtml | lib/dict.js:8 | the HTML type is exactly "h" |
| DictData.ConvertDictData | lib/dict.js:6-22 | the text carries the given bytes; it passes through `html2text` exactly for type "h"; every other type, including the legacy ones, is only decoded |
| DictData.BodyCut | lib/dict.js:51 | a body runs from the cursor to the next zero byte or to the end, and lies inside the buffer |
| DictData.TextStep | lib/dict.js:50-57 | a text chunk gets the type, and the cursor moves forward |
| DictData.SelfStep | lib/dict.js:29-57 | one tagged chunk gets the tag character; it throws exactly when the tag is a media type with fewer than five bytes left; the cursor moves forward |
| DictData.SelfChunks | lib/dict.js:26-58 | every self-described chunk has a one-character 7-bit tag; there are no chunks past the end |
| DictData.DeclaredStep | lib/dict.js:64-96 | one declared chunk gets the declared type; it throws only for a media type that is not the last type with fewer than four bytes left; a media type that is the last type ends the payload |
| DictData.DeclaredRun | lib/dict.js:63-97 | every chunk of a declared run carries the declared type |
| DictData.DeclaredChunks | lib/dict.js:60-98 | every chunk carries the first type; no types give no chunks |
| DictData.TextStepCut | lib/dict.js:54 | a text chunk's text is a placeholder or a zero-free run of the payload |
| DictData.SelfStepCut | lib/dict.js:54 | a tagged chunk's text is a placeholder or a zero-free run of the payload |
| DictData.SelfChunksCut | lib/dict.js:26-58 | the same holds for every self-described chunk |
| DictData.DeclaredStepCut | lib/dict.js:93 | a declared chunk's text is a placeholder or a zero-free run of the payload |
| DictData.DeclaredRunCut | lib/dict.js:63-97 | the same holds for every chunk of a declared run |
| DictData.ChunksCut | lib/dict.js:24-101 | every chunk of a payload, in either mode, is a placeholder or a zero-free run of the payload |
| DictData.SelfText | lib/dict.js:50-57 | a non-media tag reads a text chunk from the next byte |
| DictData.SelfChunksStep | lib/dict.js:28-58 | the self-described loop prepends each chunk to what follows it |
| DictData.DeclaredRunStep | lib/dict.js:63-97 | the declared loop prepends each chunk to what follows it |
| DictData.BodyAt | lib/dict.js:51 | a zero-free body followed by its terminator is scanned back whole |
| DictData.TextStepAt | lib/dict.js:50-57 | such a body gives the chunk of that body, and the cursor moves past its terminator |
| DictData.FieldChunks | lib/dict.js:26-58 | one chunk per field |
| DictData.FieldChunksCons | lib/dict.js:26-58 | the chunks of fields are the first field's chunk, then the rest |
| DictData.SelfStepAt | lib/dict.js:29-57 | an encoded field (tag, body, zero) is read back as its chunk, and the cursor lands just past it |
| DictData.SelfChunksEncoded | lib/dict.js:26-58 | encoded non-media fields at the cursor are read back as their chunks |
| DictData.SelfRoundTrip | lib/dict.js:26-58 | a payload of encoded non-media fields gives their chunks, both with no `sametypesequence` and with an empty one |
| DictData.SelfMediaAdvance | lib/dict.js:33-57 | a self-described media chunk gives the placeholder and moves the cursor to `pos + 6 + 2 * length`, so its length is skipped twice |
| DictData.BodyChunks | lib/dict.js:60-98 | one chunk per body |
| DictData.DeclaredStepAt | lib/dict.js:89-96 | a zero-free body with its terminator gives the declared type's chunk, and the cursor moves past it |
| DictData.DeclaredRunEncoded | lib/dict.js:63-97 | zero-terminated bodies at the cursor are read back as their chunks |
| DictData.DeclaredRoundTrip | lib/dict.js:59-98 | zero-terminated bodies under a non-media declared type give one chunk per body, in order |
| DictData.DeclaredUnterminated | lib/dict.js:90 | a body with no terminator gives one chunk covering the whole payload |
| DictData.DeclaredMedia | lib/dict.js:70-76 | a declared media type gives exactly one placeholder chunk and discards the rest of the payload |
| DictData.DeclaredRunTotal | lib/dict.js:63-97 | when the declared type is the last type, the run never throws |
| DictData.DeclaredTotal | lib/dict.js:59-98 | a declared payload never throws, and every chunk carries the declared string |
| DictData.SingleFieldRecord | lib/dict.js:26-58 | an 'm' tag, a text and a zero give one decoded "m" chunk of that text |
| DictData.TwoBodiesRecord | lib/dict.js:60-98 | `sametypesequence` "mm" is one type "mm", so two terminated texts give two "mm" chunks |
| DictData.ResourceRecord | lib/dict.js:82-88 | a declared "r" body gives the resource placeholder |
| DictData.DeclaredMediaExample | lib/dict.js:67-81 | "W" over a five-byte payload gives one media placeholder |
| DictData.HighBitMediaTag | lib/dict.js:29-36 | the byte 0xD7 decodes to the media tag 'W', so a short payload starting with it throws on the length read |
| DictData.SelfMediaSkipsExample | lib/dict.js:33-57 | a "W" chunk of declared length 1 skips its byte twice, and a stray chunk follows |
| DictData.Chunks | lib/dict.js:24-101 | with no or an empty `sametypesequence` every chunk tag is one character; otherwise every tag is the whole `sametypesequence` string |
| DictData.ParseDictData | lib/dict.js:24-101 | both loops compute `Chunks` |
| DictData.ReadTaggedChunk | lib/dict.js:29-57 | one pass of the self-described loop computes `SelfStep` |
| DictData.ReadTypedChunk | lib/dict.js:64-96 | one pass of the declared loop computes `DeclaredStep` |
| DictData.DeclaredText | lib/dict.js:89-96 | a non-media declared type reads a text chunk at the cursor |
| Dict.Coerce | lib/dict.js:119-120 | `x && parseInt(x)` is undefined exactly when the key is absent, and the empty string exactly when its value is empty |
| Dict.IfoOf | lib/dict.js:113-122 | the metadata is the parsed map; `wordcount` and `idxfilesize` are undefined exactly when absent, and never the empty string |
| Dict.WordcountDecimal | lib/dict.js:119 | a `wordcount` written in decimal becomes that number |
| Dict.Bound | lib/dict.js:133 | an undefined, empty or NaN count gives no pass; a number gives its trip count |
| Dict.SizeMismatch | lib/dict.js:128 | an undefined, empty or NaN `idxfilesize` always warns; a size equal to the length never does |
| Dict.SameTypeSequence | lib/dict.js:154 | the chunk types are given exactly when `sametypesequence` is present |
| Dict.Payload | lib/dict.js:154 | an entry's payload is its bytes of the `.dict` buffer, cut short at the end of the buffer, and empty when the offset is past the end |
| Dict.RecordsFrom | lib/dict.js:152-155 | on success one record per remaining entry |
| Dict.DictRecords | lib/dict.js:150-156 | on success one record per index entry; `DictRecordsShape` states their contents and when the load throws |
| Dict.RecordsFromShape | lib/dict.js:152-155 | the records are the entries, in order, each with its parsed chunks |
| Dict.RecordsFromFails | lib/dict.js:152-155 | the map throws exactly when some payload throws |
| Dict.DictRecordsShape | lib/dict.js:150-156 | one record per index entry, in index order, each carrying the chunks of its payload; the load throws exactly when some payload throws |
| Dict.DeclaredRecordsTotal | lib/dict.js:150-156 | with a non-empty `sametypesequence`, loading the payloads never throws |
| Dict.Dictionary.LoadIfo | lib/dict.js:113-122 | `ifo` becomes the parsed metadata; `idx` and `data` are unchanged |
| Dict.Dictionary.LoadIdx | lib/dict.js:124-148 | warns exactly when the length differs from `idxfilesize`; `idx` becomes the scanned entries, or the error is returned and `idx` is unchanged |
| Dict.Dictionary.LoadDict | lib/dict.js:150-156 | `data` becomes the records of every entry, or the error is returned and `data` is unchanged |
| Dict.Open | lib/dict.js:104-111 | the constructor runs the three loads in order: a fresh dictionary holding the metadata, the entries and the records, or the first error thrown |
| Dict.MissingWordcount | lib/dict.js:133 | with no `wordcount` line the index is empty and the load does not throw |
| Stardict.IntArg | lib/stardict.js:51 | `parseInt` of a missing key is NaN |
| Stardict.LoadIdx | lib/stardict.js:17-36 | warns exactly when the length differs from the parsed size; the entries are the scan of `parseInt(wordcount)` records, as many as the count |
| Stardict.NoCountNoEntries | lib/stardict.js:24 | a NaN or non-positive count gives no entry and no error |
| Stardict.LoadersAgree | lib/stardict.js:51 | both readers derive the same number of passes and the same size warning from the same `.ifo` text |
| Stardict.LastSegment | lib/stardict.js:79 | the path's suffix after its last separator, holding no separator |
| Stardict.EndsWithIfo | lib/stardict.js:80 | `fname.endsWith('.ifo')` |
| Stardict.DictId | lib/stardict.js:79-80 | the last segment without its ".ifo" suffix when it has one, otherwise the whole segment |
| Stardict.LastSegmentOf | lib/stardict.js:79 | a separator-free name after a separator is the last segment, whatever the directory |
| Stardict.StripIfo | lib/stardict.js:80 | dropping ".ifo" leaves a separator-free name that gives the file name back when ".ifo" is appended |
| Stardict.DictIdOfIfo | lib/stardict.js:79-80 | `dir/name.ifo` is named `name` |
| Stardict.DictIdWithoutSuffix | lib/stardict.js:80 | a name without ".ifo" is kept whole |

## Left out

- Reading files (`fs.readFileSync`): the `.ifo` text and the `.idx` and `.dict` bytes are parameters.
- Console output: the size warning of `loadIdx` is returned as the `mismatch` flag.
- `loadRes` only logs. The constructor is modelled for calls without a resource file.
- UTF-8 decoding (`Buffer.toString`) and `html2text` are not interpreted. A chunk's text records its bytes and whether `html2text` is applied.
- `parseInt` is modelled on integers. It loses precision above 2^53 in JavaScript, and counts that large are not modelled.
- The 64-bit offsets of version "3.0.0" with `idxoffsetbits=64` are not modelled. The source always reads 32-bit offsets, and so does the model.
- In `fromIfo`, only the `dictID` derivation is modelled. The existence checks, `convert` (XML and plist output), gunzip, tar and temporary directories are file-system and process I/O.
- `path.sep` is a parameter. `Stardict.DictIdOfIfo` assumes it is '/' or '\\', the two values Node uses.
- StarDict's own format description gives one type per letter of `sametypesequence`. The code's `types.split()` keeps the whole string as one type, and the model follows the code.
- `tests/dict.test.js` also covers `parsePowerWord` and Pango or XDXF conversions. The modelled `lib/dict.js` has none of these: it only decodes those types.
- The examples of `tests/dict.test.js` are proved for every zero-free body, not for their literal ASCII texts.
- Dict.DictRecordsShape: states that the load throws when some payload throws, not that the error is the first failing entry's. `Dict.Dictionary.LoadDict` and `Dict.Open` return exactly that error.
- Stardict.LoadersAgree: compares the pass count and the warning, not the full metadata objects. dict.js stores numbers for two keys where stardict.js keeps strings.
