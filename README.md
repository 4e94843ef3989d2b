# A verified model of the multipart/form-data reader

This project models `src/utils/multipart-parser.js`, the streaming
`multipart/form-data` reader that turns a request or response body into a
`FormData`. The file has three parts, and each one is modelled here.

- **`MultipartParser`** is a byte-level state machine. It is built for a
  boundary token and fed the body chunk by chunk with `write`, then closed
  with `end`. As it goes it calls the handlers `partBegin`, `headerField`,
  `headerValue`, `headerEnd`, `headersEnd`, `partData`, `partEnd` and `end`.
  It skips ahead over bytes that cannot start the delimiter
  `CR LF "--" token` (section 5.1.1 of RFC 2046). It keeps a partial
  delimiter match in a lookbehind buffer and re-delivers that buffer as data
  when the match fails.
- **`_fileName`** picks the `filename` parameter out of a
  `Content-Disposition` value. It then cuts the name after its last
  backslash, unescapes `%22` and decodes `&#DDDD;` references.
- **`toFormData`** checks the content type and extracts its boundary. It
  then feeds the body to a parser and folds the parser's handler calls into
  an ordered list of form entries, each either text or a file.

The model is split into these modules:

- `Multipart` (multipart.dfy) holds the specification of the machine. `Step`
  is one iteration of the `write` loop, `Run` is the loop, `Feed` is a whole
  `write` and `Close` is `end`. The handler calls become an event trace
  inside the machine. The class `MultipartParser` holds the object's fields
  and mutates them in place, as the source does. Its methods `Write` and
  `End` are proved to compute exactly what `Feed` and `Close` say, loop and
  lookbehind array included.
- `MultipartProofs` (multipart_proofs.dfy) proves what the machine promises:
  - which bytes make `write` return early;
  - the opening and closing delimiter sequences;
  - the lookbehind invariant;
  - re-delivery after a failed match;
  - that no span is delivered empty;
  - the documented quirks.
- `HeaderParams` (header_params.dfy) contains the fixed regular expressions
  of the source, written as left-to-right scanners, and the post-processing
  of `_fileName`.
- `FormData` (form_data.dfy) gives the closure state of `toFormData` as the
  class `FormAssembler`, whose methods are the handlers. `Handle` and
  `HandleAll` are the functions the handler methods are proved against.
  `ToFormData` is the whole operation. `FormDataProofs`
  (form_data_proofs.dfy) proves what the entry list looks like.
- `Bytes` (bytes.dfy) and `Wrappers` (wrappers.dfy) hold shared helpers:
  bytes and their constants, and `Option` and `Result`.

In `toFormData`, `headerField` and `headerValue` are reset only in
`onPartBegin` (`:383-384`); `onHeaderEnd` stores the lower-cased name back
and never clears either string. Each header's name and value are therefore
appended to those of the headers before it in the same part. A
`Content-Type` that follows a `Content-Disposition` is compared as
`content-dispositioncontent-type`, so the file's type stays empty
(`FormDataProofs.TypeAfterDispositionIgnored`). A disposition can also be
spread over two headers named `Content` and `-Disposition`
(`FormDataProofs.DispositionAcrossHeaders`).

## Model

| member | source | states |
|---|---|---|
| Bytes.LowerSetsBit | src/utils/multipart-parser.js:35-37 | `c \| 0x20` keeps every bit of `c` except bit 5, which it sets |
| Bytes.LowerIsLetterTest | src/utils/multipart-parser.js:174-177 | `c \| 0x20` lies in `a`..`z` exactly when `c` is an ASCII letter of either case |
| Bytes.CodeUnitByte | src/utils/multipart-parser.js:49 | storing a character's code in a `Uint8Array` keeps codes below 256 unchanged (for characters below U+10000, which are one UTF-16 code unit each) |
| Bytes.AsciiLowerChar | src/utils/multipart-parser.js:402 | upper-case ASCII letters move up by 32 and every other character is kept |
| Bytes.AsciiLower | src/utils/multipart-parser.js:402 | the lower-cased name has the same length and is lower-cased character by character |
| Bytes.Latin1 | src/utils/multipart-parser.js:393-397 | the decoded header text has one character per byte, with the byte's code |
| Multipart.Delimiter | src/utils/multipart-parser.js:46-49 | for token characters below U+10000 (one UTF-16 code unit each), the delimiter is CR LF `--` followed by the token's code units truncated to bytes, and is 4 longer than the token |
| Multipart.BoundaryChars | src/utils/multipart-parser.js:50 | a byte is in `boundaryChars` exactly when it occurs in the delimiter |
| Multipart.Subarray | src/utils/multipart-parser.js:84 | `subarray` returns the slice on an in-range span, and clamps ends past the buffer |
| Multipart.Settle | src/utils/multipart-parser.js:88-96 | `dataCallback(name, true)` deletes the mark |
| Multipart.Flush | src/utils/multipart-parser.js:97-100 | the end-of-chunk `dataCallback(name)` moves an open mark to offset 0 and leaves a deleted one deleted |
| Multipart.FlushAll | src/utils/multipart-parser.js:298-300 | the three flushes restart every open mark at 0 and change nothing but the marks and the events |
| Multipart.SkipFrom | src/utils/multipart-parser.js:219-221 | the skip loop stops at the chunk end or at a byte of the delimiter |
| Multipart.SkipFromForeign | src/utils/multipart-parser.js:218-223 | every delimiter-length window the skip passes over holds a byte that is not in the delimiter |
| Multipart.SkipAhead | src/utils/multipart-parser.js:216-225 | the scan resumes at or after the current byte and at most at the chunk length |
| Multipart.SkipAheadSound | src/utils/multipart-parser.js:216-225 | no offset the skip passes over can start a delimiter that fits in the chunk |
| Multipart.StartBoundaryByte | src/utils/multipart-parser.js:112-146 | an opening-delimiter byte keeps `index` between -2 and the delimiter length minus 1, and accepts a byte by moving to the next one |
| Multipart.HeaderFieldByte | src/utils/multipart-parser.js:147-179 | a header-name byte keeps the machine consistent and accepts a byte by moving to the next one |
| Multipart.HeaderValueByte | src/utils/multipart-parser.js:187-194 | a header-value byte keeps the machine consistent and moves to the next one |
| Multipart.MatchByte | src/utils/multipart-parser.js:227-271 | the delimiter comparison keeps the machine consistent and `index` non-negative |
| Multipart.PartDataByte | src/utils/multipart-parser.js:210-290 | a part-data step never rejects and never goes past the chunk end plus 1; it only re-reads a byte (`i--`) when a match in progress has just failed |
| Multipart.Step | src/utils/multipart-parser.js:103-295 | one loop iteration keeps the machine consistent, and either advances or re-reads the byte with `index` dropping from positive to 0, so the loop ends |
| Multipart.Run | src/utils/multipart-parser.js:103-296 | the loop ends, and an early return happens at an offset inside the chunk |
| Multipart.RunAdvances | src/utils/multipart-parser.js:103 | an accepted byte hands the rest of the loop to the next offset |
| Multipart.Feed | src/utils/multipart-parser.js:58-307 | `write` returns at most the chunk length, and an early return keeps the stored `state`, `index` and flags at their values before the call |
| Multipart.FeedRejects | src/utils/multipart-parser.js:103-209 | a rejecting step at offset `i` makes `write` return `i`, with the registers restored |
| Multipart.FeedFinishes | src/utils/multipart-parser.js:298-306 | reaching the chunk end makes `write` return the length after the three flushes |
| Multipart.EncodeBoundary | src/utils/multipart-parser.js:46-51 | for token characters below U+10000 (one UTF-16 code unit each), the constructor's loop stores each code unit as a byte in a new array and collects the set of those bytes |
| Multipart.MultipartParser.constructor | src/utils/multipart-parser.js:40-56 | the new parser holds the delimiter, its byte set, a zeroed lookbehind of delimiter length plus 8, state START, a `null` index, no flags, no marks and no events |
| Multipart.MultipartParser.ScanStartBoundary | src/utils/multipart-parser.js:112-146 | the `START_BOUNDARY` case does exactly what `StartBoundaryByte` says |
| Multipart.MultipartParser.ScanHeaderField | src/utils/multipart-parser.js:147-179 | the `HEADER_FIELD` case does exactly what `HeaderFieldByte` says |
| Multipart.MultipartParser.ScanHeaderValue | src/utils/multipart-parser.js:180-194 | the `HEADER_VALUE_START`/`HEADER_VALUE` cases do exactly what the step says |
| Multipart.MultipartParser.SkipAheadFrom | src/utils/multipart-parser.js:216-225 | the skip loop over the chunk ends where `SkipAhead` says |
| Multipart.MultipartParser.MatchDelimiter | src/utils/multipart-parser.js:227-271 | the comparison with the delimiter does exactly what `MatchByte` says |
| Multipart.MultipartParser.ScanPartData | src/utils/multipart-parser.js:210-290 | the part-data case, including the in-place lookbehind write and the `i--`, does exactly what `PartDataByte` says |
| Multipart.MultipartParser.ScanByte | src/utils/multipart-parser.js:103-295 | the `switch` on the state does exactly what `Step` says |
| Multipart.MultipartParser.Advance | src/utils/multipart-parser.js:103-295 | one iteration hands the rest of the loop to the next offset, or is the early return |
| Multipart.MultipartParser.ScanChunk | src/utils/multipart-parser.js:103-296 | the `for` loop over the chunk computes what `Run` says |
| Multipart.MultipartParser.FlushMarks | src/utils/multipart-parser.js:298-300 | the three end-of-chunk flushes do what `FlushAll` says |
| Multipart.MultipartParser.Commit | src/utils/multipart-parser.js:298-306 | the registers are written back after the flush |
| Multipart.MultipartParser.Write | src/utils/multipart-parser.js:58-307 | `write` returns and leaves exactly what `Feed` says |
| Multipart.MultipartParser.End | src/utils/multipart-parser.js:309-324 | `end` raises `partEnd` and `end` at HEADER_FIELD_START with `index` 0, or in PART_DATA right after a whole delimiter; it does nothing in END and returns the error in every other state |
| MultipartProofs.StepRejectsIff | src/utils/multipart-parser.js:103-209 | a byte makes `write` return early exactly when it is offending: a non-letter in a header name other than CR or `-`, a `:` opening a name, a non-LF after a header CR, a wrong byte after the opening `--token`, or an uninitialised or PART_END state |
| MultipartProofs.RunInEnd | src/utils/multipart-parser.js:291-292 | in END the loop runs to the chunk end, and only the end-of-chunk flush changes anything |
| MultipartProofs.EndIgnoresBytes | src/utils/multipart-parser.js:291-306 | in END, `write` accepts the whole chunk and changes nothing but the flush |
| MultipartProofs.OpeningAdvances | src/utils/multipart-parser.js:138-146 | matching bytes of `--token` advance `index` one per byte up to the whole token |
| MultipartProofs.OpeningFirstByte | src/utils/multipart-parser.js:109-146 | the first `-` of the body moves START to START_BOUNDARY with `index` 1 |
| MultipartProofs.OpeningCrLf | src/utils/multipart-parser.js:113-130 | CR LF after the whole `--token` emits `partBegin` and moves to HEADER_FIELD_START with `index` 0 |
| MultipartProofs.OpeningDashes | src/utils/multipart-parser.js:113-126 | `--` after the whole `--token` emits `end`, moves to END and clears the flags |
| MultipartProofs.OpeningRestStartsPart | src/utils/multipart-parser.js:112-146 | the rest of the token plus CR LF, after the first `-`, starts a part |
| MultipartProofs.OpeningRestEndsBody | src/utils/multipart-parser.js:112-146 | the rest of the token plus `--`, after the first `-`, ends the body |
| MultipartProofs.OpeningBytesStartPart | src/utils/multipart-parser.js:109-146 | `--token` CR LF at the body start, byte by byte, starts a part |
| MultipartProofs.OpeningBytesEndBody | src/utils/multipart-parser.js:109-146 | `--token--` at the body start, byte by byte, ends the body |
| MultipartProofs.OpeningStartsPart | src/utils/multipart-parser.js:109-146 | `--token` CR LF emits only `partBegin`, sets `index` to 0 and moves to HEADER_FIELD_START |
| MultipartProofs.OpeningEndsBody | src/utils/multipart-parser.js:109-146 | `--token--` emits only `end`, moves to END and clears both flags |
| MultipartProofs.OpeningPrefix | src/utils/multipart-parser.js:46 | the opening bytes of the body split into `-`, the rest of the token and the two closing bytes |
| MultipartProofs.OpeningMismatchRestarts | src/utils/multipart-parser.js:138-144 | a byte that breaks `--token` is no error: matching restarts against CR LF `--token`, one byte in when that byte is CR |
| MultipartProofs.AfterDelimiter | src/utils/multipart-parser.js:237-276 | a CR or `-` right after a whole delimiter raises its flag and is kept in the lookbehind |
| MultipartProofs.LfAfterDelimiterCr | src/utils/multipart-parser.js:248-258 | LF after delimiter and CR clears the part flag and emits `partEnd` then `partBegin` |
| MultipartProofs.HyphenAfterDelimiterHyphen | src/utils/multipart-parser.js:259-276 | a second `-` emits `partEnd` then `end`, moves to END and clears both flags |
| MultipartProofs.ClosingStartsPart | src/utils/multipart-parser.js:237-258 | CR LF after a delimiter in part data emits `partEnd` then `partBegin`, with state HEADER_FIELD_START and `index` 0 |
| MultipartProofs.ClosingEndsBody | src/utils/multipart-parser.js:237-264 | `--` after a delimiter in part data emits `partEnd` then `end`, with state END and both flags cleared |
| MultipartProofs.ClosingMismatchRedelivers | src/utils/multipart-parser.js:246-287 | any other byte after a whole delimiter resets `index` to 0, delivers the delimiter bytes as one `partData`, restarts the data mark at that byte and reads it again |
| MultipartProofs.PartialMatchRedelivers | src/utils/multipart-parser.js:227-287 | a byte that breaks a partial match of `p` bytes delivers exactly `lookbehind[0..p)` as one `partData`, restarts the data mark at that byte and reads it again |
| MultipartProofs.StaleFlagMissesEnd | src/utils/multipart-parser.js:249-258 | with the part flag left over from a CR not followed by LF, a later `--token--` does not end the body: its delimiter goes back to part data |
| MultipartProofs.FailedPartBoundary | src/utils/multipart-parser.js:249-287 | a non-LF after delimiter and CR delivers the delimiter and the CR as data and re-reads the byte, without clearing the part flag |
| MultipartProofs.CloseMatchesTrailingDashes | src/utils/multipart-parser.js:317-320 | `end` right after a whole delimiter raises the same events as the `--` that would have closed the body |
| MultipartProofs.MatchShape | src/utils/multipart-parser.js:227-271 | the comparison leaves the lookbehind alone and only advances `index` by one over a matching byte or past the delimiter |
| MultipartProofs.PartDataKeepsSync | src/utils/multipart-parser.js:227-276 | a part-data step keeps `index` at most delimiter length plus 1 and keeps `lookbehind[0..index)` equal to the delimiter's prefix |
| MultipartProofs.PartDataFaithful | src/utils/multipart-parser.js:273-276 | a part-data step writes into the delimiter's positions of the lookbehind only the delimiter's own bytes |
| MultipartProofs.StepKeepsSync | src/utils/multipart-parser.js:103-295 | every step except a CR in a non-empty header name keeps the lookbehind invariant |
| MultipartProofs.OpeningKeepsSync | src/utils/multipart-parser.js:109-146 | opening-delimiter steps keep the invariant and leave the lookbehind alone |
| MultipartProofs.FieldKeepsSync | src/utils/multipart-parser.js:147-179 | header-name steps, barring that CR, keep the invariant and leave the lookbehind alone |
| MultipartProofs.ValueKeepsSync | src/utils/multipart-parser.js:180-194 | header-value steps keep the invariant and leave the lookbehind alone |
| MultipartProofs.RunKeepsSync | src/utils/multipart-parser.js:103-300 | on a chunk that is `Clean` (no CR is read inside a non-empty header name), the loop keeps the lookbehind invariant up to its end |
| MultipartProofs.FeedKeepsSync | src/utils/multipart-parser.js:58-307 | `write` keeps the lookbehind invariant, also when it returns early |
| MultipartProofs.HeaderCrDerails | src/utils/multipart-parser.js:152-209 | a CR inside a non-empty header name ends the header block and enters part data with `index` still holding the name length |
| MultipartProofs.StuckIndex | src/utils/multipart-parser.js:227-276 | past delimiter length plus 1, `index` never moves in part data and no delimiter is recognised |
| MultipartProofs.FilledAppend | src/utils/multipart-parser.js:84 | appending non-empty spans keeps every span non-empty |
| MultipartProofs.SettleFills | src/utils/multipart-parser.js:77-96 | delivering an open span up to an offset not before its mark adds no empty span |
| MultipartProofs.MatchFills | src/utils/multipart-parser.js:227-271 | the comparison adds no empty span |
| MultipartProofs.PartDataFills | src/utils/multipart-parser.js:210-290 | a part-data step adds no empty span and keeps the marks behind the loop offset |
| MultipartProofs.StartFills | src/utils/multipart-parser.js:112-146 | an opening step adds no empty span |
| MultipartProofs.FieldFills | src/utils/multipart-parser.js:151-179 | a header-name byte adds no empty span |
| MultipartProofs.ValueFills | src/utils/multipart-parser.js:187-194 | a header-value byte adds no empty span |
| MultipartProofs.OpeningStepFills | src/utils/multipart-parser.js:109-146 | steps at the opening delimiter add no empty span |
| MultipartProofs.FieldStepFills | src/utils/multipart-parser.js:147-179 | header-name steps add no empty span |
| MultipartProofs.ValueStepFills | src/utils/multipart-parser.js:180-194 | header-value steps add no empty span |
| MultipartProofs.StepFills | src/utils/multipart-parser.js:103-295 | no step delivers an empty span while the open marks lie at or before the byte read |
| MultipartProofs.FlushOneFills | src/utils/multipart-parser.js:97-100 | one end-of-chunk flush adds no empty span and leaves its mark at 0 |
| MultipartProofs.FlushFills | src/utils/multipart-parser.js:298-300 | the end-of-chunk flush delivers no empty span and leaves every mark at 0 |
| MultipartProofs.RunFills | src/utils/multipart-parser.js:103-300 | the loop delivers no empty span |
| MultipartProofs.FeedFills | src/utils/multipart-parser.js:58-307 | a `write` that starts with every mark at 0 delivers no empty span and, when it accepts the chunk, leaves the marks at 0 for the next one |
| MultipartProofs.StaleMarkFlushesEmpty | src/utils/multipart-parser.js:77-100 | a mark left past the end of the next chunk, as an early return can leave one, is flushed as an empty span |
| MultipartProofs.NoForeignInDelimiter | src/utils/multipart-parser.js:219 | a window holding the delimiter has no byte foreign to it, so the skip never passes a delimiter |
| MultipartProofs.DataStep | src/utils/multipart-parser.js:213-236 | with no match in progress, the skip stops at some offset; a CR there delivers the open data span up to it and starts a match with the CR in the lookbehind, and any other byte, or the chunk end, leaves the machine unchanged and resumes after it |
| MultipartProofs.LastBoundaryMismatch | src/utils/multipart-parser.js:259-287 | after a delimiter and one `-`, any byte but `-` delivers the delimiter and the `-` as one span of data, restarts the data mark at that byte, reads it again and leaves the last-boundary flag set |
| MultipartProofs.CallbackData | src/utils/multipart-parser.js:77-86 | delivering a whole chunk adds exactly its bytes to the data delivered |
| MultipartProofs.RunPlainData | src/utils/multipart-parser.js:210-300 | part data without a CR is skipped to the chunk end with the machine unchanged, leaving only the end-of-chunk flush |
| MultipartProofs.PlainStep | src/utils/multipart-parser.js:213-236 | with no CR ahead in the chunk, a part-data step with no match in progress only skips, leaving the machine unchanged |
| MultipartProofs.PlainDataFeed | src/utils/multipart-parser.js:58-307 | `write` of such a chunk from the start of a chunk accepts it whole and delivers it as one `partData` |
| MultipartProofs.PlainDataBytes | src/utils/multipart-parser.js:58-307 | such a `write` changes nothing but the events, and adds the chunk's bytes to the data delivered |
| MultipartProofs.PlainDataSplit | src/utils/multipart-parser.js:58-307 | two `write` calls of part data without a CR accept both chunks and leave the machine that one `write` of the joined chunk leaves, events aside |
| MultipartProofs.PlainDataSplitBytes | src/utils/multipart-parser.js:58-307 | the two calls and the one call deliver the same bytes in the same order |
| MultipartProofs.SplitCallbacksBytes | src/utils/multipart-parser.js:77-86 | delivering `c1` then `c2` carries the same bytes as delivering `c1 + c2` |
| MultipartProofs.NoCrSplit | src/utils/multipart-parser.js:213-236 | both halves of a chunk with no CR hold none |
| MultipartProofs.DataByte | src/utils/multipart-parser.js:213-236 | when no CR precedes the next delimiter and no match is in progress, the skip stops no later than the next delimiter; a byte before it leaves the machine unchanged, and the delimiter's CR delivers the open data span up to it and starts a match with the CR in the lookbehind |
| HeaderParams.OccursFromIff | src/utils/multipart-parser.js:345 | `/multipart/i.test` holds exactly when the word occurs in either case |
| HeaderParams.LeftmostFirst | src/utils/multipart-parser.js:329 | a search without `g` finds a match exactly when some position matches, and captures at the first one |
| HeaderParams.RunEnd | src/utils/multipart-parser.js:405 | a run of characters ends inside the string |
| HeaderParams.RunEndLongest | src/utils/multipart-parser.js:405 | a greedy character class takes the longest run |
| HeaderParams.LazyClose | src/utils/multipart-parser.js:329 | the lazy `"(.*?)"` closes inside the string |
| HeaderParams.LazyCloseFirst | src/utils/multipart-parser.js:329 | `"(.*?)"($\|;\s)` closes at the first quote followed by a terminator, with no line terminator before it; when there is none, every candidate quote lies after a line terminator |
| HeaderParams.FirstMatchWins | src/utils/multipart-parser.js:346 | the capture comes from the first position that matches |
| HeaderParams.QuotedFileNameAt | src/utils/multipart-parser.js:329-334 | a quoted `filename="x"` closing the value captures `x` whole |
| HeaderParams.TokenFileNameAt | src/utils/multipart-parser.js:329-334 | a token `filename=x` followed by the end or `;` plus white space captures `x` |
| HeaderParams.QuotedNameAt | src/utils/multipart-parser.js:405-409 | a quoted `name="x"` captures `x` up to the next quote |
| HeaderParams.QuotedBoundaryAt | src/utils/multipart-parser.js:346-348 | a non-empty quoted boundary is captured without its quotes |
| HeaderParams.BareBoundaryAt | src/utils/multipart-parser.js:346-348 | an unquoted boundary runs to the next `;`; `boundary=""` yields the two quotes |
| HeaderParams.LastIndexOf | src/utils/multipart-parser.js:335 | `lastIndexOf` gives the last occurrence, or -1 |
| HeaderParams.StripPath | src/utils/multipart-parser.js:335 | what is kept is the longest suffix without a backslash |
| HeaderParams.StripAfterBackslash | src/utils/multipart-parser.js:335 | `dir\x` becomes `x` |
| HeaderParams.UnescapeQuotes | src/utils/multipart-parser.js:336 | replacing `%22` never lengthens the name |
| HeaderParams.EscapeQuotes | src/utils/multipart-parser.js:336 | the escaping that unescaping undoes leaves no quote |
| HeaderParams.UnescapeEscapeQuotes | src/utils/multipart-parser.js:336 | replacing `%22` with `"` undoes writing quotes as `%22`, on text without `%` |
| HeaderParams.UnescapeQuotesPlain | src/utils/multipart-parser.js:336 | text without `%` is unchanged |
| HeaderParams.CharRefCode | src/utils/multipart-parser.js:337 | four decimal digits give a code from 0 to 9999 |
| HeaderParams.DecodeCharRefs | src/utils/multipart-parser.js:337-339 | decoding `&#DDDD;` never lengthens the name |
| HeaderParams.DigitChar | src/utils/multipart-parser.js:337 | a digit character has its digit value |
| HeaderParams.Digits | src/utils/multipart-parser.js:337 | four decimal digits of a code below 10000 |
| HeaderParams.CharRef | src/utils/multipart-parser.js:337 | `&#DDDD;` is a reference whose code is the character's |
| HeaderParams.EncodeCharRefs | src/utils/multipart-parser.js:337-339 | writing every character as a reference takes seven characters each |
| HeaderParams.DecodeEncodeCharRefs | src/utils/multipart-parser.js:337-339 | decoding `&#DDDD;` undoes writing every character as a reference |
| HeaderParams.DecodeCharRefsPlain | src/utils/multipart-parser.js:337-339 | text without `&` is unchanged |
| HeaderParams.FileNamePlain | src/utils/multipart-parser.js:327-341 | a file name with no backslash, `%` or `&` is returned as captured |
| HeaderParams.FileNameDropsDirectory | src/utils/multipart-parser.js:335 | only what follows the last backslash of the captured name is returned |
| FormData.Initial | src/utils/multipart-parser.js:40-56 | a new parser is a consistent machine |
| FormData.FeedChunks | src/utils/multipart-parser.js:423-425 | writing every chunk keeps the machine consistent |
| FormData.FormAssembler.constructor | src/utils/multipart-parser.js:350-357 | the closure starts with empty values, no handlers and no entries |
| FormData.FormAssembler.OnPartBegin | src/utils/multipart-parser.js:379-390 | `onPartBegin` installs the text handlers and resets every part variable |
| FormData.FormAssembler.OnHeaderEnd | src/utils/multipart-parser.js:400-421 | `onHeaderEnd` does exactly what `HeaderEnded` says |
| FormData.FormAssembler.OnPartData | src/utils/multipart-parser.js:359-365 | the installed data handler appends the bytes to the text value or pushes them as a file chunk |
| FormData.FormAssembler.OnPartEnd | src/utils/multipart-parser.js:367-374 | the installed end handler appends a text entry, or a file entry of the collected chunks |
| FormData.FormAssembler.Deliver | src/utils/multipart-parser.js:379-421 | the handler called for each event does what `Handle` says |
| FormData.HandleAllSnoc | src/utils/multipart-parser.js:379-421 | handling one more event continues from the state before it |
| FormData.WriteAll | src/utils/multipart-parser.js:423-425 | every chunk is written in turn with its result ignored, leaving the parser at `FeedChunks` |
| FormData.Assemble | src/utils/multipart-parser.js:379-421 | the handlers run over the events in order and leave the entries of `HandleAll` |
| FormData.ToFormData | src/utils/multipart-parser.js:343-436 | a non-multipart type throws `Failed to fetch`; no boundary throws the boundary error; otherwise the result is the entries the handlers make of the parser's events, with the result of `end` ignored |
| FormDataProofs.HandleAllAppend | src/utils/multipart-parser.js:379-421 | handling two traces one after the other is handling their concatenation |
| FormDataProofs.HandleAllStep | src/utils/multipart-parser.js:379-421 | the handlers take the events one at a time |
| FormDataProofs.EntriesKept | src/utils/multipart-parser.js:369-373 | entries already appended stay, in place and in order |
| FormDataProofs.SinkStaysSet | src/utils/multipart-parser.js:379-417 | once a part has begun, data handlers stay installed |
| FormDataProofs.EntryPerPartEnd | src/utils/multipart-parser.js:367-374 | with the handlers installed, each `partEnd` appends exactly one entry and nothing else appends any |
| FormDataProofs.EntriesOfTrace | src/utils/multipart-parser.js:367-390 | a trace opening with `partBegin` yields one entry per `partEnd` |
| FormDataProofs.TextData | src/utils/multipart-parser.js:359-361 | the text handler collects the concatenated data |
| FormDataProofs.FileData | src/utils/multipart-parser.js:363-365 | the file handler keeps each chunk, in order |
| FormDataProofs.HeaderBytes | src/utils/multipart-parser.js:392-398 | header bytes are appended to the header strings |
| FormDataProofs.HeaderEndStep | src/utils/multipart-parser.js:400-421 | of `headerEnd` and `headersEnd`, only `onHeaderEnd` acts |
| FormDataProofs.OneHeader | src/utils/multipart-parser.js:392-421 | a one-header block leaves what `onHeaderEnd` makes of the appended strings |
| FormDataProofs.HeaderEndedKeeps | src/utils/multipart-parser.js:400-421 | `onHeaderEnd` lower-cases the name, keeps the value, the entries and the collected data, sets the type only for `content-type`, and never uninstalls the handlers |
| FormDataProofs.PartBody | src/utils/multipart-parser.js:359-374 | the data of a part and its end append exactly the entry of the installed handlers |
| FormDataProofs.FileBody | src/utils/multipart-parser.js:363-370 | with the file handlers, the entry is a file of the concatenated chunks with the part's name, file name and type |
| FormDataProofs.TextBody | src/utils/multipart-parser.js:359-374 | with the text handlers, the entry is the part's name and the concatenated data |
| FormDataProofs.HandleOne | src/utils/multipart-parser.js:379-421 | a single event is handled by its handler |
| FormDataProofs.HeaderEntry | src/utils/multipart-parser.js:407-417 | after a fresh part's one header, the entry is the one `PartEntry` describes |
| FormDataProofs.OnePart | src/utils/multipart-parser.js:379-421 | when no text part before it ended in an incomplete UTF-8 sequence, a part with one header yields a file exactly when that header is `content-disposition` with a non-empty file name; the entry takes the `name` parameter and the collected data |
| FormDataProofs.LowerConcat | src/utils/multipart-parser.js:402 | lower-casing the first name before the second is appended changes nothing |
| FormDataProofs.HeaderThenEnd | src/utils/multipart-parser.js:392-421 | a header and its end leave what `onHeaderEnd` makes of the appended strings |
| FormDataProofs.HeaderEndHandled | src/utils/multipart-parser.js:400 | `headerEnd` runs `onHeaderEnd` |
| FormDataProofs.HeaderPair | src/utils/multipart-parser.js:392-398 | a header name and its value are appended to the header strings |
| FormDataProofs.TwoHeaders | src/utils/multipart-parser.js:383-421 | the second header starts from the strings the first one left |
| FormDataProofs.SecondHeader | src/utils/multipart-parser.js:383-402 | a second header is judged by the lower-cased concatenation of both names and both values |
| FormDataProofs.TypeAfterDispositionIgnored | src/utils/multipart-parser.js:402-419 | a `content-type` that follows a `content-disposition` never sets the type |
| FormDataProofs.LowerAppend | src/utils/multipart-parser.js:402 | lower-casing distributes over concatenation |
| FormDataProofs.LowerKeepsPrefix | src/utils/multipart-parser.js:402 | a lower-case prefix of a name stays a prefix of the lower-cased name |
| FormDataProofs.LowerIdempotent | src/utils/multipart-parser.js:402 | lower-cased text is its own lower case |
| FormDataProofs.LaterHeadersIgnored | src/utils/multipart-parser.js:383-421 | once the stored name is as long as `content-disposition`, further headers with non-empty names change only the header strings |
| FormDataProofs.LaterHeadersNoDisposition | src/utils/multipart-parser.js:383-421 | while the stored name starts with a lower-case text that does not begin `content-disposition`, no further header is taken as a disposition: handlers, entry name and collected data stay |
| FormDataProofs.FirstHeader | src/utils/multipart-parser.js:379-421 | after `partBegin`, the first header is judged on its own name and value, and the rest of the part continues from there |
| FormDataProofs.DispositionFirstFile | src/utils/multipart-parser.js:379-421 | when no text part before it ended in an incomplete UTF-8 sequence, a part whose first header is a disposition with a non-empty file name yields a file with the disposition's `name`, the concatenated data, that file name and an empty type, whatever headers with non-empty names follow |
| FormDataProofs.DispositionFirstText | src/utils/multipart-parser.js:379-421 | when no text part before it ended in an incomplete UTF-8 sequence, a part whose first header is a disposition with no file name or an empty one yields a text entry with the disposition's `name` and the concatenated data, whatever headers with non-empty names follow |
| FormDataProofs.OtherFirstText | src/utils/multipart-parser.js:379-421 | when no text part before it ended in an incomplete UTF-8 sequence, a part whose first name, lower-cased, does not begin `content-disposition` yields a text entry with an empty name and the concatenated data, whatever headers follow |
| FormDataProofs.DispositionAcrossHeaders | src/utils/multipart-parser.js:383-402 | headers named `Content` and `-Disposition` are taken together as a disposition, with the file name read from both values run together |
| FormDataProofs.ContentThenHeader | src/utils/multipart-parser.js:383-402 | after a first header named `content`, the second header's end sees `content` followed by the second name, and both values |
| FormDataProofs.DispositionJoined | src/utils/multipart-parser.js:402 | `content` followed by a name that lower-cases to `-disposition` lower-cases to `content-disposition` |
| FormDataProofs.DispositionEnded | src/utils/multipart-parser.js:407-413 | a disposition with a non-empty file name switches to the file handlers and keeps that file name |
| FormDataProofs.NonAsciiNoKeyword | src/utils/multipart-parser.js:402-419 | a header name holding a non-ASCII character is taken as neither `content-disposition` nor `content-type` |

## Left out

- The `for await` iteration over the body is I/O. The body is a finite sequence of byte chunks, fed in order.
- FormData.Decode: the one streaming UTF-8 `TextDecoder` shared by text data (src/utils/multipart-parser.js:360), header names (:393) and header values (:397) is not modelled. Header bytes become text one character per byte, with no state carried between calls (`Bytes.Latin1`); text entries keep their value as the collected bytes. The source flushes that decoder only at a header's end (:401), never when a text part ends (:372-374). So an incomplete UTF-8 sequence at the end of a text part is missing from that entry, and it comes out as U+FFFD at the start of the next part's first header name, which then matches neither `content-disposition` nor `content-type`. Example: boundary `B`, part 1 with `Content-Disposition: form-data; name="a"` and the data byte 0xC3, part 2 with `Content-Disposition: form-data; name="f"; filename="x.bin"` and data `DATA`. The source yields the text entries `("a", "")` and `("", "DATA")`. The model yields `TextEntry("a", [0xC3])` and a file `f` named `x.bin` holding `DATA`. `FormDataProofs.OnePart`, `FormDataProofs.DispositionFirstFile`, `FormDataProofs.DispositionFirstText` and `FormDataProofs.OtherFirstText` therefore describe the source only when no text part before the part ended in an incomplete UTF-8 sequence. Within one header the model also differs from UTF-8 on bytes of 128 and above, which it maps to the character with that code.
- Multipart.Delimiter: a boundary character above U+FFFF is one `char` and one byte in the model, while `charCodeAt` sees two UTF-16 code units and stores two bytes (src/utils/multipart-parser.js:48-49); `Bytes.CodeUnitByte` and `Multipart.EncodeBoundary` share this limit. Section 5.1.1 of RFC 2046 allows only ASCII characters in a boundary.
- `Bytes.AsciiLower`: lower-cases ASCII letters only, where `toLowerCase` also lower-cases other scripts. Non-ASCII characters can reach `onHeaderEnd`. A `write` that returns early leaves the `headerField` mark set, and `toFormData` ignores what `write` returns (`:424`). A later chunk accepted in HEADER_VALUE then has any bytes up to its end flushed as header name (`:298`), and the next CR raises `headerEnd`. The two comparisons (`:407`, `:419`) still come out the same. Lower-casing keeps every non-ASCII character in the model, so such a name is neither keyword (`FormDataProofs.NonAsciiNoKeyword`). `toLowerCase` turns no non-ASCII character into text spelled only with the letters of `content-disposition` or `content-type`: U+212A becomes `k`, which neither keyword contains, and U+0130 becomes `i` followed by the non-ASCII U+0307.
- `File` and `FormData` are records. `FormData` is an append-only sequence of entries, and `File` holds the concatenated bytes, the file name and the type.
- Handlers are looked up by name at run time (`'on' + name in this`). The model replaces that lookup with an event trace, which the assembler folds over after the stream instead of during it. The two orders agree because no handler affects the parser.
- Delivered spans are copies. Aliasing between `subarray` views, the caller's chunks and the reused `lookbehind` buffer is not modelled.
- MultipartProofs.PlainDataSplit: that the data delivered does not depend on where the body is split into chunks is proved only for part data holding no CR, split at one point. A general statement needs a simulation between two runs: the skip lands on different offsets in the split and the joined chunk, and a partial match can straddle the split and be re-delivered from the lookbehind. The per-step facts such a proof rests on are proved: spans are never empty, marks restart at 0 at each chunk, and partial matches are re-delivered.
- MultipartProofs.FeedKeepsSync: the lookbehind invariant is stated only for chunks that never put a CR inside a non-empty header name. The source does not keep the invariant there, as `MultipartProofs.HeaderCrDerails` shows.
- MultipartProofs.DataByte: assumes that no CR precedes the delimiter; `MultipartProofs.DataStep` covers a CR anywhere, one step at a time. No single lemma covers a run of data bytes followed by a delimiter.
- The regular expressions are fixed scanners for the four patterns the source uses, not a general regex engine. The scanners treat `\w`, `\s` and the `i` flag as ECMAScript does for these patterns.
- The `undefined` initial values of the header strings before the first `partBegin` are empty strings. Only a body whose first header arrives before any part could tell them apart, and the parser raises `partBegin` before any header.
