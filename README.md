# PDF size compliance and the messages endpoint, in Dafny

This project models two parts of the `base-js-baileys-mysql` WhatsApp bot.

**The PDF utilities (`src/pdf-utils.js`).**
- The size helpers `getBufferSizeMB` and `exceedsSize`.
- The structural validator `isValidPDF`.
- The heuristic analyser `analyzePDF`.
- The byte-level optimiser `advancedBufferOptimization`.
- The four-stage orchestrator `compressPDFToTarget`.

**The `/v1/messages` handler (`src/app.js`).**
- The default first message.
- The canonical-base64 test `isValidBase64`.
- The XML sniff and the footer.
- The temporary PDF and XML files, and the order of the sends.

Buffers are `seq<Byte>`. Node's `'ascii'` decoding is modelled as clearing the high bit of each byte (`AsciiDecode`). Its `'binary'` (latin1) decoding maps bytes to characters one to one. For that reason the optimiser's three regular-expression rewrites are stated directly on bytes:
- white space is the latin1 `\s` set: bytes 9 to 13, 32 and 160;
- a line break is byte 10 or byte 13.

`compressPDF` (pdf-lib) is a function-valued parameter of the orchestrator.
- It is total: it catches every error itself and then returns its input (pdf-utils.js:127-131).
- So the per-stage `catch` branches of `compressPDFToTarget` cannot run, and they are not modelled.

The handler runs against a `Host` object. It has three parts:
- a map from paths to file contents (`writeFileSync`, `existsSync`/`unlinkSync`);
- a log of the messages the provider accepted;
- an attempt counter.

Whether the n-th `sendMessage` call succeeds or throws is a fixed oracle `delivers(n)`. Other external inputs are parameters:
- the two `Date.now()` readings are `pdfStamp` and `xmlStamp`;
- `toString('utf8')` is a function `utf8`.

The handler's main guarantee is proved as `SubMap(host.files, old(host.files))`. It holds on every path: success, a throwing send, or a refused XML. So the handler leaves no file behind that did not exist before, and every remaining file keeps its old contents.

Behaviours of the code that the model keeps:
- **Optimiser selection.** The optimiser keeps the shortest candidate, using strict comparison in the order A, B, C. It does not test validity. Only the orchestrator's stage 3 tests the chosen buffer with the validator.
- **Very long buffers.** `toString('binary')` throws on a buffer longer than V8's longest string (536870888 characters on 64-bit Node). The optimiser's `catch` then returns the buffer unchanged, so stage 3 keeps stage 2's output.
- **Stage 4.** Stage 4 recompresses the original buffer, and its output is returned whatever its size or validity. So the result can be larger than the input (`LastResortCanGrow`), and it is not always valid.
- **No admission decision.** The handler sends whatever PDF string it is given: it never looks at its size or at whether it is a URL.
- **Comment stripping (candidate B).** Candidate B deletes every line that begins with a `%` byte, so its output never starts with byte 37. The validator masks the high bit, so byte 165 (0xA5) reads as `%`. B's output can therefore pass `isValidPDF` only when its first byte is 165 (`StrippedPassesOnlyWithMaskedPercent`).
- **The PDF temporary name after the location branch.** The handler neither creates nor removes a file there after a successful send. So a file that already existed under that name is kept, as `SendPdf` states.

## Model

| member | source | states |
|---|---|---|
| PdfSize.GetBufferSizeMB | base-js-baileys-mysql/src/pdf-utils.js:150-152 | the size in MB, times 1048576, is the byte length, and it is never negative |
| PdfSize.ExceedsSize | base-js-baileys-mysql/src/pdf-utils.js:140-143 | true exactly when the length is strictly greater than the limit times 1048576 |
| PdfSize.SizeOrderIsLengthOrder | base-js-baileys-mysql/src/pdf-utils.js:150-152 | comparing two sizes in MB, strictly or not, is the same as comparing the byte lengths |
| PdfSize.ExceedsWholeMegabytes | base-js-baileys-mysql/src/pdf-utils.js:140-143 | for a whole number of megabytes m, the limit is exceeded iff the length is greater than m * 1048576, and not exceeded iff it is at most that |
| PdfSize.DefaultLimit | base-js-baileys-mysql/src/pdf-utils.js:140 | with the default limit of 25 MB, the limit is exceeded iff the length is greater than 26214400 bytes |
| ByteText.AsciiDecode | base-js-baileys-mysql/src/pdf-utils.js:172 | `'ascii'` decoding keeps the length and maps each byte to its value modulo 128 |
| ByteText.Latin1Bytes | base-js-baileys-mysql/test-pdf-compression.js:84 | encoding a string gives one byte per character, the character code modulo 256; on a 7-bit text, as the test document is, this is its UTF-8 encoding |
| ByteText.AsciiDecodeSlice | base-js-baileys-mysql/src/pdf-utils.js:237-249 | decoding a byte range is the same range of the decoded whole, as the validator's windows rely on |
| PdfValidator.IsValidPDF | base-js-baileys-mysql/src/pdf-utils.js:225-259 | valid iff all of these hold: at least 100 bytes; the masked first 8 bytes start with `%PDF-`; the masked last 100 bytes contain `%%EOF`; the masked first min(length, 5000) bytes contain `obj` and `endobj` |
| PdfValidator.HasHeader | base-js-baileys-mysql/src/pdf-utils.js:237-240 | the first 8 bytes, decoded as `ascii`, start with `%PDF-` |
| PdfValidator.TailText | base-js-baileys-mysql/src/pdf-utils.js:243-244 | the last 100 bytes, decoded as `ascii` |
| PdfValidator.StructureText | base-js-baileys-mysql/src/pdf-utils.js:249-250 | the first min(length, 5000) bytes, decoded as `ascii` |
| PdfValidator.EndobjContainsObj | base-js-baileys-mysql/src/pdf-utils.js:250 | a text containing `endobj` contains `obj`, so the first test of the two is implied by the second |
| PdfValidator.HeaderBytes | base-js-baileys-mysql/src/pdf-utils.js:237-240 | the header test holds iff the first five bytes, high bit cleared, are `%PDF-` |
| PdfValidator.FirstByteMustReadAsPercent | base-js-baileys-mysql/src/pdf-utils.js:237-240 | the first byte of a valid buffer is 37 or 165 |
| PdfValidator.FailsClosed | base-js-baileys-mysql/src/pdf-utils.js:227-246 | these are rejected: the empty buffer; fifty `A` bytes; a header without `%%EOF` in the tail; `%%EOF` without a header |
| PdfValidator.MinimalPdfAccepted | base-js-baileys-mysql/test-pdf-compression.js:30-84 | the four-object test document is accepted |
| PdfAnalyzer.StrategyFor | base-js-baileys-mysql/src/pdf-utils.js:195-202 | the four strategy bands as iffs: above 50, in (25, 50], in (10, 25], at most 10 |
| PdfAnalyzer.StrategyMonotone | base-js-baileys-mysql/src/pdf-utils.js:195-202 | a larger size never gets a less aggressive strategy |
| PdfAnalyzer.ScanText | base-js-baileys-mysql/src/pdf-utils.js:172 | the first min(length, 10000) bytes, decoded as `ascii` |
| PdfAnalyzer.DigitRun | base-js-baileys-mysql/src/pdf-utils.js:175 | greedy `\d+`: every byte in the run is a digit, and the next one, if any, is not |
| PdfAnalyzer.VersionAt | base-js-baileys-mysql/src/pdf-utils.js:175-178 | a match of `%PDF-(\d+\.\d+)` at a position yields a version number: digits, a dot, digits |
| PdfAnalyzer.DigitsDotDigits | base-js-baileys-mysql/src/pdf-utils.js:175 | a digit run, a dot and a digit run form a version number |
| PdfAnalyzer.VersionNumberSplit | base-js-baileys-mysql/src/pdf-utils.js:175 | in a version number the dot is right after the leading digit run, and only digits follow it |
| PdfAnalyzer.VersionAtIsGreedyMatch | base-js-baileys-mysql/src/pdf-utils.js:175-178 | there is a match at a position iff `%PDF-` followed by digits, a dot and digits occurs there; the group taken is that text with the longest possible end |
| PdfAnalyzer.FindVersion | base-js-baileys-mysql/src/pdf-utils.js:175-178 | no match is found iff no position matches; a match found is the match at the leftmost matching position |
| PdfAnalyzer.SpaceRun | base-js-baileys-mysql/src/pdf-utils.js:181 | greedy `\s*`: every character in the run is white space, and the next one, if any, is not |
| PdfAnalyzer.PageMatchLength | base-js-baileys-mysql/src/pdf-utils.js:181 | a length found is a match: `/Type`, white space, `/Page` and one character other than `s`, 11 characters plus the white space |
| PdfAnalyzer.PageMatchFound | base-js-baileys-mysql/src/pdf-utils.js:181 | every match at a position is found, with its length, since `/` is not white space |
| PdfAnalyzer.CountPages | base-js-baileys-mysql/src/pdf-utils.js:180-184 | the global match count is zero iff no position matches; times 11 it is at most the remaining length |
| PdfAnalyzer.AnalyzePDF | base-js-baileys-mysql/src/pdf-utils.js:159-218 | the size is the byte length over 1048576; the strategy bands are stated in bytes; the page count is zero iff no position of the scanned text matches, and times 11 is at most min(length, 10000) |
| PdfAnalyzer.AnalysisStrategyMonotone | base-js-baileys-mysql/src/pdf-utils.js:195-202 | a longer buffer never gets a less aggressive strategy |
| PdfAnalyzer.AnalysisSeesOnlyScanWindow | base-js-baileys-mysql/src/pdf-utils.js:172-193 | bytes appended after the first 10000 change none of: pages, the three flags, the version |
| PdfAnalyzer.VersionUnknownOrNumber | base-js-baileys-mysql/src/pdf-utils.js:167-178 | the version is `unknown` or a version number; it is `unknown` when no position matches, and otherwise the match at the leftmost matching position |
| PdfAnalyzer.UnknownIsNotAVersion | base-js-baileys-mysql/src/pdf-utils.js:167 | `unknown` is not a version number, so the two outcomes cannot be confused |
| ByteText.RunLength | base-js-baileys-mysql/src/pdf-utils.js:299 | the maximal leading run of elements satisfying a predicate: all of them satisfy it, and the next one does not |
| ByteOptimizer.CollapseSpaceRuns | base-js-baileys-mysql/src/pdf-utils.js:299 | rewrite A never lengthens the buffer, and it keeps a first byte that is not white space |
| ByteOptimizer.KeptAppend | base-js-baileys-mysql/src/pdf-utils.js:299-303 | the bytes outside a class, in a concatenation, are those of its parts, in order |
| ByteOptimizer.KeptSkipsRun | base-js-baileys-mysql/src/pdf-utils.js:299-303 | a leading run of bytes in a class contributes nothing outside it |
| ByteOptimizer.CollapseSpaceRunsSpec | base-js-baileys-mysql/src/pdf-utils.js:299 | rewrite A keeps every non-white byte, in order, and leaves no two white-space bytes next to each other |
| ByteOptimizer.CollapseSpaceRunsFixed | base-js-baileys-mysql/src/pdf-utils.js:299 | a buffer with no two neighbouring white-space bytes is left unchanged |
| ByteOptimizer.CollapseSpaceRunsIdempotent | base-js-baileys-mysql/src/pdf-utils.js:299 | applying rewrite A twice gives the same result as applying it once |
| ByteOptimizer.CommentTextEnd | base-js-baileys-mysql/src/pdf-utils.js:301 | the `%[^\r\n]*` part of a match: the `%`, then non-breaks, ending at the first line break or the end |
| ByteOptimizer.CommentLineEnd | base-js-baileys-mysql/src/pdf-utils.js:301 | a match of `%[^\r\n]*[\r\n]*` at a `%` ends after the comment text and the whole run of line breaks after it: all of that run are line breaks, and the next byte is not |
| ByteOptimizer.StripCommentLines | base-js-baileys-mysql/src/pdf-utils.js:301 | rewrite B never lengthens the buffer; what it keeps and deletes is stated by the two lemmas below |
| ByteOptimizer.StripNeverStartsWithPercent | base-js-baileys-mysql/src/pdf-utils.js:301 | rewrite B's output is empty or does not start with byte 37 |
| ByteOptimizer.StripShortensCommentStart | base-js-baileys-mysql/src/pdf-utils.js:301 | rewrite B strictly shortens a buffer that starts with `%` |
| ByteOptimizer.StripCommentLinesFixed | base-js-baileys-mysql/src/pdf-utils.js:301 | a buffer with no line starting with `%` is left unchanged |
| ByteOptimizer.StripKeepsPlainLine | base-js-baileys-mysql/src/pdf-utils.js:301 | a line that does not start with `%` is kept whole, with its line break, and the next line starts at a line start |
| ByteOptimizer.StripDropsCommentLine | base-js-baileys-mysql/src/pdf-utils.js:301 | a line that starts with `%` is deleted with the whole run of line breaks after it |
| ByteOptimizer.NormalizeLineEndings | base-js-baileys-mysql/src/pdf-utils.js:303 | turning CRLF and CR into LF never lengthens the buffer and leaves no CR |
| ByteOptimizer.CollapseLineFeeds | base-js-baileys-mysql/src/pdf-utils.js:303 | `\n{2,}` becoming `\n` never lengthens the buffer, leaves no two LFs side by side, introduces no CR, and keeps a first byte that is not LF |
| ByteOptimizer.UnifyLineBreaks | base-js-baileys-mysql/src/pdf-utils.js:303 | rewrite C never lengthens the buffer, and leaves no CR and no two LFs side by side |
| ByteOptimizer.NormalizeKeepsText | base-js-baileys-mysql/src/pdf-utils.js:303 | normalising line endings keeps every byte that is not a line break, in order |
| ByteOptimizer.CollapseLineFeedsKeepsText | base-js-baileys-mysql/src/pdf-utils.js:303 | collapsing line-feed runs keeps every other byte, carriage returns included, in order |
| ByteOptimizer.LineBreakWidth | base-js-baileys-mysql/src/pdf-utils.js:303 | `\r\n` is tried before `\r`: a match is one or two line breaks, and it becomes one LF |
| ByteOptimizer.NormalizeBreakRun | base-js-baileys-mysql/src/pdf-utils.js:303 | a run of line breaks normalises to a non-empty run of line feeds |
| ByteOptimizer.CollapseLineFeedRun | base-js-baileys-mysql/src/pdf-utils.js:303 | a run of line feeds followed by another byte collapses to one line feed |
| ByteOptimizer.UnifyLineBreaksSpec | base-js-baileys-mysql/src/pdf-utils.js:303 | rewrite C replaces each maximal run of line breaks, whatever its mix of CR and LF, by one LF, and keeps every other byte |
| ByteOptimizer.LineBreakRunsKeepText | base-js-baileys-mysql/src/pdf-utils.js:303 | replacing break runs by one LF keeps every byte that is not a line break, in order |
| ByteOptimizer.UnifyLineBreaksKeepsText | base-js-baileys-mysql/src/pdf-utils.js:303 | rewrite C keeps every byte that is not a line break, in order |
| ByteOptimizer.Candidates | base-js-baileys-mysql/src/pdf-utils.js:297-304 | there are exactly three candidates, in the order A, B, C |
| ByteOptimizer.BestIsFirstShortest | base-js-baileys-mysql/src/pdf-utils.js:306-318 | the choice is no longer than the input or any candidate; it is the input when no candidate is strictly shorter; otherwise it is the first candidate of minimal length, which is strictly shorter than the input |
| ByteOptimizer.Best | base-js-baileys-mysql/src/pdf-utils.js:306-318 | the loop's best-so-far: a candidate replaces it only when strictly shorter (its meaning is BestIsFirstShortest) |
| ByteOptimizer.AdvancedBufferOptimization | base-js-baileys-mysql/src/pdf-utils.js:289-329 | the loop over the candidates returns the first-shortest choice; a buffer longer than `MaxStringLength` comes back unchanged through the `catch` |
| ByteOptimizer.Optimized | base-js-baileys-mysql/src/pdf-utils.js:289-329 | the optimiser never returns a buffer longer than its input, and returns a buffer longer than `MaxStringLength` unchanged |
| ByteOptimizer.OptimizedShortensCommentStart | base-js-baileys-mysql/src/pdf-utils.js:294-318 | a buffer starting with `%` that `toString` can decode is strictly shortened by the optimiser |
| PdfPipeline.FinalStage | base-js-baileys-mysql/src/pdf-utils.js:337-448 | the pre-check returns iff the input meets the target; stage 1 returns iff the input misses it and stage 1's output meets it; the last resort runs iff stages 0 to 3 all miss it |
| PdfPipeline.FirstPassOutput | base-js-baileys-mysql/src/pdf-utils.js:357-363 | stage 1 recompresses the original with quality 70 |
| PdfPipeline.SecondPassOutput | base-js-baileys-mysql/src/pdf-utils.js:380-388 | stage 2 recompresses stage 1's output with quality 50 and images bounded by 1000 x 1400 |
| PdfPipeline.OptimizerAccepted | base-js-baileys-mysql/src/pdf-utils.js:402-412 | stage 3 takes the optimiser's buffer only when it is strictly smaller and passes the validator |
| PdfPipeline.ThirdStageOutput | base-js-baileys-mysql/src/pdf-utils.js:401-412 | the buffer after stage 3: the optimiser's when accepted, otherwise stage 2's |
| PdfPipeline.LastResortOutput | base-js-baileys-mysql/src/pdf-utils.js:414-427 | stage 4 recompresses the original, not the best buffer so far, with quality 30 |
| PdfPipeline.StageOutput | base-js-baileys-mysql/src/pdf-utils.js:337-443 | the buffer each stage hands back |
| PdfPipeline.CompressPDFToTarget | base-js-baileys-mysql/src/pdf-utils.js:337-448 | the imperative orchestrator returns the output of the stage that FinalStage names; an input within the target comes back byte-identical; the result meets the target unless it is the quality-30 recompression of the original |
| PdfPipeline.StagedOutcome | base-js-baileys-mysql/src/pdf-utils.js:348-443 | the result is the input or one of four stage outputs; every stage but the last meets the target; an optimiser buffer is returned only when valid and strictly shorter than stage 2's output; the last resort is returned unconditionally |
| PdfPipeline.OptimizerOutputStartsLikePdf | base-js-baileys-mysql/src/pdf-utils.js:402-412 | an accepted optimiser buffer starts with byte 37 or 165 |
| PdfPipeline.StrippedPassesOnlyWithMaskedPercent | base-js-baileys-mysql/src/pdf-utils.js:301-408 | if rewrite B's output passes the validator, its first byte is 165 |
| PdfPipeline.LastResortCanGrow | base-js-baileys-mysql/src/pdf-utils.js:414-443 | with a recompression that grows buffers at quality 30, the returned buffer is longer than the input |
| Base64.EncodeSextet | base-js-baileys-mysql/src/app.js:187 | an encoded six-bit value is never the pad character |
| Base64.Encode | base-js-baileys-mysql/src/app.js:187 | `toString('base64')`: four characters per three bytes, padded with `=` (its meaning is DecodeEncode and EncodedLength) |
| Base64.Decode | base-js-baileys-mysql/src/app.js:187 | `Buffer.from(s, 'base64')` as Node's forgiving decoder: skips foreign characters and stops at `=` |
| Base64.IsValidBase64 | base-js-baileys-mysql/src/app.js:185-191 | re-encoding the decoded bytes gives the string back (its meaning is ValidIffEncoding) |
| Base64.SextetRoundTrip | base-js-baileys-mysql/src/app.js:187 | the decoder reads back the value of every encoder character, and that character is in the standard alphabet |
| Base64.GroupRoundTrip | base-js-baileys-mysql/src/app.js:187 | the three bytes of a group are recovered from its four six-bit values |
| Base64.EncodedLength | base-js-baileys-mysql/src/app.js:187 | an encoding's length is a multiple of four |
| Base64.DecodeEncode | base-js-baileys-mysql/src/app.js:185-191 | decoding an encoding gives back the bytes |
| Base64.EncodingIsValid | base-js-baileys-mysql/src/app.js:185-191 | every padded encoding passes `isValidBase64` |
| Base64.ValidIffEncoding | base-js-baileys-mysql/src/app.js:185-191 | a string passes `isValidBase64` exactly when it is the encoding of some bytes |
| Base64.EncodedAlphabet | base-js-baileys-mysql/src/app.js:187 | an encoding contains only `A-Z a-z 0-9 + / =` |
| Base64.ForeignCharacterInvalid | base-js-baileys-mysql/src/app.js:194-211 | a string with any other character, such as a path's `.`, fails the test and takes the location branch |
| JsText.TrimStart | base-js-baileys-mysql/src/app.js:163 | the result is a suffix of the input, and the removed prefix is all white space; the result is empty or starts with a non-white character |
| JsText.TrimEnd | base-js-baileys-mysql/src/app.js:163 | the result is a prefix of the input, and the removed suffix is all white space; the result is empty or ends with a non-white character |
| JsText.Trim | base-js-baileys-mysql/src/app.js:163 | `trim()`: both ends stripped (its meaning is TrimEmptyIffBlank and TrimStartsAtFirstNonSpace) |
| JsText.TrimEmptyIffBlank | base-js-baileys-mysql/src/app.js:163 | `trim()` is empty exactly when every character is white space |
| JsText.TrimStartsAtFirstNonSpace | base-js-baileys-mysql/src/app.js:250-251 | the trimmed text starts with the first non-white character |
| MessageText.FinalMessage | base-js-baileys-mysql/src/app.js:162-165 | a message with a non-white character is sent as it is; a blank or missing one is replaced by the default text |
| MessageText.FirstNonSpace | base-js-baileys-mysql/src/app.js:250-251 | a non-blank text has a first non-white character, and it is where the trimmed text starts |
| MessageText.LooksLikeXml | base-js-baileys-mysql/src/app.js:249-252 | the trimmed text starts with `<?xml` or `<` (its meaning is XmlSniffIsFirstCharacter) |
| MessageText.XmlErrorMessage | base-js-baileys-mysql/src/app.js:256-273 | the two messages the XML block throws: decoding failed, or not XML |
| MessageText.XmlSniffIsFirstCharacter | base-js-baileys-mysql/src/app.js:249-252 | the sniff accepts a text exactly when its first non-white character is `<` |
| MessageText.XmlContent | base-js-baileys-mysql/src/app.js:242-274 | accepted XML text passes the sniff |
| MessageText.XmlContentCases | base-js-baileys-mysql/src/app.js:242-274 | the text is accepted iff the decoded or plain text passes the sniff, and that text is what gets written; a refusal on the base64 branch is the decoding error, otherwise it is the not-XML error |
| MessageText.PlainXmlAccepted | base-js-baileys-mysql/src/app.js:263-274 | XML text that passes the sniff is never taken for base64, and it is accepted unchanged |
| MessageText.FooterFrame | base-js-baileys-mysql/src/app.js:328-338 | the footer is the fixed head, then the signature if there is a name, then the fixed tail |
| MessageText.FixedLinesUnsigned | base-js-baileys-mysql/src/app.js:328-338 | the fixed lines do not contain the signature mark |
| MessageText.SignedFooterCarriesName | base-js-baileys-mysql/src/app.js:332-334 | with a name, the footer contains `👤 Enviado por: <name>` |
| MessageText.UnsignedFooterHasNoSignature | base-js-baileys-mysql/src/app.js:332-334 | without a name, the footer contains no signature |
| MessageText.FooterShape | base-js-baileys-mysql/src/app.js:327-338 | the footer starts with the rule and a line break, ends with the rule, and contains the signature iff a customer name is given |
| MessageText.Footer | base-js-baileys-mysql/src/app.js:327-338 | the footer text: rule, fixed lines, the signature when a name is given, the closing lines, rule (its meaning is FooterShape) |
| MessagesHandler.ResponseMessage | base-js-baileys-mysql/src/app.js:343-410 | the response message starts with the success text iff the status is 200, and with the error text iff it is 500 |
| MessagesHandler.Host.WriteFile | base-js-baileys-mysql/src/app.js:197 | the path now holds the content; no other file changes, and nothing is sent |
| MessagesHandler.Host.RemoveIfExists | base-js-baileys-mysql/src/app.js:205-207 | the path no longer exists; no other file changes |
| MessagesHandler.Host.SendMessage | base-js-baileys-mysql/src/app.js:171-173 | one attempt is counted; on success the message is logged with the content its attached file has at that moment; no file changes |
| MessagesHandler.PdfOutgoing | base-js-baileys-mysql/src/app.js:194-211 | canonical base64 goes out as a temporary file holding the decoded bytes; any other string as the media location |
| MessagesHandler.XmlOutgoing | base-js-baileys-mysql/src/app.js:276-285 | the XML goes out as a temporary file holding the accepted text |
| MessagesHandler.SendPdf | base-js-baileys-mysql/src/app.js:177-220 | one send; on the base64 branch the file holds the decoded bytes while it is sent, and afterwards its name is gone whether the send succeeded or not; on the location branch nothing is written, and the name is removed only when the send throws |
| MessagesHandler.SendXmlFile | base-js-baileys-mysql/src/app.js:276-290 | the XML text is written, sent and removed; the name is gone afterwards |
| MessagesHandler.SendXml | base-js-baileys-mysql/src/app.js:222-320 | a refused text sends nothing and reports the refusal; an accepted one is sent as a file; the temporary name is gone on every path |
| MessagesHandler.BuildFooter | base-js-baileys-mysql/src/app.js:327-338 | the `+=` construction produces the footer |
| MessagesHandler.FirstOutgoing | base-js-baileys-mysql/src/app.js:162-173 | the first message, with no media |
| MessagesHandler.AttachmentPlan | base-js-baileys-mysql/src/app.js:175-320 | the PDF send, then the XML send or the XML refusal |
| MessagesHandler.ClosingSends | base-js-baileys-mysql/src/app.js:322-342 | the repeated message when there is neither PDF nor XML, then the footer |
| MessagesHandler.RestPlan | base-js-baileys-mysql/src/app.js:175-342 | the attachments, then the closing sends unless the XML is refused |
| MessagesHandler.PlanFor | base-js-baileys-mysql/src/app.js:156-342 | the whole send order of a request, and its refusal if any (its meaning is PlanShape) |
| MessagesHandler.Delivered | base-js-baileys-mysql/src/app.js:171-342 | of n sends in a row, the first k succeed and, if k is less than n, the next one throws |
| MessagesHandler.DeliveredExactly | base-js-baileys-mysql/src/app.js:171-342 | the number of successful sends is fixed by the first failing attempt |
| MessagesHandler.DeliveredAppend | base-js-baileys-mysql/src/app.js:171-342 | sends run one after another: the second group runs only when the first went through completely |
| MessagesHandler.SendAttachments | base-js-baileys-mysql/src/app.js:175-320 | the PDF and XML blocks make their planned sends up to the first failure, and they fail or refuse as planned; afterwards no new file exists and both temporary names are gone where their blocks ran |
| MessagesHandler.SendClosing | base-js-baileys-mysql/src/app.js:322-342 | sends the message again when there is neither PDF nor XML, then the footer; files are unchanged |
| MessagesHandler.SendRest | base-js-baileys-mysql/src/app.js:175-350 | everything after the first message follows its plan up to the first failure, with the same file guarantees |
| MessagesHandler.Outcome | base-js-baileys-mysql/src/app.js:343-410 | the reply: the send failure when a send threw, the XML error when the XML was refused, success otherwise |
| MessagesHandler.HandleMessages | base-js-baileys-mysql/src/app.js:156-412 | the log gains exactly the planned sends up to the first failure; the reply is 200 only when every send succeeded and the XML was not refused; no new file exists on any path; no file changes its contents; the temporary names are gone once their blocks have run |
| MessagesHandler.ClosingShape | base-js-baileys-mysql/src/app.js:322-342 | the footer is last; the message is repeated iff there is neither PDF nor XML and the message is not empty |
| MessagesHandler.AttachmentShape | base-js-baileys-mysql/src/app.js:175-320 | the PDF send comes first when there is a PDF, and the XML send comes last when the XML is accepted; there is a refusal iff the XML is refused |
| MessagesHandler.RestShape | base-js-baileys-mysql/src/app.js:175-342 | the sends after the first message are the attachments, plus the closing sends unless the XML is refused, with the footer last |
| MessagesHandler.PlanShape | base-js-baileys-mysql/src/app.js:156-342 | the send order: first message, PDF, XML, the repeated message, footer; a refused XML ends the list; the number of sends is counted case by case |
| MessagesHandler.PdfSendCarriesRequestContent | base-js-baileys-mysql/src/app.js:194-211 | the PDF file holds bytes that encode back to the request's `pdf` string, and a location is only ever used for a string that is not canonical base64 |
| MessagesHandler.XmlSendCarriesRequestContent | base-js-baileys-mysql/src/app.js:276-285 | the XML file holds text that passed the sniff |
| MessagesHandler.AttachmentSendsCarryRequestContent | base-js-baileys-mysql/src/app.js:175-320 | every attachment send carries the request's own content |
| MessagesHandler.RestSendsCarryRequestContent | base-js-baileys-mysql/src/app.js:175-342 | every send after the first message carries the request's own content |
| MessagesHandler.PlanSendsCarryRequestContent | base-js-baileys-mysql/src/app.js:156-342 | every send the handler makes carries the request's own content |

## Left out

- `compressPDF` and `compressImagesInPDF` (pdf-utils.js:12-132): pdf-lib document manipulation. The orchestrator takes `compressPDF` as a total function parameter, since it returns its input on any failure.
- `simpleBufferOptimization` (pdf-utils.js:266-282): nothing calls it.
- Timing, console logging, `toFixed` formatting and the compression-ratio printout: none of them affects a returned value.
- The outer `catch` of `compressPDFToTarget` and the `catch` of `analyzePDF` are not modelled: nothing inside them throws. `analyzePDF` decodes at most 10000 bytes, and `compressPDF` catches its own errors. The `catch` of `advancedBufferOptimization` is modelled: it runs on a buffer longer than `MaxStringLength`.
- `Promise.allSettled` in the optimiser: each candidate is a resolved promise, so every result is `fulfilled`, and the status test always passes.
- `sendEmail` (emails.js) on the two error paths is not modelled. It is a notification whose own errors are caught, and it does not change the reply or the files.
- The exact error message of a failed provider send is a parameter of `ResponseMessage`. The provider is outside this model.
- UTF-8 decoding and encoding of the XML text: `toString('utf8')` is a parameter, and the file stores the text itself.
- Failures of `writeFileSync` and `unlinkSync` are not modelled: both are assumed to succeed.
- Path construction with `join(process.cwd(), ...)` and the `Date.now()` readings: each temporary name is a constructor over its stamp.
- Request bodies whose fields are not strings. Falsy fields are the empty string.
- Node's base64 decoder is modelled as the forgiving decoder described in `Base64`. Its handling of characters after the first `=` and of a trailing single six-bit value follows that description.
- The other endpoints, the bot flows, the MySQL adapter and the HTTP clients in `facturas.js`, `emails.js` and `logic.js` are not modelled.
- MessageText.XmlContent: its own contract only says that accepted text passes the sniff. The full case analysis is the separate lemma `XmlContentCases`.
- PdfAnalyzer.AnalyzePDF: for the three substring flags, the contract states only that they depend on the first 10000 bytes (`AnalysisSeesOnlyScanWindow`); the flags themselves are defined by the function. The version is stated by `VersionUnknownOrNumber`. The page count is stated only as zero exactly when nothing matches, plus its bound.
- PdfAnalyzer.VersionAt: its own contract says only that a result is a version number. The full match semantics is the lemma `VersionAtIsGreedyMatch`.
- PdfAnalyzer.CountPages: its contract says when the count is zero and bounds it. The exact count is given only by its definition, which restarts after each match as a global match does.
- ByteOptimizer.NormalizeLineEndings: its contract and `NormalizeKeepsText` say that no CR is left and that the other bytes are kept in order. How many LFs each break becomes is stated only for the whole of rewrite C (`UnifyLineBreaksSpec`).
- ByteOptimizer.CollapseLineFeeds: its contract and `CollapseLineFeedsKeepsText` give the shape and the kept bytes. The run-by-run replacement is stated for the whole of rewrite C.
