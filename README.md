# Exam ticket generator: question-bank parsing and ticket drawing

This project models the core of a web tool that builds randomized exam tickets from a Word
document. The document's converted HTML is read into named question blocks. Each block starts
at a header such as `II BLOK`, and its questions come from list items and paragraphs, with
embedded images. Tickets are then drawn: each block's questions are shuffled, and ticket `i`
takes one question from every block.

Two pages of the tool are modelled:

- `app/page.tsx`, the question-bank page. Its parser splits numbered paragraphs into separate
  questions, attaches image-only paragraphs to the previous question, and keeps the pixel
  size each `<img>` tag declares. The image helpers used when exporting tickets are modelled
  too.
- `app/fayl-oxuma/page.tsx`, the file-reading page. It has the earlier parser: one question
  per list item or element, never split.

Modules:

- `Dom`: the parsed HTML tree, with element tags, attributes, children, `textContent`,
  `children` and `querySelectorAll("img")`.
- `Strings`: whitespace trimming and collapsing, line splitting, ASCII case folding, and
  integer `Number(...)`.
- `Base64`: `atob`, following the forgiving-base64 decode of the WHATWG Infra standard over
  the alphabet of section 4 of RFC 4648, with the matching encoder.
- `Images`: `dataUrlToImage`, `readImgSize`, `fitToMaxWidth`, the export size and the MIME
  mappings.
- `Segmenter`: `splitNumberedQuestions`.
- `Blocks`: the helpers both parsers share. These are the header test, image collection, the
  updates of the current block, and the loop over the body's elements.
- `Parser` and `LegacyParser`: the two `parseBlocksFromHtml`.
- `Shuffling`: the Fisher–Yates `shuffle`.
- `Tickets`: `generateTicketsFromDoc`.
- `Pages`: the state each page keeps (`blocks`, `tickets`, the error flag) and its two
  handlers.

Loops are methods proved equal to a specification function, and the properties are proved
about those functions. The random source is a parameter: `draws[k]` is the index `j` that
`Math.random` picks when the shuffle's loop is at `i = n - 1 - k`, with `0 <= j <= i`.

Three behaviours of the code are worth noting:

- An embedded image whose payload is not valid base64 is not discarded silently: `atob`
  throws, the whole parse is aborted, and the page shows its error with no blocks. This is
  `ParseError` and `Page.failed`.
- A data URL whose metadata is not `data:<type>;base64` is still decoded, with the type
  `image/png`.
- A block with no questions is not checked for when tickets are generated. In wrap mode the
  code would take a question at `i % 0`, which is `NaN`, and put `undefined` on the ticket.
  Both parsers drop empty blocks, so this cannot happen from a page. The model states this
  as a precondition, `strict || AllBlocksNonEmpty(blocks)`, which each page's `Valid()`
  invariant provides.

## Model

| member | source | states |
|---|---|---|
| Dom.ElementChildren | app/page.tsx:162 | `doc.body.children` holds exactly the element nodes among the body's nodes: each entry is an element of the body, and every element of the body is there |
| Dom.QueryImgs | app/page.tsx:184 | `querySelectorAll("img")` yields only `IMG` elements, and yields every `IMG` child and every `img` inside a child element |
| Dom.ImgsIn | app/page.tsx:184 | the document-order walk yields only `IMG` elements, and yields every `IMG` element among the nodes and every `img` below one of them |
| Strings.Trim | app/page.tsx:127 | `trim()` removes exactly the leading and trailing whitespace: the result is the middle slice, has no whitespace at either end, is empty iff the input is all whitespace, and leaves a string without edge whitespace unchanged |
| Strings.CollapseSpaces | app/page.tsx:136 | `replace(/\s+/g, " ")` leaves no whitespace run, keeps whether the text is all whitespace and whether it starts with whitespace |
| Strings.CollapseKeepsText | app/page.tsx:136 | collapsing only replaces whitespace: the non-whitespace characters of the text are all kept, in order, and none is added |
| Strings.CollapseAppend | app/page.tsx:136 | collapsing a concatenation collapses the first part and then the second, continuing in the state the first part ended in |
| Strings.TrimKeepsText | app/page.tsx:127 | `trim()` removes whitespace only: the non-whitespace characters are kept, in order |
| Strings.CollapseIdentity | app/page.tsx:136 | collapsing is the identity on text that has no whitespace runs |
| Strings.Normalize | app/page.tsx:136 | collapse then trim gives a normalised string holding exactly the input's non-whitespace characters, in order, and empty iff the input is all whitespace |
| Strings.NormalizeStartsWith | app/page.tsx:136 | the normalised join of a question's lines starts with its first line, when that line is trimmed and non-empty |
| Strings.JoinKeepsText | app/page.tsx:136 | `join(" ")` adds only whitespace: the joined text has the parts' non-whitespace characters, in order |
| Strings.NormalizeIdentity | app/page.tsx:136 | a normalised string is left unchanged |
| Strings.Split | app/page.tsx:119 | `split("\n")` yields at least one piece and no piece holds the separator |
| Strings.JoinSplit | app/page.tsx:119 | joining the pieces with the separator gives the text back |
| Strings.NormalizeNewlines | app/page.tsx:119 | `replace(/\r\n/g, "\n")` never lengthens a text and leaves one without `\r` unchanged |
| Strings.NormalizeNewlinesKeepsText | app/page.tsx:119 | replacing `\r\n` by `\n` changes whitespace only |
| Strings.NormalizeNewlinesPlainPrefix | app/page.tsx:119 | text without `\r` is copied unchanged and the replacement carries on after it |
| Strings.NormalizeNewlinesOfJoin | app/page.tsx:119 | lines without `\r` joined by `\r\n` come out joined by `\n`: each CR LF becomes exactly one LF |
| Strings.ToLowerAscii | app/page.tsx:275 | `toLowerCase()` lower-cases every character and keeps the length |
| Strings.LowerIdempotent | app/page.tsx:275 | lower-casing twice is lower-casing once |
| Strings.JsNumber | app/page.tsx:92 | `Number` of a blank string is 0 |
| Strings.JsNumberOfDecimal | app/page.tsx:92 | `Number` reads back the decimal spelling of every natural |
| Strings.DigitsValueOfDecimal | app/page.tsx:99 | the digits of a natural denote that natural |
| Base64.Atob | app/page.tsx:78 | `atob` succeeds exactly when the forgiving decode does, and yields a binary string with every char code below 256 |
| Base64.DecodeEncode | app/page.tsx:78 | `atob` inverts base64 encoding: the padded encoding of any byte string decodes to that string |
| Base64.DropPaddingOfEncode | app/page.tsx:78 | the encoding's length is a multiple of 4 and `atob`'s padding rule removes exactly the padding the encoder added |
| Base64.DecodeEncodeSextets | app/page.tsx:78 | packing the 6-bit groups of a byte string back into bytes gives the bytes |
| Base64.EncodedLength | app/page.tsx:78 | four characters per three bytes, plus two or three for a partial group |
| Base64.EncodingHasNoWhitespace | app/page.tsx:78 | the encoding holds only alphabet characters and `=`, so the whitespace stripping keeps it |
| Base64.SextetsOfChars | app/page.tsx:78 | spelling 6-bit values as alphabet characters and reading them back is the identity |
| Images.IndexOf | app/page.tsx:72 | the position of the first comma, or the length when there is none |
| Images.DataUrlToImage | app/page.tsx:69-85 | `dataUrlToImage` is null for a URL that does not start with `data:` or has nothing after the first comma (up to a second comma), throws on an invalid payload, and otherwise yields the type and the decoded bytes |
| Images.CopyCharCodes | app/page.tsx:79-82 | the byte array has the binary string's length and byte `i` is char code `i` |
| Images.CharCodesOfAtob | app/page.tsx:78-82 | the copied bytes are exactly the bytes the payload encodes |
| Images.MimeOfDeclared | app/page.tsx:75-76 | the capture of `^data:(.*);base64$` is the declared type |
| Images.MimeOfFallback | app/page.tsx:75-76 | a type other than `image/png` comes only from metadata of the exact form `data:<type>;base64` with no line break in the type |
| Images.MissingPayloadIsNull | app/page.tsx:72-73 | a `data:` URL with no comma, or with an empty second piece, gives null |
| Images.InvalidPayloadThrows | app/page.tsx:78 | a `data:` URL whose non-empty second piece is not forgiving-base64 makes `atob` throw |
| Images.DataUrlRoundTrip | app/page.tsx:69-85 | a data URL built from a type and the base64 encoding of non-empty bytes yields exactly that type and those bytes |
| Images.ReadDimension | app/page.tsx:92-104 | a usable attribute (present, numeric, non-zero) wins; otherwise the inline style's pixel value is used |
| Images.StyleWidthRead | app/page.tsx:96-103 | `style="width:<n>px"` gives width `n` when there is no `width` attribute |
| Images.WidthAttributeWins | app/page.tsx:92-103 | a positive `width` attribute is the width, whatever the style says |
| Images.PxMatchOfDeclaration | app/page.tsx:97-98 | the style pattern matches `key:<digits>px` with the key in any case |
| Images.FitToMaxWidth | app/page.tsx:109-116 | a size within the cap is returned unchanged; a wider one gets exactly the cap as its width and the height rounded from `height * maxWidth / width` |
| Images.FitNeverEnlarges | app/page.tsx:108-116 | the result is never wider than the input or the cap, its height never grows, and the aspect ratio is kept to within the height's rounding |
| Images.ExportSize | app/page.tsx:468-474 | every exported image is between 1 and 520 pixels wide |
| Images.ExportFallback | app/page.tsx:468-474 | an image without a positive size is exported at 420 x 260 |
| Images.ExportDeclared | app/page.tsx:468-474 | a declared size is kept when it fits and otherwise shrunk to width 520 without growing its height |
| Images.ImgTypeIgnoresCase | app/page.tsx:274-281 | `imgTypeFromMime` does not depend on the case of ASCII letters |
| Images.ImgTypeOfContentType | app/fayl-oxuma/page.tsx:319-332 | the if-chain in full: a type containing `png` maps to png; jpg iff no `png` and `jpeg` or `jpg`; gif iff none of those and `gif`; bmp iff none of those and `bmp`; png otherwise |
| Images.ImgTypeMappingsAgree | app/fayl-oxuma/page.tsx:319-332 | the two pages' mappings agree on a type without upper-case letters |
| Images.LegacyMappingIsCaseSensitive | app/fayl-oxuma/page.tsx:319-332 | the older mapping sends a type without lower-case letters, such as `IMAGE/JPEG`, to png |
| Segmenter.SplitNumberedQuestions | app/page.tsx:118-152 | the loop over lines with `questions`, `current` and `hasNumberPattern` computes the segmentation |
| Segmenter.NonEmpty | app/page.tsx:149-151 | `filter(Boolean)` keeps exactly the non-empty entries: every kept entry is a non-empty input entry, every non-empty input entry is kept, and an input without empty entries is kept whole |
| Segmenter.NonEmptyAppend | app/page.tsx:149-151 | the filter works entry by entry: filtering a concatenation is concatenating the filtered parts |
| Segmenter.NonEmptyConcat | app/page.tsx:149-151 | the filter drops no text: the kept entries, joined, are the input entries joined |
| Segmenter.UnnumberedIsLines | app/page.tsx:149 | without numbered lines the result is exactly the trimmed non-blank lines in order, each with no whitespace at its ends |
| Segmenter.UnnumberedLineCount | app/page.tsx:149 | without numbered lines there is one entry per line that is not blank |
| Segmenter.NumberedCountIsEntries | app/page.tsx:126-151 | with numbered lines there is one entry per numbered line, plus one for non-blank text before the first of them |
| Segmenter.NumberedEntriesStart | app/page.tsx:126-151 | with numbered lines the entries are an optional preamble entry and then one entry per numbered line, in order, each starting with its numbered line, normalised |
| Segmenter.SegmentsKeepText | app/page.tsx:118-152 | splitting loses and adds no text: the entries, joined, hold exactly the text's non-whitespace characters, in order |
| Segmenter.ScanKeepsText | app/page.tsx:126-143 | the line loop keeps all text: the finished questions and the open lines hold the non-whitespace characters of the lines read |
| Segmenter.ScanHeads | app/page.tsx:126-143 | during the loop, the open question starts with the last numbered line and the finished questions start with the earlier ones, in order |
| Segmenter.NumberedEntriesNormalized | app/page.tsx:136-151 | with numbered lines every entry is non-empty, trimmed and free of whitespace runs |
| Segmenter.SingleNumberedQuestion | app/page.tsx:126-151 | one numbered line with its continuation lines and no preamble gives exactly one entry |
| Segmenter.OneLineQuestion | app/page.tsx:118-152 | a normalised one-line numbered question comes back unchanged as the only entry |
| Segmenter.ScanCount | app/page.tsx:126-143 | the loop keeps its entries normalised, adds one entry per numbered line and one for a preamble, and sets `hasNumberPattern` iff a line is numbered |
| Segmenter.StepCount | app/page.tsx:127-142 | one line's effect on the entry count and on `hasNumberPattern` |
| Segmenter.FinishAllKept | app/page.tsx:145-151 | the final flush adds the open question, and every entry survives the filter |
| Blocks.HeaderOf | app/page.tsx:161 | any of I, II, III, IV, V, then any whitespace, then `BLOK` in any case, starts a header |
| Blocks.NotHeader | app/page.tsx:161 | a text not starting with `I` or `V` in either case is never a header |
| Blocks.CollectImages | app/page.tsx:186-195 | the `imgEls.forEach` loop computes the fold `ImagesFrom`: each tag decoded in document order, tags without a `src` or a data URL skipped |
| Blocks.ImagesFromFails | app/page.tsx:186-195 | the loop throws exactly when one of its tags throws |
| Blocks.ImageOfFails | app/page.tsx:188-190 | one tag throws exactly when it has a `src` whose conversion throws |
| Blocks.ImagesFromKeeps | app/page.tsx:186-195 | the collected images stay in front and each tag adds at most one |
| Blocks.NoEmbeddedImages | app/fayl-oxuma/page.tsx:123-128 | tags none of which has a `data:` source add nothing and cannot fail |
| Blocks.AddQuestion | app/page.tsx:200 | `currentBlock.questions.push(q)` appends `q` to the last block only |
| Blocks.AddTextQuestions | app/page.tsx:202-203 | the segments are appended to the last block as text-only questions, in order |
| Blocks.AttachImages | app/page.tsx:229-231 | only the last question of the last block changes: same text, its images followed by the new ones |
| Blocks.NonEmptyBlocks | app/page.tsx:251 | the filter keeps exactly the blocks with questions: every kept block is an input block with a question, every input block with a question is kept, and a list without empty blocks is kept whole |
| Blocks.NonEmptyBlocksAppend | app/page.tsx:251 | the filter works block by block: filtering a concatenation is concatenating the filtered parts |
| Blocks.NamesOfNonEmptyBlocks | app/page.tsx:251 | the filter keeps exactly the names of the blocks holding a question, in their order |
| Blocks.FilledHeaderNames | app/page.tsx:164-251 | when each step names blocks after headers, the filtered result is named after exactly the headers whose blocks received a question, in document order |
| Blocks.LiOnly | app/page.tsx:178-180 | the `LI` filter keeps exactly the `LI` elements among the children |
| Blocks.NonEmptyBlocksNamed | app/fayl-oxuma/page.tsx:159 | the filter keeps every block's header name |
| Blocks.NamesKept | app/page.tsx:176-248 | changing the current block's questions keeps every block name |
| Blocks.CurrentChangeNamed | app/fayl-oxuma/page.tsx:110-155 | changing only the current block's questions keeps every block named after a header |
| Blocks.NoHeaderTexts | app/page.tsx:164-174 | a sequence with no header texts has no header element |
| Blocks.FoldSkips | app/page.tsx:164-174 | elements that leave an empty block list unchanged can be dropped from the front of the loop |
| Blocks.FoldNamesHeaders | app/page.tsx:164-172 | when each step adds its element's header text to the block names, the loop's names are the header texts |
| Blocks.FoldKeeps | app/page.tsx:164-249 | an invariant each step keeps holds after the loop |
| Parser.ItemStep | app/page.tsx:182-205 | one `<li>` changes only the current block's questions |
| Parser.ItemsFrom | app/page.tsx:176-207 | a list changes only the current block's questions |
| Parser.ElementStep | app/page.tsx:164-249 | a header opens a new empty block under its text; before the first header an element changes nothing; otherwise only the current block's questions change |
| Parser.AddListItems | app/page.tsx:176-207 | the list loop computes `ItemsFrom` |
| Parser.AddElement | app/page.tsx:164-249 | one pass of the element loop computes `ElementStep` |
| Parser.ParseBlocksFromHtml | app/page.tsx:154-252 | the loop over the body's elements, then the filter, computes `ParseBlocks` |
| Parser.ParsedBlocksWellFormed | app/page.tsx:167-251 | a parse gives only blocks with a question, each named after a header, and every question has text or an image |
| Parser.BlockNamesAreHeaders | app/page.tsx:164-172 | the blocks are opened one per header element, in document order, under the header's trimmed text |
| Parser.ParsedNamesAreFilledHeaders | app/page.tsx:164-251 | the parsed blocks are named after exactly the header elements whose block received a question, in document order: none is lost and none is added |
| Parser.PreambleIgnored | app/page.tsx:174 | elements before the first header are ignored; not even their images are decoded |
| Parser.HeaderOpensBlock | app/page.tsx:167-172 | the header test runs first: a header element opens a new empty block even when it is a list |
| Parser.TextWithImageIsOneQuestion | app/page.tsx:239-242 | text with an image is one question holding the whole text, never split |
| Parser.TextOnlyIsSegmented | app/page.tsx:245-248 | text without an image is appended as its segments |
| Parser.ImageOnlyAttaches | app/page.tsx:228-231 | an image-only paragraph adds its images to the previous question and adds no question |
| Parser.ImageOnlyFirstQuestion | app/page.tsx:232-234 | in a block with no question, an image-only paragraph becomes a question with empty text |
| Parser.ItemWithImagesIsOneQuestion | app/page.tsx:199-200 | a list item with an image is one question with the item's whole text |
| Parser.ItemTextOnlyIsSegmented | app/page.tsx:201-204 | a list item with text and no image is appended as its segments, text-only |
| Parser.BlankItemSkipped | app/page.tsx:197 | a list item with neither text nor an image changes nothing |
| Parser.ItemsAppendQuestions | app/page.tsx:182-205 | a list appends the questions of its items, in order, after the current block's questions, and changes nothing else |
| Parser.SegmentsHaveContent | app/page.tsx:246-247 | questions made from segments always have text |
| Parser.PlaceContentShaped | app/page.tsx:225-248 | placing a paragraph's content keeps every question with text or an image |
| Parser.StepNames | app/page.tsx:164-249 | one element adds its text to the block names when it is a header and no name otherwise |
| LegacyParser.ContentStep | app/fayl-oxuma/page.tsx:116-155 | one item or element changes only the current block's questions |
| LegacyParser.ItemsFrom | app/fayl-oxuma/page.tsx:111-137 | a list changes only the current block's questions |
| LegacyParser.ElementStep | app/fayl-oxuma/page.tsx:93-156 | a header opens a new empty block under its text; before the first header an element changes nothing; otherwise only the current block's questions change |
| LegacyParser.AddContent | app/fayl-oxuma/page.tsx:117-133 | the skip test, the image loop and the push compute `ContentStep` |
| LegacyParser.AddListItems | app/fayl-oxuma/page.tsx:111-137 | the list loop computes `ItemsFrom` |
| LegacyParser.ParseBlocksFromHtml | app/fayl-oxuma/page.tsx:81-160 | the loop over the body's elements, then the filter, computes `ParseBlocks` |
| LegacyParser.ContentStepAppends | app/fayl-oxuma/page.tsx:141-155 | an element that is not blank appends one question with its whole text and its images; a blank one appends none |
| LegacyParser.OneQuestionPerItem | app/fayl-oxuma/page.tsx:111-134 | a list appends, after the existing questions, exactly one question per non-blank `<li>`, in order, holding the item's whole text and its images, and changes nothing else |
| LegacyParser.NeverRewrites | app/fayl-oxuma/page.tsx:93-156 | the parser only appends: every block keeps its name and its questions as a prefix |
| LegacyParser.ParsedBlocksWellFormed | app/fayl-oxuma/page.tsx:93-159 | a parse gives only blocks with a question, each named after a header |
| LegacyParser.StepNames | app/fayl-oxuma/page.tsx:93-156 | one element adds its text to the block names when it is a header and no name otherwise |
| LegacyParser.ParsedNamesAreFilledHeaders | app/fayl-oxuma/page.tsx:93-159 | the parsed blocks are named after exactly the header elements whose block received a question, in document order |
| LegacyParser.HeaderOpensBlock | app/fayl-oxuma/page.tsx:96-105 | a header element opens a new empty block under its text |
| LegacyParser.ElementIsOneQuestion | app/fayl-oxuma/page.tsx:140-155 | a non-list element that is not blank is exactly one question with its whole text and images |
| LegacyParser.ForeignImagesGiveBlankQuestion | app/fayl-oxuma/page.tsx:141-155 | an element with no text whose `<img>` tags are not data URLs still becomes a question, with no text and no image |
| Shuffling.Shuffle | app/page.tsx:60-67 | the in-place downward swap loop on a copy computes `Shuffled`; the argument is a value and is not changed |
| Shuffling.ShuffledPermutes | app/page.tsx:60-67 | the shuffle keeps the length and the multiset of elements |
| Shuffling.ShuffleFromPermutes | app/fayl-oxuma/page.tsx:50-57 | every run of the remaining loop is a permutation |
| Shuffling.SwapPermutes | app/page.tsx:64 | a swap keeps the multiset |
| Shuffling.AboveIndexFinal | app/page.tsx:62-65 | positions above the loop index are never touched again |
| Shuffling.LastIsFirstDraw | app/page.tsx:62-64 | the last position ends up with the element the first draw picks |
| Shuffling.SelfDrawsKeepOrder | app/page.tsx:62-65 | draws that always pick `j = i` keep the order |
| Tickets.FirstShort | app/page.tsx:372 | `blocks.find` finds the first block with fewer questions than tickets, and finds none iff every block has enough |
| Tickets.ShuffleBlocks | app/page.tsx:376 | each block keeps its name, and its questions come out as a permutation of its own |
| Tickets.ShuffleAll | app/page.tsx:376 | the `blocks.map` loop computes `ShuffleBlocks` |
| Tickets.MakeTicket | app/page.tsx:380-386 | the inner loop builds ticket `i`, numbered `i + 1`, with one question per block |
| Tickets.GenerateTickets | app/page.tsx:367-390 | the checks, the shuffles and the nested loops compute `Generate` |
| Tickets.ValidationOrder | app/page.tsx:368-374 | the checks run in order: no blocks first, then a count below 1, then (strict mode only) the first short block, named; generation succeeds iff none applies |
| Tickets.TicketsShape | app/page.tsx:379-387 | a success yields `count` tickets numbered 1..count, each with one question from every block, in block order, under the block's name |
| Tickets.StrictNoRepeat | app/page.tsx:382 | in strict mode no block hands out a question more often than it holds it |
| Tickets.WrapCycles | app/page.tsx:382 | in wrap mode ticket `i` takes the shuffled question at `i mod n`, so the questions repeat with period `n` |
| Tickets.WrapMatchesStrict | app/page.tsx:382 | when every block has enough questions, wrap mode picks what strict mode picks |
| Pages.Page.constructor | app/page.tsx:289-290 | a page starts with no blocks, no tickets and no error |
| Pages.Page.LoadDocument | app/page.tsx:311-353 | loading clears the tickets, keeps the parsed blocks, or shows the error with no blocks when a payload is invalid; the blocks are always non-empty, header-named and have content |
| Pages.Page.GenerateTickets | app/page.tsx:367-390 | a failing generate returns its alert and leaves the tickets as they were; a success replaces them |
| Pages.LegacyPage.constructor | app/fayl-oxuma/page.tsx:167-168 | a page starts with no blocks, no tickets and no error |
| Pages.LegacyPage.LoadDocument | app/fayl-oxuma/page.tsx:182-229 | loading clears the tickets, keeps the parsed blocks, or shows the error with no blocks; the blocks are always non-empty and header-named |
| Pages.LegacyPage.GenerateTickets | app/fayl-oxuma/page.tsx:235-278 | a failing generate returns its alert and leaves the tickets as they were; a success replaces them |

## Left out

- Converting the DOCX to HTML (`FileReader`, the `mammoth` import) and `DOMParser` itself are left out, because they are foreign libraries and I/O. A document is the list of its body's child nodes.
- The missing-file, unreadable-file and converter-error branches of `handleFileChange` are left out, because they only set an error message. Of the failures, only the invalid image payload is modelled.
- The table and formula warning (`structureWarning`), `parsed`, `isLoading` and the form fields are left out, because they only affect the display.
- The DOCX export (`Document`, `Paragraph`, `Table`, `ImageRun`, `Packer`, `saveAs`, `labelLine`) is left out, because it is layout in a foreign library. Of the export, only the image size it computes and the image type it picks are modelled.
- `alert` is a returned error value.
- `Math.random` is an injected sequence of draws.
- The parsers treat blocks and questions as values. `currentBlock` and `lastQ` alias objects inside `blocks`, and updating them in place is modelled as replacing the last block of the sequence.
- Images.FitToMaxWidth: the floating point is not modelled. Sizes are integers, and `Math.round(h * m / w)` is computed exactly, with halves rounded up. The function requires a positive cap, which the only caller provides (520).
- Strings.JsNumber: only integer spellings are modelled, with optional surrounding whitespace and sign. Fractions, exponents, hexadecimal, `Infinity` and `NaN` count as unusable. `Number` returns a double, while the model reads every digit run exactly: above 2^53 the code loses precision, and a run of 309 or more digits gives `Infinity`, which `isFinite` rejects.
- Images.ReadDimension: inherits the exact reading of `Strings.JsNumber`. A width or height of 309 or more digits is a size here. The code rejects such an attribute and falls back to the style, and treats such a style value as absent.
- Images.ReadDimension: a fractional attribute such as `width="12.5"` is treated as unusable, so the style is read instead. The code would use `12.5`.
- Tickets.Generate: `ticketCount` is an integer here. A fractional or `NaN` count from the form is not modelled.
- Tickets.GenerateTickets: requires `strict || AllBlocksNonEmpty(blocks)`, as explained above. An empty block in wrap mode would give `undefined` questions in the code.
- Pages.Page.GenerateTickets: requires the page invariant and one valid draw sequence per block. These are the parse's guarantee and the contract of `Math.random`.
- Strings.ToLowerAscii: only ASCII letters are lower-cased. Lower-casing of other letters is not modelled, and no keyword of the MIME mapping depends on it.
- Strings are sequences of Unicode scalar values, while JavaScript strings are UTF-16 code units. Lengths and positions differ for characters outside the Basic Multilingual Plane, and no code path modelled here depends on them.
