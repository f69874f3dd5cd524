# Help-text normalizer and `step rand`, modelled in Dafny

This project models two parts of the `step` command-line tool.

**The help-text normalizer** (`usage/printer.go`) turns the rendered help template of a command into Markdown.

- `markdownify` reads the text byte by byte from a `bytes.Buffer`:
  - an unescaped `<` or `>` outside code becomes a backtick;
  - `'''` becomes a ```` ``` ```` fence, with a `shell` hint when an opening fence is followed by white space;
  - a doubled backslash becomes one backslash;
  - inside a fence, `**` is dropped.
- `helpPreprocessor` then moves the `## OPTIONS` section. It goes after the first of `POSITIONAL ARGUMENTS`, `Description`, `USAGE` and `NAME` that exists, or to the end when none does. `findSectionEnd` gives where a section ends.
- When `capOnlyFirst` is set, every `## ` header keeps its first letter and the rest of the title is lower-cased.

**The `step rand` command** (`command/rand/rand.go`):

- `randAction` resolves the positional length and the `--format` and `--dictionary` flags.
- `randWithFormat` maps a format name to a generator.
- The dice format prints `r + 1` for a random `r` below the length.
- `randWithDictionary` trims the dictionary lines and joins `length` random words with dashes.
- Randomness is a parameter: the indices the random source would return.

Files:

- `runes.dfy`: bytes, `utf8.DecodeRune` with its partner, the UTF-8 encoder, and `unicode.IsSpace`.
- `buffer.dfy`: the parts of `bytes.Buffer` that `markdownify` uses, as a class. It keeps the standard library's last-read bookkeeping: `UnreadByte` only works right after a read, and a read at the end empties the buffer.
- `markdownify.dfy`:
  - `Markdownify` is the Go loop over two `Buffer` objects, proved equal to the function `MarkdownifyText`.
  - Lemmas about `MarkdownifyText`.
  - A corrected variant, `MarkdownifyRewinding`. The lemmas about `Scan` at an arbitrary position are stated for both variants through the `mode` parameter. `MarkdownifyPlain` and `MarkdownifyAngles` are about the code as written; `FencedBlock` covers both modes, and `MarkdownifyRewindingKeepsText` is about the corrected mode.
- `sections.dfy`: `findSectionEnd`, the OPTIONS relocation, the header lower-casing and the whole of `helpPreprocessor` after rendering (`HelpText`).
- `rand.dfy`: `randAction`, `randWithFormat`, the dice roll and `randWithDictionary`, together with `strconv.Atoi`/`Itoa` and `strings.TrimSpace`.

Three behaviours of the code are easy to misread, and the model follows the code in all of them:

- A lone backslash is not kept. The escape branch (`usage/printer.go:181-185`) writes a backslash only when the previous byte was one too. A single backslash writes nothing and only escapes the byte after it.
- The place where OPTIONS is put back is computed on the text after OPTIONS has been cut out (`usage/printer.go:86-94`), not on the section boundaries of the original text.
- Normalising help text that is already normalised can change it again. `it's ok` becomes `it' ok` and then `it'ok` (`usage/printer.go:167-171`), and every pass halves a run of backslashes (`usage/printer.go:181-185`). The whole normalisation is idempotent for text without the bytes markdownify treats specially, with at most one OPTIONS heading (`HelpTextIdempotent`). Relocation alone is idempotent when OPTIONS occurs once and its section ends with a new-line (`RelocateOptionsIdempotent`).

## Model

| member | source | states |
|---|---|---|
| Runes.DecodeRune | usage/printer.go:159 | the rune `ReadRune` decodes is 1 to 4 bytes wide and never wider than the input; an ASCII byte decodes to itself with width 1; a multi-byte rune lies in U+0080..U+10FFFF; a non-ASCII byte that starts no valid sequence decodes to U+FFFD with width 1 |
| Runes.DecodeEncoded | usage/printer.go:159 | decoding reads back every Unicode scalar value from its UTF-8 encoding, with the encoding's width, whatever bytes follow |
| Runes.EncodesDecoded | usage/printer.go:159 | every multi-byte rune decoded is a scalar value, and the bytes it was read from are exactly its UTF-8 encoding |
| Runes.LowerByte | usage/printer.go:105 | upper-case ASCII letters move to lower case; every other byte is kept |
| Runes.IsSpace | usage/printer.go:160 | white space is a Unicode scalar value and never U+FFFD, so an undecodable byte after an opening fence never earns the shell hint (the same test `strings.TrimSpace` applies at command/rand/rand.go:210) |
| Bytes.Buffer.constructor | usage/printer.go:133 | a new buffer holds exactly the given bytes, unread, with no previous read |
| Bytes.Buffer.Reset | usage/printer.go:135-138 | empties the buffer: no data, nothing left to read and no previous read, as `ReadByte` does on reaching the end |
| Bytes.Buffer.ReadByte | usage/printer.go:135-138 | returns the next unread byte and advances; at the end it reports failure, returns 0 and empties the buffer |
| Bytes.Buffer.UnreadByte | usage/printer.go:169-170 | steps back one byte only when the previous operation was a successful read; the data is unchanged and a second unread fails |
| Bytes.Buffer.ReadRune | usage/printer.go:159 | decodes the next rune and advances by its width, recording that width; at the end it fails and empties the buffer |
| Bytes.Buffer.UnreadRune | usage/printer.go:163 | gives back exactly the width of the rune just read by ReadRune, and fails after any other operation |
| Bytes.Buffer.WriteByte | usage/printer.go:143 | appends the byte and forgets the last read |
| Bytes.Buffer.WriteString | usage/printer.go:157 | appends the bytes and forgets the last read |
| Markdown.Step | usage/printer.go:134-189 | one turn of the loop consumes at least one byte and never moves past the end |
| Markdown.Scan | usage/printer.go:134-189 | from any position, the output is at most three times as long as the input left to read: only a ''' fence, three bytes read and at most eight written, lengthens the text |
| Markdown.ScanWithoutQuotes | usage/printer.go:134-189 | from any position, state and mode, text with no quote is never lengthened: each turn writes at most one byte per byte it reads |
| Markdown.MarkdownifyText | usage/printer.go:128-191 | the markdownified text is at most three times as long as the input |
| Markdown.ScanPlain | usage/printer.go:186-187 | from any position, state and mode, text with none of the five special bytes is copied unchanged |
| Markdown.MarkdownifyPlain | usage/printer.go:186-187 | markdownify leaves text with none of the five special bytes unchanged |
| Markdown.ScanAngles | usage/printer.go:141-152 | outside code, with no quote, star or backslash present, each angle bracket becomes a backtick and every other byte is kept |
| Markdown.MarkdownifyAngles | usage/printer.go:141-152 | markdownify of text with no quote, star or backslash is the text with its angle brackets turned into backticks |
| Markdown.EscapedAngle | usage/printer.go:141-152 | a backslash right before an angle bracket is dropped and the bracket is written as it is, in or out of code |
| Markdown.LoneEscape | usage/printer.go:181-185 | a backslash not preceded by one writes nothing and becomes the lookback byte |
| Markdown.EscapePair | usage/printer.go:181-185 | two backslashes write one backslash and clear the lookback, so a third starts afresh |
| Markdown.BackslashPairs | usage/printer.go:181-189 | 2n backslashes in a row write exactly n backslashes |
| Markdown.BackslashRun | usage/printer.go:181-189 | k backslashes write k/2 of them; after an odd run the lookback is a backslash, so it escapes what follows |
| Markdown.CodeVerbatim | usage/printer.go:140-152 | inside code, text without quote, star or backslash is copied verbatim, angle brackets included |
| Markdown.PlainByte | usage/printer.go:186-189 | anywhere, in or out of code, a byte other than the five special ones is written as it is and becomes the lookback |
| Markdown.FenceToggles | usage/printer.go:153-166 | anywhere in the text a ''' run becomes a fence and flips the code flag; the shell hint follows only an opening fence with white space after it, never a closing one |
| Markdown.AngleBackticked | usage/printer.go:141-152 | anywhere outside code, an angle bracket not preceded by a backslash becomes a backtick |
| Markdown.LoneQuote | usage/printer.go:153-171 | anywhere, a quote that opens no fence is written as it is; as written, reading resumes two bytes on, past the byte after the quote; with the look-ahead given back it resumes right after the quote |
| Markdown.StarInCode | usage/printer.go:172-177 | anywhere inside code, a star pair writes nothing and reading resumes after it; a lone star is written as it is, and reading resumes past the byte after it as written, or right after the star with the look-ahead given back |
| Markdown.FencedBlock | usage/printer.go:153-166 | in either pass, '''body''' becomes a fenced block around the unchanged body, hinted as shell exactly when the body starts with white space |
| Markdown.RewindingKeepsText | usage/printer.go:167-171 | with the look-ahead bytes given back, text without angle brackets, backslashes and ''' runs is copied unchanged, lone quotes included |
| Markdown.MarkdownifyRewindingKeepsText | usage/printer.go:167-171 | the corrected pass leaves text without angle brackets, backslashes and ''' runs unchanged |
| Markdown.RewindingKeepsLoneStars | usage/printer.go:172-177 | with the look-ahead byte given back, code without quotes, backslashes or doubled stars is copied unchanged |
| Markdown.LoneQuoteSwallowsNextByte | usage/printer.go:167-171 | as written, `it's ok` comes out as `it' ok` |
| Markdown.LoneQuoteKeptWhenRewinding | usage/printer.go:167-171 | the corrected pass keeps `it's ok` |
| Markdown.LoneQuoteSwallowsAgain | usage/printer.go:167-171 | as written, a second pass over `it' ok` loses the space after the quote and gives `it'ok` |
| Markdown.MarkdownifyTwiceDiffers | usage/printer.go:167-171 | markdownify is not idempotent: on `it's ok` two passes differ from one |
| Markdown.BackslashesHalvedAgain | usage/printer.go:181-185 | each pass halves a backslash run: two backslashes give one, and that one gives nothing |
| Markdown.CodeStarSwallowsNextByte | usage/printer.go:174-177 | as written, '''*a''' comes out as a fence, a star and a fence: the `a` is lost |
| Markdown.CodeStarKeptWhenRewinding | usage/printer.go:174-177 | the corrected pass keeps the `a` after the star |
| Markdown.EscapedAnglesExample | usage/printer.go:141-152 | the escaped brackets in `\<b\>` survive and the backslashes go |
| Markdown.QuoteBranch | usage/printer.go:153-171 | after a quote the reader ends two bytes on, past the fence, when a ''' run is read; otherwise it ends one byte past the byte after the quote, because only one of the two unreads is honoured; it writes the fence and shell hint, or else the quote |
| Markdown.StarBranch | usage/printer.go:172-177 | inside code a star consumes the byte after it, and it writes the star unless that byte is another star; the unread on the output buffer gives nothing back |
| Markdown.Turn | usage/printer.go:134-189 | one loop turn on the buffers writes exactly the output of Step and leaves the reader where Step says; at the end it writes nothing |
| Markdown.Markdownify | usage/printer.go:128-191 | the byte loop over bytes.Buffer returns exactly MarkdownifyText of the unread input and leaves the reader drained |
| Sections.IndexOf | usage/printer.go:81 | strings.Index: -1 exactly when the pattern does not occur; otherwise the first index where it occurs |
| Sections.FirstHeaderLine | usage/printer.go:16 | where the first line starting with ## begins, or -1 when there is none |
| Sections.Heading | usage/printer.go:113 | the searched heading is `## ` followed by the title, byte for byte |
| Sections.FindSectionEnd | usage/printer.go:112-122 | -1 exactly when "## h" is absent; otherwise the start of the first ## line after the heading, or the end of the text, with no ## line in between |
| Sections.SectionCoversHeading | usage/printer.go:112-122 | a section never ends inside its own heading |
| Sections.SectionEndUnique | usage/printer.go:112-122 | the section end is the only position with these properties |
| Sections.SectionEndKept | usage/printer.go:87-94 | a section end survives any change to the text after it, as long as a ## line begins there |
| Sections.AnchorFrom | usage/printer.go:87-98 | the first title, in priority order, whose section exists; none before it exists |
| Sections.InsertionPoint | usage/printer.go:87-98 | OPTIONS is put back at the end of the first anchor section that exists, else at the end of the text; either way at a section boundary |
| Sections.OptionsSection | usage/printer.go:85 | the cut-out span starts with the "## OPTIONS" heading |
| Sections.SectionStartsWithHeading | usage/printer.go:85 | a section, cut from its heading to its end, starts with the whole heading |
| Sections.WithoutOptions | usage/printer.go:86 | cutting OPTIONS out loses nothing else: the lengths and the multisets of bytes add up |
| Sections.RelocateOptions | usage/printer.go:81-100 | relocation only rearranges: same length, same multiset of bytes, and nothing changes without an OPTIONS section |
| Sections.RelocatedLayout | usage/printer.go:85-98 | the OPTIONS section sits whole at the insertion point, with the rest of the text around it in its old order |
| Sections.OptionsFollowAnchor | usage/printer.go:87-94 | in the result the anchor section ends exactly where OPTIONS begins, unless the anchor was a last section with no final new-line |
| Sections.LowerHeaders | usage/printer.go:103-107 | lower-casing the section names keeps the length |
| Sections.LowerAll | usage/printer.go:105 | the lowered span keeps its length and holds, at each position, the ASCII lower-case form of the byte there |
| Sections.LowerHeadersPointwise | usage/printer.go:17 | a byte is lowered exactly when it lies on a "## " line after the first four bytes; every other byte is kept |
| Sections.LowerHeadersIdempotent | usage/printer.go:103-107 | lower-casing the section names twice is the same as once |
| Sections.OptionsHeaderLowered | usage/printer.go:103-107 | "## OPTIONS" becomes "## Options" |
| Sections.CutHasNoOptions | usage/printer.go:81-86 | when "## OPTIONS" occurs once, the text with its section cut out holds no OPTIONS heading |
| Sections.OptionsFoundAgain | usage/printer.go:81-98 | in the relocated text, when the OPTIONS section ends with a new-line, the heading is first found at the insertion point and its section ends exactly where the moved block ends |
| Sections.SamePiecesAgain | usage/printer.go:81-98 | the relocated text splits into the same OPTIONS section and the same remaining text as the original |
| Sections.RelocateOptionsIdempotent | usage/printer.go:80-100 | relocating twice is relocating once, when OPTIONS occurs once and its section ends with a new-line |
| Sections.RelocatedTwice | usage/printer.go:80-100 | relocation is idempotent on any text with at most one OPTIONS heading, ending with a new-line if it has one |
| Sections.OnlyAtInsertion | usage/printer.go:81-98 | after relocation the OPTIONS heading occurs at the insertion point and nowhere else |
| Sections.InsertionBeginsLine | usage/printer.go:86-98 | in a text ending with a new-line whose OPTIONS heading begins a line, OPTIONS is put back at the start of a line |
| Sections.LoweringHidesHeading | usage/printer.go:103-107 | lower-casing section names leaves no "## OPTIONS" when every one began a line, and makes no new one |
| Sections.LowerHeadingsUnmoved | usage/printer.go:80-107 | after relocation and lower-casing no OPTIONS heading is left for a second pass to move |
| Sections.LoweredTwice | usage/printer.go:72-110 | for text without special bytes, relocated and lower-cased, a second pass of markdownify, relocation and lower-casing gives it back unchanged |
| Sections.HelpTextIdempotent | usage/printer.go:72-110 | normalizing twice is normalizing once, for rendered text without the bytes markdownify treats specially that holds at most one OPTIONS heading, ends with a new-line if it has one and, with capOnlyFirst, has that heading at the start of a line |
| Sections.HelpText | usage/printer.go:72-110 | the normalized text is as long as the markdownified text, and a rearrangement of it when capOnlyFirst is off |
| Rand.ToLower | command/rand/rand.go:116 | ASCII capitals, the dotted capital I and the Kelvin sign are lowered, and the length is kept |
| Rand.LowerChar | command/rand/rand.go:116 | an ASCII capital moves 32 code points down, U+0130 becomes `i`, U+212A becomes `k`, and every other character is kept; the result is ASCII exactly when the input is ASCII or one of those two |
| Rand.ToLowerIdempotent | command/rand/rand.go:116 | lowering twice is the same as once |
| Rand.ParseInt | command/rand/rand.go:131 | strconv.Atoi: fails on empty input; succeeds exactly when the input is an optional sign followed by at least one digit whose signed value lies within int64, and then returns that value; reads a plain digit string as its value |
| Rand.ParseItoa | command/rand/rand.go:131 | Atoi reads back what Itoa writes, for every int64 |
| Rand.Itoa | command/rand/rand.go:187 | the printed number is non-empty decimal digits without a leading zero, after a minus sign when it is negative |
| Rand.MalformedLengthRejected | command/rand/rand.go:129-134 | the length arguments `1x`, `abc` and `-` are rejected as invalid lengths |
| Rand.SignedLengthsAccepted | command/rand/rand.go:129-134 | a sign and leading zeros are accepted: `+5` resolves to length 5 and `-05` to -5 |
| Rand.DefaultLength | command/rand/rand.go:120-127 | the default is 6 exactly when a dictionary is given or the format is dice, else 32 |
| Rand.ResolveAction | command/rand/rand.go:105-141 | more than one argument fails first; a dictionary together with a format fails next; then a bad length argument fails; otherwise the length is the parsed argument or the default, and a dictionary selects the word plan with the lower-cased format otherwise |
| Rand.FormatCaseIgnored | command/rand/rand.go:116 | formats that differ only in letter case resolve identically |
| Rand.DottedCapitalSelectsDice | command/rand/rand.go:116 | a format spelled with a non-ASCII capital that lowers to ASCII, such as DİCE, selects dice |
| Rand.SelectGenerator | command/rand/rand.go:150-190 | exactly the fourteen accepted names select a generator and any other name gives the invalid-format error; only dice selects the dice roll; fixed alphabets are the digits or the letters |
| Rand.DecimalAlphabet | command/rand/rand.go:168-169 | dec and decimal draw from exactly the ten digits, each once |
| Rand.LowerAlphabet | command/rand/rand.go:170-171 | lower draws from exactly a to z, each once |
| Rand.UpperAlphabet | command/rand/rand.go:172-173 | upper draws from exactly A to Z, each once |
| Rand.DrawCharset | command/rand/rand.go:168-173 | one character per random index, each from the alphabet |
| Rand.DecimalDraw | command/rand/rand.go:168-169 | a decimal draw is all digits |
| Rand.RollDice | command/rand/rand.go:182-187 | for 0 <= r < length, the printed roll reads back as r + 1, which lies between 1 and length |
| Rand.TrimSpace | command/rand/rand.go:210 | the trimmed word neither starts nor ends with white space |
| Rand.TrimSpaceSplits | command/rand/rand.go:210 | the line is white space, then the trimmed word, then white space |
| Rand.TrimSpaceIdempotent | command/rand/rand.go:210 | trimming twice is the same as once |
| Rand.Words | command/rand/rand.go:207-211 | one word per dictionary line, each the trimmed line |
| Rand.TrimLines | command/rand/rand.go:207-211 | the scanner loop collects exactly one trimmed word per line |
| Rand.JoinPicked | command/rand/rand.go:216-227 | the joining loop returns exactly the picked words joined by dashes |
| Rand.Join | command/rand/rand.go:216-227 | no words give the empty text and one word is printed alone; otherwise the text followed by one dash is each word followed by a dash, so dashes stand between words and never after the last |
| Rand.Picked | command/rand/rand.go:219-223 | the i-th chosen word is the word at the i-th random index |
| Rand.SplitJoin | command/rand/rand.go:216-227 | words without dashes are recovered from the joined text, which holds one dash fewer than words |
| Rand.RandWithDictionary | command/rand/rand.go:200-231 | the trimming loop and the joining loop return exactly the chosen trimmed words joined by dashes |
| Rand.DictionaryOutput | command/rand/rand.go:209-227 | the output has exactly length words, each the trimmed dictionary line at its random index, and length - 1 dashes, when no picked word holds a dash |

## Left out

- Template rendering is not modelled (`HelpPrinter`, `HelpPrinterCustom`, `htmlHelpPrinter`, `markdownHelpPrinter`, the front matter, `Render` and the Markdown renderer at usage/printer.go:27-70 and 74). `HelpText` takes the rendered text as input.
- Writing to the `io.Writer` and printing with `fmt.Println` or `os.Stdout.Write` are not modelled.
- Only the bookkeeping of `bytes.Buffer` that `markdownify` can observe is modelled. Its growth, capacity and other methods are left out.
- Sections.LowerHeaders: lowers ASCII letters only. `strings.ToLower` also lowers non-ASCII letters and replaces invalid UTF-8 with U+FFFD. Some of those changes alter the byte length of a title, for example U+0130 becoming `i`, so the length-keeping contract holds only for the ASCII lowering modelled here.
- Runes.LowerByte: ASCII only, for the same reason.
- Sections.LowerAll: ASCII only, as for LowerHeaders: it keeps non-ASCII letters and invalid UTF-8, which `strings.ToLower` would lower or replace.
- Rand.ToLower: lowers the ASCII capitals and the only two other characters whose lower case is ASCII, U+0130 (to `i`) and U+212A (to `k`). Every other non-ASCII letter is kept, where `strings.ToLower` lowers it to another non-ASCII letter. Which format is selected does not change, but the format shown in an invalid-format error can differ.
- Rand.LowerChar: as for Rand.ToLower, it keeps every non-ASCII letter other than U+0130 and U+212A, for example `É`, which `unicode.ToLower` lowers to `é`.
- The `randutil` generators are named, not modelled: `ASCII`, `Alphanumeric`, `Alphabet`, `Hex`, `Bytes` and `UUIDv4`. Neither is the emoji fingerprint. They are library code whose alphabets are not part of this model. For them `SelectGenerator` returns a tag, and only the `dec`, `lower` and `upper` alphabets, which rand.go spells out, are drawn from.
- `crypto/rand` and `big.Int` are not modelled. Their results are the `picks` and `r` parameters.
- `rand.Int` panics when its bound is not positive. `RollDice` therefore requires a positive length, and `RandWithDictionary` requires a non-empty word list when a word is needed.
- A negative length for the character-set formats and raw is not modelled, because what happens then is up to `randutil`.
- `os.Open`, the `bufio.Scanner` line splitting and the scanner and file errors are not modelled. The dictionary arrives as its list of lines, and the lines are sequences of characters, so invalid UTF-8 is not modelled.
- The `init` command registration is left out. It is a side effect on a global registry (command/rand/rand.go:19-103).
- Error values carry only the offending argument or format, not the message text of `errs.*` and `fmt.Errorf`.
- Go's `int` is taken to be 64 bits wide for `strconv.Atoi`.

## Findings

The corrected pass (`Rewinding` mode of `Scan`) differs from the code only where a look-ahead byte is given back. All position-independent lemmas about the pass are proved for both modes: `ScanPlain`, `ScanWithoutQuotes`, `ScanAngles`, `EscapedAngle`, the backslash lemmas, `CodeVerbatim`, `PlainByte`, `FenceToggles`, `AngleBackticked`, `LoneQuote` and `StarInCode`. `FencedBlock`, a lemma about a whole text, is also proved for both modes. `HelpText` and `Markdownify` keep the code's behaviour.

| source | as written | input that shows it | evidently intended | confidence | as-written member | corrected member |
|---|---|---|---|---|---|---|
| usage/printer.go:167-171 | after a quote that does not start a ''' run, two bytes are read and `UnreadByte` is called twice, but `bytes.Buffer` honours only the first call, so the byte right after the quote is lost | `it's ok` gives `it' ok` | both look-ahead bytes are given back, so the text after a lone quote is kept | not executed | Markdown.LoneQuoteSwallowsNextByte | Markdown.MarkdownifyRewindingKeepsText |
| usage/printer.go:174-177 | inside a code block, a star followed by another byte calls `UnreadByte` on the output buffer `w` instead of the reader `r`, so the byte after the star is lost | '''*a''' gives a fence, a star and a fence, without the `a` | `r.UnreadByte()`, so the byte after the star is read again | not executed | Markdown.CodeStarSwallowsNextByte | Markdown.RewindingKeepsLoneStars |
