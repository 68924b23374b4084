# ChatFlow payment extraction, modelled in Dafny

ChatFlow turns WhatsApp chat exports and photographed receipts into payment records,
and prints invoices from the records a user selects. This project models the logic
that does that. Its three parts are:

- **Chat parsing** (`src/lib/parseChat.ts`). Each line of an export is tried against
  four message envelopes (`YYYY/MM/DD, HH:MM - sender: text`,
  `[DD/MM/YY HH:MM:SS] sender: text`, `[DD/MM/YYYY, HH:MM:SS] sender: text`,
  `DD/MM/YY, HH:MM - sender: text`). The text of a matching line is searched with one
  amount pattern per registered currency, in registry order. A line with an amount
  becomes a record whose timestamp is rebuilt into a date string. The records come
  back sorted newest first.
- **Receipt text extraction** (`src/lib/ocrProcessor.ts`).
  - `extractPaymentInfo` splits the text recognised on a receipt into lines. It scans
    each line with twelve symbol patterns and then with the six registered codes. Each
    amount gets an item name from one of three heuristics.
  - `convertOCRResultToMessages` turns the detections into records.
  - `extractImageReferences` lists the distinct image attachments a chat export names.
- **Invoice data** (`src/lib/generateInvoicePDF.ts`). This covers what the invoice
  computes before drawing:
  - the text sanitiser;
  - the grouping of the selected records by currency;
  - the per-currency totals;
  - the row descriptions;
  - the name of the saved file.

## Modules

Regular expressions are modelled as explicit scanners. Where backtracking can change
what a pattern captures, the scanner tries the alternatives in the engine's order:
the greedy attachment name giving back characters, the lazy `(.+?)` captures, the
`\b` after the numeral of a currency code, and `\s+(.+)` giving back white space.
Where backtracking cannot change the result, the scanner is deterministic, and a doc
comment says why.

| module | file | what it holds |
|---|---|---|
| `Wrappers`, `Seqs`, `Scan` | `wrappers.dfy`, `seqs.dfy`, `scan.dfy` | `Option`/`Result`; `indexOf`, the first-occurrence filter, collecting and flattening; a leftmost-match search, greedy and lazy quantifiers, `\b` |
| `JsString` | `js_string.dfy` | `trim`, `split`, `split(/\r?\n/)`, `replace`, white space as JavaScript defines it, UTF-16 length |
| `Decimal` | `decimal.dfy` | `parseFloat` on the numerals the patterns capture |
| `PaymentRecords` | `payment_records.dfy` | currencies and their codes, `SUPPORTED_CURRENCIES`, the record and detection types |
| `ChatEnvelope`, `ChatDate`, `ChatAmount`, `ChatSort`, `ParseChat` | `chat_*.dfy`, `parse_chat.dfy` | `parseChat` |
| `OcrSymbols`, `OcrItem`, `OcrCodes`, `OcrExtract`, `OcrRecords`, `OcrConvert`, `Attachments` | `ocr_*.dfy`, `attachments.dfy` | `ocrProcessor.ts` |
| `Invoice` | `invoice.dfy` | the data `generateInvoicePDF` computes |

Some behaviours of the code are worth knowing. Each is proved where the table says.

- `A$50` in a chat is read as 50 US dollars, because `$` is tried before `A$`.
- `R1,000` is read as 1 rand, because the comma becomes a decimal point.
- `R12345` is read as 123.
- A line ending in a carriage return matches no envelope
  (`ChatEnvelope.TrailingCarriageReturnNeverMatches`). In an export with CRLF line ends,
  only a last line without a line break can yield a record.
- The `[DD/MM/YYYY, HH:MM:SS]` envelope produces a date string with a six-digit year and
  a fourth time field. Its records therefore get whatever instant the date reader
  gives that string.
- On a receipt, `R$5` yields both a USD and a BRL record.
- Every yen amount is reported twice, once as JPY and once as CNY.
- Method 1 of the item inference never applies to `$`, `A$` or `R$`, because `$`
  inside the built pattern asserts the end of the line.
- A record whose currency is not registered (an OCR-only code) makes the invoice's
  totals fail. The source throws there.
- A description made only of non-ASCII characters sanitises to the empty string,
  because the `Payment from` fallback is chosen before sanitising.

## Model

| member | source | states |
|---|---|---|
| `PaymentRecords.Lookup` | src/lib/parseChat.ts:4-11 | an entry exists exactly for the six registered currencies, and every registered symbol is non-empty |
| `PaymentRecords.Code` | src/lib/parseChat.ts:13-21 | every currency key is three upper-case letters |
| `PaymentRecords.CodeInjective` | src/lib/parseChat.ts:13-21 | different currencies have different keys |
| `ChatAmount.LiteralTextOfEscape` | src/lib/parseChat.ts:29 | escaping the regex syntax characters makes the pattern source match exactly the symbol's own characters |
| `ChatAmount.CreateCurrencyPattern` | src/lib/parseChat.ts:27-37 | the symbol part of the built pattern matches the symbol literally |
| `ChatAmount.CurrencyPatterns` | src/lib/parseChat.ts:40-43 | one pattern per registered currency, in registry order, each matching that currency's symbol |
| `ChatAmount.PatternFor` | src/lib/parseChat.ts:40-43 | the pattern of a registered currency matches its registered symbol |
| `ChatAmount.LeadEnd` | src/lib/parseChat.ts:34 | greedy `[0-9]{1,3}` takes one to three digits and stops early only before a non-digit |
| `ChatAmount.GroupsEnd` | src/lib/parseChat.ts:34 | the thousands groups start with a separator, when any are taken |
| `ChatAmount.GroupsShape` | src/lib/parseChat.ts:34 | the thousands groups hold only digits and separators |
| `ChatAmount.FractionEnd` | src/lib/parseChat.ts:34 | the optional fraction starts with `.` or `,` when taken |
| `ChatAmount.NumeralEnd` | src/lib/parseChat.ts:34 | a numeral match is non-empty and lies within the text |
| `ChatAmount.FirstAlternativeAlwaysWins` | src/lib/parseChat.ts:34 | the second branch of the alternation never decides the capture |
| `ChatAmount.MatchAt` | src/lib/parseChat.ts:30-36 | a match starts at `i` exactly when the symbol occurs there and optional white space and then a digit follow it |
| `ChatAmount.FirstMatchStart` | src/lib/parseChat.ts:46 | `exec` finds the leftmost start of a match, and none exists when it finds none |
| `ChatAmount.CapturedNumeralShape` | src/lib/parseChat.ts:34 | a capture starts with a digit, holds only digits and separators, and its leading run has at most three digits |
| `ChatAmount.NormalizedNumeral` | src/lib/parseChat.ts:50-54 | after the spaces go and commas become points, the numeral always parses, so the `isNaN` check never fires |
| `ChatAmount.ExtractAmountAtLeftmostMatch` | src/lib/parseChat.ts:45-56 | `extractAmount` reads the normalised capture of the leftmost match, and that amount is present and non-negative |
| `ChatAmount.ExtractAmountWithoutMatch` | src/lib/parseChat.ts:46-47 | with no match anywhere, there is no amount |
| `ChatAmount.AbsentSymbolReadsNothing` | src/lib/parseChat.ts:46-47 | a text without the symbol's first character has no amount |
| `ChatAmount.DetectAmount` | src/lib/parseChat.ts:106-120 | a result comes from a pattern that reads an amount where no earlier one does; there is none exactly when no pattern reads one; the amount is non-negative and its currency registered |
| `ChatAmount.FirstPresentDecides` | src/lib/parseChat.ts:110-120 | the first pattern that reads an amount decides, and nothing is found only when no pattern reads one |
| `ChatAmount.FirstReadingDecides` | src/lib/parseChat.ts:115-119 | the loop stops at the first pattern that reads an amount, and takes that amount and that currency |
| `ChatAmount.DetectSecond` | src/lib/parseChat.ts:110-119 | when the first pattern reads nothing and the second reads `v`, the result is the second currency with `v` |
| `ChatAmount.AmountNonNegative` | src/lib/parseChat.ts:54-55 | no pattern reads a negative amount |
| `ChatAmount.ParseWholeNumber` | src/lib/parseChat.ts:54 | `parseFloat` of a run of digits is its decimal value |
| `ChatAmount.DigitsNormalized` | src/lib/parseChat.ts:50-52 | the normalisation leaves a run of digits unchanged |
| `ChatAmount.RemoveOneSpace` | src/lib/parseChat.ts:51 | removing white space joins the words on either side of a space |
| `ChatAmount.LeadingGroupStopsAtThreeDigits` | src/lib/parseChat.ts:34 | `R12345` captures `123` and reads as 123 |
| `ChatAmount.SpaceSeparatedThousands` | src/lib/parseChat.ts:50-54 | `R1 000` captures `1 000` and reads as 1000 |
| `ChatAmount.CommaDecimalFraction` | src/lib/parseChat.ts:50-54 | `R25,50` reads as 25.5 |
| `ChatAmount.CommaThousandsReadAsFraction` | src/lib/parseChat.ts:50-54 | `R1,000` normalises to `1.000` and reads as 1 |
| `ChatAmount.AustralianSymbolResolvesToUsDollar` | src/lib/parseChat.ts:109-119 | `A$50` yields USD 50, because the ZAR pattern reads nothing and `$` is tried before `A$` |
| `Decimal.ParseFloat` | src/lib/parseChat.ts:54 | a number is read exactly when the text starts with a digit or with `.` and a digit, and it is never negative |
| `Decimal.FractionValue` | src/lib/parseChat.ts:54 | the digits after the point are worth less than one |
| `Decimal.DecimalValue` | src/lib/parseChat.ts:54 | `int.frac` lies between `int` and `int + 1` |
| `Decimal.ParseFloatStopsAfterFraction` | src/lib/ocrProcessor.ts:72 | `parseFloat` reads a whole `int.frac` literal and ignores anything after it that is not a digit |
| `Decimal.ParseFloatStopsAfterInteger` | src/lib/ocrProcessor.ts:72 | `parseFloat` reads a run of digits and ignores anything after it that is neither a digit nor `.` |
| `ChatEnvelope.MatchEnvelope` | src/lib/parseChat.ts:81-84 | a match splits the line into opening, timestamp of the right shape, closing, a sender without `:`, `: ` and one-line content |
| `ChatEnvelope.MatchEnvelopeComplete` | src/lib/parseChat.ts:81-84 | every line assembled from such parts matches, with exactly those groups |
| `ChatEnvelope.MatchFormat` | src/lib/parseChat.ts:89 | the same, for each of the four formats |
| `ChatEnvelope.MatchFormatComplete` | src/lib/parseChat.ts:89 | the converse, for each of the four formats |
| `ChatEnvelope.Classify` | src/lib/parseChat.ts:87-94 | the loop returns a format that matches, with its groups, and returns nothing exactly when none matches |
| `ChatEnvelope.FormatsExclusive` | src/lib/parseChat.ts:80-85 | no line matches two formats |
| `ChatEnvelope.LineStart` | src/lib/parseChat.ts:80-85 | the first characters of a matched line tell the four formats apart |
| `ChatEnvelope.ClassifyUnique` | src/lib/parseChat.ts:87-94 | the format the loop picks is the only one that matches, so the order of the formats does not matter |
| `ChatEnvelope.TrailingCarriageReturnNeverMatches` | src/lib/parseChat.ts:65-84 | a line ending in `\r` matches no format |
| `ChatEnvelope.CarriageReturnInSenderMatches` | src/lib/parseChat.ts:82 | a `\r` inside the sender does not prevent a match |
| `ChatDate.TimestampSplits` | src/lib/parseChat.ts:131-141 | on every branch, the destructured pieces of `split` exist, so nothing there can throw |
| `ChatDate.YearFirstIsYearFirst` | src/lib/parseChat.ts:131 | the year-first timestamp passes the `^\d{4}\/\d{2}\/\d{2}` test |
| `ChatDate.DayFirstIsNotYearFirst` | src/lib/parseChat.ts:131 | no other timestamp passes it |
| `ChatDate.TimestampPieces` | src/lib/parseChat.ts:132-141 | the first `split` gives the date part and the time part, and only the space form lacks a comma |
| `ChatDate.DatePieces` | src/lib/parseChat.ts:133-140 | `split('/')` gives the three date fields |
| `ChatDate.YearFirstDateString` | src/lib/parseChat.ts:131-134 | `YYYY/MM/DD, HH:MM` becomes the local date-time `YYYY-MM-DDTHH:MM:00` |
| `ChatDate.BracketSpaceDateString` | src/lib/parseChat.ts:139-142 | `[DD/MM/YY HH:MM:SS]` becomes `20YY-MM-DDTHH:MM:SS` |
| `ChatDate.BracketCommaDateString` | src/lib/parseChat.ts:135-138 | `[DD/MM/YYYY, HH:MM:SS]` becomes a 24-character string with `20` before a four-digit year and `:00` after the seconds, which is not a local date-time |
| `ChatDate.DayFirstDateString` | src/lib/parseChat.ts:135-138 | `DD/MM/YY, HH:MM` becomes `20YY-MM-DDTHH:MM:00` |
| `ChatSort.Insert` | src/lib/parseChat.ts:165 | inserting adds exactly one message |
| `ChatSort.SortIsPermutation` | src/lib/parseChat.ts:165 | the sort returns the same messages, each as often as given |
| `ChatSort.SortIsOrdered` | src/lib/parseChat.ts:165 | when every instant is valid, the result is newest first |
| `ChatSort.InsertKeepsOrder` | src/lib/parseChat.ts:165 | inserting into a newest-first sequence keeps it newest first |
| `ParseChat.CapturedTimestamp` | src/lib/parseChat.ts:102 | a captured timestamp has one of the four shapes |
| `ParseChat.MatchedLineIsNotBlank` | src/lib/parseChat.ts:74-100 | a line an envelope matches is never blank |
| `ParseChat.ParseLineSound` | src/lib/parseChat.ts:71-153 | a record comes from a line that is an envelope around its sender and content; its currency and amount are what the currency loop finds; its instant is read from the rebuilt date string |
| `ParseChat.ParseLineComplete` | src/lib/parseChat.ts:87-153 | an envelope line whose content holds an amount yields exactly that record |
| `ParseChat.RecordOfEnvelope` | src/lib/parseChat.ts:80-153 | a record built from a matched envelope has the shape `ParseLine` promises |
| `ParseChat.ParseLineSkips` | src/lib/parseChat.ts:74-127 | blank lines, lines without an envelope, and contents without an amount are skipped |
| `ParseChat.CollectedFromLines` | src/lib/parseChat.ts:71-162 | a record is collected exactly when some line yields it |
| `ParseChat.CollectedStep` | src/lib/parseChat.ts:71-162 | each line adds its record, if any, at the end |
| `ParseChat.MatchFirstFormat` | src/lib/parseChat.ts:87-94 | the format loop returns the match `Classify` specifies |
| `ParseChat.FindAmount` | src/lib/parseChat.ts:106-120 | the currency loop returns the result `DetectAmount` specifies |
| `ParseChat.ParseOneLine` | src/lib/parseChat.ts:72-161 | the loop body yields the record `ParseLine` specifies |
| `ParseChat.CollectLine` | src/lib/parseChat.ts:71-162 | one turn appends the line's record or counts the line as skipped |
| `ParseChat.CollectLines` | src/lib/parseChat.ts:71-162 | the loop collects the records of the lines in order, and records plus skipped lines equal the line count |
| `ParseChat.ParseChat` | src/lib/parseChat.ts:58-166 | blank content gives nothing; otherwise the result is the collected records sorted, a permutation of them, newest first when every instant is valid, and records plus skipped lines equal the number of lines |
| `ParseChat.SortedWhenValid` | src/lib/parseChat.ts:165 | the sorted records are newest first when their instants are valid |
| `JsString.Trim` | src/lib/parseChat.ts:59 | `trim` leaves no white space at either end, and is empty exactly for all-white-space text |
| `JsString.TrimStart` | src/lib/parseChat.ts:59 | the leading white space goes and the rest is kept |
| `JsString.TrimEnd` | src/lib/parseChat.ts:59 | the trailing white space goes and the rest is kept |
| `JsString.TrimIsSlice` | src/lib/ocrProcessor.ts:76 | the trimmed text is a slice of the text with only white space around it |
| `JsString.TrimIdempotent` | src/lib/ocrProcessor.ts:84-87 | trimming twice is trimming once |
| `JsString.JoinSplit` | src/lib/parseChat.ts:65 | joining the pieces of `split` gives the text back |
| `JsString.SplitJoin` | src/lib/parseChat.ts:65 | splitting pieces joined by a separator they lack gives the pieces back |
| `JsString.SplitPiecesLackSeparator` | src/lib/parseChat.ts:65 | no piece of `split` contains the separator |
| `JsString.Split` | src/lib/parseChat.ts:65 | `split` always gives at least one piece |
| `JsString.SplitLinesWithoutCarriageReturn` | src/lib/ocrProcessor.ts:60 | `split(/\r?\n/)` is `split('\n')` on text without `\r` |
| `JsString.SplitLines` | src/lib/ocrProcessor.ts:60 | `split(/\r?\n/)` always gives at least one line |
| `JsString.RemoveSpaces` | src/lib/parseChat.ts:51 | removing white space never lengthens a text |
| `JsString.RemoveSpacesMembers` | src/lib/parseChat.ts:51 | no white space remains |
| `JsString.ReplaceAll` | src/lib/parseChat.ts:52 | every `,` becomes `.` and nothing else changes |
| `JsString.ReplaceFirst` | src/lib/ocrProcessor.ts:71 | replacing the first `,` keeps the length |
| `JsString.AsciiLowerString` | src/lib/ocrProcessor.ts:109 | lower-casing maps each character and keeps the length |
| `JsString.AsciiLower` | src/lib/ocrProcessor.ts:109 | an upper-case ASCII letter becomes its lower-case letter; every other character is kept |
| `JsString.Utf16Length` | src/lib/ocrProcessor.ts:107 | the `length` of a string counts one or two code units per character |
| `JsString.SkipSpaces` | src/lib/ocrProcessor.ts:42-53 | greedy `\s*` stops at the first non-space character |
| `Seqs.IndexOf` | src/lib/ocrProcessor.ts:290 | `indexOf` gives the first index holding the value, or -1 |
| `Seqs.DedupSameElements` | src/lib/ocrProcessor.ts:290 | the first-occurrence filter keeps every value and adds none |
| `Seqs.DedupNoDuplicates` | src/lib/ocrProcessor.ts:290 | the filter's result holds no value twice |
| `Seqs.DedupFirstSeenOrder` | src/lib/ocrProcessor.ts:290 | values keep the order of their first occurrence |
| `Seqs.DedupSnoc` | src/lib/ocrProcessor.ts:290 | one more value is kept exactly when it is new |
| `Seqs.FirstPresent` | src/lib/parseChat.ts:110-120 | the first present entry from a position on, with every entry before it absent; none exactly when all are absent |
| `Scan.Leftmost` | src/lib/ocrProcessor.ts:285 | the search returns the leftmost start where the pattern matches, and nothing only when there is none |
| `Scan.GreedyWhere` | src/lib/ocrProcessor.ts:283 | a greedy quantifier that gives back characters settles on a length where the rest of the pattern matches |
| `Scan.GreedyWhereFinds` | src/lib/ocrProcessor.ts:283 | the greedy search succeeds whenever some length works, and keeps the longest that does |
| `Scan.LazyEnd` | src/lib/ocrProcessor.ts:82 | a lazy `.+?` ends at the first place where the rest of the pattern matches, and takes no line terminator |
| `Scan.FirstWhere` | src/lib/ocrProcessor.ts:144-145 | the first candidate, in the order tried, that satisfies the rest of the pattern; none exactly when no candidate does |
| `OcrSymbols.SymbolsNonEmpty` | src/lib/ocrProcessor.ts:41-54 | every symbol of the twelve patterns is non-empty |
| `OcrSymbols.NumeralEnd` | src/lib/ocrProcessor.ts:42-53 | greedy `\d+(?:[.,]\d+)?` is non-empty |
| `OcrSymbols.NumeralStart` | src/lib/ocrProcessor.ts:42-53 | a symbol pattern matches at `i` exactly when the symbol, optional white space and a digit follow `i`, and the numeral starts at that digit |
| `OcrSymbols.NextHit` | src/lib/ocrProcessor.ts:64 | the next match is the leftmost one from the resume point |
| `OcrSymbols.Hits` | src/lib/ocrProcessor.ts:64 | the global matches are genuine, in order, and do not overlap |
| `OcrSymbols.HitsCoverEveryMatch` | src/lib/ocrProcessor.ts:64 | every place where the pattern matches is a hit or lies inside one |
| `OcrSymbols.OcrNumeral` | src/lib/ocrProcessor.ts:71-74 | a captured numeral reads as exactly its decimal value, so `isNaN` never fires and the amount is never negative |
| `OcrSymbols.OcrWholeNumeral` | src/lib/ocrProcessor.ts:71-72 | a run of digits reads as its value |
| `OcrSymbols.OcrFractionNumeral` | src/lib/ocrProcessor.ts:71-72 | two digit runs around `.` or `,` read as that decimal |
| `OcrExtract.RematchSameNumeral` | src/lib/ocrProcessor.ts:68 | matching a hit's own text again finds the same numeral |
| `OcrExtract.HitAmount` | src/lib/ocrProcessor.ts:68-74 | an amount read from a hit is never negative |
| `OcrExtract.HitAmountReadsTheHit` | src/lib/ocrProcessor.ts:68-74 | every hit has an amount, the value of the numeral it was found with |
| `OcrExtract.PatternRecordsShape` | src/lib/ocrProcessor.ts:128-133 | every record of a pattern carries its currency, the trimmed line, the inferred item and a non-negative amount |
| `OcrExtract.EveryHitRecorded` | src/lib/ocrProcessor.ts:67-134 | each hit makes one record, in hit order, carrying its numeral's amount |
| `OcrExtract.PatternHits` | src/lib/ocrProcessor.ts:64 | the global matches of a pattern on a line are genuine and within the line |
| `OcrExtract.SupportedCurrenciesDistinct` | src/lib/ocrProcessor.ts:141 | the registered codes are distinct |
| `OcrExtract.ScanHits` | src/lib/ocrProcessor.ts:67-136 | the loop over the matches makes the pattern's records in order |
| `OcrExtract.ScanSymbol` | src/lib/ocrProcessor.ts:63-137 | one symbol pattern's pass over a line makes that pattern's records |
| `OcrExtract.ScanCodes` | src/lib/ocrProcessor.ts:141-184 | the code pass makes the code records in registry order |
| `OcrExtract.ScanLine` | src/lib/ocrProcessor.ts:62-185 | a line's records are the symbol records followed by the code records |
| `OcrExtract.ExtractPaymentInfo` | src/lib/ocrProcessor.ts:37-188 | the records of every line, line by line |
| `OcrItem.SymbolAtoms` | src/lib/ocrProcessor.ts:82 | a symbol spliced into a pattern unescaped matches its characters, except that `$` asserts the end of input |
| `OcrItem.MatchAtoms` | src/lib/ocrProcessor.ts:82 | matching a sequence of atoms ends within the text, never before where it starts |
| `OcrItem.MatchAtomsPastEnd` | src/lib/ocrProcessor.ts:82 | once an end-of-input assertion is among the atoms, a match can end only at the end |
| `OcrItem.StripLeadingNonAlnum` | src/lib/ocrProcessor.ts:87 | `replace(/^[^a-z0-9]+/i, '')` drops exactly the leading non-alphanumerics |
| `OcrItem.CleanItem` | src/lib/ocrProcessor.ts:84-92 | the capture, trimmed, stripped of leading non-alphanumerics and trimmed again, is kept exactly when it is non-empty, not all digits and at least two code units long; a kept item is that string |
| `OcrItem.CleanItemKeepsWord` | src/lib/ocrProcessor.ts:84-92 | a trimmed word of two or more characters that starts with a letter or digit and is not a number is kept as it is |
| `OcrItem.BeforeSymbolCapture` | src/lib/ocrProcessor.ts:82 | the match of `(.+?)\s*SYMBOL\s*\d` at the leftmost start where it matches: no earlier start matches, and there is no match exactly when no start does; the symbol and a digit follow the capture, no shorter capture from the same start has them, and the capture holds no line terminator |
| `OcrItem.BeforeSymbolCaptureFinds` | src/lib/ocrProcessor.ts:82 | when the symbol and a digit follow some non-empty start of the first line, method 1's pattern matches |
| `OcrItem.BeforeSymbolItem` | src/lib/ocrProcessor.ts:82-93 | method 1 gives nothing when its pattern fails and otherwise the cleaned capture |
| `OcrItem.BeforeSymbolItemExample` | src/lib/ocrProcessor.ts:82-93 | `Coffee R25` with the symbol `R` names the item `Coffee` |
| `OcrItem.DollarSymbolNeverNamesItem` | src/lib/ocrProcessor.ts:82 | a symbol holding `$` never lets method 1 match |
| `OcrItem.PreviousLine` | src/lib/ocrProcessor.ts:98-100 | the trimmed line before the first line equal to this one, when it has one |
| `OcrItem.PreviousLineItem` | src/lib/ocrProcessor.ts:96-117 | method 2 takes the previous line exactly when it mentions no currency, has 1 to 49 code units and contains no terminator word |
| `OcrItem.QuantityLetterAt` | src/lib/ocrProcessor.ts:122 | the item of `2 x Coffee` starts at a letter after a run of digits, optional white space, `x`, `X` or `×`, and optional white space |
| `OcrItem.QuantityMatchAt` | src/lib/ocrProcessor.ts:122 | the item capture starts at the letter after the quantity, is at least two characters, is the shortest one followed by white space and then a digit or the end, and holds no line terminator |
| `OcrItem.QuantityCapture` | src/lib/ocrProcessor.ts:122 | the start of a match of the quantity pattern and its capture: the pattern matches there with that capture, which starts at a letter after the quantity and `x`, is the shortest followed by white space and then a digit or the end, and holds no line terminator |
| `OcrItem.QuantityCaptureIsLeftmost` | src/lib/ocrProcessor.ts:122 | the quantity pattern matches at no start before the reported one, and nothing is reported exactly when it matches at no start |
| `OcrItem.QuantityItem` | src/lib/ocrProcessor.ts:120-126 | method 3 gives nothing when its pattern fails and otherwise the trimmed capture, which starts with a letter |
| `OcrItem.QuantityItemExample` | src/lib/ocrProcessor.ts:120-126 | `2 x Coffee 5` names the item `Coffee` |
| `OcrItem.InferItem` | src/lib/ocrProcessor.ts:79-126 | method 1's item when it has one; otherwise method 2's when it has one; otherwise method 3's; an inferred item is non-empty and trimmed |
| `OcrItem.InferItemExample` | src/lib/ocrProcessor.ts:79-93 | on the line `Coffee R25` the item is `Coffee`, whatever the other lines hold |
| `OcrItem.TrimKeepsAlnumStart` | src/lib/ocrProcessor.ts:87 | trimming keeps a leading letter or digit |
| `OcrCodes.NumeralEnds` | src/lib/ocrProcessor.ts:144-145 | the ends a backtracking engine tries for `\d+(?:[.,]\d+)?`, greedy first |
| `OcrCodes.CandidateAmount` | src/lib/ocrProcessor.ts:154-157 | every end the engine can settle on delimits a numeral that reads as a non-negative number |
| `OcrCodes.NumeralBeforeBoundary` | src/lib/ocrProcessor.ts:144 | before `\b` the numeral keeps its greedy end, falls back to its integer part, or fails; so `USD 1.5x` reads 1 |
| `OcrCodes.BetweenDigits` | src/lib/ocrProcessor.ts:144 | no word boundary lies between two digits |
| `OcrCodes.CodeBeforeAt` | src/lib/ocrProcessor.ts:144 | `CODE n` captures a numeral the engine can settle on |
| `OcrCodes.NumeralEndsInside` | src/lib/ocrProcessor.ts:144-145 | every shorter end the engine tries stops before a digit or a decimal separator |
| `OcrCodes.CodeBeforeAtExactly` | src/lib/ocrProcessor.ts:144 | `CODE n` matches at a position exactly when the code starts a word there in any case, white space and a digit follow, and the numeral ends a word or has a fraction to give back; the capture is the whole numeral or its integer part accordingly |
| `OcrCodes.CodeAfterAt` | src/lib/ocrProcessor.ts:145 | `n CODE` captures a numeral the engine can settle on |
| `OcrCodes.CodeAfterAtExactly` | src/lib/ocrProcessor.ts:145 | `n CODE` matches at a position exactly when a digit starts a word there and white space and the code, ending a word, follow the whole numeral, which is the capture |
| `OcrCodes.CodeMatch` | src/lib/ocrProcessor.ts:147-151 | the numeral read is one the engine can settle on |
| `OcrCodes.CodeMatchPrefersBefore` | src/lib/ocrProcessor.ts:147-148 | the scan reads `CODE n` exactly when that form matches somewhere, and then the numeral of its leftmost match |
| `OcrCodes.CodeMatchReadsLeftmostBefore` | src/lib/ocrProcessor.ts:147-148 | a leftmost `CODE n` match is the one the scan reads |
| `OcrCodes.CodeMatchFallsBackToAfter` | src/lib/ocrProcessor.ts:147-151 | `n CODE` is read only when `CODE n` matches nowhere, from its leftmost match; nothing is read exactly when neither form matches anywhere |
| `OcrCodes.CodeBeforeCapture` | src/lib/ocrProcessor.ts:163 | the match of `(.+?)\s*CODE\s+\d` at the leftmost start where it matches: no earlier start matches, and there is no match exactly when no start does; the code, white space and a digit follow the capture, no shorter capture from the same start has them, and it holds no line terminator |
| `OcrCodes.CodeBeforeItem` | src/lib/ocrProcessor.ts:162-167 | nothing when the pattern fails, otherwise the capture trimmed |
| `OcrCodes.CodeBeforeItemPresent` | src/lib/ocrProcessor.ts:162-167 | a `CODE n` match after a non-empty start of the first line always yields an item |
| `OcrCodes.GiveBack` | src/lib/ocrProcessor.ts:170 | `\s+` gives back white space until `(.+)` can start on a character that is not a line terminator |
| `OcrCodes.CodeAfterItemAt` | src/lib/ocrProcessor.ts:170 | a match from a digit puts the capture's start after it, on a character that is no line terminator |
| `OcrCodes.CodeAfterCapture` | src/lib/ocrProcessor.ts:170 | the leftmost start of `\d+(?:[.,]\d+)?\s+CODE\s+(.+)` and where its capture starts: the pattern matches there with that capture, and at no earlier start |
| `OcrCodes.CodeAfterCaptureNone` | src/lib/ocrProcessor.ts:170 | nothing is captured exactly when `n CODE text` matches at no start |
| `OcrCodes.CodeAfterItem` | src/lib/ocrProcessor.ts:169-174 | nothing when the pattern fails, otherwise the rest of the line from the capture's start, trimmed |
| `OcrCodes.CodeRecord` | src/lib/ocrProcessor.ts:141-183 | a code makes a record exactly when it matches; the record carries that code's currency, the trimmed line, the amount `parseFloat` reads from the matched numeral, and the item of the form that matched |
| `OcrCodes.CodeRecordLowerCaseExample` | src/lib/ocrProcessor.ts:144-157 | `usd 100` reads 100 for USD |
| `OcrCodes.CodeRecordWordBoundaryExample` | src/lib/ocrProcessor.ts:144-151 | `xUSD 100` makes no USD record |
| `OcrCodes.CodeRecordBacktrackExample` | src/lib/ocrProcessor.ts:144-157 | `USD 1.5x` reads 1 for USD |
| `OcrCodes.CodeRecordsStep` | src/lib/ocrProcessor.ts:141 | each code adds its record, if any, at the end |
| `OcrCodes.CodeRecordsDistinct` | src/lib/ocrProcessor.ts:141-184 | the code scan makes at most one record per code, each for a code scanned |
| `OcrCodes.CodeRecordsMembers` | src/lib/ocrProcessor.ts:141-184 | a record is in the code scan exactly when one of the codes makes it |
| `OcrRecords.MatchRecord` | src/lib/ocrProcessor.ts:128-133 | a match's record has the pattern's currency, the trimmed line and a non-negative amount |
| `OcrRecords.PatternLineRecordsExact` | src/lib/ocrProcessor.ts:63-137 | a pattern makes exactly one record per global match, in match order |
| `OcrRecords.LineRecordsMembers` | src/lib/ocrProcessor.ts:62-185 | a line's records are exactly its symbol-match records and its code records |
| `OcrRecords.PaymentInfoMembers` | src/lib/ocrProcessor.ts:37-188 | a record is returned exactly when some line makes it, from a symbol match or from a code |
| `OcrRecords.PaymentInfoSound` | src/lib/ocrProcessor.ts:37-188 | every record has a non-negative amount and the trimmed text of an input line |
| `OcrRecords.EveryMatchReturned` | src/lib/ocrProcessor.ts:62-137 | every global match of every symbol pattern on every line is returned |
| `OcrRecords.EveryCodeReturned` | src/lib/ocrProcessor.ts:141-184 | every code record of every line is returned |
| `OcrRecords.YenPatternsAgree` | src/lib/ocrProcessor.ts:49-50 | two patterns with one symbol match alike, and their records differ only in currency |
| `OcrRecords.YenSignRecordedTwice` | src/lib/ocrProcessor.ts:49-50 | every yen match is returned as a JPY record and as a CNY record |
| `OcrRecords.NoDigitNoRecords` | src/lib/ocrProcessor.ts:62-185 | a line without a digit makes no record |
| `OcrRecords.NoDigitNoPaymentInfo` | src/lib/ocrProcessor.ts:37-188 | a text without a digit, the empty one included, yields nothing |
| `OcrRecords.RealSignReadTwice` | src/lib/ocrProcessor.ts:43-48 | `R$5` yields a USD 5 record and a BRL 5 record |
| `OcrConvert.ConvertOcrResultToMessages` | src/lib/ocrProcessor.ts:258-277 | one record per detection, in order, with its amount, currency and item, the given sender and time, the file name, and the confidence scaled to 0-1 |
| `OcrConvert.ContentNeverEmpty` | src/lib/ocrProcessor.ts:267-269 | the content is the item when it is non-empty and `[Receipt item]` otherwise |
| `OcrConvert.DetectionsRecovered` | src/lib/ocrProcessor.ts:263-276 | each detection can be read back from its record |
| `OcrConvert.ConvertedAmountsNonNegative` | src/lib/ocrProcessor.ts:229-276 | records converted from extracted amounts are non-negative and carry the default sender |
| `Attachments.NameEnd` | src/lib/ocrProcessor.ts:283 | greedy `[\w\-\.]+` stops at the first non-name character |
| `Attachments.ExtensionAt` | src/lib/ocrProcessor.ts:283 | an extension found at a `.` is one of the five, in any case, followed by optional white space and `>` |
| `Attachments.ExtensionAtFinds` | src/lib/ocrProcessor.ts:283 | such an extension is always found |
| `Attachments.Backtrack` | src/lib/ocrProcessor.ts:283 | giving back name characters settles on a `.` whose extension fits |
| `Attachments.BacktrackFinds` | src/lib/ocrProcessor.ts:283 | giving back succeeds whenever such a `.` lies in the name |
| `Attachments.CaptureEnd` | src/lib/ocrProcessor.ts:283 | the captured file name is followed by optional white space and `>` |
| `Attachments.MatchAt` | src/lib/ocrProcessor.ts:283 | a reference spans `<attached:`, the name and `>`, in that order |
| `Attachments.CaptureIsWholeRun` | src/lib/ocrProcessor.ts:283 | the captured name is the whole run of name characters, and it ends in an image extension |
| `Attachments.WholeRunCaptured` | src/lib/ocrProcessor.ts:283 | a run of name characters that ends in an image extension before `>` is captured |
| `Attachments.NameIsWholeRun` | src/lib/ocrProcessor.ts:283 | a match is `<attached:` in any case, white space, a name run ending in an image extension, white space and `>` |
| `Attachments.WholeRunMatches` | src/lib/ocrProcessor.ts:283 | every such text matches |
| `Attachments.References` | src/lib/ocrProcessor.ts:285 | the global matches are genuine and do not overlap |
| `Attachments.NoMatchInside` | src/lib/ocrProcessor.ts:285 | no match starts inside another |
| `Attachments.EveryReferenceScanned` | src/lib/ocrProcessor.ts:285 | every match is found by `matchAll` |
| `Attachments.ScannedNameMatches` | src/lib/ocrProcessor.ts:288-289 | every listed name is captured by a match |
| `Attachments.MatchedNameScanned` | src/lib/ocrProcessor.ts:288-289 | every match's name is listed |
| `Attachments.ImageReferencesMembers` | src/lib/ocrProcessor.ts:280-292 | a name is returned exactly when some match captures it |
| `Attachments.ImageReferencesUnique` | src/lib/ocrProcessor.ts:290 | the result holds no name twice, and names keep the order of their first reference |
| `Invoice.RemoveMarkers` | src/lib/generateInvoicePDF.ts:24 | removing markers never lengthens the text |
| `Invoice.KeepAscii` | src/lib/generateInvoicePDF.ts:25-26 | the filters keep exactly the ASCII characters of the text |
| `Invoice.KeepAsciiDropsNonAscii` | src/lib/generateInvoicePDF.ts:25-26 | a non-ASCII character is deleted wherever it stands |
| `Invoice.SanitizeText` | src/lib/generateInvoicePDF.ts:19-28 | empty stays empty; the result is ASCII with no white space at either end |
| `Invoice.RemoveMarkersSinglePass` | src/lib/generateInvoicePDF.ts:24 | in `ØØ=Þ=Þ` the scan removes the marker at offset 1 and leaves the marker that removal forms |
| `Invoice.KeepAsciiOfMarker` | src/lib/generateInvoicePDF.ts:25-26 | the ASCII filter reduces a marker to its `=` |
| `Invoice.SanitizeSinglePassExample` | src/lib/generateInvoicePDF.ts:19-28 | `ØØ=Þ=Þ` is sanitised to `=` |
| `Invoice.KeepAsciiUnchanged` | src/lib/generateInvoicePDF.ts:25-26 | the filters leave ASCII text alone |
| `Invoice.KeepAsciiAppend` | src/lib/generateInvoicePDF.ts:25-26 | the filters work character by character |
| `Invoice.RemoveMarkersUnchanged` | src/lib/generateInvoicePDF.ts:24 | text without `Ø` holds no marker and is left alone |
| `Invoice.RemoveMarkersAround` | src/lib/generateInvoicePDF.ts:24 | a marker is removed whole, and the scan resumes after it |
| `Invoice.SanitizeAsciiIsTrim` | src/lib/generateInvoicePDF.ts:19-28 | on ASCII text the sanitiser is `trim` |
| `Invoice.SanitizeDropsMarker` | src/lib/generateInvoicePDF.ts:19-28 | a marker between two ASCII texts disappears and the rest is trimmed, so `=` characters of the texts stay |
| `Invoice.GroupsOfGroups` | src/lib/generateInvoicePDF.ts:68-74 | the accumulator has a key exactly for each currency met, and its array is that currency's records in selection order |
| `Invoice.GroupStep` | src/lib/generateInvoicePDF.ts:69-72 | one record creates its currency's array when new and pushes itself onto it |
| `Invoice.GroupByCurrency` | src/lib/generateInvoicePDF.ts:68-74 | the loop builds the accumulator, with the keys in insertion order; each key's array is its currency's records |
| `Invoice.GroupOrderKeys` | src/lib/generateInvoicePDF.ts:68-77 | the insertion order lists exactly the keys of the accumulator |
| `Invoice.GroupMembers` | src/lib/generateInvoicePDF.ts:68-74 | a record is in a group exactly when it is selected and has that currency |
| `Invoice.GroupAppend` | src/lib/generateInvoicePDF.ts:68-74 | within a group, records keep their selection order |
| `Invoice.GroupOrderFirstSeen` | src/lib/generateInvoicePDF.ts:68-77 | the groups come in the order of their first record, each once |
| `Invoice.Totals` | src/lib/generateInvoicePDF.ts:77-85 | one entry per group on success; a failure names an unregistered group currency |
| `Invoice.TotalsEntries` | src/lib/generateInvoicePDF.ts:77-85 | the totals succeed exactly when every group's currency is registered; each entry has its currency, that currency's symbol and name, and the sum of its group |
| `Invoice.TotalsFailAtFirstUnregistered` | src/lib/generateInvoicePDF.ts:81 | the map throws at the first unregistered group |
| `Invoice.SumOverAll` | src/lib/generateInvoicePDF.ts:78 | summing each currency's group over distinct currencies that cover all records gives the sum of all records |
| `Invoice.TotalsConserveAmounts` | src/lib/generateInvoicePDF.ts:68-85 | the totals add up to the sum of all selected amounts, with none lost or counted twice |
| `Invoice.TotalsSucceedIffRegistered` | src/lib/generateInvoicePDF.ts:67-85 | every group's currency has a group, and the totals succeed exactly when every record's currency is registered |
| `Invoice.ComputeTotals` | src/lib/generateInvoicePDF.ts:67-85 | the totals succeed exactly when every selected currency is registered, and then add up to the sum of the selected amounts |
| `Invoice.DescriptionOfAsciiContent` | src/lib/generateInvoicePDF.ts:208-209 | an ASCII content that is not blank is described by its trimmed self |
| `Invoice.DescriptionOfBlankContent` | src/lib/generateInvoicePDF.ts:208-209 | blank content is described as `Payment from` and the sender's name with markers and non-ASCII characters removed, trimmed; it starts with `Payment from` whatever the name holds |
| `Invoice.DescriptionOfBlankContentAsciiSender` | src/lib/generateInvoicePDF.ts:208-209 | with an ASCII sender name the description is `Payment from` and the name, trimmed |
| `Invoice.DescriptionFromBobExample` | src/lib/generateInvoicePDF.ts:208-209 | a record from `Bob` with no content reads `Payment from Bob` |
| `Invoice.DescriptionOfEmojiContent` | src/lib/generateInvoicePDF.ts:208-209 | content made of one emoji gets an empty description |
| `Invoice.DashOthersShape` | src/lib/generateInvoicePDF.ts:332 | each UTF-16 code unit becomes one letter, digit or `-` |
| `Invoice.SlugShape` | src/lib/generateInvoicePDF.ts:332 | the slug has one lower-case letter, digit or `-` per code unit of the number |
| `Invoice.FileNameShape` | src/lib/generateInvoicePDF.ts:332 | the file name is the slug between `invoice-` and `.pdf` |
| `Invoice.SlugIdempotent` | src/lib/generateInvoicePDF.ts:332 | a slug is its own slug |
| `Invoice.SlugOfPlainSlugChars` | src/lib/generateInvoicePDF.ts:332 | lower-case letters, digits and dashes pass through unchanged |
| `Invoice.DashOthersAppend` | src/lib/generateInvoicePDF.ts:332 | the replacement works character by character |
| `Invoice.SlugAppend` | src/lib/generateInvoicePDF.ts:332 | the slug of a concatenation is the concatenation of the slugs |
| `Invoice.SlugOfChar` | src/lib/generateInvoicePDF.ts:332 | one character becomes its lower-case form when it is an ASCII letter or digit, `-` otherwise, and `--` when it takes two UTF-16 code units |
| `Invoice.SlugAt` | src/lib/generateInvoicePDF.ts:332 | each character of the number shows at its UTF-16 offset in the slug, lower-cased or as `-` |
| `Invoice.SlugOfBmp` | src/lib/generateInvoicePDF.ts:332 | without characters above U+FFFF the slug is the number with each character but an ASCII letter or digit turned into `-`, lower-cased |
| `Invoice.FileNameExample` | src/lib/generateInvoicePDF.ts:332 | invoice `INV/7` is saved as `invoice-inv-7.pdf` |

## Left out

- Rendering is not modelled: the jsPDF document, its layout, fonts, colours and page
  breaks, and `doc.save`. Only the file name it is given is modelled.
- `formatCurrency`, `toLocaleString` and the date-fns `format` call are not modelled,
  because they depend on the locale. The lookup of the symbol that `formatCurrency`
  shares with the totals is modelled by `PaymentRecords.Lookup`.
- Amounts and totals are exact reals. Binary floating point is not modelled: neither
  the rounding of `parseFloat` nor that of the running sums.
- `new Date(dateStr)` is a parameter (`parseDate`) that maps a date string to an
  instant or to an invalid date. The model proves which string each envelope
  produces, not how the browser reads it.
- `OcrConvert.ConvertOcrResultToMessages`: the current time is one parameter `now` for
  the whole call. The source calls `new Date()` once per detection, so its timestamps
  can differ by the time the `map` takes; the model gives every record the same one.
- `processImageWithOCR` is not modelled: the Tesseract worker, progress callbacks and
  object URLs. Its OCR result is an input, and `imageUrl` is dropped from it.
- Console logging, the zod schema and the React components are not modelled.
  `parseChat`'s `try`/`catch` is not modelled either: `ChatDate.TimestampSplits`
  shows nothing in the line body can throw.
- `parseChat`'s `!content` and `sanitizeText`'s `!text` are modelled for the empty
  string only. `null` and `undefined` are outside the typed inputs.
- Strings are sequences of Unicode scalar values. Where JavaScript's UTF-16 code units
  are observable, `Utf16Length` and the per-character expansion of `DashOthers` model
  them. The places are `prevLine.length`, `item.length` and the file-name slug.
- `toLowerCase` is modelled as ASCII lower-casing. It is applied only to text matched
  against ASCII words, or to text already reduced to ASCII.
- `OcrExtract.ScanSymbol` infers the item once per pattern and line, not once per
  match. The item depends only on the line and the symbol, so the records are the
  same.
- `JsString.RemoveSpaces`, `JsString.ReplaceFirst` and `Invoice.RemoveMarkers`: each
  contract states only a length bound. What each removes or replaces is proved by
  the lemmas beside it.
- `Invoice.SanitizeText`: the marker scan resumes after each removal and does not look
  again, as the global replace does. So `ØØ=Þ=Þ` keeps the marker that the removal
  forms, and the ASCII filter then leaves its `=`: the text becomes `=`
  (`Invoice.SanitizeSinglePassExample`). A scan that repeated until no marker was
  left would give the empty text instead; the model follows the single pass.
