# Quote calculator core, in Dafny

A model of the logic under a browser price-quoting form for valves and
cylinders (`data.js` and `index.js`). A semicolon-separated price list is
read (`parseCSV`), its rows are split into main rows and cylinder rows, and
two pairs of lookup tables are built from them: price and note per
`Size¦Series¦Material¦Seat` key (`buildMainIndex`), and price and note per
cylinder size (`buildCylIndex`). The cascading selectors offer the distinct
values of a column among the rows that match the choices made so far
(`optionsFor`). A money string from the list is normalised and read as a
number (`parsePriceToNumber`). A quote is then computed in integer cents
(`calculate`): list plus cylinder, times the tier's net multiplier in basis
points (`getDiscountBps`), rounded up to whole dollars, plus the manual
adjustments (`getAdjustmentsCents`). Totals are shown with `fmtMoney`, which
is `toFixed(2)` followed by thousands grouping (`addCommas`).

Modules, one per file:

- `wrappers.dfy`: `Option` and `Result`. They stand for NaN, `null` and `{ ok: false, message }`.
- `strings.dfy`: `trim`, `toLowerCase` and `split`.
- `numbers.dfy`: `parseFloat` over exact reals, and `Math.round`.
- `csv.dfy`: the scanner of `parseCSV`, written both as a loop and as a function. It also has an encoder whose output the scanner reads back, and the header zip.
- `rows.dfy`: `get`, the main/cylinder split, `uniq`, and `optionsFor`.
- `prices.dfy`: `parsePriceToNumber`.
- `indexes.dfy`: the four maps as a `Catalog` class. Its methods are proved against fold functions, and the precedence rules are lemmas about those functions.
- `quote.dfy`: `DISCOUNT_BPS`, `toCents`, `fromCents`, the ceiling division, the adjustments, and `calculate`.
- `format.dfy`: `addCommas` (the loop and its specification), `toFixed(2)` and `fmtMoney`.

With both a comma and a dot present, `parsePriceToNumber` drops every dot
and turns the first comma into the point (`data.js:89-91`), so `"1,234.56"`
reads as 1.23456 (`Prices.UsThousandsReadAsDecimal`), while `"1.234,56"`
reads as 1234.56 (`Prices.EuropeanThousands`).

## Model

| member | source | states |
|---|---|---|
| Strings.TrimStart | data.js:51 | the result is no longer than the input and does not start with white space |
| Strings.TrimEnd | data.js:51 | the result is no longer than the input and does not end with white space |
| Strings.Trim | data.js:51 | the result starts and ends with a non-space character, or is empty |
| Strings.TrimStartMargin | data.js:51 | `trimStart` removes a prefix made only of white space and keeps the rest unchanged |
| Strings.TrimEndMargin | data.js:51 | `trimEnd` removes a suffix made only of white space and keeps the rest unchanged |
| Strings.TrimIsInfix | data.js:51 | the trimmed text is an infix of the input, and the input around it is all white space |
| Strings.TrimIdempotent | data.js:51 | trimming twice equals trimming once |
| Strings.TrimEmptyIffAllSpace | data.js:22 | a field trims to empty exactly when it is all white space |
| Strings.TrimOfTrimmed | data.js:86 | text with no white space at either end is left unchanged by `trim` |
| Strings.LowerFolds | data.js:51 | after `toLowerCase` no upper-case ASCII letter is left, so lowering again changes nothing |
| Strings.IndexOf | index.js:55 | the first position of the character, or the length when the character is absent |
| Strings.Split | index.js:55 | `split` gives at least one piece, no piece holds the separator, and joining the pieces gives the input back |
| Strings.SplitKeepsOut | index.js:55 | a character absent from the input is absent from every piece of the split |
| Strings.SplitAtFirst | index.js:55-56 | the first piece is the text before the first separator, and the rest is the split of what follows it |
| Strings.SeparatedEqual | data.js:100 | two joins over a separator that neither head holds are equal only when the heads and the tails are equal |
| Strings.JoinFour | data.js:100 | joining four fields puts the separator between each neighbouring pair and nowhere else |
| Numbers.DigitRun | index.js:202 | the length of the leading digit run: all digits up to it, and a non-digit right after it |
| Numbers.UnsignedPrefix | index.js:202 | a number is read exactly when the text starts with a digit or with `.` followed by a digit; the value is non-negative |
| Numbers.ParseFloat | index.js:202 | `parseFloat` gives a number exactly when the text, after leading white space, starts with an optional sign and an unsigned literal |
| Numbers.Round | index.js:95 | `Math.round` gives the integer within one half of its argument, rounding halves up |
| Numbers.ShiftDivides | index.js:100 | shifting by k decimal places divides by 10^k |
| Numbers.ParseDecimal | data.js:92 | a numeral `w.f` followed by a character that cannot continue a number reads as wf / 10^\|f\| |
| Numbers.ParseNegativeDecimal | index.js:114 | the same numeral after a minus sign reads as the negated value |
| Numbers.NegatedNumeral | index.js:114 | a minus sign in front of a numeral that starts with a digit negates the value it reads as |
| Csv.Tokenize | data.js:3-17 | the scanner loop emits exactly the records that the scanner specification `Records` gives, and every record has at least one field |
| Csv.ScanKeepsRecords | data.js:5-17 | the scanner never takes back a record it has emitted, and every record it emits has at least one field |
| Csv.Records | data.js:2-19 | every record of a text has at least one field, and empty text has no record |
| Csv.QuotedFieldScan | data.js:7-9 | inside quotes, `""` appends one `"`, a lone `"` leaves quote mode, and every other character (delimiter and line breaks included) is appended verbatim |
| Csv.PlainFieldScan | data.js:10-14 | outside quotes, characters other than a quote, the delimiter and line breaks are appended to the field |
| Csv.FieldScan | data.js:7-14 | an encoded field, quoted or not, read from the start of a field, leaves exactly that field in the cell |
| Csv.DelimiterStep | data.js:12 | outside quotes, the delimiter ends the field and starts an empty one |
| Csv.LineEndStep | data.js:13-14 | outside quotes, `\n` ends the record; a `\r` before it is dropped |
| Csv.FieldDelimiterScan | data.js:12 | a field and its delimiter append the field to the current record |
| Csv.RecordScan | data.js:5-16 | an encoded record leaves its last field in the cell and its other fields in the row |
| Csv.RecordLineScan | data.js:12-14 | an encoded record and its line ending append the record to the records read so far |
| Csv.TableScan | data.js:5-16 | an encoded table appends its records, in order, to those read so far |
| Csv.RoundTrip | data.js:2-17 | reading an encoded table gives the table back, for `\n` and `\r\n` line endings and any delimiter other than a quote or a line break |
| Csv.NoFinalNewline | data.js:17 | a final record without a line ending is still emitted, unless it is the single empty field |
| Csv.UnterminatedQuote | data.js:17 | an unterminated quote raises no error: the rest of the input joins the last field, which is emitted |
| Csv.TrimAllTrimmed | data.js:20 | the header names have no white space at either end, and trimming them again changes nothing |
| Csv.Zip | data.js:23-26 | each data object has exactly the header names as keys |
| Csv.ZipValue | data.js:25 | under each header stands the trimmed field of that header's last column, or "" when the record is shorter |
| Csv.DataRows | data.js:21-27 | there are no more rows than data records |
| Csv.DataRowsKeys | data.js:20-26 | every row's keys are exactly the header names |
| Csv.DataRowsNoBlank | data.js:21-27 | with no blank record there is one row per record, in order, each the zip of its record |
| Csv.DataRowsAppend | data.js:21-27 | the rows of two runs of records are the rows of each run, concatenated |
| Csv.BlankRecordDropped | data.js:22 | a record whose fields all trim to empty contributes no row, wherever it stands |
| Csv.ParseCsv | data.js:2-28 | `parseCSV` returns the data rows of the records the scanner emits (the header record gives the names), and `[]` when there are no records |
| Csv.ParseWrittenTable | data.js:2-28 | a written header and N non-blank data records read back as N rows, each keyed by the trimmed header names |
| Rows.GetReads | data.js:51 | `get` reads key k if present, else its lower-case form, else gives ""; the result is always trimmed |
| Rows.GetLowerKey | data.js:51 | a key already in lower case is looked up only once |
| Rows.GetParsedField | data.js:51 | on a parsed row, `get` under a header gives the trimmed field of that header's last column |
| Rows.Get | data.js:51 | the value is already trimmed, and it is "" when neither the key nor its lower-case form is present |
| Rows.MainRows | data.js:207 | the main rows are rows of the input whose series is not a cylinder series |
| Rows.CylRows | data.js:208 | the cylinder rows are rows of the input whose series is a cylinder series |
| Rows.SplitPartitions | data.js:207-208 | the two filters partition the rows: as multisets, main plus cylinder equals all |
| Rows.Uniq | data.js:65 | `uniq` has no duplicates and holds exactly the values of its input |
| Rows.NonEmpty | data.js:81 | `filter(Boolean)` keeps exactly the non-empty values and keeps them free of duplicates |
| Rows.FilterRows | data.js:76-80 | the rows kept are exactly those that satisfy every filter entry |
| Rows.OptionsFor | data.js:74-82 | the options have no duplicates and no empty string; each option is `get(r, key)` for some matching row, and every non-empty such value is an option |
| Rows.EmptyEntryIgnored | data.js:78 | a filter entry with an empty value does not change the options |
| Rows.FilterWithEmptyEntry | data.js:77-79 | a filter entry with an empty value does not change the rows kept |
| Rows.MoreEntriesFewerOptions | data.js:74-82 | one more filter entry can only remove options, never add one |
| Prices.StripPrice | data.js:88 | after the strip only digits, `,`, `.` and `-` remain, and the text is no longer |
| Prices.StripCounts | data.js:88 | every digit, `,`, `.` and `-` survives the strip as many times as it occurs |
| Prices.StripConcat | data.js:88 | the strip works piece by piece, so what it keeps stays in order |
| Prices.StripKeepsPriceText | data.js:88 | text made only of price characters is left unchanged |
| Prices.RemoveAll | data.js:90 | removing a character that is absent changes nothing |
| Prices.RemoveAllCounts | data.js:90 | after removing all dots none is left, and every other character keeps its count |
| Prices.RemoveAllConcat | data.js:90 | dot removal works piece by piece |
| Prices.ReplaceFirst | data.js:91 | the replacement keeps the length and does nothing when the character is absent |
| Prices.ReplaceFirstAt | data.js:91 | position by position, only the first comma becomes `.`; every other character stays |
| Prices.ReplaceFirstAtIndex | data.js:91 | at one position: the character becomes `.` exactly when it is the first comma |
| Prices.ReplaceFirstCounts | data.js:91 | as a multiset, exactly one comma is traded for one `.` |
| Prices.ReplaceFirstSkips | data.js:91 | the replacement passes over a prefix that holds no comma |
| Prices.Normalize | data.js:86-87 | the price has no numeral to read exactly when it trims to empty |
| Prices.ParsePriceToNumber | data.js:86-87 | blank input gives NaN |
| Prices.Rewrite | data.js:89-91 | text without a comma is unchanged; text with a comma comes out with a `.` and no longer |
| Prices.CommaLeavesPoint | data.js:89-91 | when a comma is present, the dot removal and the comma replacement leave a `.` |
| Prices.RewriteSeparators | data.js:89-91 | with a comma present, exactly one `.` remains (the old first comma), there is one comma fewer, and digits and minus signs are untouched |
| Prices.BothSeparators | data.js:90 | with both separators present, all dots are removed and then the first comma becomes `.` |
| Prices.FirstCommaToPoint | data.js:91 | the first comma becomes `.` |
| Prices.RemoveOneDot | data.js:90 | a single dot between two dot-free parts is removed |
| Prices.RewriteCommaDecimal | data.js:91 | with only a comma, `w,f` becomes `w.f` |
| Prices.RewriteEuropean | data.js:90 | `w1.w2,f` becomes `w1w2.f` |
| Prices.RewriteUsGrouping | data.js:90 | `w1,w2.f` becomes `w1.w2f`: the dot is treated as a thousands separator even after the comma |
| Prices.PriceTextKept | data.js:86-88 | text made of price characters is neither trimmed nor stripped before the rewrite |
| Prices.ReadsAsDecimal | data.js:92-93 | a price that normalises to the numeral `w.f` reads as its decimal value |
| Prices.CommaDecimalPrice | data.js:85-94 | `w,f` reads as w.f |
| Prices.EuropeanPrice | data.js:85-94 | `w1.w2,f` reads as w1w2.f |
| Prices.UsGroupedPrice | data.js:85-94 | `w1,w2.f` reads as w1.w2f |
| Prices.StripDecorations | data.js:88 | a currency sign in front and a currency code after a numeral are stripped |
| Prices.DecoratedUntrimmed | data.js:86 | the decorated text has nothing for `trim` to remove |
| Prices.DecoratedPrice | data.js:85-94 | `$ w.f USD` reads as w.f |
| Prices.DecimalComma | data.js:91 | `"12,50"` reads as 12.5 |
| Prices.EuropeanThousands | data.js:90 | `"1.234,56"` reads as 1234.56 |
| Prices.UsThousandsReadAsDecimal | data.js:90 | `"1,234.56"` reads as 1.23456 |
| Prices.CurrencyDecorations | data.js:88 | `"$ 12.00 USD"` reads as 12 |
| Prices.BlankPrice | data.js:87 | a blank price is NaN |
| Indexes.JoinFourInjective | data.js:100 | four fields joined by `¦` can be split back apart when the first three do not hold `¦` |
| Indexes.MainKeyInjective | data.js:100 | two rows have the same composite key only when their Size, Series, Material and Seat agree |
| Indexes.MainKey | data.js:100 | the key is the trimmed Size, Series, Material and Seat joined in that order with `¦` between each pair |
| Indexes.NoteOf | data.js:105 | the note is the trimmed Note column if that is non-empty; otherwise the `notes` property when the row has one; otherwise "" |
| Indexes.Assign | data.js:99-106 | a map filled by `set` holds exactly the keys visited |
| Indexes.AssignLastWins | data.js:101-106 | under each key stands the value of the key's last occurrence |
| Indexes.KeepFirstKeys | data.js:116-126 | a map filled only when a key is absent holds exactly the non-empty keys |
| Indexes.KeepFirstWins | data.js:124-126 | under each non-empty key stands the value of the key's first occurrence |
| Indexes.FillNotesKeys | data.js:116-131 | the note map holds exactly the non-empty keys |
| Indexes.FillNotesFirstNonEmpty | data.js:128-131 | under each key stands the first non-empty note seen for it, or "" when every note for it is empty |
| Indexes.MainKeySet | data.js:99-100 | the keys visited are exactly the composite keys of the rows |
| Indexes.MainLastWins | data.js:96-108 | both main maps hold exactly the rows' keys, and each key holds the price and note of the last row with that key |
| Indexes.CylIndexKeys | data.js:114-132 | both cylinder maps hold exactly the non-empty sizes; rows without a size are skipped |
| Indexes.CylFirstPriceWins | data.js:123-126 | each size holds the price of the first row with that size |
| Indexes.CylFirstNoteWins | data.js:128-131 | each size holds the first non-empty trimmed note among its rows, or "" |
| Indexes.Catalog.constructor | data.js:31-37 | no rows are loaded, and the maps agree with them |
| Indexes.Catalog.BuildMainIndex | data.js:96-108 | both main maps become the last-write-wins folds over the price rows; the rows and the cylinder maps are unchanged |
| Indexes.Catalog.BuildCylIndex | data.js:110-133 | the price map becomes the first-wins fold and the note map the fill-empty fold over the cylinder rows; the rest is unchanged |
| Indexes.Catalog.Load | data.js:202-211 | after a load the rows are the parsed file split by series, and all four maps agree with them |
| Quote.DiscountBps | index.js:104-109 | a known tier gives a net multiplier in (0, 10000] basis points |
| Quote.DiscountTiers | index.js:33-40 | TierA–TierE and None give 7100, 7800, 8500, 9200, 6500 and 10000; every other key gives NaN |
| Quote.ToCents | index.js:94-96 | the cents are the amount times 100, to within one half |
| Quote.FromCents | index.js:99-101 | the amount is one hundredth of the cents, and `toCents` takes it back to the same cents |
| Quote.CeilDollars | index.js:227-229 | `floor((X + 999999) / 1000000)` is the ceiling of X / 1,000,000: d·10^6 ≥ X and (d−1)·10^6 < X |
| Quote.InvalidAdjustment | index.js:113-116 | a blank or non-numeric adjustment contributes 0 |
| Quote.AdjAmount | index.js:113-116 | an entry reads as its leading number when that is a finite double, and as 0 when there is none or it is beyond the double range; the amount is always finite |
| Quote.SumOfAppend | index.js:121-124 | the accumulated sum over two runs of entries is the sum of the two sums |
| Quote.SumOfRemove | index.js:121-124 | taking one entry out lowers the sum by exactly that entry's cents |
| Quote.SumOfPermutation | index.js:121-124 | the accumulated sum does not depend on the order of the entries |
| Quote.SumAdjAppend | index.js:118-126 | the adjustment sum over two runs of rows is the sum of their sums |
| Quote.SumAdjPermutation | index.js:118-126 | the adjustment sum does not depend on the order of the rows |
| Quote.AdjustmentOrderIrrelevant | index.js:118-126 | reordering the adjustment rows does not change the result of `calculate` |
| Quote.TwoAdjustments | index.js:121-124 | the sum over two rows is the sum of each row's own rounded cents |
| Quote.AdjustmentsCents | index.js:118-126 | the loop returns the sum of each entry's own rounded cents |
| Quote.Calculate | index.js:201-246 | it fails with the list-price message exactly when the list price is non-numeric, and with the tier message exactly when the list price is numeric and the tier is unknown; a success has a rate in (0, 1] |
| Quote.CalculateReads | index.js:202-246 | on valid inputs it succeeds with the quote of the list price, the cylinder price and the basis points it read |
| Quote.CylinderAmount | index.js:207-208 | the cylinder field reads as its leading number, or 0 when it has none |
| Quote.QuoteFor | index.js:219-246 | the subtotal is list plus cylinder in cents, the rate is bps / 10000, and total minus adjustments is a whole number of dollars, the least one not below subtotal × rate |
| Quote.NonNumericCylinderIsZero | index.js:207-208 | a non-numeric cylinder price counts as 0: the quote succeeds with the list price alone as the subtotal |
| Quote.CeilDollarsBounds | index.js:224-229 | the rounded-up dollars are the least whole number not below subtotal × rate |
| Quote.AdjustmentsAddAfterRounding | index.js:232-238 | the adjustments move the total by exactly their sum, after the rounding |
| Quote.FromCentsAdd | index.js:99-101 | converting cents to dollars adds up |
| Quote.NoDiscountQuote | index.js:227-238 | at 10000 bps with a whole-dollar subtotal, the base equals the subtotal |
| Quote.CeilWhole | index.js:227-229 | a whole number of dollars needs no rounding up |
| Quote.ReadPlusAdjustment | index.js:113-124 | the entry `5.25` contributes 525 cents |
| Quote.ReadMinusAdjustment | index.js:113-124 | the entry `-1.10` contributes −110 cents |
| Quote.WorkedQuote | index.js:201-246 | $10.00 list, no cylinder, TierB, adjustments +5.25 and −1.10: subtotal 10, rate 0.78, total 12.15 (7.80 rounds up to 8) |
| Format.Group | index.js:66-74 | grouping never shortens the digits |
| Format.GroupCons | index.js:68-74 | one more digit on the left is followed by a comma exactly when the old digits fill whole groups of three |
| Format.GroupRemoveCommas | index.js:66-74 | deleting the commas from the grouped digits gives the digits back |
| Format.GroupCommaPositions | index.js:68-74 | commas stand exactly where the distance to the end is a positive multiple of four, and never first |
| Format.LeadGroup | index.js:69-73 | a new digit in front of the copied digits and their comma gives the grouping of the longer run |
| Format.CopyStep | index.js:69-73 | one loop step (prepend a digit, then a comma after every third digit that is not the first) extends the grouping by one digit |
| Format.GroupDigits | index.js:66-74 | the reverse copying loop builds the grouped digits |
| Format.AddCommas | index.js:54-79 | `addCommas` gives the sign, then the grouped integer part, then `.` and the first fraction part if it is non-empty |
| Format.IntegerPartIsPrefix | index.js:55-56 | the integer part is everything before the first `.` |
| Format.CommaFormWhole | index.js:55-60 | with no `.`, the output is the sign and the grouped digits |
| Format.CommaFormFraction | index.js:55-78 | for `a.b`, the output is the grouped `a` and then `.b` unchanged when b is non-empty |
| Format.SignedGroupRemoveCommas | index.js:61-74 | deleting the commas from the signed grouped part gives the integer part back |
| Format.CommaFormRoundTrip | index.js:54-79 | deleting the commas from `addCommas(x)` gives x back, for x with no comma and no point; other inputs need not come back, since `"1.2.3"` gives `"1.2"` (index.js:55-60) and `"5."` gives `"5"` (index.js:75-77) |
| Format.CommaFormFractionRoundTrip | index.js:54-79 | the same for x = `a.b` with one point and a non-empty fraction |
| Format.CommaFormSign | index.js:63-65 | a leading `-` stays first, and no comma follows it directly |
| Format.CommaForm | index.js:54-79 | for text without a comma, deleting the commas from the output gives the integer part, then `.` and the first fraction part if it is non-empty |
| Format.CommasRemoved | index.js:61-78 | deleting the grouping commas from the signed grouped part and the fraction after it gives the integer part and the fraction back |
| Format.SecondPointDropped | index.js:55-60 | only the text up to a second point is kept: `addCommas("1.2.3")` is `"1.2"` |
| Format.TrailingPointDropped | index.js:75-77 | a point with nothing after it is dropped: `addCommas("5.")` is `"5"` |
| Format.DigitChar | index.js:89 | the digit character of a value below ten |
| Format.NatToString | index.js:89 | the decimal numeral of n: digits only, no leading zero, and its value is n |
| Format.TwoDigits | index.js:89 | two digits whose value is k |
| Format.FixedCents | index.js:89 | the cents `toFixed(2)` writes are the magnitude times 100, to within one half |
| Format.DigitsValueAppend | index.js:89 | appending digits shifts the value left by their number |
| Format.CentsValue | index.js:89 | the written digits of n cents are worth n / 100 |
| Format.CentsNumeralLeads | index.js:89 | the numeral `toFixed(2)` writes starts with a digit |
| Format.CentsNumeralReadsBack | index.js:89 | the numeral of n cents reads back as n / 100 |
| Format.NegativeCentsReadBack | index.js:89 | the same after a minus sign reads back as −n / 100 |
| Format.SignedNumeralReadsBack | index.js:89 | a signed cents numeral reads back as the signed amount |
| Format.ToFixed2 | index.js:89 | the text `toFixed(2)` writes reads back through `parseFloat` as the amount rounded to the cent |
| Format.FmtMoney | index.js:82-91 | `fmtMoney` is the symbol followed by `addCommas(v.toFixed(2))`, with 0 in place of a non-finite amount |
| Format.FixedGroupedRoundTrip | index.js:89-90 | deleting the grouping commas from `addCommas(v.toFixed(2))` gives `v.toFixed(2)` |
| Format.MoneyReadsBack | index.js:82-91 | the shown text is the symbol, then a numeral that, without its commas, reads back as the amount rounded to the cent |
| Format.NonFiniteShownAsZero | index.js:84-88 | a non-finite amount is shown as the symbol followed by `0.00` |
| Format.GroupFour | index.js:68-74 | `1234` is grouped as `1,234` |
| Format.GroupedThousands | index.js:54-79 | `addCommas("1234.50")` is `"1,234.50"` |

## Left out

- The DOM and the event wiring are not modelled: `setOptions`, the change, submit and reset listeners, the four `update*Price` and `update*Note` functions, `resetAllQuoteUI`, `createAdjustmentRow`, `clearAdjustments`, `updateAdjustmentsDisplay`, `updateTotalUI`, `onSubmit`, `onReset` and `init`. Their logic around the maps is a plain lookup.
- The asynchronous file read (`await f.text()`) and the `setTimeout` deferrals are left out. `Indexes.Catalog.Load` takes the file text as a parameter.
- The currency switch and the globals `CURRENT_CURRENCY` and `CURRENCY_SYMBOL` are left out. `Format.FmtMoney` takes the symbol as a parameter, and a `PriceEntry` keeps both the USD and the CAD string.
- `isCylinderSeries` is a parameter `isCyl: string -> bool`, not its regular expression. JavaScript word boundaries are not modelled, so only the partition property of the split is proved.
- `Rows.OptionsFor`: the result is not sorted. The `numAwareSort` comparator mixes numeric and locale comparison and need not be a total order, so only membership, uniqueness and non-emptiness are stated.
- `Numbers.ParseFloat`: numbers are exact reals, not IEEE doubles, and NaN is `None`. The literal `Infinity` reads as `None`, where `parseFloat` gives Infinity. A numeral beyond the double range, such as `"1e400"`, reads as its exact value (10^400), where `parseFloat` gives Infinity.
- `Quote.AdjAmount` models `Number.isFinite` through `Numbers.IsFiniteDouble`, the exact overflow threshold 2^1024 − 2^970, so `"1e400"` contributes 0 as in `parseAdjAmountRaw`. The literal `Infinity`, which is `None` here, also contributes 0, as in `parseAdjAmountRaw`.
- `Quote.ToCents`: `Math.round(n * 100)` is taken over exact reals. Binary floating-point artefacts (such as `1.005 * 100` falling just below 100.5) are not modelled.
- `Format.FixedCents`: `toFixed(2)` rounds the exact decimal value half up. It does not model the binary value of a double, or the exponent notation JavaScript uses for magnitudes of 10^21 and above.
- `Strings.LowerFolds`: `toLowerCase` is modelled on ASCII letters only.
- `Strings.Split`: only the split of a string at one character is modelled, with its Join round trip; the general `split` is not.
- `Quote.Calculate`: `subtotal`, `rate` and `total` are exact reals. Their binary floating-point representation is not modelled.
- `Quote.Calculate`: a list or cylinder price beyond the double range (`"1e400"`) is Infinity in `calculate`, which succeeds with an infinite total that `fmtMoney` shows as `0.00`. The model keeps the exact value and gives a large finite total. The literal `Infinity` is `None` here, so as a list price the model fails with the list-price message and as a cylinder price it counts 0, where `calculate` gives an infinite total.
- `Indexes.NoteOf`: the `r.notes` fallback is read from the row map under the key `notes`. A parsed row only holds that key when the header row has a `notes` column.
