# Visa document rule extractor, modelled in Dafny

The rule extractor reads the plain text of a visa-requirements document and
answers five questions about it:

- **Critical rules.** Exactly three advisory lines. The first is the passport-validity rule: the quoted match, or fallback advice. Then comes the photo-size rule when the text states one, the fingerprint advisory when the text mentions fingerprints or biometrics, and padding.
- **Fees.** Every "keyword … amount currency" mention, formatted as "amount currency", without duplicates, or "Belirtilmemiş" when there is none.
- **Insurance limit.** The first "keyword … amount Euro" mention, or the standard "30.000 € (Standart)".
- **Checklist items.** The list-marked lines and the lines that name a document, trimmed, or a placeholder.
- **Upsell flags.** Three keyword tests on the lower-cased text: insurance, flight/hotel and VIP service.

The model works on `string` (`seq<char>`). Every operation is a pure function
except two methods: `Analyzer.Distinct` for `list(set(...))` and
`Analyzer.ExtractFees`, which calls it. The regular expressions the extractor
uses are hand-written as two things each:
- a declarative predicate ("the pattern matches `t[i..e]`");
- a continuation-passing backtracking matcher that tries the alternatives,
  greedy and lazy quantifiers and start positions in the order Python's `re`
  engine does.

Each matcher is proved sound and complete against its predicate. A second
predicate per pattern, `Chosen`, says which of the matches at a start the
engine reports:
- each lazy `.*?` stops at the first position where the rest of the pattern
  follows;
- the alternatives of the keyword groups, of the passport validity words and
  of the fee currencies start with different characters, so at most one of
  them fits;
- both alternatives of the passport duration group start with a digit, but
  after the digits and white space their units differ, so a duration ends in
  one place (`Passport.DurationUnique`);
- both alternatives of the photo size group start with a digit, but the
  decimal form has a "." as its second character where the integer form has
  white space or "x", so at most one fits (`Photo.DecimalNotInteger`,
  `Photo.DimensionUnique`);
- the insurance currency group `(€|EUR|Euro)` is the first alternative that
  fits: on "Euro" both "EUR" and "Euro" fit, and the engine keeps "EUR"
  (`Insurance.FirstCurrency`, `Insurance.EuroShadowed`);
- the groups after the last gap have a single way to match there.

The matcher at a start returns exactly the chosen match (`AtChosenIff`).
`re.search` returns exactly the chosen match at the leftmost start (`SearchIff`).
`re.findall` returns the chosen matches in order, without overlap, and skips
no match (`Fee.FindAllComplete`).

Modules:
- `Text`: case mapping, `\d`, `\s` and ignore-case matching.
- `Regex`: the matcher combinators.
- `Amounts`: the match record and the amount-and-currency end that the fee and insurance patterns share.
- `Lines`: `split('\n')`, `'\n'.join` and `strip()`.
- One module per pattern: `Passport`, `Photo`, `Fee`, `Insurance` and `Checklist`.
- `Analyzer`: the five operations.

Where the project's description and the code disagree, the model follows the code:

- **Fee text.** Each fee is group 2, a space, then group 3 (`analyzer.py:43`). So "Vize ücreti 120 €" yields "120 €", with no keyword or surrounding words.
- **Page filter.** It tests only "sayfa" (`analyzer.py:65`). A line containing "page" is not skipped.
- **Line breaks in the passport quote.** The passport quote is not always newline-free. `.` never crosses a line break, but the `\s*` between the number and "ay"/"yıl" does. `Passport.ValidLines` and `Analyzer.PassportQuoteLines` state exactly where a line break can sit.
- **Capital İ.** Matching with IGNORECASE and `str.lower()` disagree on "İ". "SİGORTA 30 €" yields the insurance figure "30 €", but its insurance upsell flag stays down, because the lower-cased text does not contain "sigorta" (`Analyzer.CapitalInsurance`).
- **Insurance currency.** It never reads "Euro". The pattern tries `EUR` before `Euro` under IGNORECASE, and nothing after the group can fail. So the engine always settles on the three-letter alternative, and "30.000 Euro" yields "30.000 Eur" (`Insurance.EuroShadowed`).

## Model

| member | source | states |
|---|---|---|
| Regex.Alt | analyzer.py:14 | a group of literal alternatives succeeds exactly when some alternative matches ignoring case and the rest of the pattern succeeds after it |
| Regex.AltFirst | analyzer.py:14 | the group settles on the first alternative, in pattern order, after which the rest succeeds |
| Regex.AltShadowed | analyzer.py:51 | an alternative whose earlier sibling is a case-insensitive prefix of it is never the one chosen when the rest succeeds after the sibling |
| Regex.Star | analyzer.py:41 | a greedy quantifier `cls{min,max}` succeeds exactly when some run of allowed length lets the rest succeed |
| Regex.StarGreedy | analyzer.py:41 | when the rest succeeds after the longest run, the longest run is taken |
| Regex.StarLongest | analyzer.py:41 | whenever a greedy quantifier succeeds, every longer run it could reach leaves the rest failing |
| Regex.Lazy | analyzer.py:14 | `.*?` takes the shortest newline-free stretch after which the rest succeeds, and succeeds whenever one exists |
| Regex.Leftmost | analyzer.py:14-15 | `re.search` reports the first start at which the pattern matches, and nothing when no start matches |
| Regex.LeftmostFirst | analyzer.py:14-15 | no match starts before the one `re.search` reports |
| Lines.Split | analyzer.py:62 | `split('\n')` always yields at least one piece |
| Lines.SplitOneLine | analyzer.py:62 | no piece of the split holds a newline |
| Lines.JoinSplit | analyzer.py:62 | joining the pieces with newlines gives the text back |
| Lines.SplitJoin | analyzer.py:62 | splitting newline-free pieces joined by newlines gives the pieces back |
| Lines.SplitAppend | analyzer.py:62 | the lines of two texts joined by a newline are the lines of the first followed by those of the second |
| Lines.TrimStart | analyzer.py:64 | the result is a suffix of the input, everything cut off is white space, and it does not start with white space |
| Lines.TrimEnd | analyzer.py:64 | the result is a prefix of the input, everything cut off is white space, and it does not end with white space |
| Lines.Strip | analyzer.py:64 | `strip()` returns a text no longer than its input that neither begins nor ends with white space |
| Lines.StripShape | analyzer.py:64 | `strip()` returns the slice between leading and trailing white space and begins and ends with a non-space |
| Lines.StripStripped | analyzer.py:64 | stripping a text without white space at its ends leaves it unchanged |
| Lines.StripIdempotent | analyzer.py:64 | `strip()` applied twice equals `strip()` applied once |
| Passport.DigitsThenUnit | analyzer.py:14 | `\d+\s*ay` (or `yıl`) matches from a position exactly when digits, then white space, then the unit follow |
| Passport.Duration | analyzer.py:14 | the duration group matches exactly when either of its alternatives does |
| Passport.DurationAfterEnd | analyzer.py:14 | `.*?` followed by the duration matches exactly when a newline-free gap leads to a duration |
| Passport.ValidityAfterEnd | analyzer.py:14 | the part after the keyword matches exactly when "en az"/"geçerli" and then a duration follow on the same line |
| Passport.At | analyzer.py:14 | the passport pattern matches at a start exactly when the declarative pattern does |
| Passport.Search | analyzer.py:14 | the search reports a match with no match starting before it, and it is the match the engine chooses at its start; nothing exactly when no match exists |
| Passport.ValidLines | analyzer.py:14 | a passport match is newline-free except within the white space between the number and its unit |
| Passport.NoKeyNoMatch | analyzer.py:14 | without "pasaport"/"travel document" in the text, ignoring case, there is no passport match |
| Passport.AtChosenIff | analyzer.py:14 | the matcher at a start ends at `e` exactly when `t[i..e]` is chosen: the first "en az"/"geçerli" after the keyword, then the first duration after it |
| Passport.ChosenUnique | analyzer.py:14 | at a start at most one match is chosen |
| Passport.DurationUnique | analyzer.py:14 | at a position the duration group ends in one place: the digit run, the white space run and the unit are each forced |
| Passport.ChosenValid | analyzer.py:14 | a chosen match is a match of the pattern |
| Passport.SearchIff | analyzer.py:14-16 | `re.search` reports `t[i..e]` exactly when no match starts before `i` and `t[i..e]` is the chosen match at `i` |
| Photo.Times | analyzer.py:21 | `\s*x\s*` matches exactly when white space, an "x" or "X", and white space follow |
| Photo.Decimal | analyzer.py:21 | `\d\.\d` matches exactly a digit, a dot and a digit |
| Photo.DecimalDimension | analyzer.py:21 | `\d\.\d\s*x\s*\d\.\d` matches exactly when the declarative form does |
| Photo.IntegerDimension | analyzer.py:21 | `\d\s*x\s*\d` matches exactly when the declarative form does |
| Photo.Dimension | analyzer.py:21 | the size group matches exactly when one of its two alternatives does |
| Photo.At | analyzer.py:21 | the photo pattern matches at a start exactly when the declarative pattern does |
| Photo.Search | analyzer.py:21 | the search reports a match with no match starting before it, and it is the match the engine chooses at its start; nothing exactly when no match exists |
| Photo.NoKeyNoMatch | analyzer.py:21 | without "biyometrik"/"fotoğraf" in the text, ignoring case, there is no photo match |
| Photo.AtChosenIff | analyzer.py:21 | the matcher at a start ends at `e` exactly when `t[i..e]` is chosen: the size group starts at the first position after the keyword where a size follows |
| Photo.ChosenUnique | analyzer.py:21 | at a start at most one match is chosen |
| Photo.DimensionUnique | analyzer.py:21 | at a position the size group ends in one place: the decimal and the integer form exclude each other |
| Photo.SearchIff | analyzer.py:21-23 | `re.search` reports `t[i..e]` exactly when no match starts before `i` and `t[i..e]` is the chosen match at `i` |
| Fee.Tail | analyzer.py:41 | `(\d{2,3})\s*(currency)` matches exactly when 2-3 digits, white space and a currency follow, with the groups where the match record says |
| Fee.At | analyzer.py:41 | the fee pattern matches at a start exactly when the declarative pattern does |
| Fee.Search | analyzer.py:41 | the next fee match at or after a position is the leftmost one there, with the groups the engine chooses; none exactly when no match starts there or later |
| Fee.FindAll | analyzer.py:41 | `re.findall` is empty exactly when no match starts at or after the scan position |
| Fee.FindAllValid | analyzer.py:41 | every match `re.findall` reports is a match of the fee pattern, with the groups the engine chooses |
| Fee.FindAllOrdered | analyzer.py:41 | the reported matches do not overlap and come in text order |
| Fee.FindAllComplete | analyzer.py:41 | `re.findall` skips no match: every match starting at or after the scan position starts inside a reported one |
| Fee.NoKeyNoMatch | analyzer.py:41 | without "vize"/"harç"/"ücret" in the text, ignoring case, `re.findall` finds nothing |
| Fee.AtChosenIff | analyzer.py:41 | the matcher at a start reports `h` exactly when `h` is chosen: the amount group starts at the first position after the keyword where amount, white space and currency follow |
| Fee.ChosenUnique | analyzer.py:41 | at a start at most one match is chosen |
| Fee.TailUnique | analyzer.py:41 | once the amount group starts, its end, the currency start and the match end are forced |
| Fee.SearchIff | analyzer.py:41 | the search from a position reports `h` exactly when no match starts between that position and `h`, and `h` is the chosen match at its start |
| Insurance.Amount | analyzer.py:51 | `\d{2,3}[\.,]?\d{0,3}` matches exactly the amounts of that shape after which the rest succeeds |
| Insurance.Tail | analyzer.py:51 | amount, white space and Euro token match exactly when the declarative form does |
| Insurance.CurrencyNeverEuro | analyzer.py:51 | the currency group, followed by the end of the pattern, is one or three characters long |
| Insurance.EuroLength | analyzer.py:51 | whatever follows the currency group, the engine never settles on the four-letter "Euro" when the rest cannot fail |
| Insurance.TailNeverEuro | analyzer.py:51 | a matched amount-and-currency tail never ends in a four-character currency |
| Insurance.At | analyzer.py:51 | the insurance pattern matches at a start exactly when the declarative pattern does |
| Insurance.Search | analyzer.py:51 | the search finds the leftmost insurance match, the one chosen at its start, and nothing exactly when no match exists |
| Insurance.CurrencyFirst | analyzer.py:51 | the currency group, followed by the end of the pattern, keeps the first of "€", "EUR", "Euro" that fits |
| Insurance.TailFirstCurrency | analyzer.py:51 | the currency of a matched amount-and-currency tail is the first alternative that fits |
| Insurance.AtChosen | analyzer.py:51 | the matcher's result at a start is the chosen match there |
| Insurance.AtChosenIff | analyzer.py:51 | the matcher at a start reports `h` exactly when `h` is chosen: the amount group starts at the first position after the keyword where amount, white space and currency follow, and the currency is the first alternative that fits |
| Insurance.ChosenUnique | analyzer.py:51 | at a start at most one match is chosen |
| Insurance.TailUnique | analyzer.py:51 | once the amount group starts, its end is the first character that is neither a digit nor a separator, the currency starts after the white space, and the first fitting currency fixes the match end |
| Insurance.SearchIff | analyzer.py:51 | `re.search` reports `h` exactly when no match starts before `h` and `h` is the chosen match at its start |
| Insurance.EuroShadowed | analyzer.py:51-53 | the currency of the reported insurance match is one or three characters, never "Euro" |
| Insurance.NoKeyNoMatch | analyzer.py:51 | without "sigorta"/"teminat" in the text, ignoring case, there is no insurance match |
| Checklist.TrailingSpacesGreedy | analyzer.py:69-70 | the `\s+` after a marker stops only at the end of the line or at a non-space |
| Checklist.ItemOf | analyzer.py:64-74 | a line yields an item only if its stripped form is at least 5 long and lacks "sayfa", and the item is a piece from the end of the stripped line |
| Checklist.Numbered | analyzer.py:69 | `\d+\.\s+` at the line start matches exactly when digits, a dot and white space open the line |
| Checklist.Bulleted | analyzer.py:69 | a bullet marker ("-", "*" or "•") followed by `\s+` matches at the line start exactly when a bullet and white space open the line |
| Checklist.MarkerEnd | analyzer.py:69-70 | the list-marker pattern matches exactly when a numbered or bulleted marker opens the line |
| Checklist.MarkerSymbolsExact | analyzer.py:69 | the marker symbols match only themselves, so the missing IGNORECASE flag changes nothing |
| Checklist.MarkerGreedy | analyzer.py:69-70 | `re.sub` removes the marker and all the white space after it |
| Checklist.MarkerEndsInSpace | analyzer.py:69 | a marker ends in white space after at least one character |
| Checklist.ItemSelection | analyzer.py:64-74 | a line is kept exactly when its stripped form is at least 5 long, lacks "sayfa", and has a marker or a document word |
| Checklist.StripOneLine | analyzer.py:62-64 | a stripped line is still one line and has no white space at either end |
| Checklist.ItemShape | analyzer.py:63-74 | a kept line yields a one-line, stripped, non-empty, "sayfa"-free entry: what follows the marker, or the whole stripped line |
| Checklist.FilterMapAppend | analyzer.py:63-74 | the items of two runs of lines are the items of the first followed by those of the second |
| Checklist.FilterMapItems | analyzer.py:63-76 | each line yields at most one item, every item comes from a line, every kept line contributes, and there are no items exactly when no line is kept |
| Checklist.CollectEntries | analyzer.py:63-74 | every item of a run of single lines is a checklist entry |
| Checklist.CollectJoined | analyzer.py:62-74 | the items of two texts joined by a newline are the items of the first followed by those of the second |
| Checklist.AnalyzeChecklistItems | analyzer.py:60-76 | the result is non-empty: the placeholder when no line is kept, otherwise the items of the lines in line order, each a checklist entry |
| Analyzer.PassportRule | analyzer.py:14-18 | the passport rule always starts with the passport label |
| Analyzer.PassportRuleQuotes | analyzer.py:14-16 | when any passport match exists, the rule is the label followed by the match the engine chooses at the leftmost start |
| Analyzer.PassportQuoteLines | analyzer.py:14-16 | the quoted passport match breaks the line at most inside the white space before its unit |
| Analyzer.PassportFallbackIff | analyzer.py:15-18 | the first rule is the fallback advice exactly when the passport pattern matches nowhere |
| Analyzer.NoPassportKeyword | analyzer.py:14-18 | without "pasaport"/"travel document" in the text, ignoring case, the first rule is the fallback advice |
| Analyzer.PhotoRule | analyzer.py:21-23 | there is a photo rule exactly when the photo pattern matches somewhere, and it starts with the photo label |
| Analyzer.PhotoRuleQuotes | analyzer.py:21-23 | when any photo match exists, the rule is the label followed by the match the engine chooses at the leftmost start |
| Analyzer.PhotoSize | analyzer.py:21-23 | on "Biyometrik fotoğraf 3.5 x 4.5" the shorter span ending in "x 4" is a match but not the chosen one, and the rule quotes the whole text |
| Analyzer.Pad | analyzer.py:30-31 | padding keeps the rules, appends "Ek kural bulunamadı." and reaches length three |
| Analyzer.Arrange | analyzer.py:11-33 | three slots: passport, then the photo rule or else the fingerprint advisory or padding, then the advisory only if both came, else padding |
| Analyzer.MentionsBiometrics | analyzer.py:26 | the text counts as mentioning biometrics whenever "biyometrik" occurs in its lower-case form |
| Analyzer.ExtractCriticalRules | analyzer.py:11-33 | exactly three rules: the passport rule, the photo rule when present, the fingerprint advisory when biometrics are mentioned, then padding |
| Analyzer.ArrangeFingerprint | analyzer.py:25-33 | the advisory survives the cap at three entries exactly when it was added |
| Analyzer.FingerprintIff | analyzer.py:26-27 | the fingerprint advisory appears exactly when "parmak izi" or "biyometri" occurs in the lower-case text |
| Analyzer.BiometricPhotoBringsFingerprint | analyzer.py:21-27 | a "biyometrik" anywhere brings the fingerprint advisory |
| Analyzer.EmptyTextRules | analyzer.py:11-33 | an empty text yields the fallback advice and two padding entries |
| Analyzer.FeeTextShape | analyzer.py:41-43 | the text of a fee match is 2-3 digits, a space and a listed currency in the document's case, at most 7 characters |
| Analyzer.Distinct | analyzer.py:45 | `list(set(xs))` holds each element of `xs` exactly once |
| Analyzer.FeeMatches | analyzer.py:41-43 | every formatted fee has the shape of a fee |
| Analyzer.FeesNone | analyzer.py:41-45 | `re.findall` finds nothing exactly when the fee pattern matches nowhere |
| Analyzer.AmountText | analyzer.py:43 | the fee text splits back into the amount group, one space and the currency group |
| Analyzer.FeeAmount | analyzer.py:41-43 | on "Vize 120 €" the amount "20" gives a match but not the chosen one, and `re.findall` reports only the match with amount "120", formatted "120 €" |
| Analyzer.ExtractFees | analyzer.py:40-45 | the result is never empty, is ["Belirtilmemiş"] exactly when nothing matches, has no duplicates, and holds exactly the formatted matches, each shaped like a fee |
| Analyzer.NoFeeKeyword | analyzer.py:41-45 | without "vize"/"harç"/"ücret" in the text, ignoring case, the fee pattern matches nowhere |
| Analyzer.ExtractInsuranceLimit | analyzer.py:51-54 | the standard coverage exactly when nothing matches; otherwise the amount and currency of the leftmost match, with the groups the engine chooses there, the currency reading "€" or "EUR" |
| Analyzer.InsuranceAmount | analyzer.py:51-54 | on "sigorta 30.000 €" the amount "000" gives a match but not the chosen one, and the limit read is "30.000 €" |
| Analyzer.InsuranceText | analyzer.py:51-53 | the leftmost insurance match yields an amount text of at most 11 characters with currency "€" or "EUR" |
| Analyzer.NoInsuranceKeyword | analyzer.py:51-54 | without "sigorta"/"teminat" in the text, ignoring case, the standard coverage is reported |
| Analyzer.UpsellOpportunities | analyzer.py:82-99 | exactly the three keys, each true exactly when one of its words occurs in the lower-case text |
| Analyzer.MentionsAnyAppend | analyzer.py:88-97 | a keyword found in part of a text is found in the whole |
| Analyzer.UpsellMonotone | analyzer.py:88-97 | appending text never clears a raised flag |
| Analyzer.InsuranceFigureRaisesFlag | analyzer.py:51-91 | an insurance figure found in a text without "ı", "İ", "ſ" or the Kelvin sign comes with the insurance upsell flag |
| Analyzer.CapitalInsurance | analyzer.py:51-91 | "SİGORTA 30 €" yields an insurance figure but no insurance upsell flag |

## Left out

- The constructor (`analyzer.py:4-5`) only stores the text. Every operation takes the text as its parameter instead.
- Only part of Unicode case mapping is modelled:
  - Ignore-case matching (`Text.Fold`) follows Python's `re` for every letter the patterns contain. "I", "ı" and "İ" all match "i", long s matches "s", and the Kelvin sign matches "k". So "PASAPORT EN AZ 1 YIL" and "VİZE 60 €" match. Other non-ASCII capitals are not lowered, and no pattern contains their lower-case forms.
  - `str.lower()` (`Text.LowerStr`) maps the ASCII letters and Ç Ğ Ö Ş Ü, and leaves everything else as it is. Python maps "İ" to "i" plus a combining dot, and the Kelvin sign to "k". So a searched word written with a final "İ" ("biyometrİ") or with the Kelvin sign counts in Python but not here. No other capital lowers to a letter of the searched words.
- Analyzer.InsuranceFigureRaisesFlag: proved only for texts without "ı", "İ", "ſ" or the Kelvin sign. On other texts it can fail in the code itself, as `Analyzer.CapitalInsurance` shows.
- `\d` is the ASCII digits. Python also accepts the other Unicode decimal digits.
- `list(set(fees))` has no defined order in Python. `Analyzer.Distinct` keeps first occurrences. `Analyzer.ExtractFees` promises only membership, distinctness and shape, not an order.
- The regular-expression engine is modelled only for the five patterns the extractor uses, not for `re` in general.
- The insurance currency is never "Euro". This is the code's behaviour (see above), not a modelling gap.
- Not part of this model, because they only present results or read files through foreign libraries:
  - the web page (`app.py`);
  - its styling helpers (`utils.py`);
  - the PDF/Word text extraction (`doc_loader.py`).
