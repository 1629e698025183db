# Contact enrichment and clean-up, modelled in Dafny

The repository scrapes business listings and then cleans their contact data. This
project models the part that turns raw cells into contact columns:

- `crawler.py`, the enricher. It reads a row's `phone_number` and `website`, fetches the
  website's page, extracts phones and e-mails, then de-duplicates, verifies and
  normalises the phones to `+1XXXXXXXXXX`. It fills three new columns: `Phone`,
  `Additional Phones` and `Email`.
- `tools.py`, `extract_contacts`. It applies two US phone patterns and one e-mail
  pattern with `findall`, canonicalises the phone matches, and returns both lists
  sorted and without repeats.
- `fix_csv.py`, the post-processor. `add_plus1` puts `+1` in front of phone numbers.
  `clean_additional_phones` re-normalises `Additional Phones` and drops the main phone
  from it. `split_emails` splits a comma-separated `Email` into `Email` and
  `Additional Emails`, unless that column already exists.
- `combined.py`, the merge of search results. Rows are grouped by business name. Each
  column takes its first non-missing value, and the phone numbers are joined with `"; "`.

Modules:

| file | module | content |
|---|---|---|
| `strings.dfy` | `Strings` | `digits_only`, Python's `strip`, `split`, `join`, `replace` on `str` |
| `ordering.dfy` | `Ordering` | Python's `<` on `str`, `sorted(set(...))` |
| `cells.dfy` | `Cells` | a frame cell: `Missing` (pandas NaN) or `Text(s)`; `str()` and truthiness |
| `tools.dfy` | `Tools` | the three patterns, `findall`, `extract_contacts` |
| `phone_formats.dfy` | `PhoneFormats` | the phone layouts named in the pattern comments, worked through |
| `crawler.dfy` | `Crawler` | phone and URL helpers, the per-row merge and the loop over rows |
| `fix_csv.dfy` | `FixCsv` | `add_plus1`, `clean_additional_phones`, `split_emails`, the column rules |
| `combined.dfy` | `Combined` | `join_phones`, the group-by-name merge |
| `pipeline.dfy` | `Pipeline` | how the steps compose: enricher output through the fixer, merged cells through the enricher |

The enricher's web access, `fetch_page_text`, is a map from URL to page text. A URL
outside the map fails and gives `""`, as a failed request does.

Three points of the code shape what the model states:

- `verify_phone` (crawler.py:49-62) is a local stub, which the notes at crawler.py:18
  call a placeholder. It accepts any integer with at least ten digits. The
  `phonenumbers`-based `verify_number` in tools.py:10-42 is commented out.
- The enricher keeps only the first extracted e-mail (crawler.py:231-244). It does not
  validate e-mails and does not fill `Additional Emails`.
- `extract_contacts` returns its lists sorted, so `Email` is the smallest address on
  the page, not the first one on the page.

## Model

| member | source | states |
|---|---|---|
| Strings.DigitsOnly | crawler.py:119-121 | the result holds only digits and is no longer than the input |
| Strings.DigitsOnlyOfDigits | crawler.py:119-121 | a string of digits is its own digit string |
| Strings.DigitsOnlyOfNonDigits | crawler.py:119-121 | a string without digits has the empty digit string |
| Strings.DigitsOnlyAppend | crawler.py:119-121 | the digits of a concatenation are the concatenation of the digits |
| Strings.Strip | crawler.py:128 | `str.strip()` returns a slice of its input, and everything cut off at either end is Python whitespace |
| Strings.StripSpec | fix_csv.py:32 | the result has no whitespace at either end, and stripping it again changes nothing |
| Strings.StrippedFixed | fix_csv.py:32 | stripping a stripped string changes nothing |
| Strings.StripKeepsDigits | crawler.py:128 | stripping keeps every digit |
| Strings.RemoveCharKeepsDigits | crawler.py:128 | `replace("-", "")` keeps every digit |
| Strings.RemoveChar | crawler.py:128 | `replace(c, "")` leaves no `c`, and every other character occurs as often as in the input |
| Strings.Split | fix_csv.py:76 | `str.split(sep)` gives at least one piece, and no piece contains the separator |
| Strings.SplitJoin | fix_csv.py:76 | joining the pieces with the separator gives back the original string |
| Strings.JoinSplit | fix_csv.py:79 | stripped pieces without the separator, joined with "sep " and then split and stripped, come back unchanged |
| Ordering.LessTransitive | tools.py:79-82 | Python's string order is transitive |
| Ordering.LessTotal | tools.py:79-82 | two different strings are always ordered one way or the other |
| Ordering.SortUnique | tools.py:79-82 | `sorted(set(xs))` is strictly ascending and holds exactly the members of `xs` |
| Ordering.SortedUnique | tools.py:79-82 | two strictly ascending lists with the same members are equal, so the sorted result does not depend on how it was computed |
| Ordering.SortedList | tools.py:79-82 | sorting a set gives a strictly ascending list of exactly its members |
| Tools.RunEnd | tools.py:58-60 | a greedy run of a character class stops at the first character outside the class |
| Tools.MatchPlusOne | tools.py:58 | a match of the `+1` pattern starts with `+1`, is at least twelve characters long and lies inside the text |
| Tools.MatchSeparated | tools.py:60 | a match of the separated pattern is at least twelve characters long and lies inside the text |
| Tools.MatchEmail | tools.py:53 | an e-mail match does not start with `@`, is at least six characters long and lies inside the text |
| Tools.FindAll | tools.py:64-68 | `findall` returns non-empty matches, no more of them than there are characters left to scan |
| Tools.MatchAt | tools.py:53-60 | a match of any of the three patterns is non-empty and lies inside the text |
| Tools.CanonicalMatch | tools.py:70-76 | a match yields a phone exactly when it holds ten digits, or eleven starting with 1; the phone is `+1` and the last ten digits |
| Tools.CanonicalPhonesAreCanonical | tools.py:75-76 | every collected phone has the E.164 shape `+1` and ten digits |
| Tools.CanonicalPhonesMembers | tools.py:67-76 | a phone is collected exactly when some match canonicalises to it |
| Tools.AddCanonicalMatches | tools.py:69-76 | the inner loop adds to the set exactly the canonical forms of the matches |
| Tools.CollectPhones | tools.py:67-76 | the loop over both patterns collects exactly the canonical forms of all matches |
| Tools.ExtractContacts | tools.py:51-83 | both lists are sorted without repeats; the phones are canonical; the e-mails are exactly the e-mail matches |
| Tools.SamePhoneEverywhere | tools.py:67-80 | when every phone match stands for the same number, that number is the only phone returned |
| Tools.NoSeparatorNoPhone | tools.py:56-61 | text with no `+` and no separator character yields no phone |
| Tools.SeparatedMatchGaps | tools.py:60 | every match of the separated pattern is three digit groups with at least one separator character in each of the two gaps |
| Tools.SeparatedMatchDigits | tools.py:60 | every match of the separated pattern holds exactly ten digits |
| Tools.PlusOneMatchDigits | tools.py:58 | every match of the `+1` pattern holds eleven digits, the first a 1 |
| Tools.EveryPhoneMatchCanonicalises | tools.py:70-76 | the digit-count filter never drops a match |
| Tools.EmailMatchShape | tools.py:53 | an e-mail match has one `@` and ends in `.` and two or more letters |
| Tools.ExtractedEmailsShape | tools.py:53-64 | every e-mail returned has one `@` and ends in `.` and two or more letters |
| PhoneFormats.Dashed | tools.py:59-60 | `ddd-ddd-dddd` alone yields exactly `+1` and its ten digits |
| PhoneFormats.Parenthesised | tools.py:59-60 | `(ddd) ddd-dddd` alone yields exactly `+1` and its ten digits |
| PhoneFormats.International | tools.py:57-60 | `+1 (ddd) ddd-dddd` alone yields exactly `+1` and its ten digits, although the `+1` pattern matches the whole text and the separated pattern its tail |
| PhoneFormats.DashedInternational | tools.py:57-60 | `+1-ddd-ddd-dddd` alone yields exactly `+1` and its ten digits, although both patterns match |
| PhoneFormats.BareDigits | tools.py:59-60 | a text made only of digits yields no phone |
| PhoneFormats.BareNumberInText | tools.py:56-61 | a bare run of at most ten digits inside text that has no other digits, such as `Call 8328107822 now`, yields no phone |
| Crawler.DigitsOnlyIdempotent | crawler.py:119-121 | applying `digits_only` twice changes nothing |
| Crawler.CleanCsvPhoneForSave | crawler.py:124-128 | NaN becomes `""`; otherwise the result has no `-`, is stripped and keeps the input's digits |
| Crawler.Dedupe | crawler.py:131-143 | the result is no longer than the input, and every value kept has a non-empty digit key |
| Crawler.DedupeFromFresh | crawler.py:135-142 | every value kept has a non-empty digit key that was not seen before |
| Crawler.DedupeFromDistinct | crawler.py:139-142 | no digit key is kept twice |
| Crawler.DedupeSpec | crawler.py:131-143 | the result is a subsequence of the input, with non-empty distinct keys; it holds every first occurrence of a key and nothing else |
| Crawler.DedupePreserveOrder | crawler.py:131-143 | the loop returns the value of the function `Dedupe` |
| Crawler.FormatUsPhoneE164 | crawler.py:146-164 | ten digits give `+1` and the digits; eleven starting with 1 give `+` and the digits |
| Crawler.FormatReachable | crawler.py:146-164 | the result is `None` exactly when the digits are neither ten, nor eleven starting with 1 (the `+1` branch is unreachable) |
| Crawler.FormatIsCanonical | crawler.py:146-164 | a result is `+1` and the last ten digits, in E.164 shape |
| Crawler.FormatByKey | crawler.py:146-164 | two values with the same digits format the same |
| Crawler.FormatIdempotent | crawler.py:146-164 | formatting a formatted number gives it back |
| Crawler.FormatKeepsCanonical | crawler.py:146-164 | a canonical number formats to itself |
| Crawler.VerifyPhone | crawler.py:49-62 | `verify_phone(n)` holds exactly when `abs(n)` is at least 10^9, the smallest ten-digit number |
| Crawler.VerifyDigits | crawler.py:217-225 | for a digit string without a leading zero, verification holds exactly when it has at least ten digits |
| Crawler.ParseUrl | crawler.py:85-88 | the parsed location has no `/`, `?` or `#`; the path has no `?` or `#` and is empty or starts with `/` |
| Crawler.NormalizeUrl | crawler.py:67-103 | every URL produced starts with `https://` |
| Crawler.NanWebsite | crawler.py:77-79 | a NaN website gives no URL |
| Crawler.NullWebsite | crawler.py:77-79 | a website that is blank, or reads `nan`, `none` or `null` in any case once stripped, gives no URL |
| Crawler.WithWwwNotBare | crawler.py:98-100 | a host completed with `www.` is no longer a bare domain |
| Crawler.NormalizeUrlShape | crawler.py:67-103 | every URL produced is `https://`, a non-empty host that is not a bare `domain.tld`, and a path starting with `/`, with no query or fragment |
| Crawler.NormalizeWebsite | crawler.py:67-103 | for a website made of an optional scheme, a host, a path and an optional query or fragment, with no whitespace: the result is `https://`, the host with `www.` if it is bare, and the path or `/` |
| Crawler.Accepted | crawler.py:216-229 | a candidate is kept exactly when its digits are non-empty, pass `verify_phone` and `format_us_phone_e164` gives a value; what is kept is that value, which is canonical |
| Crawler.FilterPhones | crawler.py:214-229 | every phone that survives the filter is canonical |
| Crawler.MergeRow | crawler.py:186-244 | `Phone` is empty or a canonical number, `Additional Phones` is empty when `Phone` is, and `Email` is empty exactly when no e-mail was found or the first is empty |
| Crawler.MergeRowColumns | crawler.py:231-241 | the two phone columns give back exactly the filtered phones in order, all canonical; an empty `Phone` means empty `Additional Phones` |
| Crawler.ColumnsOf | crawler.py:231-241 | splitting canonical phones into `Phone` and `Additional Phones` loses nothing |
| Crawler.CsvPhoneFirst | crawler.py:188-194 | an accepted CSV phone always ends up in `Phone` |
| Crawler.NoWebsiteOnlyCsvPhone | crawler.py:196-211 | without a usable website, `Phone` is the accepted CSV phone or empty, and the other two columns are empty |
| Crawler.EmailIsSmallestFound | crawler.py:243-244 | `Email` is the smallest e-mail on the fetched page, or empty |
| Crawler.UnacceptedCsvPhoneIgnored | crawler.py:188-229 | a CSV phone that is not accepted, and whose key no page phone shares, changes nothing |
| Crawler.PhoneReappears | crawler.py:131-143 | a ten-digit CSV phone and the same number found on the page as `+1…` have different keys, so both are kept and the number shows in both `Phone` and `Additional Phones` |
| Crawler.TwoKept | crawler.py:131-143 | two values with different non-empty keys both survive de-duplication |
| Crawler.TwoAccepted | crawler.py:214-229 | two accepted candidates are both kept, in order |
| Crawler.CheckPhone | crawler.py:217-229 | one candidate yields at most one phone; it yields one exactly when its digits are non-empty, pass `verify_phone` and `format_us_phone_e164` gives a value, and that phone is the formatted value, which is canonical |
| Crawler.FilterCandidates | crawler.py:214-229 | the filtering loop computes the filter of the de-duplicated candidates |
| Crawler.EnrichRow | crawler.py:186-244 | a row's `Phone` is empty or canonical, `Additional Phones` is empty when `Phone` is, and `Email` is empty when the website gives no page |
| Crawler.EnrichAllIndex | crawler.py:186-244 | output row `i` is the enrichment of input row `i` |
| Crawler.EnrichRows | crawler.py:186-244 | the loop over the rows fills three columns as long as the input, and row by row they are the enrichment of that row |
| Crawler.EnrichOne | crawler.py:187-244 | one pass of the row loop gives the specified enrichment of the row |
| Crawler.FetchContacts | crawler.py:196-211 | both lists are strictly ascending and every phone is canonical; a website that gives no URL yields neither phones nor e-mails |
| Crawler.FillColumns | crawler.py:231-244 | for canonical phones, `Phone` and `Additional Phones` read back give exactly the phones, in order, and `Phone` is empty only when there are none; `Email` is the first e-mail or empty |
| FixCsv.AddPlus1 | fix_csv.py:28-40 | the result is stripped; NaN and `""` give `""` |
| FixCsv.AddPlus1Cases | fix_csv.py:28-40 | all four branches: ten digits give `+1` and the digits, eleven starting with 1 give `+` and the digits, a leading `+` or any other digit count gives the stripped value |
| FixCsv.AddPlus1Canonical | fix_csv.py:28-40 | a canonical number is left as it is |
| FixCsv.AddPlus1Idempotent | fix_csv.py:28-40 | applying `add_plus1` to its own result changes nothing |
| FixCsv.KeepOthers | fix_csv.py:77 | the kept phones are no more than the input, and none is empty or the main phone |
| FixCsv.KeepOthersSpec | fix_csv.py:77 | the filter keeps, in order, every non-empty phone different from the main phone, as often as it occurs, and nothing else |
| FixCsv.CleanAdditionalPhones | fix_csv.py:68-79 | an empty or `nan` cell gives `""` |
| FixCsv.CleanAdditionalEntries | fix_csv.py:68-79 | the result is `""` exactly when no phone is kept; otherwise splitting it on `,` and stripping gives back exactly the kept phones |
| FixCsv.CleanAdditionalIdempotent | fix_csv.py:68-79 | cleaning the cleaned cell again gives it back, unless the cleaned cell is the text `nan`, which a second pass empties (fix_csv.py:71) |
| FixCsv.MainOnlyCleared | fix_csv.py:77 | an additional-phones cell holding only the main phone is emptied |
| FixCsv.SplitEmails | fix_csv.py:86-97 | NaN or `""` give two empty cells; an empty first e-mail means empty additional e-mails |
| FixCsv.SplitEmailsRejoin | fix_csv.py:86-97 | the first cell is the first non-blank entry; the second is empty exactly when there is at most one, and otherwise splits back into the remaining entries |
| FixCsv.NonBlankStripped | fix_csv.py:91 | the entries are no more than the pieces, and none is empty |
| FixCsv.NonBlankSpec | fix_csv.py:91 | the entries are the stripped pieces in order, with the blank ones removed and every other one kept as often as it occurs |
| FixCsv.FixSheet | fix_csv.py:62-106 | columns keep their length; an existing `Additional Emails` column leaves both e-mail columns untouched; otherwise an `Email` column gains `Additional Emails`; without `Phone` neither phone column changes |
| FixCsv.FixSheetTwice | fix_csv.py:62-106 | a second run leaves `Phone` and both e-mail columns as the first run left them |
| Combined.NonBlank | combined.py:191-192 | no more values than cells, and none of them empty |
| Combined.NonBlankSnoc | combined.py:191-192 | the values follow the order of the cells: a cell added at the end adds its stripped text at the end |
| Combined.NonBlankMembers | combined.py:191-192 | a value survives exactly when it is a non-missing cell's non-empty stripped text |
| Combined.UniqueFrom | combined.py:192 | `unique()` returns no more values than it is given |
| Combined.UniqueFromMembers | combined.py:192 | `unique()` keeps exactly the values not seen before, without repeats |
| Combined.UniqueSnoc | combined.py:192 | appending a value already present changes nothing, and a new value is appended at the end |
| Combined.JoinPhones | combined.py:190-193 | a joined value is never empty |
| Combined.JoinPhonesNone | combined.py:190-193 | the result is `None` exactly when every cell is NaN or blank |
| Combined.JoinPhonesEntries | combined.py:190-193 | when no cell holds `;`, splitting the joined value on `;` and stripping gives back exactly `unique()` of the non-blank stripped values: each non-blank value once, none twice, in first-seen order |
| Combined.DifferentSpellingsKept | combined.py:190-193 | two phones whose stripped texts differ are both kept, stripped, in order, joined by `"; "` |
| Combined.First | combined.py:196-202 | `first` is missing exactly when every cell of the group is missing |
| Combined.FirstIsEarliest | combined.py:196-202 | `first` is the value of the earliest non-missing cell |
| Combined.Names | combined.py:195 | the group keys are exactly the non-missing names |
| Combined.MergeGroup | combined.py:195-203 | the merged row carries the group name; its phone is missing exactly when every phone of the group is NaN or blank; its website is missing exactly when every website is |
| Combined.GroupByName | combined.py:195-203 | as many merged rows as there are distinct non-missing names |
| Combined.GroupByNameRows | combined.py:195-203 | one row per distinct name, in ascending order; each row merges the non-empty group of rows carrying its name |
| Pipeline.MergedCellIgnored | combined.py:190-193 | two phones of one name with different stripped texts and ten digits or more each, as the scraper wrote them, are joined into one cell of twenty digits or more; `format_us_phone_e164` rejects it (`verify_phone` accepts it when the first digit is not 0), and the enriched row comes out as if the CSV phone were NaN |
| Pipeline.ReappearingPhoneRemoved | fix_csv.py:68-79 | the duplicate that the enricher leaves in `Additional Phones` is removed by the fixer |
| Pipeline.AddPlus1MatchesFormat | fix_csv.py:28-40 | without a leading `+`, `add_plus1` agrees with the enricher's E.164 formatting where that one gives a value, and otherwise leaves the stripped value |
| Pipeline.FixKeepsEnrichedPhone | fix_csv.py:62-63 | the fixer leaves the enricher's `Phone` as it is |

## Left out

- Network I/O: `fetch_page_text` is a map from URL to page text. HTTP status codes,
  time-outs, headers and encodings are not modelled.
- Reading and writing CSV files, folder scanning, printing and the pandas plumbing.
  Columns are sequences of cells and a row is the cells the logic reads.
- Non-string cells. A number column that pandas reads as floats (for example
  `8328107822.0`) is not modelled; every non-missing cell is text.
- Pipeline.FixKeepsEnrichedPhone: holds only when fix_csv.py reads `Phone` back as text.
  With the default type inference of `pd.read_csv` (fix_csv.py:57), a column of `+1…`
  numbers can come back as numbers, and as floats such as `18328107822.0` when a cell is
  empty; `add_plus1` then rewrites them.
- Pipeline.ReappearingPhoneRemoved: holds only when fix_csv.py reads `Phone` back as
  text. A `Phone` read as a float no longer equals the `+1…` entry of
  `Additional Phones`, so the duplicate stays.
- FixCsv.FixSheetTwice: holds only when the fixed file is read back as text; the same
  type inference applies to the second run.
- Unicode classes. `\d`, `\s`, `\b` and the letters of the e-mail pattern are ASCII, with
  Python's full whitespace set for `\s` and `strip`. Unicode digits, and the case-folded
  letters that `re.IGNORECASE` adds, are not modelled.
- The regular-expression engine is replaced by hand-written matchers for the three
  patterns. They find the match Python's engine finds, because none of the patterns
  needs backtracking beyond what the matchers do.
- `urlparse` is reduced to what `normalize_url` reads. Ports, user info, IPv6 brackets,
  and the error `urlparse` raises for some malformed locations are not modelled.
- `normalize_url(None)` is not modelled on its own. A frame cell is never Python `None`,
  and NaN reaches the same `None` through the text `"nan"`.
- The `except` branches of `verify_phone` and of `int(d)` in the row loop are reachable
  only for cells over 4300 digits, where Python 3.11 and later refuse `int()`. The result
  is the same: such a candidate is dropped, and the model drops it because
  `format_us_phone_e164` gives nothing for it.
- Crawler.NormalizeWebsite: stated only for websites without whitespace and with
  the host, path, query layout spelled out. `NormalizeUrlShape` covers every input.
- The other columns of `combined.py` (address, website, reviews, coordinates) are opaque
  cells merged by `first`. Their numeric types are not modelled.
- The pandas group-by is modelled with its defaults: NaN names are dropped and the keys
  are sorted.
- Playwright scraping, the orchestration in the scripts' `main` functions, and
  `main.py` are not part of this model.
