# Paginated transaction pipeline, modelled in Dafny

This project models the data pipeline of `EDA/pandas_API/deploy_script.py`.
A table of transactions (id, country, status, amount) goes through these steps:

1. The table is split into pages of `rows_page` rows.
2. Each page is written as CSV text.
3. The UTF-8 bytes of that text are base64-encoded into a JSON envelope of
   entries `{page_number, next_page, csv_data}` (`csv2json`).
4. The envelope is read back entry by entry (`decode_csv_from_api`,
   `read_from_api`). The reader stops right after the first entry whose
   `next_page` is falsy or missing.
5. The decoded table is cleaned:
   - the alias "United States of America" becomes "USA";
   - countries and statuses are corrected against fixed vocabularies with
     `difflib.get_close_matches` (`fix_word`).
6. The table is aggregated per country into a report with these columns:
   - mean pending amount;
   - total completed amount;
   - error rate;
   - rate of critical failures (amount above 1000000).

Modules, one per file:

- `Common` (`common.dfy`): option, result, failures, bytes, and `Concat` (pandas' `concat`).
- `Pagination` (`pagination.dfy`): the page count and the slicing loop, as a method.
- `Csv` (`csv.dfy`): the CSV text of a page and its parser, with round-trip lemmas.
- `Utf8` (`utf8.dfy`): a strict UTF-8 encoder and decoder, with their round trip.
- `Base64` (`base64.dfy`): base64 with the standard alphabet and padding of section 4 of RFC 4648, with its round trip.
- `Envelope` (`envelope.dfy`): covers the envelope in both directions.
  - The writer (`Csv2Json`) and the reader (`ReadFromApi`) are methods with loops.
  - Each method is proved equal to a specification function (`EnvelopeOf`, `Read`).
  - Lemmas prove the round trip and the truncation caused by a wrongly flagged entry.
- `FuzzyMatch` (`fuzzy.dfy`): `fix_word`.
  - The similarity score is a function parameter, required only to lie in [0, 1] and to be 1 exactly on identical strings.
- `Report` (`report.dfy`): the cleaning, the per-country series and the assembly of the report.
- `Pipeline` (`pipeline.dfy`): the steps of `main` composed.

Where the code differs from the documented intent, the model follows the code:

- **Tie-breaking.** `get_close_matches` keeps the largest `(score, option)` pair. Among options with equal scores, the greatest string wins, not the first one in the vocabulary (`FuzzyMatch.Outranks`).
- **Assembly of the report.** The final `pd.DataFrame` places the series side by side by position.
  - It raises when their lengths differ. This happens whenever some country of the table has no pending record or no completed record.
  - The model returns `AggregationInconsistency` in exactly that case (`Report.AggregateSucceedsIff`).
  - For example, in the four-record sample of `Report.SampleTable` the per-series values are as expected, but the report fails (`Report.SampleReportFails`).
- **Undefined error rate.** `error_rate` is not filled, so a country without failed records has no error rate (`None`). `critical_rate` is filled with 0.
- **Empty table.** An empty table yields no page. `pd.concat([])` then raises (`NothingToConcatenate`).
- **Critical threshold.** The threshold is 1000000, the value in the code. A comment in the source says 10000.

One exception concerns text the writer never produces. There the CSV reader and the base64 decoder are stricter than pandas and Python: they fail where the source reads on. "Left out" lists these cases.

## Model

| member | source | states |
|---|---|---|
| Common.Concat | EDA/pandas_API/deploy_script.py:126 | an element is in the concatenation exactly when it is in one of the parts |
| Pagination.TotalPages | EDA/pandas_API/deploy_script.py:140-143 | the page count n is the ceiling of rows / rows_page: (n-1)·rows_page < rows ≤ n·rows_page |
| Pagination.Paginate | EDA/pandas_API/deploy_script.py:161-163 | fails exactly when the page size is 0; otherwise the pages concatenate to the table, every page has 1..rows_page rows, all but the last are full, and their number is TotalPages |
| Pagination.PaginationCount | EDA/pandas_API/deploy_script.py:140-143 | any such pagination has exactly the ceiling number of pages computed by `main` |
| Pagination.CeilingUnique | EDA/pandas_API/deploy_script.py:140-143 | the ceiling bound determines the page count uniquely |
| Csv.Split | EDA/pandas_API/deploy_script.py:94 | splitting a line yields at least one part and no part holds the separator |
| Csv.SplitJoin | EDA/pandas_API/deploy_script.py:94 | splitting the joined parts gives the parts back when no part holds the separator |
| Csv.JoinSplit | EDA/pandas_API/deploy_script.py:94 | joining the split parts gives back the original text |
| Csv.NatToDecimal | EDA/pandas_API/deploy_script.py:50 | the written number is non-empty and made of decimal digits only |
| Csv.PageText | EDA/pandas_API/deploy_script.py:50 | defined as the header line, one line per record and a final newline; `Csv.PageTextShape` proves it opens with the header and ends with a newline, `Csv.PageRoundTrip` that it reads back as the page |
| Csv.PageTextShape | EDA/pandas_API/deploy_script.py:50 | the CSV text of any page, even an empty one, starts with the header line and a newline and ends with a newline |
| Csv.DecimalRoundTrip | EDA/pandas_API/deploy_script.py:94 | reading back a written number gives the number |
| Csv.ParseRow | EDA/pandas_API/deploy_script.py:94 | a data line fails only with a parse error, and a record read from it has no comma in its text fields |
| Csv.ParseRows | EDA/pandas_API/deploy_script.py:94 | the data lines read successfully exactly when every line does, giving one record per line in order; otherwise a parse error |
| Csv.ParsePage | EDA/pandas_API/deploy_script.py:94 | any failure to read a page's CSV text is a parse error |
| Csv.ConvertedFieldsAreNotPlain | EDA/pandas_API/deploy_script.py:94 | the empty field, the missing-value markers, the booleans, numbers and text holding a quote are not plain text fields |
| Csv.RowRoundTrip | EDA/pandas_API/deploy_script.py:50 | a record written as a CSV line reads back as the same record |
| Csv.RowsRoundTrip | EDA/pandas_API/deploy_script.py:94 | the data lines of a page read back as its records, in order |
| Csv.PageRoundTrip | EDA/pandas_API/deploy_script.py:50 | the CSV text written for a page (header, rows, final newline) parses back to the page |
| Utf8.EncodeChar | EDA/pandas_API/deploy_script.py:50 | a character takes 1 to 4 bytes, one exactly when it is ASCII, and the bytes after the first are continuation bytes |
| Utf8.Encode | EDA/pandas_API/deploy_script.py:50 | a text of n characters has between n and 4n UTF-8 bytes |
| Utf8.DecodeFirstOfEncodeChar | EDA/pandas_API/deploy_script.py:92 | the decoder reads back exactly the bytes written for one character, whatever follows |
| Utf8.Decode | EDA/pandas_API/deploy_script.py:92 | decoded text has between a quarter of the byte count and the byte count in characters; its meaning is `Utf8.RoundTrip` |
| Utf8.RoundTrip | EDA/pandas_API/deploy_script.py:92 | decoding the UTF-8 bytes of a text gives the text |
| Utf8.AsciiIsOneBytePerChar | EDA/pandas_API/deploy_script.py:50 | an ASCII text is its own encoding, byte for character |
| Base64.AlphabetRoundTrip | EDA/pandas_API/deploy_script.py:57 | the alphabet maps each 6-bit value to a character that maps back to it |
| Base64.Encode | EDA/pandas_API/deploy_script.py:57 | the text has 4 characters per started group of 3 bytes, all from the alphabet or the padding |
| Base64.DecodeEncodeTriple | EDA/pandas_API/deploy_script.py:90 | four characters written for three bytes decode to those bytes |
| Base64.DecodeEncodeTail | EDA/pandas_API/deploy_script.py:90 | the padded last group decodes to its one or two bytes |
| Base64.Decode | EDA/pandas_API/deploy_script.py:90 | defined group by group of four characters, failing on a short or malformed group; `Base64.DecodeLength` bounds its output and `Base64.RoundTrip` proves it inverts `Base64.Encode` |
| Base64.DecodeLength | EDA/pandas_API/deploy_script.py:90 | decoded text of 4g characters gives between 3g-2 and 3g bytes |
| Base64.RoundTrip | EDA/pandas_API/deploy_script.py:90 | decoding the base64 text of some bytes gives the bytes back |
| Envelope.EnvelopeOf | EDA/pandas_API/deploy_script.py:47-73 | one entry per page; entry i has page number i+1; only the last entry has a falsy next_page; csv_data is the page's encoding |
| Envelope.EncodePage | EDA/pandas_API/deploy_script.py:57 | defined as base64 of the UTF-8 bytes of the page's CSV text; `Envelope.EncodePageIsBase64Text` and `Envelope.DecodeEncodedPage` give its meaning |
| Envelope.EncodePageIsBase64Text | EDA/pandas_API/deploy_script.py:57 | csv_data is non-empty base64 text: whole groups of four characters of the alphabet or the padding |
| Envelope.AsciiPagePayload | EDA/pandas_API/deploy_script.py:50-57 | for a page whose CSV text is ASCII, the bytes under the base64 are its characters one for one, so csv_data has 4 characters per started group of 3 CSV characters |
| Envelope.Csv2Json | EDA/pandas_API/deploy_script.py:45-73 | the writer loop builds exactly EnvelopeOf(pages) |
| Envelope.DecodeEntry | EDA/pandas_API/deploy_script.py:90-96 | an entry without csv_data fails as malformed, and only such an entry does |
| Envelope.DecodeEncodedPage | EDA/pandas_API/deploy_script.py:90-94 | the csv_data written for a plain page decodes to the page |
| Envelope.DecodeEntries | EDA/pandas_API/deploy_script.py:114-118 | a successful decoding yields one page per entry |
| Envelope.DecodeNextEntry | EDA/pandas_API/deploy_script.py:116-118 | one more entry appends its page, or fails with that entry's error |
| Envelope.DecodeEntriesFailureSticks | EDA/pandas_API/deploy_script.py:114-118 | once an entry fails, every longer prefix fails with the same error |
| Envelope.DecodeEntriesAllOk | EDA/pandas_API/deploy_script.py:114-118 | entries that each decode give their pages in order |
| Envelope.Consumed | EDA/pandas_API/deploy_script.py:114-123 | the loop consumes the entries up to and including the first one without a next page, or all of them |
| Envelope.HasNext | EDA/pandas_API/deploy_script.py:121-122 | a missing next_page and a next_page of 0 are falsy (any other value continues the loop, `Envelope.ConsumedUpToFirstLast`) |
| Envelope.ConsumedUpToFirstLast | EDA/pandas_API/deploy_script.py:121-123 | the first entry with a falsy next_page is the last one consumed |
| Envelope.ConsumedAll | EDA/pandas_API/deploy_script.py:114-123 | when every entry has a next page, all entries are consumed |
| Envelope.ReadFailsAt | EDA/pandas_API/deploy_script.py:114-118 | when every earlier entry announces a next page and decodes, an entry that does not decode makes the whole read fail with its error |
| Envelope.ReadStep | EDA/pandas_API/deploy_script.py:121-123 | after an entry the loop either continues, every entry so far having a next page, or stops at a falsy next_page having consumed all it consumes |
| Envelope.Read | EDA/pandas_API/deploy_script.py:114-126 | an empty page list fails with nothing to concatenate, and a successful read consumed at least one entry; `Envelope.ReadFromApi`, `Envelope.ReadIgnoresRest` and `Envelope.EnvelopeRoundTrip` state the rest |
| Envelope.ReadEnd | EDA/pandas_API/deploy_script.py:126 | after the loop, the concatenation of the frames (or the empty-concat failure) is the read result |
| Envelope.ReadFromApi | EDA/pandas_API/deploy_script.py:112-128 | the reader loop with its early break returns exactly Read(envelope) |
| Envelope.ReadIgnoresRest | EDA/pandas_API/deploy_script.py:121-123 | whatever follows the first entry without a next page is ignored, even entries that would not decode |
| Envelope.DecodeWrittenEntries | EDA/pandas_API/deploy_script.py:57 | every written entry decodes to its own page |
| Envelope.EnvelopeRoundTrip | EDA/pandas_API/deploy_script.py:114-126 | reading the envelope written for non-empty plain pages gives their concatenation |
| Envelope.PlainPagesOfTable | EDA/pandas_API/deploy_script.py:161-163 | the pages of a table of plain records hold only plain records |
| Envelope.TableRoundTrip | EDA/pandas_API/deploy_script.py:114-126 | paginating, writing and reading a plain table gives the table back; an empty table fails with nothing to concatenate |
| Envelope.Misflagged | EDA/pandas_API/deploy_script.py:121-122 | setting one entry's next_page to 0 keeps the length and makes that entry falsy |
| Envelope.MisflaggedSplits | EDA/pandas_API/deploy_script.py:63-66 | the written envelope with entry j flagged last is the envelope of the first j+1 pages followed by the rest |
| Envelope.StrictPrefixOfPages | EDA/pandas_API/deploy_script.py:126 | the rows of the first pages form a strict prefix of the table when every page is non-empty |
| Envelope.MisflaggedReadsPrefix | EDA/pandas_API/deploy_script.py:114-123 | with entry j flagged as the last, the read returns exactly the first j+1 pages concatenated |
| Envelope.MisflaggedEntryTruncates | EDA/pandas_API/deploy_script.py:120-126 | a middle entry flagged 0 makes the reader return only the rows up to that page: a strict prefix of the table |
| FuzzyMatch.StrLessIrreflexive | EDA/pandas_API/deploy_script.py:30 | no string is smaller than itself in Python's string order |
| FuzzyMatch.StrLessTotal | EDA/pandas_API/deploy_script.py:30 | any two distinct strings are ordered |
| FuzzyMatch.StrLessTransitive | EDA/pandas_API/deploy_script.py:30 | the string order is transitive |
| FuzzyMatch.Outranks | EDA/pandas_API/deploy_script.py:30 | an option never outranks itself |
| FuzzyMatch.OutranksStrictTotal | EDA/pandas_API/deploy_script.py:30 | of two distinct options exactly one outranks the other, so the `(score, option)` order picks a unique best |
| FuzzyMatch.OutranksTransitive | EDA/pandas_API/deploy_script.py:30 | the (score, option) ranking is transitive |
| FuzzyMatch.CloseMatches | EDA/pandas_API/deploy_script.py:30 | the close matches are exactly the options scoring at least the cutoff 0.7 |
| FuzzyMatch.Best | EDA/pandas_API/deploy_script.py:30 | the chosen match is one of the candidates |
| FuzzyMatch.BestIsMaximal | EDA/pandas_API/deploy_script.py:30 | no candidate outranks the chosen match |
| FuzzyMatch.FixWord | EDA/pandas_API/deploy_script.py:30-34 | the result is the word itself or one of the options |
| FuzzyMatch.FixWordChoosesBestMatch | EDA/pandas_API/deploy_script.py:30-32 | when some option reaches the cutoff, the result is an option that reaches it and that no such option outranks |
| FuzzyMatch.FixWordFallsBack | EDA/pandas_API/deploy_script.py:33-34 | when no option reaches the cutoff, the word comes back unchanged |
| FuzzyMatch.FixWordUniqueBest | EDA/pandas_API/deploy_script.py:30-32 | an option that reaches the cutoff and scores strictly above every other option is the result |
| FuzzyMatch.FixWordKeepsOption | EDA/pandas_API/deploy_script.py:30-32 | a word of the vocabulary is returned unchanged |
| FuzzyMatch.FixWordIdempotent | EDA/pandas_API/deploy_script.py:30-34 | correcting a corrected word changes nothing |
| Report.ReplaceAlias | EDA/pandas_API/deploy_script.py:175 | the long alias becomes "USA", and any other value is kept |
| Report.CleanTransaction | EDA/pandas_API/deploy_script.py:175-182 | id and amount are kept; country and status end up in their vocabularies or keep their (alias-replaced) value |
| Report.CleanTable | EDA/pandas_API/deploy_script.py:181-182 | cleaning keeps the number and order of the records and cleans each one |
| Report.CleanKeepsCorrectRecord | EDA/pandas_API/deploy_script.py:177-182 | a record whose country and status are in the vocabularies is unchanged |
| Report.CleanReplacesAlias | EDA/pandas_API/deploy_script.py:175 | "United States of America" ends up as "USA" |
| Report.CleanTransactionIdempotent | EDA/pandas_API/deploy_script.py:175-182 | cleaning a cleaned record changes nothing |
| Report.CleanTableIdempotent | EDA/pandas_API/deploy_script.py:175-182 | cleaning a cleaned table changes nothing |
| Report.InCountry | EDA/pandas_API/deploy_script.py:190 | a country's group holds exactly the table's records of that country |
| Report.WithStatus | EDA/pandas_API/deploy_script.py:185 | the status filter keeps exactly the records with that status |
| Report.GroupSize | EDA/pandas_API/deploy_script.py:190 | a country of the table has a non-empty group, whose size is the number of its records |
| Report.AverageOutstanding | EDA/pandas_API/deploy_script.py:185 | the mean pending amount is not negative (`Report.AverageBounded` places it between the least and greatest pending amount) |
| Report.TotalCompleted | EDA/pandas_API/deploy_script.py:187 | the completed total is not negative, and 0 for a country without completed records |
| Report.ErrorRate | EDA/pandas_API/deploy_script.py:190 | the error rate is missing exactly when the country has no failed record, and otherwise lies in (0, 1] |
| Report.CriticalRate | EDA/pandas_API/deploy_script.py:192-194 | the critical rate lies in [0, 1] and is 0 exactly when the country has no critical failure (the NaN filled with 0) |
| Report.CriticalFailures | EDA/pandas_API/deploy_script.py:192 | the critical filter keeps exactly the failed records above 1000000 |
| Report.InCountryCounts | EDA/pandas_API/deploy_script.py:190 | a country's group holds each of the country's records as many times as the table does, and nothing else |
| Report.WithStatusCounts | EDA/pandas_API/deploy_script.py:185 | the status filter keeps each record with that status as many times as the table holds it, and nothing else |
| Report.CriticalFailuresCounts | EDA/pandas_API/deploy_script.py:192 | the critical filter keeps each critical failure as many times as the table holds it, and nothing else |
| Report.CountriesOfSubset | EDA/pandas_API/deploy_script.py:198 | the countries of a status filter are among the table's countries |
| Report.SubsetOfSameSize | EDA/pandas_API/deploy_script.py:197-203 | index sets of equal length, one inside the other, are equal |
| Report.Aggregate | EDA/pandas_API/deploy_script.py:197-203 | assembling the report can fail only with an inconsistency between the series |
| Report.AggregateSucceedsIff | EDA/pandas_API/deploy_script.py:197-203 | the report is assembled exactly when every country of the table has a pending and a completed record, which is when the positional placement is correct by country |
| Report.AggregateRows | EDA/pandas_API/deploy_script.py:197-203 | the report's rows are exactly the countries with a pending record, each holding that country's four series values |
| Report.CriticalWithinFailed | EDA/pandas_API/deploy_script.py:192 | a group has no more critical failures than failures |
| Report.RatioBounds | EDA/pandas_API/deploy_script.py:190-192 | counts of a group over the group size lie in [0, 1] in the order of the counts |
| Report.RatesBounded | EDA/pandas_API/deploy_script.py:190-194 | the critical rate lies in [0, 1] and never exceeds the error rate; an error rate that exists lies in (0, 1]; without one the critical rate is 0 |
| Report.SumBounds | EDA/pandas_API/deploy_script.py:185-187 | amounts between lo and hi have a total between count·lo and count·hi |
| Report.MeanBounds | EDA/pandas_API/deploy_script.py:185 | such a total has its mean between lo and hi |
| Report.AverageBounded | EDA/pandas_API/deploy_script.py:185 | the mean pending amount lies between the least and the greatest pending amount of the country |
| Report.InCountryAppend | EDA/pandas_API/deploy_script.py:190 | grouping distributes over concatenating tables |
| Report.WithStatusAppend | EDA/pandas_API/deploy_script.py:187 | filtering distributes over concatenating tables |
| Report.SumAmountsAppend | EDA/pandas_API/deploy_script.py:187 | the total of concatenated tables is the sum of the totals |
| Report.TotalCompletedSplits | EDA/pandas_API/deploy_script.py:187 | the completed total of a table is the sum of the totals of its parts, whatever the pagination |
| Report.SampleSpanishRecords | EDA/pandas_API/deploy_script.py:190 | in the sample, Spain groups the first three records |
| Report.SampleAmericanRecords | EDA/pandas_API/deploy_script.py:190 | in the sample, USA groups the last record |
| Report.SampleCountries | EDA/pandas_API/deploy_script.py:190 | the sample's countries are Spain and USA |
| Report.SamplePendingCountries | EDA/pandas_API/deploy_script.py:185 | only Spain has a pending record in the sample |
| Report.SampleSpanishGroup | EDA/pandas_API/deploy_script.py:185-192 | the Spanish group has one pending, one completed and one failed record, none critical |
| Report.SampleAverageOutstanding | EDA/pandas_API/deploy_script.py:185 | the sample's mean pending amount for Spain is 100 |
| Report.SampleTotalCompleted | EDA/pandas_API/deploy_script.py:187 | the sample's completed total for Spain is 200 |
| Report.SampleErrorRate | EDA/pandas_API/deploy_script.py:190 | the sample's error rate for Spain is 1/3 |
| Report.SampleSpanishCriticalRate | EDA/pandas_API/deploy_script.py:192-194 | the sample's critical rate for Spain is 0 |
| Report.SampleAmericanCriticalRate | EDA/pandas_API/deploy_script.py:192-194 | the sample's critical rate for USA is 1 |
| Report.SampleReportFails | EDA/pandas_API/deploy_script.py:197-203 | assembling the sample's report raises, because USA has no pending and no completed record |
| Pipeline.Run | EDA/pandas_API/deploy_script.py:161-203 | for a table of plain records, the pipeline's result is the report of the cleaned input table; for an empty table it is the empty-concat failure |

## Left out

- Command line, entry point and output sinks. `__main__`, argument parsing, and the local/s3/pg branches only parse arguments and print.
- Synthetic data. The random columns, the probability tables and the fixed 50000 rows are replaced by a table given as input to `Pipeline.Run`.
- Files and JSON.
  - The per-page CSV files are not modelled: the bytes are kept in memory.
  - The JSON dump and load are not modelled: the envelope is a sequence of `PageEntry` values, and a missing key is `None`.
  - The unused `pd.read_json` is not modelled.
  - The consequence: `Envelope.ReadFromApi` starts from the loaded entries.
- Timing with `time.time()`: no behaviour depends on it.
- difflib internals. The similarity score of `SequenceMatcher.ratio` is a parameter.
  - Only its range and its value on identical strings are used.
  - `real_quick_ratio` and `quick_ratio` are upper bounds of `ratio`, so the pre-filters of `get_close_matches` cannot change its result. They are not modelled.
- Floating point. Amounts are whole numbers (`nat`), and the means and rates are exact reals. The source's amounts are floats, and its divisions round.
- CSV quoting and type inference.
  - The CSV text is a fixed four-column table with no quoting. `Csv.PageText` writes a field holding `"` or `\r` unquoted, where `to_csv` quotes it.
  - `read_csv` turns the empty field and its default missing-value markers (`NA`, `NaN`, `null`, `None`, `n/a` and others) into NaN, reads `True`/`False` as booleans, and infers numbers in text columns. `Csv.ParsePage` keeps all of these as text. In the source, such a NaN or number then makes `fix_word` raise a TypeError inside difflib; the model does not capture that failure.
  - Round trips (`Envelope.TableRoundTrip`, `Pipeline.Run`) are therefore proved only for plain records (`Csv.PlainField`): text fields that start with a letter, hold no comma, newline, carriage return or quote, and are none of the converted words in any case. The dataset's vocabulary words and the alias all qualify.
  - A number pandas would infer as a float is not modelled.
- Strict CSV reading. `Csv.ParsePage` fails with `ParseError` on a header other than `id,country,status,amount` and on a non-decimal id or amount, where `read_csv` returns a frame with other columns or text columns.
  - A row with fewer than four fields: `read_csv` fills the missing fields with NaN; `Csv.ParseRow` fails.
  - A row with more than four fields: `read_csv` raises `ParserError` ("Expected 4 fields in line N, saw M"), and `Csv.ParseRow` agrees by failing with `ParseError`. The one exception is a first data row with exactly one extra field, which pandas reads as an implicit index column; the model fails there too.
  - The writer never produces any of this text.
- Base64 leniency.
  - `base64.b64decode` silently drops characters outside the alphabet. `Base64.Decode` rejects them.
  - `base64.b64decode` stops at the first complete padded group and ignores what follows (`QQ==QUJD` gives `A`). `Base64.Decode` rejects such text. The encoder never produces it.
- Row order of the report. The report is a map from country to row. The source's rows come sorted by country, the groupby index order.
- `Envelope.DecodeEntries`: its contract gives only the number of pages. What each page is comes from `Envelope.DecodeNextEntry` and `Envelope.DecodeEntriesAllOk`.
- `Envelope.TableRoundTrip`, `Envelope.EnvelopeRoundTrip`, `Pipeline.Run`: they state the round trip only for plain records, for the quoting reason above.
