# PubMed search and PMC id mapping, modelled in Dafny

Two small command-line programs make up this repository.

- `pubmed_search.py` searches PubMed for papers whose affiliation matches any
  one of a list of institution name variants, optionally within a
  publication-date range, and writes the returned PubMed ids to a file.
- `pmcid_mapper.py` reads a file of PubMed ids, one per line, and maps each
  to its PubMed Central id using NCBI's id converter service. The ids are
  sent in slices of at most 200, one converter call per slice. It reports
  how many ids it found and how many are missing.

This model covers the sequential logic of both programs. The two remote
services are oracles, passed in as function parameters.

- `PyRuntime` (`py_runtime.dfy`) holds the Python behaviour both programs
  depend on:
  - optional values;
  - JSON scalars with Python truthiness and `str()`, including decimal
    rendering of ints;
  - `str.strip` over Python's whitespace set;
  - universal-newline translation;
  - the lines that `for line in f` yields;
  - `Concat`, the flattening of a list of lists, used for both the lines
    and the batch results.
- `PmcidMapper` (`pmcid_mapper.dfy`) holds the mapper:
  - the batches;
  - the record correlation rule;
  - the per-batch contributions;
  - the `get_pmcids` batch loop, as a method with loop invariants, proved
    equal to a specification function;
  - a ghost trace of the converter calls and the rate-limit pauses;
  - the input-line filter and the found/missing summary of `main`.
- `PubmedSearch` (`pubmed_search.dfy`) holds the searcher:
  - the search term, with a proof of the layout of `' OR '.join`;
  - the credential pre-check and the single search request, with the reply
    read as a result value;
  - the year suffix of the output file names.

A converter call is modelled by its call index (0, 1, …) and the ids of
its batch, so the oracle may answer each call differently. What the call
returns is one of:

- `CallFailed`: any exception raised before a record is processed;
- `Answered(None)`: an object without a `records` key;
- `Answered(Some(records))`.

A record field is `None` when the key is absent and `Some(Null)` when the
key is present with JSON `null`.

Three behaviours of the code are easy to miss, and the model keeps them:

- **Correlation.** `PubmedIdOf` takes the record's `pmid` when that key is
  present, whatever its value. It falls back to `requested-id` only when
  `pmid` is absent (pmcid_mapper.py:55).
- **Pacing.** The sleep sits inside the `try`, after the record loop
  (pmcid_mapper.py:64). So a call is followed by a pause exactly when it was
  answered, the last such call included, and a failed call is never
  followed by one.
- **Output length.** Nothing in the code checks that an answer holds one
  record per id sent. If every answered call returns as many records as its
  batch had ids, the output is as long as the input
  (`LengthWhenAnswersMatch`). When no answer is longer than its batch, one
  shorter answer makes the output shorter than the input
  (`ShortAnswerDropsIds`). Without that bound, one batch's extra records can
  make up for another's missing ones.

## Model

| member | source | states |
|---|---|---|
| PmcidMapper.GetPmcids | pmcid_mapper.py:22-75 | The returned list equals `Mapping(pmids, remote)`, the concatenation of the batch contributions in batch order. The ghost trace equals `Trace(pmids, remote)`: one request per batch and a pause after each answered one. |
| PmcidMapper.BatchAtOffset | pmcid_mapper.py:39-40 | The slice the loop takes at offset 200·k is batch k, and the call index is k. Another offset follows exactly when another batch exists. |
| PmcidMapper.LoopStep | pmcid_mapper.py:39-73 | Processing batch k extends both the mappings and the trace by that batch's own part. |
| PmcidMapper.AppendRecords | pmcid_mapper.py:54-61 | The record loop appends exactly `RecordEntries(records)` to what was already there: one mapping per record, in record order. |
| PmcidMapper.AppendUnresolved | pmcid_mapper.py:69-73 | The failure loop appends exactly `NullEntries(batch)` to what was already there: one unresolved mapping per id of the batch, in order. |
| PmcidMapper.RecordEntries | pmcid_mapper.py:54-61 | There is one entry per response record, and entry j is `EntryOf(records[j])`. |
| PmcidMapper.NullEntries | pmcid_mapper.py:66-73 | There is one entry per batch id, and entry j is `Entry(batch[j], Null)`, so the `pubmed_id` is the input id and the `pmc_id` is null. |
| PmcidMapper.NullEntriesAppend | pmcid_mapper.py:69-73 | The unresolved mappings of two id lists put together are the mappings of each, in order. |
| PmcidMapper.EmptyInputMakesNoCall | pmcid_mapper.py:27-28 | An empty input yields no mappings and a trace with no call. |
| PmcidMapper.BatchCountIsCeiling | pmcid_mapper.py:34-39 | The number of offsets `range(0, n, 200)` visits is the ceiling of n / 200. It is zero exactly when n is zero. |
| PmcidMapper.BatchStartsInside | pmcid_mapper.py:39 | Batch k exists exactly when its offset 200·k lies inside the input. |
| PmcidMapper.Batch | pmcid_mapper.py:39-40 | Each slice holds 1 to 200 ids. Every slice but the last is full, and the last one ends at the end of the input. |
| PmcidMapper.BatchesCoverPrefix | pmcid_mapper.py:39-40 | The first n batches, concatenated, are exactly the first min(200·n, L) input ids. |
| PmcidMapper.ConcatBatches | pmcid_mapper.py:39-40 | The batches, concatenated in order, are the input. |
| PmcidMapper.BatchesPartitionInput | pmcid_mapper.py:34-40 | There are ceil(L/200) batches. Each holds 1 to 200 ids and all but the last hold 200. Concatenated in order they equal the input, so they are contiguous and do not overlap. |
| PmcidMapper.PmcIdOf | pmcid_mapper.py:56-60 | The `pmc_id` is either truthy or null. When it is not null, it is the record's own `pmcid` value. |
| PmcidMapper.CorrelationRule | pmcid_mapper.py:55-60 | `pubmed_id` is `str` of the record's `pmid` when that key is present, otherwise of its `requested-id`, and "None" when both are missing. `pmc_id` is the record's `pmcid` exactly when that is truthy, and null otherwise. |
| PmcidMapper.Contributions | pmcid_mapper.py:39-73 | There is one contribution per batch. |
| PmcidMapper.BatchSlice | pmcid_mapper.py:39-75 | The mapping list is batches before j, then batch j's own contribution, then batches after j. |
| PmcidMapper.OtherBatchesUnaffected | pmcid_mapper.py:39-75 | Suppose two runs get the same answer for every batch except j, for instance one in which batch j fails. Then they agree on everything before and after batch j's contribution. |
| PmcidMapper.AllFailedMapsEveryId | pmcid_mapper.py:66-73 | When every call fails, the output is one unresolved mapping per input id, in input order, and the summary is total L, found 0, missing L. |
| PmcidMapper.LengthWhenAnswersMatch | pmcid_mapper.py:54-73 | When each answered call returns as many records as its batch had ids, the output is as long as the input. Which ids the mappings name comes from the records, so this says nothing about which input ids are covered. |
| PmcidMapper.Contribution | pmcid_mapper.py:54-73 | A failed call contributes one entry per batch id, each with a null `pmc_id`. An answered call contributes one entry per record, and none when the `records` key is missing. |
| PmcidMapper.ShortAnswerDropsIds | pmcid_mapper.py:54-61 | Suppose no answered call returns more records than its batch had ids, and some batch j is answered with fewer. Then the output is strictly shorter than the input. |
| PmcidMapper.MissingRecordsDropBatch | pmcid_mapper.py:54 | Under the same condition, an answer without a `records` key contributes nothing, and the output is strictly shorter than the input. |
| PmcidMapper.CallsCoverInput | pmcid_mapper.py:39-50 | The calls are made one per batch, in batch order, ceil(L/200) of them. The ids sent, concatenated, are exactly the input. |
| PmcidMapper.PauseAfterAnsweredPrefix | pmcid_mapper.py:49-66 | After any number of batches, each call in the trace is followed by a pause exactly when it was answered. |
| PmcidMapper.PauseOnlyAfterCallPrefix | pmcid_mapper.py:49-66 | After any number of batches, every pause in the trace directly follows a call. |
| PmcidMapper.Pacing | pmcid_mapper.py:49-66 | A call is followed by a pause exactly when it was answered, the last call included. Every pause directly follows a call. |
| PmcidMapper.CountFound | pmcid_mapper.py:111 | The found count never exceeds the number of mappings. |
| PmcidMapper.Summarize | pmcid_mapper.py:111-119 | `total_pmids` is the number of mappings. `pmcids_found + pmcids_missing == total_pmids`, and missing is never negative. |
| PmcidMapper.CountFoundAppend | pmcid_mapper.py:111 | The found count of two mapping lists put together is the sum of their found counts. |
| PmcidMapper.FailedBatchFindsNothing | pmcid_mapper.py:66-73 | A failed batch adds nothing to the found count of line 111 for the run: it is the found count of the batches before it plus that of the batches after it. |
| PmcidMapper.NoneFoundAmongNulls | pmcid_mapper.py:111 | Unresolved mappings are never counted as found. |
| PmcidMapper.StrippedId | pmcid_mapper.py:99 | One line yields at most one id, and an id it yields is non-empty and already stripped. |
| PmcidMapper.NonBlankStripped | pmcid_mapper.py:99 | The filter keeps at most one id per line. Every id kept is non-empty and already stripped. |
| PmcidMapper.NonBlankStrippedAppend | pmcid_mapper.py:99 | The ids of two runs of lines put together are the ids of each, in order. |
| PmcidMapper.NonBlankStrippedOne | pmcid_mapper.py:99 | A single line yields its stripped text as an id, and nothing when that is empty. With the append law, this determines the filter on every list of lines. |
| PmcidMapper.StrippedLineIsToken | pmcid_mapper.py:99 | A stripped file line holds no "\n" and no "\r". |
| PmcidMapper.LinesOfTranslatedText | pmcid_mapper.py:98-99 | Every line of a text without "\r" is non-empty, holds a "\n" only as its last character, and holds no "\r". |
| PmcidMapper.TokensFromLines | pmcid_mapper.py:99 | The ids kept from such lines hold no "\n" and no "\r". |
| PmcidMapper.InputIdsAreTokens | pmcid_mapper.py:98-99 | Every id read from the file is non-empty and stripped, and holds no "\n" and no "\r". Other characters that `str.splitlines` counts as line breaks, such as U+2028, may remain, as they do in the program. |
| PmcidMapper.InputIdsAppend | pmcid_mapper.py:98-99 | When a file is cut right after a "\n", its ids are the ids of the first part followed by the ids of the second. |
| PmcidMapper.InputIdsOfLastLine | pmcid_mapper.py:98-99 | A file holding one line without a "\n" yields the line's stripped text as its one id, and no id when the line is blank. |
| PmcidMapper.InputIdsOfLine | pmcid_mapper.py:98-99 | A file holding one line `l` and its "\n" yields `l.strip()` as its one id, and no id when `l` is blank. |
| PmcidMapper.MapPmidFile | pmcid_mapper.py:97-119 | A missing input file is an error and makes no call. Otherwise the mappings are `Mapping` of the file's ids, the metadata is their summary, and the trace is the batch trace. |
| PmcidMapper.SingleAnsweredBatch | pmcid_mapper.py:39-64 | Input of at most 200 ids makes a single call. If that call is answered, the mappings are those of its records, and the trace is that call followed by one pause. |
| PmcidMapper.FoundCountOfExample | pmcid_mapper.py:111 | Two of the three example mappings carry a PMC id. |
| PmcidMapper.ThreeIdExample | pmcid_mapper.py:39-119 | Three ids in one answered call, with "2" unresolved, give three mappings in order, found 2, missing 1, and one call followed by one pause. |
| PyRuntime.NatToDecimal | pmcid_mapper.py:55 | `str()` of a natural number is a non-empty string of digits with no leading zero. |
| PyRuntime.DecimalRoundTrip | pmcid_mapper.py:55 | Reading back the digits `str()` renders gives the number again. |
| PyRuntime.IntDecimalRoundTrip | pmcid_mapper.py:55 | `str()` of an int starts with "-" exactly when the int is negative, and its digits read back to the absolute value. |
| PyRuntime.LStrip | pmcid_mapper.py:99 | `lstrip` drops only leading whitespace, and the result does not start with whitespace. |
| PyRuntime.RStrip | pmcid_mapper.py:99 | `rstrip` drops only trailing whitespace, and the result does not end with whitespace. |
| PyRuntime.StripSlice | pmcid_mapper.py:99 | The stripped line is a contiguous slice of the line. |
| PyRuntime.StripDropsOnlySpace | pmcid_mapper.py:99 | Only whitespace lies before and after that slice. |
| PyRuntime.StripEnds | pmcid_mapper.py:99 | A non-empty stripped line neither starts nor ends with whitespace. |
| PyRuntime.StripIsInfix | pmcid_mapper.py:99 | `strip` yields the infix of the line between its leading and trailing whitespace runs. The result neither starts nor ends with whitespace. |
| PyRuntime.StripBlank | pmcid_mapper.py:99 | A line strips to "" exactly when all of its characters are whitespace, which is when the filter drops it. |
| PyRuntime.StripIdempotent | pmcid_mapper.py:99 | Stripping twice is stripping once. |
| PyRuntime.LStripSpaceAtEnd | pmcid_mapper.py:99 | Adding a whitespace character at the end of a string adds it to the result of `lstrip`, unless `lstrip` gives "". |
| PyRuntime.StripSpaceAtEnd | pmcid_mapper.py:99 | A trailing whitespace character, such as a line's "\n", does not change `strip()`. |
| PyRuntime.UniversalNewlines | pmcid_mapper.py:98 | Text read in text mode holds no "\r", and translation never lengthens it. |
| PyRuntime.NewlinesKeepPlainText | pmcid_mapper.py:98 | Text without "\r" comes through the translation unchanged. |
| PyRuntime.NewlinesAppend | pmcid_mapper.py:98 | The translation of `a + b` is the translation of `a` followed by that of `b`, when `a` does not end in "\r". |
| PyRuntime.NewlinesLoneCarriageReturn | pmcid_mapper.py:98 | A "\r" that is not followed by "\n" becomes a "\n" on its own, and the rest is translated after it. |
| PyRuntime.NewlinesOfLineEnds | pmcid_mapper.py:98 | "\r\n" and a lone "\r" each become one "\n". |
| PyRuntime.NewlinesKeepFinalNewline | pmcid_mapper.py:98 | A text ending in "\n" still ends in "\n" after translation. |
| PyRuntime.FirstLineLength | pmcid_mapper.py:99 | The first line ends at the first "\n", or at the end of the text. |
| PyRuntime.Lines | pmcid_mapper.py:98-99 | A text yields no lines exactly when it is empty. |
| PyRuntime.LinesRebuildText | pmcid_mapper.py:98-99 | The lines of a file, concatenated, are its text. |
| PyRuntime.LinesAreLines | pmcid_mapper.py:98-99 | Each line is non-empty and holds a "\n" only as its last character. |
| PyRuntime.LinesEndInNewline | pmcid_mapper.py:98-99 | Every line but the last ends with its "\n". |
| PyRuntime.LinesDrawFromText | pmcid_mapper.py:98-99 | Every character of a line is a character of the text. |
| PyRuntime.LinesPartitionText | pmcid_mapper.py:98-99 | The lines, concatenated, are the text. Each is non-empty and holds a "\n" only at its end, and every line but the last ends with one. `LinesUnique` shows that these facts determine the lines. |
| PyRuntime.FirstLineOfLine | pmcid_mapper.py:98-99 | A line followed by nothing, or a line ending in "\n" followed by more text, is the first line of the text. |
| PyRuntime.LinesUnique | pmcid_mapper.py:98-99 | Any list of lines that concatenates to the text, holds a "\n" only at the end of a line, and ends every line but the last with one, is `Lines(text)`. |
| PyRuntime.FirstLineOfAppend | pmcid_mapper.py:98-99 | After a complete line, the first line of the text is that line, whatever follows. |
| PyRuntime.LinesAfterFirstLine | pmcid_mapper.py:98-99 | A text that starts with a complete line yields that line, and then the lines of the rest. |
| PyRuntime.LinesAppend | pmcid_mapper.py:98-99 | When a text is cut right after a "\n", its lines are the lines of the first part followed by those of the second. |
| PubmedSearch.JoinSnoc | pubmed_search.py:52 | A join of two or more parts is the join of all but the last, then the separator, then the last. |
| PubmedSearch.JoinPartText | pubmed_search.py:52 | Part i of a join stands at offset `PartStart(i)`. |
| PubmedSearch.JoinSepText | pubmed_search.py:52 | Exactly the separator stands between part i and part i+1. |
| PubmedSearch.JoinPart | pubmed_search.py:52 | In `sep.join(parts)`, part i stands at offset `PartStart(i)`, and exactly `sep` stands between part i and part i+1. |
| PubmedSearch.JoinLength | pubmed_search.py:52 | A join is as long as all parts plus one separator between each two. |
| PubmedSearch.JoinLayout | pubmed_search.py:52 | Every part of a join appears in list order, with exactly the separator between each two. |
| PubmedSearch.AffiliationTerms | pubmed_search.py:52 | There is one term per variant. |
| PubmedSearch.AffiliationQuery | pubmed_search.py:52-53 | The clause is at least two characters long, opens with "(" and closes with ")". |
| PubmedSearch.DateRange | pubmed_search.py:57 | The date clause starts with the start date and a ":", and ends in "[dp]". |
| PubmedSearch.BuildQuery | pubmed_search.py:52-58 | The affiliation clause is a prefix of the term. The term is longer than that clause exactly when a non-empty start date is given. |
| PubmedSearch.AffiliationTermAt | pubmed_search.py:52-53 | Variant i's `"v"[Affiliation]` sits inside the parentheses at its offset and is followed by " OR " unless it is the last. |
| PubmedSearch.AffiliationQueryLayout | pubmed_search.py:52-53 | The affiliation clause opens with "(" and closes with ")". Between them it holds `"v"[Affiliation]` for every variant, in list order, joined by " OR ". Its length is 2 plus the end of the last term, so nothing else is in it. With no variants it is "()". |
| PubmedSearch.NoVariantsQuery | pubmed_search.py:52-53 | An empty variant list gives the clause "()". |
| PubmedSearch.SingleVariantQuery | pubmed_search.py:52-53 | A single variant v gives the clause `("v"[Affiliation])`, with no "OR". |
| PubmedSearch.QueryDateClause | pubmed_search.py:56-58 | With no start date, or an empty one, the term is the affiliation clause alone. With one, it is `clause AND from:to[dp]`, and `to` defaults to 3000/12/31 when the end date is missing or empty. |
| PubmedSearch.DateClauseIffStartDate | pubmed_search.py:56-58 | The term ends in a `[dp]` date clause exactly when a non-empty start date is given. |
| PubmedSearch.OpenEndedQuery | pubmed_search.py:52-58 | One variant and a start date with no end date give `("v"[Affiliation]) AND from:3000/12/31[dp]`. |
| PubmedSearch.ReadReply | pubmed_search.py:81-99 | A failed request is a connection error. The reply is read successfully exactly when `esearchresult`, `idlist` and `count` are all present, and then the ids and total are taken from them unchanged. |
| PubmedSearch.SearchPubmed | pubmed_search.py:34-99 | Missing credentials, or a missing variant list, end the search with an error before any request is sent. Otherwise exactly one request is sent, and its reply is read. |
| PubmedSearch.CredentialsCheckedFirst | pubmed_search.py:38-41 | A missing or empty email or API key is an error raised before any request. The outcome depends neither on the service nor on the variants. |
| PubmedSearch.OneRequestIdsUnchanged | pubmed_search.py:61-92 | One request is sent, for db pubmed, the built term, retmax 100000, JSON mode and the credentials. The ids returned are the reply's `idlist` unchanged. The condition for the "more papers than returned" note at line 88 holds exactly when `count` exceeds their number. |
| PubmedSearch.FirstSegment | pubmed_search.py:110-111 | `split('/')[0]` is the prefix before the first "/" and holds no "/". |
| PubmedSearch.FirstSegmentUnique | pubmed_search.py:110-111 | That characterisation determines the segment. |
| PubmedSearch.FirstSegmentOfDate | pubmed_search.py:110-111 | A date `year/rest` splits to its year. |
| PubmedSearch.YearSuffix | pubmed_search.py:108-113 | The suffix is either empty or starts with "_". |
| PubmedSearch.YearSuffixRule | pubmed_search.py:108-113 | The suffix is "_" plus the common year exactly when both dates are non-empty and agree before their first "/", and "" otherwise. It never holds a "/". |
| PubmedSearch.YearSuffixSymmetric | pubmed_search.py:108-113 | Swapping the two dates does not change the suffix. |
| PubmedSearch.SameYearSuffix | pubmed_search.py:108-113 | Two dates `year/…` in the same year, such as 2024/01/01 and 2024/12/31, give "_year". |
| PubmedSearch.NoYearSuffix | pubmed_search.py:108-113 | Dates in two different years give "", and so does a start date with no end date. |

## Left out

- HTTP is not modelled: requests, URLs, parameter dictionaries, timeouts and `raise_for_status`. Both services are oracle parameters.
- JSON decoding is not modelled. Responses are Dafny datatypes.
- Float and array/object JSON values as `pmid`, `requested-id` or `pmcid` are not modelled. A `Value` is null, bool, int or str.
- A `records` value that is not a list, and a record that is not an object, are not modelled.
- A failure inside a batch after some records were appended is not modelled. That would leave those entries and then add nulls for the whole batch. A call either fails before any record or is answered in full.
- `time.sleep(0.35)` is not modelled as time. Only the pause's place in the ghost trace is.
- `.env` loading, `os.getenv` and `sys.argv` are not modelled. Credentials, dates and the file text are parameters.
- The usage check and the output-path choice in `main` are not modelled (pmcid_mapper.py:82-93).
- Reading `approved_variations.json` is not modelled. The variant list is an `Option` parameter, and `None` stands for the missing file.
- A malformed variations file is not modelled: invalid JSON, or no `variations` key. Such errors escape the `except FileNotFoundError`.
- Non-string variants are not modelled; the f-string would render them with `str()`.
- PubmedSearch.ReadReply: a `count` that `int()` cannot parse, which raises an uncaught `ValueError`, is not modelled. `count` is an already-parsed int.
- Text decoding of the input file is not modelled; the file is already `seq<char>`.
- There is no model of file writing, `os.makedirs`, timestamps, `print` output, or `save_results`' loop writing one id per line. The search `main`'s save versus "No papers found" branch is not modelled either. Only the year suffix that goes into both file names is.
- The `source_file` field of the output metadata is not modelled (pmcid_mapper.py:121); it only echoes the input path, which is a parameter outside the model. `Metadata` holds the three counts.
- `sys.exit` becomes an error value: `MapperError` for a missing input file, `SearchError` for the searcher.
