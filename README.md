# Gazette and electoral-data downloaders: the decision logic

This project models the deterministic core of two download scripts in
`rede_cria_tabelas` and proves properties about it in Dafny.

**The Ceará gazette downloader** (`doe/diarios_ceara_scraper.py`) lists
the PDF editions of the Diário Oficial do Estado do Ceará for a range of
dates, then downloads them. The model covers:

- `extract_filename_from_url`: query parameters first, then the path's
  `.pdf` segment, then the basename. Percent-decoding follows section 2.1
  of RFC 3986, as `urllib.parse.unquote` does it.
- The Content-Disposition `filename` parse, a loose take on section 4.1 of
  RFC 6266.
- The harvest of `test_shortcut_url`:
  - the href filter and the three-way absolutisation;
  - the four-method filename cascade;
  - the direct-`.pdf`-anchor pass;
  - the "no publications" override.
- `generate_dates` over the proleptic Gregorian calendar.
- `download_file`: the retry loop, the generic-name replacement and the
  `'wb'` write.
- In `main`: the filename sanitisation, the per-date loop and the
  downloaded/skipped/failed counters.

**The TSE open-data downloader** (`dados_tse_baixa.py`) lists the
election years of the candidates portal, lets the user choose years,
then downloads every resource of each chosen year. The model covers:

- the year extraction, deduplication and descending stable sort;
- the resource rules: file format, URL cleaning and filename synthesis;
- the year-selection parser;
- the existing-file policy over the "skip all" and "overwrite all" flags;
- the resumable download (section 3.1 of RFC 7233 `Range: bytes=K-`, and
  the section 4.4 `416` fallback), with its three-attempt retry and
  exponential backoff;
- `main`'s counters, failure records and exit status.

**Abstract inputs.** HTML pages, HTTP replies, the disk and the user's
keyboard become inputs:

- A page is the part of the parsed document the code looks at: tables of
  cells, anchors, text nodes.
- A server reply is an `Unreachable` (the request raised) or a status,
  header values, body chunks, and whether the stream broke.
- The disk is a map from path to byte sequence.
- The user's input is the sequence of lines typed. A prompt that finds no
  line left raises `EOFError`, as `input()` does.

**Modules.**

- `Wrappers`: an `Option` type, and the first-`Some` search used by every
  prompt loop.
- `Text`: Python string helpers.
- `Url`: `unquote`, `urlsplit`/`urlparse`, `parse_qs`, `os.path`.
- `Transfer`: replies, the disk, the chunk-writing loop.
- `CearaFilenames`, `CearaLinks`, `CearaDates`, `CearaDownload`.
- `TseYears`, `TseResources`, `TseSelection`, `TsePolicy`, `TseDownload`,
  `TseMain`.

**Loops as methods.** Where the source loops and appends, the model has a
method with a `while` loop. Each such method is proved equal to a
recursive specification function, and the properties are lemmas about
that function.

## Model

| member | source | states |
|---|---|---|
| Url.UnquotePercentEncode | rede_cria_tabelas/doe/diarios_ceara_scraper.py:66 | percent-decoding undoes percent-encoding of any Latin-1 string |
| Url.UnquoteWithoutPercent | rede_cria_tabelas/doe/diarios_ceara_scraper.py:195 | decoding leaves a string without `%` unchanged |
| Url.UnquoteKeepsPdf | rede_cria_tabelas/doe/diarios_ceara_scraper.py:72-79 | decoding keeps a `.pdf` suffix in any letter case |
| Url.UnquoteKeepsPdfSuffix | rede_cria_tabelas/doe/diarios_ceara_scraper.py:191-195 | decoding keeps a literal `.pdf` suffix, so the cascade's suffix survives the final `unquote` |
| Url.FirstValue | rede_cria_tabelas/doe/diarios_ceara_scraper.py:61-64 | `parse_qs(q)[name][0]`: Some(v) exactly when some pair has the name, and v is the value of the first such pair; None exactly when no pair has the name |
| Url.QueryFieldValuesNonEmpty | rede_cria_tabelas/doe/diarios_ceara_scraper.py:61 | `parse_qs` keeps no field with an empty value |
| Url.ParsedPath | rede_cria_tabelas/dados_tse_baixa.py:171-172 | the path `urlparse` reports is a prefix of the `urlsplit` path, and its last segment has no `;params` |
| Url.BasenameJoin | rede_cria_tabelas/dados_tse_baixa.py:414 | joining a directory and a slash-free name gives a path whose basename is that name |
| CearaFilenames.QueryFilename | rede_cria_tabelas/doe/diarios_ceara_scraper.py:62-66 | a filename taken from the query always ends in `.pdf`, in any letter case |
| CearaFilenames.QueryFilenameAt | rede_cria_tabelas/doe/diarios_ceara_scraper.py:62-66 | the first qualifying parameter, in the order arquivo, file, filename, nome, documento, gives the name |
| CearaFilenames.QueryParameterWins | rede_cria_tabelas/doe/diarios_ceara_scraper.py:57-84 | a qualifying query parameter's decoded value is the result, whatever the path holds |
| CearaFilenames.LongestPdfPrefix | rede_cria_tabelas/doe/diarios_ceara_scraper.py:72 | the greedy `[^/]+\.pdf` match within a segment: the longest prefix ending in `.pdf`, with no longer one; None exactly when no prefix ends in `.pdf` |
| CearaFilenames.FirstSegmentMatch | rede_cria_tabelas/doe/diarios_ceara_scraper.py:72 | the path match is a slash-free name of at least five characters ending in `.pdf`, taken from the leftmost segment that has a match |
| CearaFilenames.FirstSegmentMatchNone | rede_cria_tabelas/doe/diarios_ceara_scraper.py:72-73 | no path match means no segment has a prefix ending in `.pdf` |
| CearaFilenames.FilenameFromUrlIsPdf | rede_cria_tabelas/doe/diarios_ceara_scraper.py:47-84 | `extract_filename_from_url` returns None or a name whose lower-case form ends in `.pdf` |
| CearaFilenames.BasenameIsLastPiece | rede_cria_tabelas/doe/diarios_ceara_scraper.py:77 | `os.path.basename` is the last piece of the path split on `/` |
| CearaFilenames.BasenameFallbackIsBarePdf | rede_cria_tabelas/doe/diarios_ceara_scraper.py:76-79 | the basename fallback fires only for a basename that is exactly `.pdf` |
| CearaFilenames.CapturedValue | rede_cria_tabelas/doe/diarios_ceara_scraper.py:103 | the captured value is a prefix of the text after `=` |
| CearaFilenames.StripQuotesAround | rede_cria_tabelas/doe/diarios_ceara_scraper.py:105 | stripping quotes recovers the plain name |
| CearaFilenames.QuotedFilenameParsed | rede_cria_tabelas/doe/diarios_ceara_scraper.py:103-106 | round trip: the header `attachment; filename="x"` yields `x` for a plain name |
| CearaLinks.Absolutise | rede_cria_tabelas/doe/diarios_ceara_scraper.py:150-156 | the absolute URL starts with `http` and ends with the href |
| CearaLinks.AbsolutiseCases | rede_cria_tabelas/doe/diarios_ceara_scraper.py:151-156 | the three cases: host plus a `/` href, an `http` href unchanged, otherwise host plus `/doepesquisa/` plus href |
| CearaLinks.FirstQualifying | rede_cria_tabelas/doe/diarios_ceara_scraper.py:166-175 | the first cell whose text is non-empty, not an action word, and ends in `.pdf` or is longer than 5; no earlier cell qualifies |
| CearaLinks.WithPdf | rede_cria_tabelas/doe/diarios_ceara_scraper.py:173-174 | `.pdf` is appended unless present: the result ends in `.pdf` and extends the name |
| CearaLinks.CellName | rede_cria_tabelas/doe/diarios_ceara_scraper.py:164-175 | the cell method finds a name exactly when some cell qualifies, and it is the first one with `.pdf` added |
| CearaLinks.FallbackName | rede_cria_tabelas/doe/diarios_ceara_scraper.py:188 | the basename fallback, or `documento.pdf`, is never empty |
| CearaLinks.LinkTextName | rede_cria_tabelas/doe/diarios_ceara_scraper.py:181-188 | method 4 always produces a non-empty name |
| CearaLinks.Finish | rede_cria_tabelas/doe/diarios_ceara_scraper.py:190-195 | after the suffix and the final `unquote`, the name is non-empty and ends in `.pdf` |
| CearaLinks.CascadeName | rede_cria_tabelas/doe/diarios_ceara_scraper.py:158-195 | the cascade's filename is non-empty and ends in `.pdf` |
| CearaLinks.FirstUsable | rede_cria_tabelas/doe/diarios_ceara_scraper.py:165 | the first candidate that is present and not generic; None exactly when every candidate is missing or generic |
| CearaLinks.StepsPickFirstUsable | rede_cria_tabelas/doe/diarios_ceara_scraper.py:164-188 | each later method runs only while the name is missing or generic, so the steps pick the first usable candidate, else the link text |
| CearaLinks.CascadeIsFirstUsable | rede_cria_tabelas/doe/diarios_ceara_scraper.py:158-195 | the cascade equals the first usable of URL name, cell name, Content-Disposition name, then the link text step |
| CearaLinks.UrlNameWins | rede_cria_tabelas/doe/diarios_ceara_scraper.py:161-165 | a usable URL-derived name is kept and the later methods are skipped |
| CearaLinks.DirectName | rede_cria_tabelas/doe/diarios_ceara_scraper.py:211-217 | a direct-pass filename is non-empty and ends in `.pdf` |
| CearaLinks.CellLinksWellFormed | rede_cria_tabelas/doe/diarios_ceara_scraper.py:141-197 | every link a cell yields has a non-empty `.pdf` name and an absolute URL |
| CearaLinks.RowLinksWellFormed | rede_cria_tabelas/doe/diarios_ceara_scraper.py:140-197 | every link of a row is well formed in the same sense |
| CearaLinks.RowsLinksWellFormed | rede_cria_tabelas/doe/diarios_ceara_scraper.py:138-197 | every link of a table is well formed |
| CearaLinks.AcceptedHrefsSpec | rede_cria_tabelas/doe/diarios_ceara_scraper.py:142-149 | an href is taken exactly when some cell's anchor has it and it contains `.pdf`, `download` or `baixar` ignoring case |
| CearaLinks.TablesLinksFiltered | rede_cria_tabelas/doe/diarios_ceara_scraper.py:136-196 | the table pass yields one link per taken cell anchor, in document order, whose URL is that href made absolute |
| CearaLinks.TablesLinksWellFormed | rede_cria_tabelas/doe/diarios_ceara_scraper.py:136-197 | every link of the table pass is well formed |
| CearaLinks.DirectLinksWellFormed | rede_cria_tabelas/doe/diarios_ceara_scraper.py:200-218 | every link of the direct pass is well formed |
| CearaLinks.ShortcutLinksWellFormed | rede_cria_tabelas/doe/diarios_ceara_scraper.py:112-232 | every (filename, url) pair `test_shortcut_url` returns has a non-empty `.pdf` name and an absolute URL |
| CearaLinks.ShortcutSuccess | rede_cria_tabelas/doe/diarios_ceara_scraper.py:225-232 | success exactly when the page loaded; a request error gives no links |
| CearaLinks.NoPublicationsOverrides | rede_cria_tabelas/doe/diarios_ceara_scraper.py:220-223 | a no-publication phrase gives (True, []) whatever links were found |
| CearaLinks.DirectPassOnlyWhenTablesEmpty | rede_cria_tabelas/doe/diarios_ceara_scraper.py:199-218 | the direct anchors are used only when the table pass found nothing |
| CearaLinks.ResolveFilename | rede_cria_tabelas/doe/diarios_ceara_scraper.py:158-195 | the step-by-step reassignment of `filename` computes the cascade |
| CearaLinks.CellPass | rede_cria_tabelas/doe/diarios_ceara_scraper.py:141-197 | the body of the cell loop yields the cell's links |
| CearaLinks.RowLinksStep | rede_cria_tabelas/doe/diarios_ceara_scraper.py:141-197 | one more cell appends exactly that cell's links |
| CearaLinks.CellsPass | rede_cria_tabelas/doe/diarios_ceara_scraper.py:140-197 | the cell loop yields the row's links |
| CearaLinks.RowsPass | rede_cria_tabelas/doe/diarios_ceara_scraper.py:138-197 | the row loop yields the table's links |
| CearaLinks.TablesPass | rede_cria_tabelas/doe/diarios_ceara_scraper.py:136-197 | the table loop yields the table pass's links |
| CearaLinks.DirectPass | rede_cria_tabelas/doe/diarios_ceara_scraper.py:200-218 | the anchor loop yields the direct pass's links |
| CearaLinks.AnchorPass | rede_cria_tabelas/doe/diarios_ceara_scraper.py:202-218 | one anchor yields one link exactly when its href ends in `.pdf` in any case, with the cascade's name and the absolutised URL |
| CearaLinks.DirectLinksStep | rede_cria_tabelas/doe/diarios_ceara_scraper.py:201-218 | one more anchor appends exactly that anchor's links |
| CearaLinks.TestShortcutUrl | rede_cria_tabelas/doe/diarios_ceara_scraper.py:112-232 | `test_shortcut_url` returns the modelled outcome |
| CearaDates.OrderIsDayNumberOrder | rede_cria_tabelas/doe/diarios_ceara_scraper.py:291 | date comparison agrees with the order of day numbers, and equality with equal numbers |
| CearaDates.NextDay | rede_cria_tabelas/doe/diarios_ceara_scraper.py:293 | adding one day gives a valid date whose day number is one more |
| CearaDates.PrevDay | rede_cria_tabelas/doe/diarios_ceara_scraper.py:299 | subtracting one day gives a valid date whose day number is one less |
| CearaDates.NextDayThenPrevDay | rede_cria_tabelas/doe/diarios_ceara_scraper.py:293 | one day forward then back returns to the same date |
| CearaDates.PrevDayThenNextDay | rede_cria_tabelas/doe/diarios_ceara_scraper.py:299 | one day back then forward returns to the same date |
| CearaDates.Forward | rede_cria_tabelas/doe/diarios_ceara_scraper.py:293 | `i` days forward is the valid date `i` day numbers later |
| CearaDates.Backward | rede_cria_tabelas/doe/diarios_ceara_scraper.py:299 | `i` days back is the valid date `i` day numbers earlier |
| CearaDates.Format | rede_cria_tabelas/doe/diarios_ceara_scraper.py:292 | `strftime('%Y%m%d')` gives eight ASCII digits |
| CearaDates.PadValue | rede_cria_tabelas/doe/diarios_ceara_scraper.py:292 | a zero-padded field reads back as its number |
| CearaDates.FormatRoundTrip | rede_cria_tabelas/doe/diarios_ceara_scraper.py:292 | reading a formatted date back gives the date |
| CearaDates.FormatYear | rede_cria_tabelas/doe/diarios_ceara_scraper.py:634 | `int(date[:4])` of a formatted date is its year |
| CearaDates.YearDates | rede_cria_tabelas/doe/diarios_ceara_scraper.py:281-293 | year mode: consecutive days from 1 January, as many as reach the end date |
| CearaDates.DaysBack | rede_cria_tabelas/doe/diarios_ceara_scraper.py:295-300 | days mode: exactly `value` dates, today and each one a day earlier |
| CearaDates.GenerateDates | rede_cria_tabelas/doe/diarios_ceara_scraper.py:268-302 | the count and contents of each mode, none for another mode, every date an eight-digit string |
| CearaDates.DaysModeSteps | rede_cria_tabelas/doe/diarios_ceara_scraper.py:298-300 | days mode starts at today and steps back one day at a time |
| CearaDates.YearModeSpan | rede_cria_tabelas/doe/diarios_ceara_scraper.py:283-290 | year mode runs from 1 January to today (current year) or 31 December, both representable dates before 9999-12-31, and yields one date per day of that span |
| CearaDates.ForwardLands | rede_cria_tabelas/doe/diarios_ceara_scraper.py:291-293 | stepping forward one day at a time for the difference of two day numbers lands exactly on the later date, so the last date yielded is the end date |
| CearaDates.DatesFrom | rede_cria_tabelas/doe/diarios_ceara_scraper.py:290-293 | the `while current_date <= end_date` loop yields one date per day from the start to the end, inclusive, each the day after the previous one |
| CearaDates.YearStep | rede_cria_tabelas/doe/diarios_ceara_scraper.py:293 | the day count of the calendar grows by 366 over a leap year and 365 over any other |
| CearaDownload.OverwriteAnswer | rede_cria_tabelas/doe/diarios_ceara_scraper.py:508-516 | the first answer that is s/skip or o/overwrite decides, earlier ones re-prompt; None when the answers run out |
| CearaDownload.RenameOnlyGeneric | rede_cria_tabelas/doe/diarios_ceara_scraper.py:551-558 | the path changes only for a `.pdf` header name over a generic basename |
| CearaDownload.RenameTakesName | rede_cria_tabelas/doe/diarios_ceara_scraper.py:555-558 | a renamed path ends in the header's slash-free name |
| CearaDownload.RenameAbsoluteEscapes | rede_cria_tabelas/doe/diarios_ceara_scraper.py:557-558 | an absolute header name replaces the whole path, leaving the download directory |
| CearaDownload.WriteBody | rede_cria_tabelas/doe/diarios_ceara_scraper.py:574-603 | the `'wb'` write sets the file to the body; success exactly when the stream did not break |
| CearaDownload.AttemptWrites | rede_cria_tabelas/doe/diarios_ceara_scraper.py:538-616 | an attempt neither changes nor creates any file but its own path; a download holds exactly the body (never resumed); `ok` exactly when the status is not failed |
| CearaDownload.AttemptRenamesOnlyGeneric | rede_cria_tabelas/doe/diarios_ceara_scraper.py:551-558 | an attempt changes the path only when its basename is generic |
| CearaDownload.SkipNeedsAnswer | rede_cria_tabelas/doe/diarios_ceara_scraper.py:567-571 | a skip happens only for an existing file on the user's answer, and leaves the disk alone |
| CearaDownload.RetryBound | rede_cria_tabelas/doe/diarios_ceara_scraper.py:537-618 | at most `max_retries` attempts, failure only after all of them, one reply per attempt |
| CearaDownload.RetryCap | rede_cria_tabelas/doe/diarios_ceara_scraper.py:522-618 | `download_file` makes at most `max_retries` attempts and fails only after the last |
| CearaDownload.RunAttempt | rede_cria_tabelas/doe/diarios_ceara_scraper.py:538-616 | one attempt with its chunk loop computes the modelled attempt |
| CearaDownload.DownloadFile | rede_cria_tabelas/doe/diarios_ceara_scraper.py:522-618 | the retry loop computes the modelled download |
| CearaDownload.KeepSafe | rede_cria_tabelas/doe/diarios_ceara_scraper.py:671 | only alphanumerics and `._- ` are kept, and the result is no longer than the input |
| CearaDownload.KeepSafeChar | rede_cria_tabelas/doe/diarios_ceara_scraper.py:671 | one character is kept exactly when it is alphanumeric or one of `._- ` |
| CearaDownload.KeepSafeAppend | rede_cria_tabelas/doe/diarios_ceara_scraper.py:671 | the filter distributes over concatenation, so every safe character of the input survives, in order |
| CearaDownload.KeepSafeKeepsSafe | rede_cria_tabelas/doe/diarios_ceara_scraper.py:671 | a name of safe characters passes unchanged |
| CearaDownload.Sanitize | rede_cria_tabelas/doe/diarios_ceara_scraper.py:671-673 | the sanitised name holds only alphanumerics and `._- ` and ends in `.pdf` |
| CearaDownload.SanitizeIdempotent | rede_cria_tabelas/doe/diarios_ceara_scraper.py:671-673 | sanitising twice equals sanitising once |
| CearaDownload.FoundLinksAt | rede_cria_tabelas/doe/diarios_ceara_scraper.py:647-658 | the links of the k-th date are the shortcut's when it loaded, else the browser fallback's |
| CearaDownload.Record | rede_cria_tabelas/doe/diarios_ceara_scraper.py:677-683 | each outcome increments exactly one counter and carries on the download's state |
| CearaDownload.LinksTallyCounts | rede_cria_tabelas/doe/diarios_ceara_scraper.py:669-683 | every link is counted exactly once as downloaded, skipped or failed |
| CearaDownload.DownloadLinks | rede_cria_tabelas/doe/diarios_ceara_scraper.py:669-683 | the loop over a date's links computes the modelled tally |
| CearaDownload.DateStep | rede_cria_tabelas/doe/diarios_ceara_scraper.py:647-683 | one date: its links, and the counters advanced by their number |
| CearaDownload.ProcessDates | rede_cria_tabelas/doe/diarios_ceara_scraper.py:647-683 | every date is counted with or without publications; the counters total the links found |
| CearaDownload.CearaMain | rede_cria_tabelas/doe/diarios_ceara_scraper.py:621-683 | `main` after the user's choice: the dates, each date's links, one counter increment per link |
| Transfer.WriteChunks | rede_cria_tabelas/dados_tse_baixa.py:250-261 | writing the chunks leaves the initial contents followed by the whole body |
| TsePolicy.Key | rede_cria_tabelas/dados_tse_baixa.py:348-355 | each offered choice has a one- or two-letter key |
| TsePolicy.ChoiceOfKey | rede_cria_tabelas/dados_tse_baixa.py:348-355 | round trip: reading an offered choice's key gives that choice (s, o, sa, oa) |
| TsePolicy.ChoiceOfOffered | rede_cria_tabelas/dados_tse_baixa.py:346-357 | every accepted answer is one of the four offered choices, none setting both flags |
| TsePolicy.Choices | rede_cria_tabelas/dados_tse_baixa.py:340-357 | a line makes a choice exactly when, stripped and lower-cased, it is one of the keys `s`, `o`, `sa`, `oa`, and the choice it makes is an offered one; every other line asks again |
| TsePolicy.HandleExisting | rede_cria_tabelas/dados_tse_baixa.py:320-357 | no more lines are read than there are; a decision without reading needs an absent file or a set flag |
| TsePolicy.AbsentFileOverwrites | rede_cria_tabelas/dados_tse_baixa.py:326-327 | an absent file gives overwrite with the flags unchanged, even with "skip all" set |
| TsePolicy.FlagsDecide | rede_cria_tabelas/dados_tse_baixa.py:329-333 | for an existing file, "skip all" gives skip, else "overwrite all" gives overwrite, flags unchanged and no line read |
| TsePolicy.PromptDecides | rede_cria_tabelas/dados_tse_baixa.py:340-357 | without flags, the first recognised answer decides and earlier ones re-prompt; None exactly when no answer is recognised |
| TsePolicy.ChoicesOffered | rede_cria_tabelas/dados_tse_baixa.py:348-355 | every choice read from a line is an offered one |
| TsePolicy.FlagsExclusive | rede_cria_tabelas/dados_tse_baixa.py:320-357 | the two flags are never both set afterwards if they were not both set before |
| TsePolicy.FlagsPersist | rede_cria_tabelas/dados_tse_baixa.py:326-333 | once a flag is set, the flags stay as they are and no line is read |
| TsePolicy.HandleExistingFile | rede_cria_tabelas/dados_tse_baixa.py:320-357 | the prompt loop computes the modelled decision |
| TseDownload.Receive | rede_cria_tabelas/dados_tse_baixa.py:238-263 | handling a reply sends no further request and consumes no further reply |
| TseDownload.ResumeSendsRange | rede_cria_tabelas/dados_tse_baixa.py:227-231 | an existing file of size K is requested from byte K, a new one without `Range` |
| TseDownload.On416Truncates | rede_cria_tabelas/dados_tse_baixa.py:234-261 | after a 416 the request is repeated without `Range` and the file becomes exactly the new body |
| TseDownload.ResumeAppends | rede_cria_tabelas/dados_tse_baixa.py:241-261 | otherwise the body is appended to the old contents, and the total size is content-length plus K |
| TseDownload.IgnoredRangeDuplicates | rede_cria_tabelas/dados_tse_baixa.py:227-261 | a server answering 200 to a `Range` request has its full body appended after the old bytes |
| TseDownload.DownloadFrame | rede_cria_tabelas/dados_tse_baixa.py:220-268 | only the output file changes; a failure before writing changes nothing; one or two requests are sent |
| TseDownload.DownloadFile | rede_cria_tabelas/dados_tse_baixa.py:220-268 | the method with its chunk loop computes the modelled download |
| TseDownload.RetryShape | rede_cria_tabelas/dados_tse_baixa.py:426-452 | one to three attempts, pauses of 4 and 8 seconds before the second and third, failure only after the third |
| TseDownload.RetryResumes | rede_cria_tabelas/dados_tse_baixa.py:426-435 | a retry resumes from what a broken attempt left on disk |
| TseDownload.RetryDownload | rede_cria_tabelas/dados_tse_baixa.py:426-452 | the retry loop computes the modelled retries |
| TseDownload.RetryStep | rede_cria_tabelas/dados_tse_baixa.py:429-452 | one attempt: success or the last failure ends the loop with the pauses so far; an earlier failure goes on from the disk and replies it left, after a pause of 2^attempt seconds |
| TseDownload.RetryPass | rede_cria_tabelas/dados_tse_baixa.py:429-452 | one pass of the attempt loop: it stops exactly on success or the third attempt, otherwise the remaining retries are unchanged |
| TseDownload.SecondAttempt | rede_cria_tabelas/dados_tse_baixa.py:429-452 | from the second attempt on: at most the remaining two attempts, pauses of 4 then 8 seconds, failure only after the third |
| TseResources.JoinBase | rede_cria_tabelas/dados_tse_baixa.py:148 | joining to the site gives an `http` URL unless the href has its own scheme |
| TseResources.LowerName | rede_cria_tabelas/dados_tse_baixa.py:199 | the lower-cased format name, made of letters only |
| TseResources.FormatOfSuffix | rede_cria_tabelas/dados_tse_baixa.py:169-184 | the format is F exactly when the lower-cased path ends in one of F's suffixes, checked in source order |
| TseResources.PathFormatSuffix | rede_cria_tabelas/dados_tse_baixa.py:173-184 | the chain of suffix tests gives format F exactly when the path ends in one of F's suffixes |
| TseResources.UnknownNamesNothing | rede_cria_tabelas/dados_tse_baixa.py:169-184 | an unknown format means the path ends in none of the suffixes |
| TseResources.SuffixesDisjoint | rede_cria_tabelas/dados_tse_baixa.py:173-184 | no path ends in suffixes of two different formats, so the order of tests does not matter |
| TseResources.DirectSuffixesAreFormats | rede_cria_tabelas/dados_tse_baixa.py:145 | the direct-link suffixes are exactly the suffixes of the six formats |
| TseResources.DirectTestIsCaseSensitive | rede_cria_tabelas/dados_tse_baixa.py:145 | a `.ZIP` URL is not direct, yet its lower-cased path names ZIP |
| TseResources.CleanUrlSpec | rede_cria_tabelas/dados_tse_baixa.py:166 | cleaning removes exactly the trailing dots, spaces, `\n`, `\r` and `\t`, and is idempotent |
| TseResources.KeepTitleChars | rede_cria_tabelas/dados_tse_baixa.py:197 | only word characters, whitespace and `-` are kept |
| TseResources.Collapse | rede_cria_tabelas/dados_tse_baixa.py:198 | runs of `-` and whitespace become one `-`; no whitespace or double `-` is left |
| TseResources.SafeTitle | rede_cria_tabelas/dados_tse_baixa.py:197-198 | the safe title holds only word characters and single `-` |
| TseResources.KeepTitleCharsChar | rede_cria_tabelas/dados_tse_baixa.py:197 | one character is kept exactly when it is a word character, whitespace or `-` |
| TseResources.KeepTitleCharsAppend | rede_cria_tabelas/dados_tse_baixa.py:197 | the filter distributes over concatenation, so every kept character of the input survives, in order |
| TseResources.KeepTitleCharsFixed | rede_cria_tabelas/dados_tse_baixa.py:197 | a string already of kept characters is unchanged |
| TseResources.CollapseFixed | rede_cria_tabelas/dados_tse_baixa.py:198 | a string already collapsed is unchanged |
| TseResources.SafeTitleIdempotent | rede_cria_tabelas/dados_tse_baixa.py:197-198 | making a safe title twice equals doing it once |
| TseResources.ResourceNamePlain | rede_cria_tabelas/dados_tse_baixa.py:193-199 | the filename is the URL's basename when non-empty, is never empty, never holds `/`, and the `== '/'` test never succeeds |
| TseResources.SynthesisedNamePlain | rede_cria_tabelas/dados_tse_baixa.py:199 | a title-made name holds no `/` |
| TseResources.FirstLabelled | rede_cria_tabelas/dados_tse_baixa.py:126 | the first anchor reading "ir para recurso", and no earlier one |
| TseResources.FirstDownloadLike | rede_cria_tabelas/dados_tse_baixa.py:130-136 | the first `http` anchor mentioning the CDN or "download", and no earlier one |
| TseResources.FirstDirect | rede_cria_tabelas/dados_tse_baixa.py:154-157 | the first file link of a resource page, and no earlier one |
| TseResources.ItemResourceWellFormed | rede_cria_tabelas/dados_tse_baixa.py:113-207 | a resource has a plain non-empty name, a cleaned URL and the format that URL names |
| TseResources.DirectLinkNotFollowed | rede_cria_tabelas/dados_tse_baixa.py:145-166 | a direct download link is used as it is, only cleaned |
| TseResources.ResourcesFrom | rede_cria_tabelas/dados_tse_baixa.py:113-211 | at most one resource per item |
| TseResources.ResourcesWellFormed | rede_cria_tabelas/dados_tse_baixa.py:113-213 | every resource returned is well formed |
| TseResources.ResourcesFromStep | rede_cria_tabelas/dados_tse_baixa.py:113-207 | each item appends its resource, if any, in order |
| TseResources.GetResourcesFromYear | rede_cria_tabelas/dados_tse_baixa.py:89-217 | the item loop computes the year's resources; none when the page or section is missing |
| TseYears.FirstYearMatch | rede_cria_tabelas/dados_tse_baixa.py:63 | the leftmost match of a word-bounded 19xx or 20xx, and none earlier |
| TseYears.Digits4Value | rede_cria_tabelas/dados_tse_baixa.py:65 | four digits read as their decimal value |
| TseYears.YearIn | rede_cria_tabelas/dados_tse_baixa.py:60-65 | an extracted year lies in 1900..2099 |
| TseYears.YearUrl | rede_cria_tabelas/dados_tse_baixa.py:67-72 | a kept href gives an `http` URL; other hrefs are dropped |
| TseYears.CollectSpec | rede_cria_tabelas/dados_tse_baixa.py:54-76 | no pair twice, and exactly the pairs the anchors give |
| TseYears.DedupSpec | rede_cria_tabelas/dados_tse_baixa.py:54-76 | the `if year_info not in years` filter keeps no pair twice and keeps every pair that occurs |
| TseYears.Insert | rede_cria_tabelas/dados_tse_baixa.py:79 | insertion adds the element and nothing else |
| TseYears.SortByYear | rede_cria_tabelas/dados_tse_baixa.py:79 | the sort is a permutation |
| TseYears.SortByYearMembers | rede_cria_tabelas/dados_tse_baixa.py:79 | the sorted list holds exactly the pairs of the unsorted one |
| TseYears.InsertSorted | rede_cria_tabelas/dados_tse_baixa.py:79 | insertion keeps the order latest year first |
| TseYears.SortByYearSorted | rede_cria_tabelas/dados_tse_baixa.py:79 | the sort puts the latest year first |
| TseYears.InsertOfYear | rede_cria_tabelas/dados_tse_baixa.py:79 | insertion puts an element after the others of its year |
| TseYears.SortByYearStable | rede_cria_tabelas/dados_tse_baixa.py:79 | the sort is stable: the pairs of each year keep their order |
| TseYears.InsertDistinct | rede_cria_tabelas/dados_tse_baixa.py:79 | inserting a new element keeps the pairs distinct |
| TseYears.SortByYearDistinct | rede_cria_tabelas/dados_tse_baixa.py:75-79 | sorting keeps the pairs distinct |
| TseYears.ElectionYearsSpec | rede_cria_tabelas/dados_tse_baixa.py:39-82 | the years: distinct, latest first, 1900..2099, absolute URLs, exactly the anchors' pairs |
| TseYears.GetElectionYears | rede_cria_tabelas/dados_tse_baixa.py:39-86 | the anchor loop and the sort compute the modelled years |
| TseSelection.LastSpace | rede_cria_tabelas/dados_tse_baixa.py:295 | the last whitespace position, with none after it |
| TseSelection.LastWord | rede_cria_tabelas/dados_tse_baixa.py:295 | `split()[-1]`: None exactly for an all-whitespace string, else a non-empty space-free word ending the stripped string |
| TseSelection.RStripSpaceDropsSpaces | rede_cria_tabelas/dados_tse_baixa.py:295 | right-stripping removes only whitespace |
| TseSelection.ParseAll | rede_cria_tabelas/dados_tse_baixa.py:303 | the comma list parses exactly when every stripped part is an integer, part by part |
| TseSelection.PyPrefix | rede_cria_tabelas/dados_tse_baixa.py:296 | `[:n]` with Python slice semantics, negative `n` included: a prefix of the clamped length |
| TseSelection.Picks | rede_cria_tabelas/dados_tse_baixa.py:304-309 | no more picks than indices, each one of the years |
| TseSelection.InRange | rede_cria_tabelas/dados_tse_baixa.py:306 | the kept indices lie in 1..n |
| TseSelection.PicksSpec | rede_cria_tabelas/dados_tse_baixa.py:304-309 | the picks are the in-range entries, 1-based, in the order given, duplicates kept |
| TseSelection.LastSelectsLatest | rede_cria_tabelas/dados_tse_baixa.py:293-296 | `last N` keeps a prefix of length min(N, len): the N latest elections |
| TseSelection.EmptySelection | rede_cria_tabelas/dados_tse_baixa.py:290-317 | an accepted empty selection comes only from `all` on no years or `last N` with N at most 0 or no years |
| TseSelection.NormalizePlain | rede_cria_tabelas/dados_tse_baixa.py:288 | stripping and lower-casing leave a lower-case answer without surrounding spaces unchanged |
| TseSelection.ParseDecimal | rede_cria_tabelas/dados_tse_baixa.py:295 | `int` reads back a decimal numeral |
| TseSelection.LastWordOfKey | rede_cria_tabelas/dados_tse_baixa.py:295 | the last word of `last 12` is `12` |
| TseSelection.InterpretLast | rede_cria_tabelas/dados_tse_baixa.py:293-296 | a normalised `last N` or `l N` means the last N years |
| TseSelection.LastRoundTrip | rede_cria_tabelas/dados_tse_baixa.py:288-296 | round trip: the answer `last N` or `l N` reads as the selection of the last N |
| TseSelection.InterpretIndex | rede_cria_tabelas/dados_tse_baixa.py:302-303 | a normalised numeral means that single index |
| TseSelection.IndexRoundTrip | rede_cria_tabelas/dados_tse_baixa.py:288-303 | round trip: the answer `k` reads as the selection of index k |
| TseSelection.Replies | rede_cria_tabelas/dados_tse_baixa.py:283-317 | a line asks again exactly when it cannot be read or none of its positions is in range; a line that selects gives only years from the list |
| TseSelection.SelectYearsFirst | rede_cria_tabelas/dados_tse_baixa.py:283-317 | the prompt returns the first answer that yields a selection, with the number of lines read |
| TseSelection.SelectYearsReads | rede_cria_tabelas/dados_tse_baixa.py:283-317 | a selection is made after reading between one line and all of them |
| TseSelection.SelectIndices | rede_cria_tabelas/dados_tse_baixa.py:304-309 | the index loop computes the picks |
| TseSelection.ReadOne | rede_cria_tabelas/dados_tse_baixa.py:288-317 | one pass of the prompt loop computes what that answer selects |
| TseSelection.PromptYearSelection | rede_cria_tabelas/dados_tse_baixa.py:271-317 | the prompt loop computes the modelled selection |
| TseMain.OutputPathLayout | rede_cria_tabelas/dados_tse_baixa.py:414 | a resource is saved at `dados-tse/<year>/<name>` |
| TseMain.FailureAfterLastAttempt | rede_cria_tabelas/dados_tse_baixa.py:429-452 | a resource counted as failed has used all retry attempts and gets exactly one failure record with its year, name and URL |
| TseMain.ResourceStep | rede_cria_tabelas/dados_tse_baixa.py:410-452 | each resource raises exactly one counter; `failed` rises only when the retry loop ends without success and `downloaded` only when it succeeds; a failure record is appended exactly when `failed` increases |
| TseMain.SkipLeavesDisk | rede_cria_tabelas/dados_tse_baixa.py:421-424 | a skipped resource leaves the disk and replies as they were and counts one skip |
| TseMain.OverwriteResumes | rede_cria_tabelas/dados_tse_baixa.py:417-435 | "overwrite" on an existing file does not truncate: the download resumes from its size |
| TseMain.RunResources | rede_cria_tabelas/dados_tse_baixa.py:410-452 | a year's resources raise the counters by their number and keep every failure recorded |
| TseMain.RunYears | rede_cria_tabelas/dados_tse_baixa.py:395-452 | the chosen years raise the counters by their total resources and keep every failure recorded |
| TseMain.NothingBeforeSelection | rede_cria_tabelas/dados_tse_baixa.py:369-380 | no years, no answer or an empty selection leaves the disk alone; status 0 only for an accepted empty selection |
| TseMain.RunAccountsForEveryResource | rede_cria_tabelas/dados_tse_baixa.py:360-493 | every failure has its record, and a run that exits 0 counted every resource of the chosen years once |
| TseMain.ProcessResource | rede_cria_tabelas/dados_tse_baixa.py:410-452 | one resource as the loop body runs it |
| TseMain.ProcessResources | rede_cria_tabelas/dados_tse_baixa.py:410-452 | the resource loop computes the modelled progress |
| TseMain.ProcessYears | rede_cria_tabelas/dados_tse_baixa.py:395-452 | the year loop computes the modelled progress |
| TseMain.RunMain | rede_cria_tabelas/dados_tse_baixa.py:360-493 | `main` under the top-level handler computes the modelled exit status, counters and disk |

## Left out

- HTTP is reduced to abstract replies consumed in order; a missing reply stands for a request that raised. `requests`, timeouts, headers sent and redirects are not modelled.
- HTML parsing is reduced to the elements the code reads:
  - Ceará pages: tables of cells, anchors and the page text.
  - TSE candidates page: its anchors.
  - TSE year page: whether the "Dados e recursos" heading exists, and the resource items' title, anchors and size text.
  - TSE resource pages: their hrefs.
- Which element BeautifulSoup's `find` selects, including the `class_` and `string` lambdas, is an input.
- `extract_pdf_links_selenium` is browser automation; its result for each date is an input map. Its filename cascade repeats the modelled one.
- `get_user_input` is not modelled: the mode, value and today's date are parameters. `GenerateDatesDomain` states what `datetime` needs not to raise.
- `datetime.now()` is not modelled; today's date is a parameter.
- `time.sleep` is not modelled; the requested pauses are recorded as a sequence.
- `tqdm`, `logging`, `print` and the summaries are not modelled.
- The failed-downloads text file is not modelled, and neither are the error message strings: a failure record keeps year, name and URL only.
- The MB size display is not modelled, because it is floating point.
- `setup_directories` and `os.makedirs` are not modelled. Directories are not part of the disk model, so opening a file in a missing directory is not modelled either.
- `KeyboardInterrupt` is not modelled. `sys.exit` becomes an exit status.
- `EOFError` in the Ceará prompt is caught by `download_file`'s generic handler, as a failed attempt.
- The per-item exception handler of `get_resources_from_year` is not modelled. Its only modelled trigger is `urlparse` raising `ValueError` on an unmatched `[` in a link's host (see Url.PathOf), where the source skips the item and the model keeps it.
- The resource page fetch's bare `except` is modelled as the page being absent from the input map.
- Url.Unquote: decodes each `%XX` escape to the Latin-1 character with that code. Python decodes runs of escapes as UTF-8 and replaces invalid bytes, so non-ASCII names differ.
- Url.QueryFields: does not decode `+` to a space as `parse_qs` does. It splits only on `&`, as `parse_qs` does since Python 3.9.2 (and 3.8.8, 3.7.10, 3.6.13); older versions also split on `;`.
- Url.PathOf: `urlsplit`'s stripping of control characters and its scheme-length rules are not modelled, and neither is the `ValueError` it raises when the host has an unmatched `[` (as in `http://[x/a.pdf`). The model gives a path there. For such a URL:
  - TSE: the source's per-item handler skips the item; the model keeps it.
  - TSE, `get_election_years`: an href such as `//[x/dados` on a year anchor makes `urljoin` (dados_tse_baixa.py:67-68) raise. The `except requests.RequestException` at dados_tse_baixa.py:84 does not catch it, so the top-level handler (dados_tse_baixa.py:489-493) exits with status 1. The model keeps the pair, and TseMain.RunMain goes on.
  - Ceará, `test_shortcut_url`: the source reaches its generic handler (diarios_ceara_scraper.py:230-232) and returns `(False, [])` only when its cascade falls through to the `urlparse` fallback. In the table pass (diarios_ceara_scraper.py:183-188) that happens when no cell qualifies, no Content-Disposition name comes back and the link text is empty or generic. In the direct pass (diarios_ceara_scraper.py:212-214) it happens for every such link, because the first step there is the only one. Otherwise the source keeps the link, under the name a later step gives.
- TseYears.YearUrl: for a site-relative href whose host part has an unmatched `[` (`//[x/dados`), returns a joined URL, where `urljoin` raises `ValueError` and the script exits with status 1 (see Url.PathOf).
- CearaFilenames.FilenameFromUrl: for a URL whose host has an unmatched `[`, returns the name in the path (`a.pdf` for `http://[x/a.pdf`). The source's `extract_filename_from_url` catches the `ValueError` itself (diarios_ceara_scraper.py:82-84) and returns None. So the model's cascade stops at its first step, where the source goes on to the cell, Content-Disposition and link-text steps.
- Url.ParsedPath: splits `;params` off the last segment for every scheme. `urlparse` does so only for the schemes it lists as using params, which include `http` and `https`.
- TseResources.JoinBase: `urljoin`'s dot-segment removal is not modelled. The joined hrefs are site-relative paths taken as they are. Neither is `urlunparse`'s normalisation: it drops an empty `?`, `#` or `;` and re-serialises an href with the site's own scheme.
- CearaDates.Format: pads years below 1000 with zeros to four digits, which `strftime('%Y')` does only on some platforms.
- Text.LowerChar, Text.IsAlnum and the other character classes follow Python only on the Latin-1 range. Above it they treat characters as non-letters.
- Text.ParseInt: accepts an optional sign and ASCII digits. Python's `int` also accepts underscores between digits and non-ASCII digits.
- CearaDates.GenerateDates: covers years 1 to 9998, where `datetime` is defined and the year-mode loop cannot run past 9999-12-31.
- The year range accepted by `get_user_input` (2000 to next year) is not modelled.
- TseMain.RunMain: the exit status is modelled, but not the text printed before it. An `EOFError` at any prompt, including the closing "press Enter", gives status 1 through the top-level handler.
