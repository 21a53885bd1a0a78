# crypto-dataset, modelled in Dafny

The crypto-dataset scripts download market candles (from Binance and from
Yahoo Finance) and keep them in CSV files, one file per ticker and interval.
On each run a script fetches new candles, merges them with what the file
already holds and writes the file back. Smaller scripts validate, split,
join and clean those files.

This project models the algorithms inside those scripts:

- **Chunked range windowing** (`Windowing`). `[start, end)` is cut into
  contiguous windows of at most `chunk_days`, and each window is requested
  on its own.
- **First-available-candle search** (`Binance`). A forward scan from
  2017-01-01 in 30-day steps, then a bisection.
- **Merging timestamped rows** (`Rows`, `Tables`). Saved rows are
  concatenated with new ones, de-duplicated on the timestamp and sorted.
  - Binance and the yfinance crypto scripts keep the first row of a
    timestamp, so saved rows win.
  - The stocks script keeps the last one, so downloaded rows win.
- **Column normalisation** (`YfColumns`, `YfFrames`). Tuple labels are
  flattened, names are renamed to lower case, `Adj Close` is dropped and
  the header is projected onto `datetime, open, high, low, close, volume`.
- **The downloaders**:
  - `Binance.DownloadInterval`;
  - `CryptoDatasets.DownloadInterval`;
  - the `IntradayShortTerm.IntradayDownloader` class;
  - the `HistoricDownloads.HistoricDataDownloader` class;
  - the stocks and forex `main` loops (`Stocks`, `Forex`).
- **The CSV validator** (`Validator`), the three-way split (`SplitCsv`) and
  the join (`JoinCsv`), and the long-term `clean_dataset` (`CleanDataset`).
- **Ticker-list parsing and names** (`Tickers`, `TickerHistory`):
  `str.strip`, comment lines, the `=X` forex suffix, the period table, file
  and folder names.

How the world outside the scripts appears in the model:

- Timestamps are integers in milliseconds.
- A table is a header and rows, each row keyed by its timestamp.
- Files on disk are a map from path to `Missing`, `Unreadable` or
  `Readable(table)`.
- Every provider call is a function passed in as a parameter. `None` stands
  for a call that raised or returned nothing.
- The clock is a parameter too.

Each loop of the source is a method. It is proved equal to a specification
function of its inputs, and the properties the scripts rely on are proved
as lemmas about those functions.

## Model

| member | source | states |
|---|---|---|
| Common.DayFloor | binance/update_binance_dataset.py:169-170 | a request string names only the day: the result is the start of the day holding `t` |
| Windowing.Plan | binance/update_binance_dataset.py:164-181 | with a positive chunk the loop visits no window exactly when `start >= end` |
| Windowing.PlanShape | binance/update_binance_dataset.py:164-181 | the windows are contiguous, start at `start`, end exactly at `end`, are non-empty and at most one chunk long; all but the last are exactly one chunk |
| Windowing.PlanWithin | yfinance/cryptos/update_crypto_datasets.py:121-142 | every window lies inside `[start, end)` |
| Windowing.PlanCovers | yfinance/cryptos/update_intraday_short-term.py:147-171 | a point lies in some window exactly when it lies in `[start, end)` |
| Windowing.FetchAll | binance/update_binance_dataset.py:163-181 | the chunk loop visits exactly the planned windows and keeps, in window order, the results of the requests that returned data |
| Rows.DedupKeepFirst | binance/update_binance_dataset.py:185 | keep-first de-duplication: unique keys, the same key set, and every kept row is the first row with its key |
| Rows.DedupKeepLast | yfinance/stocks/update_stocks_datasets.py:84 | keep-last de-duplication: unique keys, the same key set, and every kept row is the last row with its key |
| Rows.SortByTime | binance/update_binance_dataset.py:186 | sorting gives strictly ascending timestamps and a permutation of the input (same multiset, same keys) |
| Rows.MergeKeepFirstSpec | binance/update_binance_dataset.py:195-199 | saved rows then new rows, keep-first and sorted: ascending, the union of the keys, and the saved row wins on a shared key |
| Rows.MergeKeepLastSpec | yfinance/stocks/update_stocks_datasets.py:82-86 | the same merge with keep-last: ascending, the union of the keys, and the new row wins on a shared key |
| Rows.MergeOfCleanedBatch | binance/update_binance_dataset.py:183-199 | merging with a batch that was itself de-duplicated and sorted keeps the saved row, or else the batch's first row with that key |
| Tables.HeaderUnion | binance/update_binance_dataset.py:195 | the columns of a concatenation: those of the first frame in order, then the others; a name is present exactly when one side has it |
| Tables.Concat | binance/update_binance_dataset.py:195 | concatenation keeps the first frame's rows, then the second's |
| Tables.ConcatAll | binance/update_binance_dataset.py:184 | the concatenation of the chunks has a column exactly when some chunk has it |
| Tables.ConcatAllRows | binance/update_binance_dataset.py:184 | its rows are every chunk's rows, chunk after chunk |
| Tables.DedupSortFirst | binance/update_binance_dataset.py:185-186 | with the key column present the rows become ascending with the same keys; without it the frame is left unchanged |
| Binance.IntervalClassification | binance/update_binance_dataset.py:31-44 | an interval is in the map exactly when it is intraday or historical, and never both, so the "not recognised" branch is unreachable |
| Binance.KlineWidth | binance/update_binance_dataset.py:173 | the frame of a kline list is as wide as its longest kline |
| Binance.Pad | binance/update_binance_dataset.py:173 | a shorter kline is padded with missing cells and keeps its own fields in front |
| Binance.SecondFloor | binance/update_binance_dataset.py:60 | the written open time is the open time cut to the second |
| Binance.ProcessKlinesSpec | binance/update_binance_dataset.py:47-62 | `process_klines` names exactly the twelve columns in order and keeps one row per kline: `close_time` is the kline's close time rendered as a date, every other field is kept as given, and missing fields are empty; it fails exactly when the frame is not twelve wide |
| Binance.ScanNoData | binance/update_binance_dataset.py:79-99 | the forward scan finds nothing exactly when no probe at 2017-01-01 plus 30k days before `now` has data |
| Binance.ScanFound | binance/update_binance_dataset.py:79-96 | a scan that finds data stops at the first probe with data, and the last empty probe is the one before it |
| Binance.CoarseScan | binance/update_binance_dataset.py:75-96 | the forward loop computes the scan |
| Binance.BisectSpec | binance/update_binance_dataset.py:102-120 | the bisection stays in `[low, high]` and returns `high` or a point with data; for a monotone probe nothing earlier in the range has data |
| Binance.Bisect | binance/update_binance_dataset.py:105-118 | the bisection loop keeps `low <= high` and `high` as the first candle found or a point with data, and terminates |
| Binance.GetFirstAvailableDate | binance/update_binance_dataset.py:64-120 | `get_first_available_date` is the scan, an error when it finds nothing, then the bisection |
| Binance.FirstAvailableDateFails | binance/update_binance_dataset.py:98-99 | the search raises exactly when no probe before `now` has data |
| Binance.NoDataBelowBisection | binance/update_binance_dataset.py:102 | with monotone data, nothing from 2017-01-01 up to the bisection's lower end has data |
| Binance.FirstAvailableDateIsFirst | binance/update_binance_dataset.py:64-120 | for a monotone, sane provider the result is the first instant from 2017-01-01 whose day has data |
| Binance.ResumeAfterSaved | binance/update_binance_dataset.py:146-150 | resuming one second after the last saved open time starts after every saved candle of a sorted file |
| Binance.DownloadInterval | binance/update_binance_dataset.py:122-232 | `download_interval`: an unknown interval is an error, intraday intervals resume or search and then chunk and merge, historical ones make one request |
| Binance.MergeSavedEmptyCases | binance/update_binance_dataset.py:187-199 | with nothing downloaded, a non-empty file survives de-duplicated and sorted; with both empty the result is the empty frame with the twelve kline columns |
| Binance.MergeSavedSorted | binance/update_binance_dataset.py:190-199 | the merged rows are ascending with unique open times and cover the saved and downloaded open times |
| Binance.MergeSavedPrecedence | binance/update_binance_dataset.py:194-199 | on a shared open time the saved row wins; otherwise the first downloaded row is kept |
| Binance.MergedRows | binance/update_binance_dataset.py:194-199 | with both sides non-empty the merge is keep-first over saved rows, then downloaded ones |
| Binance.DownloadedKlines | binance/update_binance_dataset.py:183-186 | the chunk result is the chunks' rows, keep-first on open time and sorted, and keeps the `open_time` column |
| Binance.ChunkHeaders | binance/update_binance_dataset.py:172-176 | every chunk kept by the loop has the twelve kline columns |
| Binance.DownloadedRows | binance/update_binance_dataset.py:183-188 | the concatenated chunks keep `open_time`, and their rows are the chunks' rows, keep-first on open time and sorted |
| Binance.MergeSavedSpec | binance/update_binance_dataset.py:187-199 | for a missing, unreadable, empty or non-empty file, the result is ascending, its open times are the saved ones plus the downloaded ones, a saved row wins on a shared open time, and otherwise the first downloaded row is kept |
| Binance.DownloadMerged | binance/update_binance_dataset.py:122-207 | an intraday `download_interval` that succeeds returns rows that are ascending, cover the saved and the downloaded open times, keep the saved row on a shared open time and otherwise the first downloaded one; with `save_csv` the file holds exactly the result, without it nothing is written |
| Binance.ResumedWindows | binance/update_binance_dataset.py:148-166 | a resumed download's windows start one second after the last saved candle, end at `now`, are contiguous and at most `chunk_days` long |
| YfColumns.FlattenColumns | yfinance/cryptos/update_crypto_datasets.py:33-48 | flattening keeps the column count, takes level 0 of a `MultiIndex`, turns each tuple into its first element and keeps every other name |
| YfColumns.FlattenPlainNames | yfinance/cryptos/update_crypto_datasets.py:40-47 | flattening plain names changes nothing |
| YfColumns.RenameMap | yfinance/cryptos/update_crypto_datasets.py:56-71 | the rename map has an entry exactly for each renamable column that is present |
| YfColumns.Rename | yfinance/cryptos/update_crypto_datasets.py:73 | renaming keeps the column count |
| YfColumns.RenamedPointwise | yfinance/cryptos/update_crypto_datasets.py:56-73 | the map built from the present columns renames each column as the fixed table says |
| YfColumns.DropAll | yfinance/cryptos/update_crypto_datasets.py:76-77 | dropping `c` removes every column named `c` and keeps all others |
| YfColumns.Present | yfinance/cryptos/update_crypto_datasets.py:85 | the filtered final list holds exactly the wanted names that are present |
| YfColumns.CountPick | yfinance/cryptos/update_crypto_datasets.py:86 | selecting names listed once keeps each selected name as often as the frame has it |
| YfColumns.InPick | yfinance/cryptos/update_crypto_datasets.py:86 | a name is in the selection exactly when it is requested and present |
| YfColumns.PickSingletons | yfinance/cryptos/update_crypto_datasets.py:86 | when every requested name occurs once, the selection is exactly the requested list |
| YfColumns.UnifiedColumns | yfinance/cryptos/update_crypto_datasets.py:50-88 | `unify_columns` keeps only final names, never `Adj Close`, and a final name exactly when some column is renamed to it |
| YfColumns.UnifiedOrder | yfinance/cryptos/update_crypto_datasets.py:83-86 | without doubled names the result is the subsequence of `datetime, open, high, low, close, volume` present after renaming, in that order |
| YfColumns.UnifiedIdempotent | yfinance/cryptos/update_crypto_datasets.py:159 | unifying an already unified header (the saved CSV read back) changes nothing |
| YfColumns.HistoricColumnsShape | yfinance/cryptos/update_crypto_datasets.py:180-191 | the single-request branch keeps exactly the six final columns, never `Adj Close`, and exactly in order when each occurs once |
| YfFrames.ResetHeader | yfinance/cryptos/update_crypto_datasets.py:134-135 | `reset_index` puts the index name first, followed by the flattened columns |
| YfFrames.UnifyTable | yfinance/cryptos/update_crypto_datasets.py:136 | unifying the columns keeps the rows |
| YfFrames.ChunkTable | yfinance/cryptos/update_crypto_datasets.py:125-141 | a chunk is kept only when its request succeeded and returned rows, and it keeps those rows |
| YfFrames.DownloadedSpec | yfinance/cryptos/update_crypto_datasets.py:144-151 | no chunks give an empty frame; otherwise, with a `datetime` column, the rows are the chunks' rows keep-first, ascending |
| YfFrames.MergeExistingSorted | yfinance/cryptos/update_crypto_datasets.py:155-163 | the merged file is ascending with unique timestamps covering the file's and the chunks' |
| YfFrames.MergeExistingPrecedence | yfinance/cryptos/update_crypto_datasets.py:158-163 | on a shared timestamp the file's row wins; otherwise the first downloaded row is kept |
| CryptoDatasets.DefaultsSpec | yfinance/cryptos/update_crypto_datasets.py:103-113 | default `historical_days` is 90 for `60m`/`1h`, 60 for `90m` and 30 otherwise; default `chunk_days` is 8 for `1m` and 15 otherwise; a given value is used as is |
| CryptoDatasets.ScriptParamsAreDefaults | yfinance/cryptos/update_crypto_datasets.py:241-250 | the script's explicit intraday parameters equal the defaults for each of its eight intervals |
| CryptoDatasets.DownloadInterval | yfinance/cryptos/update_crypto_datasets.py:90-204 | `download_interval` chunks and merges intraday intervals and makes one `period="max"` request for any other |
| CryptoDatasets.IntradayWindowsShape | yfinance/cryptos/update_crypto_datasets.py:115-142 | the windows start one day after `now - historical_days`, end at `now`, are contiguous and at most `chunk_days` long; none when `historical_days <= 1` |
| CryptoDatasets.IntradayWrites | yfinance/cryptos/update_crypto_datasets.py:153-169 | with `save_csv` the call writes exactly what it returns; without it nothing |
| CryptoDatasets.IntradayMerged | yfinance/cryptos/update_crypto_datasets.py:144-166 | the written rows are ascending with unique timestamps covering old and new, and the old row wins on a shared timestamp |
| CryptoDatasets.NothingDownloadedKeepsFile | yfinance/cryptos/update_crypto_datasets.py:144-166 | with no chunk returning data, the saved rows come back de-duplicated and sorted and are written |
| CryptoDatasets.HistoricalBranch | yfinance/cryptos/update_crypto_datasets.py:171-204 | a non-intraday interval returns an empty frame and writes nothing, or returns the six final columns and the answer's rows, written when `save_csv` is set |
| IntradayShortTerm.ClampsSpec | yfinance/cryptos/update_intraday_short-term.py:40-67 | a given `historical_days` above 30 becomes 30 for minute intervals and is otherwise kept; a given `chunk_days` above 8 becomes 8 for `1m` and is otherwise kept |
| IntradayShortTerm.DefaultsAgainstCryptoScript | yfinance/cryptos/update_intraday_short-term.py:40-63 | the defaults (30 for minute intervals, 90 for `60m`/`90m`/`1h`, chunk 8 or 15) agree with the crypto script's except 90 against 60 days for `90m` |
| IntradayShortTerm.IntradayDownloader.constructor | yfinance/cryptos/update_intraday_short-term.py:16-70 | the range starts `historical_days - 1` days before `now` and ends at `now` pulled back by `adjust_dates`; the chunk is `chunk_days` |
| IntradayShortTerm.IntradayDownloader.AdjustDates | yfinance/cryptos/update_intraday_short-term.py:72-80 | afterwards `end_date <= now`, and it changes only if it was in the future |
| IntradayShortTerm.IntradayDownloader.Download | yfinance/cryptos/update_intraday_short-term.py:139-214 | `download` chunks the range, de-duplicates and sorts, then merges behind the saved file; an unreadable saved file makes it raise |
| IntradayShortTerm.NoDataNoFile | yfinance/cryptos/update_intraday_short-term.py:173-175 | when no window returns data the result is an empty frame and no file is written |
| IntradayShortTerm.DownloadMerged | yfinance/cryptos/update_intraday_short-term.py:177-212 | the written rows are ascending with unique timestamps covering saved and new, and the saved row wins on a shared timestamp |
| Validator.MatchesSome | web/crypto/bitcoin/validate_datasets.py:19-25 | the first-success search accepts exactly when some format matches |
| Validator.ValidDateSpec | web/crypto/bitcoin/validate_datasets.py:12-25 | a date is valid exactly when it has the date-only or the date-and-time shape, and no text has both |
| Validator.Padded | web/crypto/bitcoin/validate_datasets.py:12 | zero-padded fields have the format's width and read back as the number written |
| Validator.RenderDateValid | web/crypto/bitcoin/validate_datasets.py:12 | a zero-padded `%Y-%m-%d` date is accepted exactly when it is a real calendar date |
| Validator.Basename | web/crypto/bitcoin/validate_datasets.py:36 | the base name is the path's suffix after its last `/` |
| Validator.HeaderOkSpec | web/crypto/bitcoin/validate_datasets.py:36-46 | the header passes exactly when it has the expected count (7 for `BTC-USD_1m.csv`, else 6) and starts with the base header |
| Validator.RowErrorsSpec | web/crypto/bitcoin/validate_datasets.py:71-103 | a wrong width gives one error; the date error iff the date is bad; a non-number gives one error and no price errors; each price error iff its rule fails; none iff the row is valid |
| Validator.CheckRow | web/crypto/bitcoin/validate_datasets.py:70-103 | the checks on one row append its errors in order |
| Validator.ValidateFile | web/crypto/bitcoin/validate_datasets.py:27-106 | `validar_archivo` computes the file's error list |
| Validator.ValidateRecords | web/crypto/bitcoin/validate_datasets.py:57-103 | a file with a header line reports the header error when the header fails, then every data row's errors from line 2 on |
| Validator.CheckRows | web/crypto/bitcoin/validate_datasets.py:67-103 | the row loop numbers data rows from line 2 and accumulates their errors |
| Validator.RowsErrorsLineRange | web/crypto/bitcoin/validate_datasets.py:67-69 | every row error names a line within the data rows |
| Validator.CheckOfLocalized | web/crypto/bitcoin/validate_datasets.py:67-103 | each error of the row check names the line of the row it checked |
| Validator.RowsErrorsLines | web/crypto/bitcoin/validate_datasets.py:67-103 | every row error comes from the row on the line it names |
| Validator.RowsErrorsComplete | web/crypto/bitcoin/validate_datasets.py:68-103 | every error of every data row is reported |
| Validator.FileErrorsParts | web/crypto/bitcoin/validate_datasets.py:48-69 | an empty file gives exactly the one empty-file error; any other file gives its header's errors, then its rows' |
| Validator.FileErrorsLines | web/crypto/bitcoin/validate_datasets.py:57-103 | the header error is reported iff the header fails; every other error names a data line and is one of that row's errors |
| Validator.FileErrorsRowsReported | web/crypto/bitcoin/validate_datasets.py:57-69 | a bad header does not stop the rows: every row error is still reported |
| Validator.RowsErrorsNone | web/crypto/bitcoin/validate_datasets.py:68-103 | the rows raise nothing exactly when every row is valid |
| Validator.DataRowsValid | web/crypto/bitcoin/validate_datasets.py:68-103 | the data rows of a file raise nothing exactly when each of them is valid |
| Validator.FileErrorsClean | web/crypto/bitcoin/validate_datasets.py:27-106 | a file with lines passes exactly when its header passes and every data row is valid |
| Validator.ValidateAll | web/crypto/bitcoin/validate_datasets.py:123-138 | every file is validated, and the exit status is 1 exactly when some report has errors |
| SplitCsv.PartSizesBalanced | web/crypto/bitcoin/source/1minute/split_csv_three.py:14-28 | the part sizes add up to the row count, are non-increasing and differ by at most one |
| SplitCsv.PartSizesUnique | web/crypto/bitcoin/source/1minute/split_csv_three.py:14-28 | they are the only sizes with that property |
| SplitCsv.SplitThree | web/crypto/bitcoin/source/1minute/split_csv_three.py:5-55 | the split counts the rows, stops when there are none, writes the header three times and routes each row by its index |
| SplitCsv.SplitSpec | web/crypto/bitcoin/source/1minute/split_csv_three.py:8-55 | it fails exactly without data rows; otherwise each part starts with the header, row `i` lands at its offset in its part, and the parts' rows concatenate to the input's |
| JoinCsv.JoinThree | web/crypto/bitcoin/source/1minute/join_csv.py:5-35 | the join opens the output, compares the headers, then writes the first header and the three files' rows |
| JoinCsv.JoinSpec | web/crypto/bitcoin/source/1minute/join_csv.py:5-35 | it succeeds exactly when the three headers are equal, leaves the output empty otherwise, and writes the header, then the rows of files 1, 2 and 3, one line more than their data rows |
| JoinCsv.JoinAfterSplit | web/crypto/bitcoin/source/1minute/join_csv.py:17-35 | joining the three parts of a split gives back the file that was split |
| JoinCsv.SplitAfterJoin | web/crypto/bitcoin/source/1minute/split_csv_three.py:14-55 | splitting a join gives back the three inputs when their sizes are those the split would choose |
| Tickers.TrimStartSpec | yfinance/stocks/update_stocks_datasets.py:34 | what `lstrip` drops is whitespace, and what it keeps starts with something else |
| Tickers.TrimEndSpec | yfinance/stocks/update_stocks_datasets.py:34 | what `rstrip` drops is whitespace, and what it keeps ends with something else |
| Tickers.StripSpec | yfinance/stocks/update_stocks_datasets.py:34 | the stripped text is the slice between leading and trailing whitespace and does not start or end with whitespace |
| Tickers.StripUnique | yfinance/stocks/update_stocks_datasets.py:34 | any cut of a line into whitespace, a trimmed middle and whitespace gives the stripped text |
| Tickers.StripIdempotent | yfinance/stocks/update_stocks_datasets.py:34 | stripping twice is stripping once |
| Tickers.ParseTickers | yfinance/stocks/update_stocks_datasets.py:34 | there are never more tickers than lines |
| Tickers.ParseTickersAppend | yfinance/stocks/update_stocks_datasets.py:34 | parsing two parts of a file gives the first part's tickers, then the second's, in file order |
| Tickers.ParseTickersSpec | yfinance/forex/update_forex_datasets.py:34 | the tickers are exactly the stripped lines that are non-empty and not `#` comments; each is stripped |
| Tickers.PeriodForSpec | yfinance/stocks/update_stocks_datasets.py:15-29 | `1m` gets 7 days, the other minute intervals and `90m` 60 days, `60m`/`1h` 730 days, and every other interval, listed or not, `max` |
| Tickers.ForexSymbolSpec | yfinance/forex/update_forex_datasets.py:47 | the forex symbol is the ticker followed by `=X`, so no two tickers share a symbol |
| Tickers.JoinPathInside | yfinance/stocks/update_stocks_datasets.py:72 | a relative name joined to a directory is the directory, a `/` and the name |
| TickerHistory.RenameDatetimeSpec | yfinance/stocks/update_stocks_datasets.py:65-66 | after the rename there is no `Datetime`, other names keep their place, and `Date` is present iff `Date` or `Datetime` was |
| TickerHistory.Fresh | yfinance/stocks/update_stocks_datasets.py:64-66 | `reset_index` and the rename keep the rows and add the index as one column |
| Stocks.Loaded | yfinance/stocks/update_stocks_datasets.py:75-80 | a saved file that fails to load, or has no `Date` column, counts as an empty frame |
| Stocks.RunIntervalsStopped | yfinance/stocks/update_stocks_datasets.py:50-95 | once an interval raises outside the `try`, the later intervals change nothing and the error is kept |
| Stocks.RunIntervalsStopsAt | yfinance/stocks/update_stocks_datasets.py:50-95 | when interval `n` is the first to raise, the run ends with its missing-`Date` error and the disk as the earlier intervals left it |
| Stocks.RunTickersStopped | yfinance/stocks/update_stocks_datasets.py:40-95 | once a ticker's run raises, the later tickers change nothing |
| Stocks.RunTickersStopsAt | yfinance/stocks/update_stocks_datasets.py:40-95 | when ticker `n` is the first to raise, the run ends as that ticker's run on the disk the earlier tickers left, files already written included |
| Stocks.ProcessTicker | yfinance/stocks/update_stocks_datasets.py:46-95 | the interval loop of one ticker computes the interval fold; a raise ends it with the error and the files already written |
| Stocks.ProcessInterval | yfinance/stocks/update_stocks_datasets.py:51-95 | one interval: a failed or empty request is skipped; otherwise the renamed frame is merged keep-last with a file that exists and written, or the run stops when there is no `Date` column |
| Stocks.UpdateStocks | yfinance/stocks/update_stocks_datasets.py:31-95 | `main` does nothing without a ticker file and otherwise runs every parsed ticker in order, stopping with the disk as written so far at the first raise |
| Stocks.IntervalStepSpec | yfinance/stocks/update_stocks_datasets.py:53-95 | a skipped answer changes nothing; only the interval's file changes; the run raises iff the file exists and neither side has `Date`, and then the disk is left as it was; a new file gets the renamed answer |
| Stocks.MergedStep | yfinance/stocks/update_stocks_datasets.py:75-86 | with a saved file that loads, the step writes the keep-last merge of saved and downloaded rows |
| Stocks.MergedFile | yfinance/stocks/update_stocks_datasets.py:75-86 | the merged dates are unique, ascending and cover both sides; the downloaded row wins on a shared date, else the last saved row stays |
| Stocks.UnloadableFile | yfinance/stocks/update_stocks_datasets.py:76-86 | a saved file that fails to load is treated as empty: the file holds the downloaded rows alone, keep-last and sorted |
| Stocks.AllSkipped | yfinance/stocks/update_stocks_datasets.py:53-61 | when every request of a ticker is skipped, its run leaves the disk as it was and goes on |
| Stocks.RunIntervalsFrame | yfinance/stocks/update_stocks_datasets.py:72-95 | a ticker's run, whether it completes or raises, writes only the files of its own intervals |
| Forex.ProcessPair | yfinance/forex/update_forex_datasets.py:47-76 | the interval loop of one pair asks for the `=X` symbol and writes each usable answer |
| Forex.ProcessInterval | yfinance/forex/update_forex_datasets.py:50-76 | one interval: a failed or empty request for the `=X` symbol is skipped; otherwise the renamed frame is written over the file |
| Forex.UpdateForex | yfinance/forex/update_forex_datasets.py:32-76 | `main` does nothing without a list of pairs and otherwise runs every parsed pair in order |
| Forex.IntervalStepSpec | yfinance/forex/update_forex_datasets.py:54-76 | a skipped answer changes nothing; otherwise the file holds exactly the renamed answer, without `Datetime`, whatever it held before, and no other path changes |
| Forex.RunIntervalsUntouched | yfinance/forex/update_forex_datasets.py:54-62 | a file whose every request is skipped keeps its state |
| Forex.RunIntervalsLastWrite | yfinance/forex/update_forex_datasets.py:50-76 | after a pair's run, a file holds the answer of the last request for it that was not skipped |
| HistoricDownloads.Level0Header | yfinance/cryptos/update_1d_1mo_1wk.py:39-43 | after `get_level_values(0)` and `reset_index` the header starts with the index |
| HistoricDownloads.IntervalFrameSpec | yfinance/cryptos/update_1d_1mo_1wk.py:33-64 | a usable answer keeps the downloaded rows and exactly the six final columns, never `Adj Close`, in order when each occurs once |
| HistoricDownloads.HistoricDataDownloader.constructor | yfinance/cryptos/update_1d_1mo_1wk.py:11-19 | the downloader keeps its ticker and output folder |
| HistoricDownloads.HistoricDataDownloader.Download | yfinance/cryptos/update_1d_1mo_1wk.py:21-79 | every interval is requested in turn; a usable answer is stored under its interval and, with `save_csv`, written |
| HistoricDownloads.DownloadDict | yfinance/cryptos/update_1d_1mo_1wk.py:30-79 | the result has a key exactly for each requested interval whose answer was usable, holding that answer; one failing interval does not affect the others |
| HistoricDownloads.FilePathInjective | yfinance/cryptos/update_1d_1mo_1wk.py:70 | two intervals of one ticker never share a file |
| HistoricDownloads.DownloadFiles | yfinance/cryptos/update_1d_1mo_1wk.py:66-72 | with `save_csv` the file of every stored interval holds its frame, and no other path changes; without it nothing is written |
| HistoricDownloads.BeforeDashSpec | yfinance/cryptos/update_1d_1mo_1wk.py:99 | `split("-")[0]` is the prefix before the first `-`, or the whole text |
| HistoricDownloads.FolderNameSpec | yfinance/cryptos/update_1d_1mo_1wk.py:99 | the folder is the ticker up to its first `-`, in lower case, with no `-` and no capital |
| HistoricDownloads.UpdateHistoric | yfinance/cryptos/update_1d_1mo_1wk.py:94-104 | every ticker is downloaded for `1d`, `1wk`, `1mo` into the folder named after it |
| CleanDataset.CleanedSpec | cryptos/btc/intraday/long-term/clean_dataset.py:20-29 | cleaning succeeds exactly when all wanted columns exist; the result has `Date, Close, High, Low, Open, Volume` in order, the same row count, the converted `Date` and every other cell taken from the input column of the same name |
| CleanDataset.CleanedErrors | cryptos/btc/intraday/long-term/clean_dataset.py:23-29 | no `Date` column is its own error; otherwise the error names exactly the wanted columns that are missing |
| CleanDataset.CleanFileWrites | cryptos/btc/intraday/long-term/clean_dataset.py:32-36 | a file is written exactly when a non-empty output name is given, and it holds what is returned |
| CleanDataset.ReselectCleaned | cryptos/btc/intraday/long-term/clean_dataset.py:28-29 | a cleaned frame holds every wanted column, and selecting them again without converting `Date` gives back its rows |
| CleanDataset.CleanNameSpec | cryptos/btc/intraday/long-term/clean_dataset.py:48 | the output name is `clean_` followed by the input name, so distinct inputs never share an output |
| CleanDataset.CleanAllSpec | cryptos/btc/intraday/long-term/clean_dataset.py:40-50 | when the script completes, each input's cleaned frame is under its `clean_` name and nothing else is written |
| CleanDataset.CleanAllStopped | cryptos/btc/intraday/long-term/clean_dataset.py:46-50 | once a file raises, the later files write nothing and the error is kept |
| CleanDataset.CleanAllStopsAt | cryptos/btc/intraday/long-term/clean_dataset.py:46-50 | when file `n` is the first to raise, the script ends with its error and with the files the earlier inputs wrote |

## Left out

- Network calls, file reads and writes, `os.makedirs`, `print`, `tqdm` and `sys.exit` are not modelled.
  - Providers are function parameters; files are the `Disk` map or sequences of records; exit codes are returned values.
  - The clock is a parameter, read once per call.
- A write that fails (`to_csv` raising) is not modelled. In particular the historic downloader would raise after storing the interval in its dictionary; the model always writes.
- Timestamps are integer milliseconds.
  - pandas' nanosecond resolution and calendar arithmetic are not modelled.
  - `strftime("%d %b %Y")` is modelled as truncation to the day.
  - `pd.to_datetime` and its failures are not modelled. So are `tz_localize(None)` and the parsing of saved dates; a saved row's timestamp is given.
- Rows are keyed by their timestamp column. A row whose timestamp cannot be read, or a frame whose rows lack the key, is not modelled.
- CleanDataset.Cleaned: the `Date` conversion (`to_datetime(...).tz_localize('UTC')`) is the parameter `toUtc`, and its failures are not modelled: an unparsable date, and `tz_localize` raising on dates that already carry a time zone. So cleaning a cleaned frame again, which raises in the script, is not modelled; CleanDataset.ReselectCleaned states only that the column selection is stable.
- Validator.ValidDateSpec: only zero-padded fields, ASCII digits and a single space are accepted. `strptime` also accepts single-digit months, days and times, lets the space in the format match any run of whitespace, and lets `\d` match non-ASCII digits; this model rejects those texts.
- Validator: number parsing is the parameter `parse`, so `float`, NaN and infinities are not modelled.
  - A decoding error part-way through a file (the outer `except` of `validar_archivo`) is not modelled. The file is given as its records.
  - The `glob` default list of files in `main` is not modelled; the files are given.
- SplitCsv.SplitThree: each record is one physical line. CSV quoting that spans lines is not modelled.
- Windowing.Plan: requires a positive chunk. The scripts never check it, and with a chunk of zero or less their loops never end.
- Binance.ProcessKlines: the rendering of `close_time` (`pd.to_datetime(..., unit='ms')` formatted as `%Y-%m-%d %H:%M:%S`) is the parameter `stamp`. Klines of different lengths are padded with empty cells, and a missing close time is rendered as `stamp("")`; pandas' missing-value type is not modelled.
- Binance.DownloadMerged: requires a non-empty readable file to have an `open_time` column. Without it `drop_duplicates` raises, the script catches that and writes the unsorted concatenation; `MergeSaved` models that branch, but the lemma does not state it.
- Row cells other than the key are opaque text.
  - pandas `concat` lines cells up by column name and fills missing columns with NaN. `Tables.Concat` appends rows as they are and only joins the headers.
  - Renames, drops and column selections change only the header and keep the rows (`YfFrames.UnifyTable`, the historic downloader's frames); the matching change to each row's cells is not modelled. `CleanDataset.Cleaned` is the exception and does project each row.
  - The re-formatting of numbers by `read_csv` and `to_csv` is not modelled.
- HistoricDownloads.Level0Header: a tuple label in a flat column index is left as a tuple by that script. It can never match a renamed, dropped or selected name, so the model omits it from the header.
- HistoricDownloads.FolderName: lower-casing covers ASCII letters only, where Python's `lower` covers all of Unicode.
- Tickers.IsSpace: the whitespace set is the ASCII controls, the separators 0x1C-0x1F, space and the Unicode space characters. Other characters that Python counts as whitespace in future Unicode versions are not tracked.
- The ticker lists are given as parameters; `json.load` of `cryptos.txt` is not modelled.
  - A missing `stocks.txt` or `forex.txt` is the `None` ticker file.
- The `download` methods that loop over intervals into a dictionary are not modelled. So are the `__main__` drivers of the Binance, crypto and short-term intraday scripts, including the Binance folder name (`replace("USDT", "").lower()`).
  - The historic downloader's loop and driver are modelled.
- `cryptos/update_1d_1mo_1wk.py` is not part of this model. It repeats the folder and file naming of the yfinance historic script, which is modelled.
