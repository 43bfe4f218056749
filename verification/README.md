# QueryQuarry batch query client, modelled in Dafny

The command-line client of QueryQuarry reads a file of query lines. It sends
each line to a corpus-query service, one after another. In `count` mode it
prints `query: occurrences` for each line. In `csv` mode it writes one CSV
file: a header, then one row per document returned for each query, prefixed
with the query's index and text. The first fatal condition stops the run:
a failed send, a non-200 status, an unreadable body or a CSV read error.

This project models that client as pure functions:

- `Protocol` holds the two actions and the request built for one line
  (`createRequest`). It also holds the abstract reply that replaces HTTP.
- `OutputPath` derives the results file name (`path.Ext`, `strings.TrimSuffix`).
- `CountMode` is the `cmdCount` loop, as a fold over (line, reply) pairs.
- `CsvMode` is the `cmdCSV` loop, as the same kind of fold. `CmdCsv` is a
  loop method with the source's shape, proved to compute the fold.
- `Cli` is the action gate in `main` and the dispatch to one of the loops.
- `Text` holds Go strings as byte sequences, and the decimal rendering of
  `fmt.Sprint` together with its inverse.

The service's answer to one request is a `Response`. It is either a send
error, or a reply made of four parts:
- the status;
- what `io.ReadAll` returns for the body, or `None` for a read error;
- what `json.Unmarshal` yields for it, or `None` for a decode error;
- what a `csv.Reader` reads from it: the records, and whether reading ended
  in an error rather than end of stream.

Each loop looks only at the parts the source reads. The network, the files
and the encoding libraries are replaced by these values.

Facts about the code that the model keeps:
- In count mode the code ignores a JSON decode error. It prints zero and
  goes on to the next line, because the error of `json.Unmarshal` is
  discarded.
- Success means status exactly 200, not any 2xx status.
- In count mode the body is read before the status is checked. So a body
  read error is fatal with its own message, even for a 200 reply.
- A CSV read error can stop a run after some records of that reply were
  already handed to the writer. Those rows carry the index of the failing
  query, which equals the number of queries that succeeded. Every index is
  below the number of successful queries only in completed runs
  (`CsvIndexBound`).

## Model

| member | source | states |
|---|---|---|
| Protocol.ParseAction | cmd/cli/main.go:38-40 | an action is accepted exactly when it is "count" or "csv", and each spelling maps to its own action |
| Protocol.ActionName | cmd/cli/main.go:23-26 | the spelling of each action is read back by the gate as that same action |
| Protocol.CreateRequest | cmd/cli/main.go:167-185 | the payload carries the configured dataset and the query line, its length is the line's length in bytes, and the request is a JSON POST |
| Protocol.CreateRequestEndpoint | cmd/cli/main.go:179 | the URL starts with the base address, and the action can be read back from the URL alone |
| Text.Decimal | cmd/cli/main.go:146 | the index rendering is a non-empty run of digits that starts with zero only for the number zero |
| Text.DecimalRoundTrip | cmd/cli/main.go:146 | reading back the rendering of an index gives that index |
| Text.DecimalCanonical | cmd/cli/main.go:146 | every digit run without a leading zero is the rendering of the number it stands for |
| Text.SignedDecimal | cmd/cli/main.go:92 | a printed count is a non-empty run of digits and minus signs |
| Text.SignedDecimalRoundTrip | cmd/cli/main.go:92 | reading back a printed count gives the count |
| OutputPath.ExtScan | cmd/cli/main.go:106 | the backward scan of `path.Ext`, from a position after which there is no '.' or '/', returns an extension that meets `IsExtOf` |
| OutputPath.Ext | cmd/cli/main.go:106 | the extension is the suffix from the last '.' of the last path element, or empty when that element has none |
| OutputPath.ExtUnique | cmd/cli/main.go:106 | at most one string is the extension of a given name, so `IsExtOf` pins down `Ext` |
| OutputPath.TrimSuffix | cmd/cli/main.go:107 | a present suffix is removed, and an absent one leaves the name unchanged |
| OutputPath.ResultsName | cmd/cli/main.go:106-107 | the results name is a prefix of the input name followed by "-results.csv", and what the prefix leaves of the input is exactly its extension |
| OutputPath.ResultsNameOfExt | cmd/cli/main.go:106-107 | whatever string has the extension's defining property is exactly what the results name drops from the input |
| OutputPath.ResultsNameKeepsDirectory | cmd/cli/main.go:106-107 | the results file keeps the input's directory: everything up to the input's last '/' is kept |
| OutputPath.ResultsNameDiffers | cmd/cli/main.go:106-107 | the results name is never the input name, so creating the results file cannot overwrite the query file |
| OutputPath.ResultsNameWithExtension | cmd/cli/main.go:106-107 | "q.txt" gives "q-results.csv" |
| OutputPath.ResultsNameWithoutExtension | cmd/cli/main.go:106-107 | "q" gives "q-results.csv" |
| OutputPath.ResultsNameDotInDirectory | cmd/cli/main.go:106-107 | "a.b/q" gives "a.b/q-results.csv": a '.' before the last '/' starts no extension |
| CountMode.CountStep | cmd/cli/main.go:76-96 | a send error or unreadable body is fatal whatever the status; a non-200 status is fatal with the body as message; a 200 prints the decoded count, or zero when decoding failed |
| CountMode.CountLoop | cmd/cli/main.go:71-97 | from line k on: one request per line reached, one printed line per line that succeeded, and the stop comes at the first line that fails, with that line's fault |
| CountMode.RunCount | cmd/cli/main.go:67-100 | the run completes exactly when every line succeeds; line j's request is built only if every earlier line printed; the j-th printed line is line j's text and count; a failure names the line, its text and its fault |
| CountMode.CountDecodeErrorIgnored | cmd/cli/main.go:88-92 | a 200 reply with a body that is not valid JSON prints zero for its line and the run goes on to the next line |
| CountMode.CountBodyReadErrorFatal | cmd/cli/main.go:82-85 | a body read error stops the run at that line even with status 200, after exactly that many requests |
| CountMode.RenderPrinted | cmd/cli/main.go:72-92 | a console line is the query, then ": ", then a non-empty run of digits and minus signs |
| CountMode.PrintedRoundTrip | cmd/cli/main.go:72-92 | a console line `query: count` identifies its query and its count, even when the query contains ": " |
| CsvMode.CsvStep | cmd/cli/main.go:129-161 | a line's rows are its index and text followed by each record read, in order; only a 200 reply read to the end goes on; the fault of each failure is its own |
| CsvMode.Tag | cmd/cli/main.go:146 | one row per record read, in order: row m is the index, the query, then record m |
| CsvMode.CsvLoop | cmd/cli/main.go:124-162 | from line i on: one request per line up to and including the line it stops at, and a stop names a line it reached, with that line's text |
| CsvMode.CsvLoopFailFast | cmd/cli/main.go:124-162 | from line i on: lines succeed up to the stop, and the stop is at a line that fails, with that line's fault |
| CsvMode.CsvLoopRequests | cmd/cli/main.go:124-128 | from line i on: request j is the request of line i + j |
| CsvMode.RunCsv | cmd/cli/main.go:117-162 | the header is the first record; the run completes exactly when every line succeeds; a failure is at the first failing line; the requests are exactly those of the lines up to it |
| CsvMode.CsvLoopRows | cmd/cli/main.go:137-153 | every row the loop writes is one line's index and text followed by one of that line's records, unchanged; rows are in index order |
| CsvMode.CsvLoopRowsFor | cmd/cli/main.go:137-153 | from line i on: the rows carrying index j are exactly line j's records, each once and in the order read, prefixed with j and the query, when the loop reached line j, and there are none otherwise |
| CsvMode.CsvHeaderOnce | cmd/cli/main.go:117-124 | the header is the first record and no later record starts with its first field |
| CsvMode.CsvRowsShape | cmd/cli/main.go:123-153 | after the header, every row is the index and text of the line its index names followed by one of that line's records, and indices never decrease |
| CsvMode.CsvRowsFor | cmd/cli/main.go:123-153 | the rows of the run carrying index j are exactly line j's records, each once and in the order read, prefixed with j and the query, when the run reached line j, and there are none otherwise |
| CsvMode.CsvRowsCount | cmd/cli/main.go:123-153 | for every index, the rows carrying it number exactly the records read for that line when the run reached it, and zero otherwise |
| CsvMode.CsvIndexBound | cmd/cli/main.go:138-153 | every index is below the number of successful lines, except the rows a CSV read error cut short, whose index equals that number |
| CsvMode.CsvSingleQueryExample | cmd/cli/main.go:137-151 | one query answered with two records writes the header and two rows with index 0 |
| CsvMode.WriteRecords | cmd/cli/main.go:138-151 | the inner loop appends, in order, the index and the query followed by each record |
| CsvMode.HandleReply | cmd/cli/main.go:129-161 | one iteration of the outer loop writes the rows `CsvStep` describes and stops exactly where it does, with the same fault |
| CsvMode.CmdCsv | cmd/cli/main.go:117-162 | the loop, shaped like the source, builds the same requests, writes the same records and ends the same way as `RunCsv` |
| Cli.Main | cmd/cli/main.go:38-60 | an unknown action runs nothing; "count" runs the count loop; "csv" runs the csv loop and writes to the derived results name |
| Cli.SessionRequests | cmd/cli/main.go:38-185 | an unknown action builds no request; otherwise request k goes to the action's endpoint and carries the dataset, line k and its byte length |
| Cli.EmptyInput | cmd/cli/main.go:117-124 | an empty query file completes at once; in csv mode only the header is written |

## Left out

- The HTTP client, request headers other than the content type, and closing response bodies are left out. Transport is the abstract `Response` value.
- Opening and scanning the query file, and `scanner.Err()`, are left out. Line splitting, including the scanner's line-length limit, is not modelled: the input is a sequence of lines.
- Creating the results file, `csv.Writer` errors and flushing are left out. The model speaks of the records handed to the writer, not of file contents after a failure, because `log.Fatal` exits without the deferred flush.
- The internals of `encoding/json` and `encoding/csv` are not modelled. Their results are parts of the reply. A decode error that leaves some fields filled in is treated as a failure that yields zero.
- `handlers.RequestData` and `handlers.ResponseData` are not part of this model. The payload fields and an integer `Occurrences` are taken from their use in cmd/cli/main.go.
- `json.Marshal` and `http.NewRequest` cannot fail for this payload and URL, so their fatal branches are not modelled.
- Timing output and console text in csv mode ("Successfully downloaded CSV", the echo of each query) are left out.
- Protocol.CreateRequest: the length is an unbounded integer. Go's `int64(len(...))` is exact, because a string's length always fits in `int64`.
- CsvMode.CsvLoopFailFast: the counter `i` is unbounded. Go's `int` cannot overflow here, because it counts lines already read.
- Identical inputs give identical output: every member is a pure function of its inputs, so there is nothing separate to state.
