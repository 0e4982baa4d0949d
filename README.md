# ukg-raas report fetch, modelled in Dafny

This project models the core of `query_report.py`. That file fetches a
business-intelligence report from the UKG/UltiPro reporting service and turns
the text it gets back into columns and rows. The model has six parts:

* `Text` (text.dfy) is Python's `str.split(sep)` and `sep.join(...)` for a
  non-empty separator. Splitting is left to right and non-overlapping, and
  `""` splits into `[""]`. It also holds the facts the decoder needs: the
  piece count, the join/split round trips, and that no piece contains the
  separator.
* `ReportDecoder` (report_decoder.dfy) covers the decoding loops of
  `get_ukg_report`. The text is split on `"\r\n"` into rows and each row on
  `'|'` into fields. The first row gives the column names and the rest are
  data. `DecodeReport` keeps the two nested `for` loops that append to
  `data_as_list` and `ind_list`. It is proved equal to the function `Decode`,
  and `Decode`'s properties are proved as lemmas.
* `ReportJob` (report_job.dfy) covers `execute_and_fetch`. The remote service
  is a script of replies, and each one either raises or answers with a status
  and a report stream that may be missing. `PollReport` is the poll loop with
  its `break`s, and it counts RetrieveReport calls and sleeps.
* `RetryPolicy` (retry_policy.dfy) is the outer `for i in range(retries)`
  loop of `get_ukg_report`. Each attempt is scripted as "log-on/submit
  raises" or "submitted, then these poll replies". The same `retries` value
  is also the inner poll budget, as in the source.
* `ReportService` (report_service.dfy) covers the `UltiProClient` constructor
  checks, the report-path resolution, and `GetReport`, which chains the steps
  in the source's order.
* `Outcomes` (outcomes.dfy) holds `Option`, `Result` and one `Error` value
  for each exception the source can raise on these paths.

Sleeping is modelled as counters: `pauses` counts the 60-second poll sleeps
and `waits` counts the 5-second retry sleeps. Everything the remote service
does enters through parameters: `authenticates` and the `attempts` script.

Within what it covers, the model follows the code as written, including these behaviours that are
easy to miss:

* The poll loop sleeps after every `Working` reply, the last attempt included
  (query_report.py:150-153). Three `Working` replies with a budget of three
  therefore give three sleeps, not two (`PollAllWorking`).
* `get_ukg_report` authenticates before it looks the report name up
  (query_report.py:179-187). So an unknown name fails only after
  authentication has been attempted, and an authentication failure hides an
  unknown name.
* Fields are split on a hard-coded `'|'` (query_report.py:207), whatever
  delimiter was sent with the request.
* Empty text gives the header `[""]` and no rows, not an empty column list
  (`DecodeEmpty`).
* When the loop ends, the body of the last reply fetched is returned whatever
  its status. A `Failed` or non-terminal reply with a report stream
  therefore yields that stream, and one without a stream raises (the
  `.decode` call at query_report.py:163 fails). The outer loop catches that
  failure like any other.
* `retries == 0` leaves `r` unbound in `execute_and_fetch`
  (`ResponseUnbound`). If every outer attempt raises, `data` is unbound at
  query_report.py:204 (`DataUnbound`). Both are modelled as error results.

## Model

| member | source | states |
|---|---|---|
| `Text.Split` | query_report.py:204-207 | splitting gives at least one piece, and the first piece is a prefix of the input |
| `Text.SplitCount` | query_report.py:204-209 | the number of pieces is the number of non-overlapping separator occurrences plus one |
| `Text.JoinSplit` | query_report.py:204-209 | joining the pieces with the separator gives back the input exactly |
| `Text.SplitPiecesFree` | query_report.py:204-209 | no piece contains the separator |
| `Text.SplitWhole` | query_report.py:204 | a string that does not contain the separator splits into itself alone |
| `Text.SplitAt` | query_report.py:204 | the first piece ends at the leftmost occurrence, and the rest is the split of what follows that occurrence |
| `Text.SplitJoin` | query_report.py:204-207 | splitting undoes joining when no part contains the separator and the separator cannot overlap itself |
| `Text.CountSingle` | query_report.py:207 | for a one-character separator, the occurrence count is how often that character appears |
| `Text.JoinFree` | query_report.py:207 | fields without the row separator, joined with `'|'`, give a row without it |
| `ReportDecoder.Decode` | query_report.py:211-212 | the number of data rows equals the number of `"\r\n"` occurrences |
| `ReportDecoder.DecodeReport` | query_report.py:203-212 | the nested append loops produce exactly the header row's fields as `column_names` and the following rows' fields, in order, as `all_data` |
| `ReportDecoder.DecodeLayout` | query_report.py:203-212 | rows re-join to the text; each row has no `"\r\n"`; its fields are its `'|'`-split, re-join to it, contain no `'|'` and number one more than its `'|'` characters |
| `ReportDecoder.DecodeHeaderOnly` | query_report.py:211-212 | text without `"\r\n"` gives its fields as the columns and zero data rows |
| `ReportDecoder.DecodeEmpty` | query_report.py:204-212 | the empty string gives the header `[""]` and no data rows |
| `ReportDecoder.EncodeDecode` | query_report.py:203-212 | decoding loses nothing: re-encoding the decoded table gives the text back |
| `ReportDecoder.DecodeEncode` | query_report.py:203-212 | a table with at least one column, no empty rows, and no `'|'` or `"\r\n"` in any field decodes back from its encoding |
| `ReportDecoder.DecodeSample` | query_report.py:203-212 | `"A|B\r\n1|2\r\n3|4"` decodes to columns `[A, B]` and rows `[[1, 2], [3, 4]]` |
| `ReportJob.CallsMade` | query_report.py:145-157 | the loop stops at the first Failed or Completed reply (or the first call that raises); with no such reply it makes all `retries` calls; with a budget of 0 it makes none |
| `ReportJob.PollReport` | query_report.py:145-163 | the loop makes `CallsMade` calls, sleeps once per Working reply among them, and returns the payload of the last reply fetched (unbound when `retries` is 0) |
| `ReportJob.ExecuteAndFetch` | query_report.py:136-163 | a raising log-on or submit is an error with no poll; otherwise the result is the poll loop's result, with the same budget |
| `ReportJob.PollStopsAt` | query_report.py:145-157 | a stopping reply at index j means j + 1 calls, no sleep for that reply, and its payload as the result |
| `ReportJob.PollAllWorking` | query_report.py:145-163 | with only Working replies, all calls are made, one sleep follows each (the last included), and the last, non-terminal body is returned |
| `ReportJob.PausesAtMostCalls` | query_report.py:150-153 | there are never more sleeps than RetrieveReport calls |
| `ReportJob.AllWorkingCount` | query_report.py:150-153 | a run of Working replies gives one sleep per reply |
| `ReportJob.PollScenarioCompleted` | query_report.py:145-163 | Working, Working, Completed with a budget of 3 gives 3 calls, 2 sleeps and the third body |
| `ReportJob.PollScenarioFailed` | query_report.py:147-149 | Failed on the first call gives one call and no sleep |
| `RetryPolicy.FirstOk` | query_report.py:191-199 | the index of the first successful attempt: all earlier ones raised, and it succeeded, or it is the budget when none did |
| `RetryPolicy.FetchWithRetries` | query_report.py:191-199 | the loop stops at the first non-raising attempt; `data` is that attempt's result; there is one 5-second wait per raising attempt; with no success, every attempt in the budget is made and `data` stays unbound |
| `RetryPolicy.RetrySucceedsIff` | query_report.py:191-204 | `data` is bound if and only if some attempt in the budget succeeds, and then it is the result of the first success |
| `RetryPolicy.RetryScenarioThird` | query_report.py:191-199 | two raising attempts then a success: the third attempt's result, unchanged by the retries |
| `ReportService.NewClient` | query_report.py:26-36 | the constructor succeeds if and only if all five fields are given, and then stores them unchanged; otherwise it fails its assertion |
| `ReportService.ResolvePath` | query_report.py:181-189 | a truthy path is used unchanged; otherwise the name's entry in the map is used; a name missing from the map is an error |
| `ReportService.GetReport` | query_report.py:174-212 | in order: no name and no path is an error; then incomplete credentials; then a failed authentication; then an unknown name; then the retried fetch, whose payload is decoded to a table and whose exhaustion is an error |

## Left out

- The SOAP calls (`authenticate`, `retrieve_report`, `get_report_list`, `get_report_parameters`, `execute_report`, `log_on_with_token`, query_report.py:50-133) run over zeep and the network. Their effects come in as parameters: `authenticates`, and the `Attempt` and `Reply` scripts. The scripts do not depend on the submitted path or delimiter.
- `authenticate` sets the token and session header on the client. The client is a value here, and those fields are not modelled.
- `time.sleep` and `time.perf_counter` are left out. Sleeps are counted and elapsed times are dropped.
- The `print` narration is left out, because it has no effect on control flow.
- The `.decode('unicode-escape')` of the report stream (query_report.py:163) is a byte codec. The stream is taken as already-decoded text. With malformed escapes, such as a trailing backslash, the codec raises `UnicodeDecodeError`, and the outer loop catches it and retries. The model has no such failure: a reply with a stream always yields it.
- The `pd.DataFrame` construction (query_report.py:214) is a library call. The model stops at the `(column_names, all_data)` pair, shown as a `Table`. The decoder itself does not check row lengths against the column count.
- `ReportService.GetReport`: pandas pads uneven data rows to the widest one, and raises `ValueError` when that width differs from the number of column names (unless there are no data rows). For example, the payload `"A|B\r\n1|2|3"` makes the source raise. The model returns `Ok` with the decoded table in that case, because the DataFrame step is not modelled.
- `UltiProEncoder` (query_report.py:13-21) is not used on these paths.
- `create_client`'s hard-coded credentials and the entries of `report_paths` are left out. The credentials and the map are parameters.
- `ReportService.ResolvePath`: with an empty `report_path` and no name, the source's `except` handler raises a `TypeError` (it concatenates `None`), not the bare `Exception`. Both are modelled as `UnknownReportName`.
- `RetryPolicy.FetchWithRetries` counts only the 5-second waits. It does not add up the poll sleeps of its attempts, which `ReportJob.ExecuteAndFetch` reports one attempt at a time.
- `ReportService.GetReport` returns only the table or the error, not the sleep counts.
- A negative `retries` cannot be written, because the budgets are `nat`. In the source, `range(retries)` is empty for a negative value, so a negative budget behaves like 0: `data` is unbound (`DataUnbound`).
