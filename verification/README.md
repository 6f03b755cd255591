# transparency_one: pagination and operator directory, in Dafny

`transparency_one` crawls public Certificate Transparency logs (RFC 6962).
For one log it reads the signed tree head to learn the log's `tree_size`.
It probes `get-entries` once to learn how many entries the server returns per
call. It then cuts `[0, tree_size)` into batches and fetches each batch's url,
retrying failed requests. Before that, it builds a directory of logs from the
published log list. With `--show`, it keeps only the logs whose `get-sth`
endpoint answers.

This project models the parts of `src/main.rs` that are plain computation:

- **The range planner** (`dump_single_log`, lines 192-199). This loop turns
  `tree_size` and the probed batch size into a list of
  `ct/v1/get-entries?start=..&end=..` urls. It is modelled as the method
  `LogDump.PlanRanges`. The method returns the urls and, beside them, the
  ranges `[start, end)` they ask for. The shape of the result is the predicate
  `EntryRanges.IsTiling`. The lemmas in `EntryRanges` show that this shape
  covers every index of the log exactly once and has the ceiling of
  `tree_size / batch` ranges. They also show the k-th range is
  `[k * batch, (k + 1) * batch)` and that only one list has this shape.
- **The url text** (line 197). `Decimal` writes an `i64` the way Rust's
  `{}` does. `Endpoints` builds the urls and holds a parser that reads a
  `get-entries` url back. Printing and parsing are proved inverse in both
  directions, so different ranges always get different urls.
- **The retry loop's exit** (lines 204-211). `LogDump.FirstAccepted` takes the
  outcomes of successive attempts and picks the body the loop keeps.
- **The operator directory**. `Operators.GetLogSources` (lines 148-156) is
  the nested loop that builds the `description -> url` map. The insert is
  last-write-wins. The reference function `Operators.LastUrl` states which
  url each description keeps. `Operators.GetAllWorkingOperators`
  (lines 104-137) keeps the logs whose probe succeeded. The network probe
  is a parameter `probe: string -> bool` over the requested url. The method
  handles the logs in an arbitrary order (`var name :| name in pending`), so
  its contract holds however the concurrent tasks are interleaved.

Modules: `Options` (the `Option` type), `Decimal`, `EntryRanges`,
`Endpoints`, `LogDump`, `Operators`. The last two follow the functions of
`src/main.rs`.

### Where the code differs from what one might expect

- One might expect the last range to be clipped to the end of the log, for
  example `[200, 250)` for 250 entries in batches of 100. The code never
  clips: `end = start + batch` every time. So the last range is `[200, 300)`,
  and the last `end` can exceed `tree_size` by up to `batch - 1`. The model
  follows the code (`EntryRanges.TilingOf250By100`).
- One might expect a zero batch size to be rejected. The code has no such
  check. With `parsed_batch_size == 0` and `tree_size > 0`, `end` stays 0 and
  the loop never ends. With `tree_size <= 0`, the loop does not run at all,
  whatever the batch. `PlanRanges` therefore requires
  `batch > 0 || treeSize <= 0`.
- One might expect the working-operators map to hold each log's base url.
  The code inserts the url with `ct/v1/get-sth` already appended (lines
  114-115 and 126). The model follows the code.
- One might expect a request to be retried only when it fails. The code turns
  a failure into the body `"continue"` and retries whenever the body equals
  `"continue"`. So a successful response whose body is exactly `continue` is
  retried too. `BodyOrSentinel` and `FirstAccepted` model this.
- Section 4.6 of RFC 6962 makes the `end` parameter of `get-entries` an
  inclusive index. The code and this model treat `[start, end)` as half-open.
  The request for `[0, 100)` therefore literally asks for 101 entries. The
  tiling property holds for the entries served only because the server
  returns at most the probed batch size per call.
- `tree_size` is compared with `end`, which is an `i64` after the cast at
  line 196, so the model takes `tree_size` to be an `i64` too. The file
  defining it, `src/log_structs.rs`, is not part of this model.
  `LogDump.PlanFitsInI64Exactly` shows that no `i64` overflows exactly
  when the last planned `end` fits. `LogDump.PlanFitsInI64` gives the
  simpler sufficient bound: `tree_size + batch - 1` fits.

## Model

| member | source | states |
|---|---|---|
| LogDump.PlanRanges | src/main.rs:192-199 | For `batch > 0` or an empty log, the loop ends with ranges that tile the log (`IsTiling`). They start at 0, are contiguous and all have width `batch`, the last one included. Every range but the last ends before `tree_size` and the last reaches it. There are none when `tree_size <= 0`, exactly `RangeCount(tree_size, batch)` of them otherwise. The k-th url is the `get-entries` url for the k-th range |
| EntryRanges.RangeCountIsCeiling | src/main.rs:195-199 | The number of ranges is 0 for `tree_size <= 0`. Otherwise it is the least n with `n * batch >= tree_size`, which equals `(tree_size + batch - 1) / batch` |
| EntryRanges.ContiguousClosedForm | src/main.rs:192-198 | Because `start` begins at 0 and moves to the previous `end`, the k-th range is `[k * batch, (k + 1) * batch)` |
| EntryRanges.ContiguousAscending | src/main.rs:196-198 | Each later range starts at or after the end of every earlier one, so ranges come out in ascending order and do not overlap |
| EntryRanges.TilingCoversOnce | src/main.rs:192-199 | Every index in `[0, tree_size)` lies in exactly one range, and no index lies in two. For a non-empty log the last `end` is at least `tree_size` and below `tree_size + batch` |
| EntryRanges.TilingCount | src/main.rs:195-199 | Any list with the planner's shape has exactly the ceiling of `tree_size / batch` ranges |
| EntryRanges.TilingUnique | src/main.rs:192-199 | Two lists with the planner's shape for the same `tree_size` and `batch` are equal, so the shape determines the plan |
| EntryRanges.TilingOf250By100 | src/main.rs:192-199 | For 250 entries in batches of 100, the plan is `[0,100), [100,200), [200,300)`. The last range is not clipped |
| LogDump.PlanUrlsAscendingAndDistinct | src/main.rs:192-199 | The planned ranges have strictly increasing starts, and no two planned urls are equal |
| LogDump.PlanFitsInI64Exactly | src/main.rs:192-196 | Every planned `start` and `end` lies between 0 and the `i64` maximum exactly when the last `end`, the range count times `batch`, does. So line 196 overflows for precisely the logs whose last planned `end` exceeds the `i64` maximum |
| LogDump.PlanFitsInI64 | src/main.rs:192-196 | If `tree_size + batch - 1` fits in an `i64`, then every planned `start` and `end` lies between 0 and the `i64` maximum, so `start + batch` does not overflow |
| Decimal.NatToDecimal | src/main.rs:197 | A number's decimal text is non-empty and all digits. It starts with '0' exactly when the number is 0, and only "0" itself does |
| Decimal.ParseIntInverse | src/main.rs:197 | `ParseInt(s) == Some(i)` holds exactly when `s` is the `{}` text of `i`, so printed integers read back unchanged and parsed text reprints unchanged |
| Endpoints.EntriesUrl | src/main.rs:197 | The `get-entries` url starts with the log's base url and has a query after `ct/v1/get-entries?start=`. `Endpoints.PrintedUrlParses` shows the url reads back as exactly the range it was built from |
| Endpoints.PrintedUrlParses | src/main.rs:197 | Parsing the `get-entries` url built for range `r` on a log's base url returns `r` |
| Endpoints.SthUrl | src/main.rs:114-115 | The `get-sth` url is the log's base url followed by `ct/v1/get-sth`, and it is never read as a `get-entries` url of that log |
| Decimal.IntToDecimal | src/main.rs:197 | The `{}` text of an integer is non-empty. It starts with '-' exactly when the integer is negative, and every other character is a digit |
| Decimal.NatToDecimalValue | src/main.rs:197 | The digits written for a non-negative number denote that number |
| LogDump.BodyOrSentinel | src/main.rs:205 | The body is `"continue"` exactly when the request failed or the server answered with the text `continue`. A successful response keeps its body unchanged |
| Endpoints.EntriesUrlRoundTrip | src/main.rs:197 | The url parser returns range `r` for a url exactly when the url is `log_url + "ct/v1/get-entries?start=" + start + "&end=" + end` for `r` |
| Endpoints.EntriesUrlInjective | src/main.rs:197 | Two ranges with the same `get-entries` url are the same range |
| LogDump.FirstAccepted | src/main.rs:204-211 | The loop keeps the first attempt whose body is not `"continue"`. That attempt succeeded with that body, and every earlier attempt failed or returned `"continue"`. If no attempt qualifies, the loop is still retrying |
| Operators.LastUrlDefined | src/main.rs:150-153 | A description has a last-inserted url exactly when some log in the list carries that description |
| Operators.LastUrlIsLastWrite | src/main.rs:150-153 | The url kept for a description is `u` exactly when some log with that description has url `u` and no later log in iteration order has that description |
| Operators.GetLogSources | src/main.rs:148-156 | The map's keys are exactly the descriptions of all logs of all operators. Each key maps to the url of the last log with that description |
| Operators.GetAllWorkingOperators | src/main.rs:104-137 | Only input names appear in the result. A name is kept exactly when the probe of its url plus `ct/v1/get-sth` succeeded, and it then maps to that probed url. No other entries appear |

## Left out

- `send_request` and every HTTP call (src/main.rs:18-28): network I/O. Where an outcome matters, it is a parameter: `probe` in `GetAllWorkingOperators`, the `responses` sequence in `FirstAccepted`.
- The one-second sleep between retries (src/main.rs:209): timing. `FirstAccepted` models only which attempt the loop exits on.
- LogDump.FirstAccepted: models the attempts as a given finite sequence. A url that never gets an accepted body is shown only as "still retrying" (`None`). It is not shown as a loop that never ends.
- Operators.GetAllWorkingOperators: models a probe's outcome as a function of the requested url. Two names with the same url get the same outcome, whereas two real requests could differ.
- tokio task spawning, `Arc<Mutex<..>>`, `join_all` and `buffer_unordered(1)` (src/main.rs:107-134, 200-234): concurrency. Every task inserts its own key, so only the final map is modelled.
- Fetching and decoding each batch (`read_base64_entries`, `read_entry`) and printing the domains (src/main.rs:212-229): the JSON and base64 decoders and the Merkle-leaf reader live in `generic_utils` and `merkle_tree`, which are not part of this model. How the batch size is learned (src/main.rs:185-187) is left out for the same reason: the planner takes the batch size as a parameter.
- Fetching and parsing the log list and the signed tree head (`get_all_operators`, src/main.rs:139-147 and 176-181): network I/O and `serde_json`. `GetLogSources` starts from the parsed `LogList`, and `PlanRanges` starts from `tree_size`.
- MongoDB setup, index creation and the commented-out inserts (src/main.rs:159-167, 220-227): external storage.
- Command-line flags, usage text, the log-name lookup that panics when the name is missing, and the stdin pause (src/main.rs:33-86, 171, 189-191): user interface and I/O.
- LogDump.PlanRanges: treats `start`, `end` and `tree_size` as unbounded integers. `start + batch` at src/main.rs:196 overflows exactly when the last `end`, the range count times `batch` (the ceiling of `tree_size / batch`, times `batch`), exceeds the `i64` maximum (`LogDump.PlanFitsInI64Exactly`). A debug build then panics. A release build wraps `end` negative, so `end < tree_size` holds again and the loop runs on, pushing a url each time, for about 2^64 / `batch` more iterations before `end` can reach `[tree_size, i64 max]` again. For some inputs, such as `tree_size` at the `i64` maximum and an even batch, it never does.
- The usize-to-i64 cast of the batch size (src/main.rs:196): the model treats the batch as a mathematical integer. A batch above the `i64` maximum would wrap, and a server cannot return that many entries.
