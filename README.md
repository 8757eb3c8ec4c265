# Snapshot adapter: the watermark pagination loop

This project models `get_net_supplied_amount`, the loop that fetches
supplied-amount snapshots from a GraphQL indexing service one page at a
time. It also proves what the loop guarantees.

A session works as follows:

- It starts at watermark 0 with an empty result.
- It picks the unfiltered query, or the block-filtered one when a block
  number is given.
- It sends `{first: PAGE_SIZE, timestamp: watermark[, blockNumber]}`.
- On a non-empty successful page (status 200, no `errors` key), it
  appends the page and moves the watermark to one past the page's last
  timestamp.
- It stops at the first empty page or the first failed reply, and
  returns what it has gathered.

`Adapter` (adapter.dfy) holds the loop itself, as the method
`GetNetSuppliedAmount` with a `while true` loop. The loop updates the
`timestamp` cursor, the `snapshots` accumulator and the `variables`
dictionary, which is a `map<VarName, int>`, and leaves through `break`.
The service is abstracted as a script: the sequence of replies it gives,
one per request. The method also returns the requests it sent, so a
contract can say what was asked and when.

`DatasetServer` (dataset_server.dfy) gives the service the meaning of its
query. It answers with the first `first` records whose timestamp is at or
above the watermark (and, for the block query, whose block number
matches), taken from a dataset ordered by timestamp. `Trace` gives the
replies such a server makes to a session. The lemmas show that:

- these replies are exactly the server's answers to the requests the loop
  sends;
- the session ends;
- the watermark strictly increases;
- every page is strictly newer than every earlier page;
- the result is the selected records with at most some records left out,
  never repeated and in ascending order;
- the result holds every selected record if and only if no page ends
  inside a run of equal timestamps.

## Model

| member | source | states |
|---|---|---|
| Adapter.TemplateFor | src/adapter.py:60 | The session uses the unfiltered query exactly when no block number is given, and the block query otherwise. |
| Adapter.RequestShape | src/adapter.py:61-63 | Every request carries the session's template, `first` equal to PAGE_SIZE, and `timestamp` equal to the watermark. A `blockNumber` entry is present if and only if a block number was given, and then it equals that number. |
| Adapter.StopIndex | src/adapter.py:66-82 | Locates the reply that ends the loop. Every earlier reply is a non-empty page with status 200 and no errors, and this one is an empty page or a failure. |
| Adapter.GetNetSuppliedAmount | src/adapter.py:54-84 | The loop returns the in-order concatenation of the pages before the stopping reply. It sends exactly the requests `Sent` describes: one per reply up to and including the stopping reply. |
| Adapter.SentAt | src/adapter.py:57-63 | A session that stops at reply k sends k + 1 requests. The i-th request is the request at the i-th watermark: 0 for the first, and one past the last timestamp of the previous page afterwards. The template and block number are the same in all of them. |
| Adapter.Retime | src/adapter.py:79 | Overwriting `timestamp` in the variables dictionary yields exactly the next request's variables. `first` and `blockNumber` do not change. |
| Adapter.StopsAt | src/adapter.py:66-82 | If every reply before position k is a non-empty successful page and the reply at k is not, the session stops at k. |
| Adapter.Exhaustion | src/adapter.py:69-84 | Suppose the server gives some non-empty pages and then an empty page or a failure. The session then sends one request more than there are pages and returns exactly the records of those pages, in order, without raising. Later replies are irrelevant. An empty first reply, or a failed first reply, gives an empty result. |
| DatasetServer.Answer | src/adapter.py:17-38 | The server's reply is a success. It holds at most `first` records, each at or above the `timestamp` variable. Under the block query, each record is of the requested block. |
| DatasetServer.AnswerAt | src/adapter.py:61-68 | The server's answer to the session's request at a watermark is the first PAGE_SIZE selected records at or above that watermark. |
| DatasetServer.InBlockMembers | src/adapter.py:38 | The block filter keeps only records of the requested block, all taken from the dataset. |
| DatasetServer.InBlockExact | src/adapter.py:38 | The block filter keeps a record if and only if it is in the dataset and of the requested block, or any record when no block number is given. |
| DatasetServer.InBlockAll | src/adapter.py:19 | Without a block number the filter keeps the whole dataset, in order. |
| DatasetServer.AboveExact | src/adapter.py:19 | The `timestamp_gte` filter keeps a record if and only if it is in the input and at or above the watermark. |
| DatasetServer.MatchingExact | src/adapter.py:17-38 | The query selects a record if and only if it is in the dataset, of the requested block (any block when none is given), and at or above the watermark. So at watermark 0 the selection is every record of the block with a non-negative timestamp. |
| DatasetServer.AboveMembers | src/adapter.py:19 | The watermark filter keeps only records at or above the watermark, all taken from the dataset. |
| DatasetServer.NextWatermarkShrinks | src/adapter.py:77-79 | Moving the watermark past a non-empty page strictly reduces the selection that remains, so a session against a dataset ends. |
| DatasetServer.Trace | src/adapter.py:65-79 | The replies a dataset server gives to a session end with an empty successful page. Every earlier reply is a non-empty successful page. |
| DatasetServer.TraceAnswers | src/adapter.py:66-79 | The first reply of a trace is the page at the starting watermark. Each later reply is the page at one past the last timestamp of the reply before it. |
| DatasetServer.ScriptEnds | src/adapter.py:66-73 | The dataset server's replies are a valid script: the session stops exactly at their last reply, the empty page. |
| DatasetServer.ScriptAnswers | src/adapter.py:61-79 | Each reply of the script is the dataset server's answer to the very request the loop sends at that point of the session. |
| DatasetServer.WatermarkIncreases | src/adapter.py:77-79 | Under the dataset server the watermark strictly increases from each request to the next, whatever the order of the dataset. |
| DatasetServer.WatermarkMonotone | src/adapter.py:77-79 | No later request of a session has a lower watermark than an earlier one. |
| DatasetServer.ReplyAbove | src/adapter.py:19 | Every record of a reply is at or above the watermark of the request it answers. |
| DatasetServer.ReplyBelowNext | src/adapter.py:77-78 | In an ordered dataset every record of a page lies below the watermark of the next request. |
| DatasetServer.PagesAscend | src/adapter.py:77-78 | In an ordered dataset every record appended is strictly newer than every record appended from an earlier page. |
| DatasetServer.MatchingSorted | src/adapter.py:19 | The records a query selects from a dataset ordered by timestamp are themselves ordered by timestamp. |
| DatasetServer.AboveStart | src/adapter.py:19 | In an ordered sequence the records at or above a watermark form a suffix. Every record before it is below the watermark, and every record in it is at or above. |
| DatasetServer.PageSplit | src/adapter.py:77-78 | An ordered selection splits into three parts: the page, the records that share the page's last timestamp but missed the page, and the records past that timestamp. No records are skipped exactly when the record after the page, if any, has a different timestamp. |
| DatasetServer.PaginateFacts | src/adapter.py:65-79 | Paging through an ordered selection yields a subsequence of it. That subsequence is the whole selection if and only if no page ends inside a run of equal timestamps. |
| DatasetServer.MatchingNext | src/adapter.py:77-79 | The selection at the next watermark is what remains of the current selection past the page's last timestamp. |
| DatasetServer.TraceRecords | src/adapter.py:75-79 | The records a session gathers from the dataset server are what paging through the selected records yields. |
| DatasetServer.SessionResult | src/adapter.py:54-84 | For an ordered dataset the session ends. Its result is the selected records in order, with at most some left out and none repeated or invented, ascending by timestamp. It equals the whole selection if and only if no page ends inside a run of equal timestamps. |

## Left out

- Adapter.GetNetSuppliedAmount: requires a script in which some reply stops the loop. The source has no such bound: a server that never sends an empty page or a failure keeps the loop going forever, and that behaviour is not modelled. Against the dataset server every session provably ends (`DatasetServer.ScriptEnds`).
- The HTTP call, JSON decoding and `response.text` (src/adapter.py:68-70, 81) are replaced by the script, or by the dataset server. A reply is reduced to its status code, whether its body has an `errors` key, and its snapshot list.
- Exceptions raised by the HTTP call itself, and crashes on a malformed body such as a missing `data.snapshots` (src/adapter.py:70), are not modelled. The source does not handle them.
- Snapshot timestamps are integers in the model. The source converts the service's timestamp field with `int(...)` (src/adapter.py:78), and a non-numeric value would raise.
- Logging (src/adapter.py:8, 67, 72, 81) has no effect on the result and is left out.
- The GraphQL query texts are an opaque two-valued tag. The block query refers to a `$skip` variable that it never declares and the loop never supplies (src/adapter.py:38). How the service reacts to that is outside this code, so it is an open question here. The dataset server answers the block query as if `skip` were absent.
- DatasetServer.Trace: the dataset stays fixed for the whole session, so records added to the service between two requests are not modelled. The scripted server of `Adapter.GetNetSuppliedAmount` can describe such a session, but nothing about ordering or completeness is proved for a growing dataset.
- DatasetServer.Answer: among records with equal timestamps, it keeps the dataset's own order. The service's tie order is not specified.
- `main` (argparse, the pandas DataFrame, the CSV file) and `from_timestamp` in src/utils.py are output glue around the loop and are not part of this model.
