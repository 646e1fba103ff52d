# go-bf-shim in Dafny

The Blueflood shim reads monitoring observations, one JSON document per line,
and turns each numeric metric of an observation into a Blueflood metric point.
It sends the points to a Blueflood ingestion endpoint in batches. This project
models the shim's core and proves properties of that model:

- **Metric names** (`metric_names.dfy`). An observation's metric is named by
  joining `rackspace.monitoring.entities`, the entity id, `checks`, the
  optional check type, the check id and the optional monitoring zone with
  dots. The metric's own field name is then appended with no separator.
  `Split`, the inverse of `Join` for dot-free segments, is the reference used
  to state what the name looks like.
- **Record shapes** (`observations.dfy`). `Observation` and
  `ObservationMetric` become datatypes. A Go pointer that may be nil becomes
  an `Option`. A metric's dynamically typed value becomes `Number(n) | Other`,
  where `n` is an opaque 64-bit pattern, because the shim only copies it.
- **Batching** (`batching.dfy`). `BluefloodBuffer` is a class with a `queue`
  field. `Enqueue` appends a non-nil point and posts the whole queue whenever
  it holds more than 1500 points. `Send` posts the queue and leaves it as it
  is. The endpoint is a function from a batch to a response. A ghost log,
  `posted`, records every batch handed to it. The pure functions `Fill` and
  `Posts` describe a whole run of enqueues. The response rule accepts exactly
  the 2xx statuses.
- **Forwarding** (`forwarding.dfy`). `ForwardToBlueflood` walks the metrics
  map in an unspecified order (a nondeterministic choice of the next key). It
  enqueues one point per numeric entry. Its result is stated against the set
  `Flatten(obs, ttl)` of points the observation yields. `RelayJsonToBlueflood`
  first decodes the line; the decoder is a parameter.
- **Dispatch** (`dispatch.dfy`). The main loop hands input line *i* to worker
  *i* mod `jobs`. `DispatchLines` builds each worker's inbound lines, and
  lemmas show that this is a partition of the input, in increasing line
  order.

The following fatal exits and runtime panics become error values (`Fail(...)`
or `Failure(...)`), not process exits. The others are listed under
"Left out":

- a transport error or a non-2xx status in `send`;
- a nil metric entry, whose dereference at `src/bfshim/main.go:108` panics;
- a line that is not JSON;
- the JSON document `null`, which makes the observation pointer nil;
- a negative job count, for which `wg.Add` panics;
- a line that arrives when there are no workers, an index out of range.

## Model

| member | source | states |
|---|---|---|
| MetricNames.MetricNameSpelledOut | src/bfshim/main.go:80-98 | The name is the root, the entity, `checks`, then the check type with its dot only when present, the check id, and the zone with its dot only when present. The field name follows directly, with no dot. |
| MetricNames.MetricNameShape | src/bfshim/main.go:80-98 | Every name starts with `rackspace.monitoring.entities.<entity>.checks.` and ends with the field name, which it strictly extends. |
| MetricNames.PrefixSegments | src/bfshim/main.go:81-97 | For dot-free identity fields, splitting the prefix at dots gives back the three root words followed by exactly the present identity segments, in order. |
| MetricNames.NoEmptySegment | src/bfshim/main.go:87-95 | An absent check type or zone leaves no empty piece in the prefix. The prefix has one piece per present segment, plus two for the words inside the root. |
| MetricNames.AbsentFieldDropsOneSegment | src/bfshim/main.go:87-95 | Leaving out the check type, or the zone, removes exactly one segment. |
| MetricNames.MetricNameInjective | src/bfshim/main.go:97-98 | Two field names of one observation with the same metric name are the same field. |
| MetricNames.SplitJoin | src/bfshim/main.go:97 | Splitting at the separator undoes `strings.Join` when no element contains the separator. |
| Batching.SuccessStatusIsTwoHundreds | src/bfshim/main.go:66 | The rejection test as written accepts a status exactly when 200 <= status < 300, that is, exactly the 2xx class. |
| Batching.CheckResponse | src/bfshim/main.go:62-73 | A post passes exactly when there is an HTTP response with a 2xx status. A transport error is fatal. Any other status is a rejection that carries that status and the body. |
| Batching.BluefloodBuffer.constructor | src/bfshim/main.go:166 | A new buffer is empty and has posted nothing. |
| Batching.BluefloodBuffer.Send | src/bfshim/main.go:45-76 | Posts the whole queue and leaves the queue unchanged. The result is the verdict on the endpoint's response to exactly that queue. |
| Batching.BluefloodBuffer.Enqueue | src/bfshim/main.go:36-43 | A non-nil point is appended and a nil one leaves the queue alone. The whole queue is posted exactly when it then holds more than 1500 points, and only that post's verdict can fail. Every posted batch stays a prefix of the queue. |
| Batching.FillAppendsPresent | src/bfshim/main.go:36-39 | A run of enqueues leaves the old queue followed by the non-nil points, in order, with earlier points untouched. |
| Batching.PostsSplit | src/bfshim/main.go:36-43 | Two runs of enqueues post what the first posts, then what the second posts from where the first left the queue. |
| Batching.PostsSnoc | src/bfshim/main.go:36-43 | One more point posts one more batch, the whole queue, exactly when the queue then exceeds 1500 points. |
| Batching.LastPostHoldsEverything | src/bfshim/main.go:36-43 | From an empty buffer, a run of more than 1500 points ends with a post of all of its points, because the queue is never emptied: nothing is left unposted at the end of such a run. |
| Batching.PostsArePrefixes | src/bfshim/main.go:40-42 | Every posted batch is longer than 1500 points and is a prefix of the final queue. |
| Batching.QuietUpToThreshold | src/bfshim/main.go:40 | Nothing is posted while the queue holds at most 1500 points. |
| Batching.FirstPostAtThreshold | src/bfshim/main.go:40-42 | From an empty queue, 1500 points post nothing, and the 1501st posts one batch holding all 1501 points. |
| Batching.PostsOne | src/bfshim/main.go:40-42 | One enqueue that takes the queue past 1500 points posts the queue including the new point. |
| Batching.ResendsAfterThreshold | src/bfshim/main.go:40-76 | Once the queue is past 1500 points, every enqueue, even of a nil point, posts the entire queue again as it stands after that enqueue. |
| Batching.FirstPointPostedTwice | src/bfshim/main.go:45-76 | From an empty queue, 1502 points post two batches, the first 1501 points and then all 1502. The first point is in both. |
| Batching.ClearingPostsEachPointOnce | src/bfshim/main.go:40-42 | For a buffer that empties itself after each post, the posted batches followed by the queue are exactly the enqueued points. Each batch holds 1501 points and the queue stays at or below 1500. |
| Forwarding.FlattenedPoints | src/bfshim/main.go:101-123 | Every point copies the tenant (an absent tenant stays absent), the timestamp and the TTL, and carries the number and the metric name of one numeric field. A field has a point exactly when it holds a number. |
| Forwarding.FlattenCardinality | src/bfshim/main.go:105-111 | An observation yields exactly as many points as it has numeric fields. |
| Forwarding.PointsOfCardinality | src/bfshim/main.go:105-111 | Any set of fields yields one point per numeric field among them. |
| Forwarding.PointsOfAdd | src/bfshim/main.go:105-120 | Visiting one more field adds its point if it is numeric, and that point is new. |
| Forwarding.PointsOfMonotonic | src/bfshim/main.go:105 | More fields never yield fewer points. |
| Forwarding.NothingNumericNothingFlattened | src/bfshim/main.go:108-111 | An observation whose metrics hold no number, including an empty map, yields no point. |
| Forwarding.ExampleYieldsOnePoint | src/bfshim/main.go:101-123 | An observation with a numeric `cpu`, a non-numeric field, no check type and zone `z1` yields the single point named `rackspace.monitoring.entities.e1.checks.c1.z1cpu`, with the default TTL 172800. |
| Forwarding.ForwardToBlueflood | src/bfshim/main.go:101-123 | The method only appends to the queue, and it posts exactly what those enqueues post. It enqueues distinct points of the observation. On success it has enqueued all of them, one per numeric field. It succeeds exactly when no metric entry is nil and every post was accepted. Without numeric fields it enqueues nothing. |
| Forwarding.ForwardMetric | src/bfshim/main.go:105-121 | One turn of the loop over the metrics. A nil entry stops the shim with that key. A numeric entry's point, with the observation's tenant, timestamp, the TTL and the metric name, is appended to the queue. Any other entry changes nothing. The turn passes exactly when the entry is non-nil and the posts it triggered were accepted. |
| Forwarding.PostsAppend | src/bfshim/main.go:105-120 | Enqueuing more points after some posts what the first points post, then what the new ones post from the queue the first ones left. |
| Forwarding.ProgressStep | src/bfshim/main.go:105-121 | A turn of the loop keeps the enqueued points distinct and equal to the points of the visited fields, and records a nil entry or a rejected post when it fails. |
| Forwarding.VisitNumeric | src/bfshim/main.go:108-120 | Enqueuing a numeric field's point keeps the enqueued points distinct and equal to the points of the visited fields. |
| Forwarding.VisitOther | src/bfshim/main.go:108-111 | A field without a number changes nothing. |
| Forwarding.RelayJsonToBlueflood | src/bfshim/main.go:125-134 | Text that is not JSON, or the JSON `null`, stops the shim with nothing enqueued. A decoded observation is forwarded, with the guarantees of `ForwardToBlueflood`. |
| Dispatch.NextWorker | src/bfshim/main.go:205 | The next worker index stays in [0, jobs). It wraps to 0 after the last worker and is otherwise one more. |
| Dispatch.NextWorkerTracksLine | src/bfshim/main.go:198-206 | Stepping the counter keeps it equal to the line number modulo the job count. |
| Dispatch.IndicesOfMembership | src/bfshim/main.go:198-206 | Line i goes to worker w exactly when i is an input line and i mod jobs == w, so each line goes to exactly one worker. |
| Dispatch.IndicesOfAscending | src/bfshim/main.go:198-206 | Each worker receives its line numbers in strictly increasing order, all below the number of lines. |
| Dispatch.LinesOfByIndex | src/bfshim/main.go:203-204 | A worker's k-th line is the input line numbered by its k-th index. |
| Dispatch.FlatAppend | src/bfshim/main.go:204 | Handing a line to one worker adds it exactly once to all the workers' lines taken together. |
| Dispatch.AssignmentPartitions | src/bfshim/main.go:198-206 | All the workers' lines together are the input lines, each as often as it occurs: the assignment partitions the input. |
| Dispatch.DispatchLines | src/bfshim/main.go:185-206 | A negative job count fails at start-up. A line with no worker to take it fails. Otherwise each worker receives exactly its round-robin share of the lines. |

## Left out

- JSON encoding of a batch and JSON decoding of a line (`src/bfshim/main.go:46`, `:128`). These are library calls. The decoder is a parameter, and a batch is posted as the point sequence itself. The `log.Fatal` after `json.Marshal` at `src/bfshim/main.go:47-49` cannot be reached with these records and is not modelled.
- The HTTP request, client, transport, logging, body reading and body draining in `send` (`src/bfshim/main.go:51-75`). This is network I/O. The endpoint is a function from batch to response, and a failure to read an error body is folded into the rejection. The error of `http.NewRequest` at `src/bfshim/main.go:54` is never checked; when it fails, `req` is nil and `src/bfshim/main.go:55` panics. That panic is not modelled, because the URL is not part of the model.
- Goroutines, channels, `Job.Start`'s `select`, and the `WaitGroup` (`src/bfshim/main.go:136-161`, `185-193`, `211`). `DispatchLines` returns each worker's inbound lines instead of sending them on channels. Which worker's relay reaches the buffer first is not modelled. The buffer is a single global object shared by all workers without a lock; the model has one buffer and one caller at a time.
- The shutdown loop (`src/bfshim/main.go:207-210`) is not modelled. It never increments `j`, so with at least one worker it sends to worker 0 forever. `Job.Start` (`src/bfshim/main.go:152-160`) keeps looping after `j.wg.Done()`, so worker 0 receives every one of these sends. The (jobs+1)-th `wg.Done()` takes the WaitGroup counter below zero, and the process panics with "sync: negative WaitGroup counter" before `wg.Wait()` is reached.
- Flag parsing, the nil checks on flag pointers, and opening and scanning the dump file (`src/bfshim/main.go:19-22`, `164-183`, `195-203`). These are configuration and I/O, and their `log.Fatal` exits (`src/bfshim/main.go:171-182`) are not modelled. The TTL and the job count are parameters, and the lines are a sequence. `err` at `src/bfshim/main.go:200` is always nil there.
- `float64` values are opaque 64-bit patterns. The shim never computes with them.
- Integer widths (`uint64` version, `int32` period, `int64` timestamp, `int` TTL) are plain integers. The shim only copies these values, so no wrap-around can happen.
- The map iteration order of `forwardToBlueflood` is a nondeterministic choice. `ForwardToBlueflood` therefore states its points as a set, and its failures without saying which nil entry or which post failed first.
- Some descriptions of the shim say that a flush empties the queue. The code (`src/bfshim/main.go:45-76`) never does. `BluefloodBuffer` follows the code, and the buffer that empties itself exists only as the trace functions `FillClearing` and `PostsClearing`; see Findings.
- Some descriptions of the shim give each worker a buffer of its own. The code has one global buffer (`src/bfshim/main.go:78`, `166`), and the model follows the code.
- Nothing flushes the buffer at shutdown, so a run of at most 1500 points posts nothing (`QuietUpToThreshold`). A longer run has no unposted points: because the queue is never emptied, its last enqueue posts every point (`LastPostHoldsEverything`).

## Findings

| source | as written | input that shows it | evidently intended | confidence | as-written member | corrected member |
|---|---|---|---|---|---|---|
| src/bfshim/main.go:45-76 | `send` posts the queue but never empties it, so after the 1501st point every enqueue posts the whole, still-growing queue again | 1502 points enqueued into an empty buffer post two batches, and the first point is in both | after a post the queue is emptied, so each point is posted once | high (not executed) | Batching.FirstPointPostedTwice | Batching.ClearingPostsEachPointOnce |
