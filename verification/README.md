# memtro in Dafny

memtro is an in-memory key-value store served over a request/reply transport.
A pool of worker threads receives `MemtroRequest` messages. Each request holds
either a `Get{key}` or a `Put{key, value}`. The worker answers with a
`GetResponse{has_value, value}` or a `PutResponse{is_new}`. All workers share
one uthash table, `db`. `put` is insert-if-absent ("first write wins"): a
later `put` never overwrites an existing key. The repository also has a
benchmark client. After a run it flattens the per-thread latency arrays,
sorts them with `qsort`, totals them and prints latency percentiles.

This project models both parts as pure functions over immutable data:

- `Store` (memtro_store.dfy): the table as a `map<Key, Bytes>`. `CString`
  gives the part of a key buffer that `strlen` sees, which is the part the
  table hashes and compares.
- `Messages` (memtro_messages.dfy): the decoded request envelope. Its pointer
  fields are `Buffer`s that can be `Null`. The module also has the two
  responses and `Freed`, the set of buffers `memtro_request__free_unpacked`
  releases.
- `Handlers` (memtro_handlers.dfy): `handle_get` and `handle_put`. This
  includes clearing the `Put` envelope's `key` and `value.data` when the table
  takes over those buffers.
- `Worker` (memtro_worker.dfy): the dispatch in `cache_worker`, plus `Serve`,
  which serves a sequence of requests. The write lock makes each `put` one
  atomic step, so puts happen one after another. A `get` takes no lock and
  can overlap a put's insertion; the model assumes each get is atomic as well.
- `Startup` (memtro_startup.dfy): the worker-count range check.
- `BenchStats` (bench_stats.dfy): `int_compare`, the flattening copy loop,
  the sorted result of `qsort` and the `uint64_t` total.
- `BenchReport` (bench_report.dfy): the percentile indices, both as the
  client computes them and corrected (see Findings), and the whole
  post-processing step.

Points where the code behaves differently from what one might expect:

- **Key comparison.** Keys compare by `strlen` content, not by their full
  decoded length. Two keys that differ only after an embedded NUL name the
  same entry (`KeysCompareUpToNul`).
- **Read lock.** `handle_get` takes no read lock; the calls are commented
  out. The model has no locks at all and assumes each operation is one atomic
  step; for a get that overlaps a put this is an assumption, not a fact.
- **Malformed requests.** A malformed request is not dropped: the code
  dereferences it. The model accepts only requests the code can process
  (`WellFormed`). When both `get` and `put` are set, `get` wins.
- **Worker count.** Out-of-range worker counts are rejected by an `assert`.
  The model states the accepted range.

## Model

| member | source | states |
|---|---|---|
| Store.CString | memtro.c:21 | the lookup key is the longest NUL-free prefix of the request's key buffer: it contains no NUL, is a prefix of the buffer, and is followed by a NUL unless it is the whole buffer |
| Handlers.HandleGet | memtro.c:17-36 | a get reports `has_value` exactly when the key is in the table; on a hit the value is the stored bytes, on a miss the value is empty |
| Handlers.HandlePut | memtro.c:38-70 | a put reports `is_new` exactly when the key was absent. Afterwards the table has the old keys plus this one, every old entry is unchanged, and the key maps to the new payload only if it was absent. On insertion the envelope's key and value pointers are cleared; otherwise the envelope and the table are untouched. The table invariant (NUL-free keys) is kept |
| Handlers.GetAfterPut | memtro.c:50-61 | after a put of an absent key reports `is_new`, a get of that key returns exactly the bytes put |
| Handlers.SecondPutIgnored | memtro.c:44-48 | a second put of the same key reports `is_new=false`, leaves the table as it was, and a get still returns the first value |
| Handlers.GetOfAbsentKey | memtro.c:20-30 | a key that is not in the table is reported absent with no value |
| Handlers.KeysCompareUpToNul | memtro.c:41-45 | two request keys with the same `strlen` content get the same get reply, and, for any value buffer, the same put reply and the same resulting table |
| Messages.Freed | memtro.c:96 | releasing a decoded request frees exactly its key and value buffers whose pointers are non-NULL. This assumes the release skips NULL string and bytes fields, which is why memtro.c:57-59 clear them |
| Worker.Dispatch | memtro.c:83-87 | a request with `get` set is answered with a GetResponse and leaves the table unchanged; any other request gets a PutResponse. A put adds at most its own key, changes no existing entry, and the table changes exactly when a new entry is inserted |
| Worker.OwnershipTransfer | memtro.c:53-59 | on insertion, releasing the envelope frees everything except the put key and value buffers, and the table holds their contents. Otherwise the envelope is released in full. No buffer is freed twice and none leaks |
| Worker.Serve | memtro.c:75-98 | serving any sequence of requests gives one reply per request, and never removes or changes an entry present at the start |
| Worker.ServeReplies | memtro.c:75-98 | the reply to request `i` is what that request gets from the table built by requests `0..i-1` |
| Worker.ServeDomain | memtro.c:44-61 | after a sequence, a key is in the table exactly when it was there at the start or some request put it |
| Worker.ServeFirstWriteWins | memtro.c:44-61 | for a key absent at the start, the final table holds the payload of the first put of that key, whatever later puts carry |
| Worker.PutReplyInSequence | memtro.c:44-51 | in a sequence, a put reports `is_new` exactly when its key was absent at the start and no earlier request put it |
| Worker.GetReplyInSequence | memtro.c:20-30 | in a sequence, a get reports a value exactly when the key was there at the start or an earlier request put it, and returns the original value if the key was there at the start |
| Worker.GetReplyAfterFirstPut | memtro.c:26-30 | a get of a key absent at the start returns the payload of the first earlier put of that key |
| Worker.RacingPuts | memtro.c:42-64 | puts of one new key admitted in any order by the write lock: exactly the first reports `is_new`, and the table ends up holding the first value and nothing else new |
| Worker.ScenarioPutGetPut | memtro.c:38-70 | put, get, put of one key from an empty table yields `is_new=true`, the value, `is_new=false`, and a table holding only the first value |
| Worker.ScenarioFooBar | memtro.c:83-87 | put "bar", get, put "baz", get, get of another key yields `is_new=true`, "bar", `is_new=false`, "bar", absent |
| Worker.ScenarioLiteralKeys | memtro.c:83-87 | the same scenario with the literal keys "foo" and "missing" |
| Startup.WorkerCountRange | memtro.c:120 | the worker count is accepted iff it lies in 1..499; 0 and 500 are rejected |
| BenchStats.IntCompare | memtro_bench.c:67-74 | the result is in {-1, 0, 1} and is negative, zero or positive exactly when the first sample is below, equal to or above the second |
| BenchStats.CompareAntisymmetric | memtro_bench.c:67-74 | swapping the arguments negates the result |
| BenchStats.CompareTransitive | memtro_bench.c:67-74 | the comparator orders transitively |
| BenchStats.FlattenResults | memtro_bench.c:144-151 | the copy loop produces the per-thread arrays laid end to end in thread order |
| BenchStats.FlattenLength | memtro_bench.c:144-151 | with `num_requests` samples per thread, the flattened array has `num_threads * num_requests` entries |
| BenchStats.FlattenIndex | memtro_bench.c:146-149 | sample `j` of thread `i` sits at index `i * num_requests + j` |
| BenchStats.SortSamples | memtro_bench.c:152 | the result of `qsort` is non-decreasing and a permutation of the samples |
| BenchStats.SortedPermutationUnique | memtro_bench.c:152 | two sorted permutations of the same samples are equal, so the model's sort matches any `qsort` implementation |
| BenchStats.SortedExtremes | memtro_bench.c:169-183 | after the sort, `results[0]` is the least sample and `results[length-1]` the greatest, and both are samples |
| BenchStats.SumPermutation | memtro_bench.c:152-158 | reordering the samples does not change their sum, so totalling the sorted array totals the samples |
| BenchStats.Total | memtro_bench.c:154-158 | `tot` is the sum of all entries modulo 2^64, as a `uint64_t` accumulates it |
| BenchStats.TotalIsExactForLatencies | memtro_bench.c:154-168 | for non-negative samples and an `int`-sized array, `tot` never wraps and equals the exact sum |
| BenchReport.AsWrittenIndices | memtro_bench.c:160-183 | the 15 indices as written: the first is 0 and the last is `length - 1` |
| BenchReport.AsWrittenInBounds | memtro_bench.c:160-183 | for `length >= 1`, every index read (`ten_inc*k`, `95*hundred_inc`, `99*hundred_inc`, `995*thousand_inc`, `999*thousand_inc`, `length-1`) lies in `[0, length)` |
| BenchReport.AsWrittenEmptyOutOfBounds | memtro_bench.c:169-183 | for `length == 0` the report reads indices 0 and -1 of an empty array |
| BenchReport.AsWrittenNotMonotone | memtro_bench.c:170-179 | for `length == 10` the 90th percentile reads index 9 and the 95th reads index 0 |
| BenchReport.PercentileIndex | memtro_bench.c:160-183 | the corrected index lies inside the array; below the 100th it is the floor of `perMille * length / 1000`, and the 100th is the last index |
| BenchReport.PercentileIndexMonotone | memtro_bench.c:160-183 | a higher percentile never reads an earlier index |
| BenchReport.ReportIndices | memtro_bench.c:169-183 | the 15 corrected indices lie in the array, are non-decreasing, and start at 0 and end at `length - 1` |
| BenchReport.AsWrittenMatchesWhenWhole | memtro_bench.c:160-183 | when `length` is a multiple of 1000, the indices as written equal the corrected ones |
| BenchReport.Report | memtro_bench.c:168-183 | no report without samples. Otherwise 15 non-decreasing values, each a sample, the first the minimum and the last the maximum |
| BenchReport.Summarize | memtro_bench.c:144-183 | the post-processing, with the corrected percentile report of the Findings: a sorted permutation of the flattened samples, of length `num_threads * num_requests`. `tot` is their sum modulo 2^64. A report exists exactly when there is a sample, and it runs from the minimum to the maximum |

## Left out

- **Transport.** `nitro_recv`, `nitro_reply`, `nitro_socket_bind`/`connect`
  and frames are I/O through a library that is not part of this model.
  Requests arrive as values and replies leave as values.
- **Wire encoding.** Packing and unpacking (`*_get_packed_size`, `*_pack`,
  `memtro_request__unpack`) is generated code that is not part of this
  model. Requests and responses are abstract datatypes, so there is no
  encode/decode round trip.
- **Threads and locks.** Worker threads, the reader-writer lock, `pthread_join`
  and the `assert(0)` after it are left out. So are the benchmark's worker
  threads, its start barrier and `tick_worker`. Each `get` and each `put` is
  one atomic step. Races on the lock-free read path are not modelled.
- **Decode failures.** A failed decode (a NULL request) and a request with
  neither member set are dereferenced by the code. The model excludes them
  through `WellFormed` and models no error path.
- **Allocation failures.** `malloc` failures and the `if (odata)` guard are left
  out. A reply is always produced.
- **Response aliasing.** The `GetResponse` points into the stored bytes
  rather than copying them. The model returns the bytes by value.
- **Start-up plumbing.** Argument-count and `strtol`/`errno` checks, the
  conversion of a `long` to `int`, binding, logging and `exit` are left out.
  Also left out: the `assert` around the worker-count check compiling away
  under `NDEBUG`. Only the accepted range is modelled.
- **Floating point and timing.** `tod_delta`, the mean, the requests-per-second
  line and the timestamps taken by the benchmark workers are left out. The
  samples are inputs.
- **Integer width of `length`.** `num_threads * num_requests` is computed in
  32-bit `int` and can overflow. The model uses unbounded integers, and the
  number of samples per thread is a `nat` (a negative REQUESTS crashes earlier).
- BenchReport.Summarize — its report uses the corrected indices
  (`ReportIndices`) and is absent for zero samples. The client prints at the
  indices of `AsWrittenIndices` instead (they differ, for example, at the 95th
  percentile of 10 samples) and reads out of bounds for zero samples; both
  are described under Findings.
- **uthash internals.** Hashing and buckets are replaced by a map.
- **Empty values.** `Messages.Payload` reads an envelope value pointer of
  NULL as the empty value.

## Findings

| source | as written | input that shows it | evidently intended | confidence | as-written member | corrected member |
|---|---|---|---|---|---|---|
| memtro_bench.c:169-183 | The report reads `results[0]` and `results[length - 1]` without checking that `length >= 1`. | WORKERS=1, REQUESTS=0: `length` is 0, and the report reads index 0 and index -1 of a zero-length array. | Print no percentiles when there are no samples. | high; not executed | BenchReport.AsWrittenEmptyOutOfBounds | BenchReport.Report |
| memtro_bench.c:160-162 | Each increment (`length / 10`, `/ 100`, `/ 1000`) is truncated before it is multiplied by the percentile, so the indices are not ordered by percentile. | `length` of 10: the "90th" reads index 9 but the "95th", "99th", "99.5th" and "99.9th" read index 0, the minimum. | Indices that never decrease as the percentile rises, each the floor of `p * length / 1000`. | medium; not executed | BenchReport.AsWrittenNotMonotone | BenchReport.PercentileIndexMonotone |
