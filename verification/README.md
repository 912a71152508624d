# rag-me: worker-pool bookkeeping and document chunking, in Dafny

This project models two sequential parts of rag-me, a retrieval-augmented
question-answering tool written in Rust.

**The inference worker pool** (`src/ai/worker_pool.rs`):

- the sticky-session table: a map from session id to `(worker, last_used)`,
  plus a least-recently-used list of the same ids, capped at 10 entries;
- `hit_session`, which records a session;
- `prune_stale`, which pops ids off the front of the recency list while they
  are unknown or idle for more than 30 minutes, and stops at the first live
  id, so expired ids behind it stay;
- the worker choice in `accept`: the recorded worker, or round-robin via the
  wrapping cursor `next`;
- a worker's drain loop, which answers every job and turns engine errors into
  text;
- the `Display` of `InferenceResult`.

**Document ingestion** (`process_content`, `insert_into_vdb` and
`get_adjacent_chunks`):

- the text is split into lines;
- lines longer than 1000 bytes are split on `.`;
- each chunk is sanitised: non-ASCII characters are filtered out, then the
  result is trimmed; an empty result is the `"content chunk is empty!"` error;
- chunks are numbered with `i as u16`;
- per-chunk errors are skipped or reported;
- `get_adjacent_chunks` computes a chunk-number window.

The logic exists twice: as the `VDB` methods in `src/data/database.rs` and as
the free functions in `backend/src/database.rs`. Both copies agree line for
line, so one model covers both, and the table cites both.

Modules:

- `Text`:
  - strings are sequences of Unicode scalar values;
  - `str::len` is the UTF-8 byte count (`ByteLen`);
  - `char::is_whitespace` is the Unicode White_Space set;
  - `trim`, `split` and decimal formatting are modelled.
- `Chunking`: the line split and the chunk loop, as a step function and as
  methods.
- `VectorStore`: sanitising, insertion, numbering, `process_content` and the
  window.
- `SessionTable`: `hit_session` and `prune_stale` as functions on a table
  value.
- `Pool`: the `WorkerPool` class, its routing and its table-updating methods.
- `Workers`: the `Worker` class and its drain loop.
- `Wrappers`: `Option` and `Result`.

Time is a clock reading in nanoseconds, passed in as `now`. Two things are
abstract function parameters:

- the inference engine;
- the embedder-plus-database, which answers `None` when a row was stored and
  `Some(message)` on error.

## Model

| member | source | states |
|---|---|---|
| Text.ByteLen | src/data/database.rs:135 | `str::len` counts UTF-8 bytes: between one and four per character |
| Text.IsWhitespace | src/data/database.rs:88 | on ASCII, `char::is_whitespace` is exactly space, tab, line feed, vertical tab, form feed and carriage return |
| Text.Trim | backend/src/database.rs:188 | `trim` leaves no whitespace at either end and never lengthens the string |
| Text.TrimShape | src/data/database.rs:88 | the trimmed string has no whitespace at either end, holds only characters of the input, and keeps every non-whitespace character |
| Text.TrimIdempotent | backend/src/database.rs:188 | trimming twice is trimming once |
| Text.Split | src/data/database.rs:129 | `split` always yields at least one piece |
| Text.JoinSplit | src/data/database.rs:129 | `split("\n")` loses nothing: joining the pieces with the separator gives the text back |
| Text.SplitPiecesFree | src/data/database.rs:136-137 | no piece of a split contains the separator |
| Text.Decimal | src/ai/worker_pool.rs:80 | the `Display` of a worker id is a non-empty run of decimal digits |
| Text.DecimalRoundTrip | src/ai/worker_pool.rs:80 | the decimal text of a worker id reads back as that id |
| Chunking.RemoveEmpty | backend/src/database.rs:228-229 | the `retain` of non-empty strings: what is kept is non-empty and comes from the list, never more than it held |
| Chunking.RemoveEmptyAppend | backend/src/database.rs:228-229 | the filter works part by part, so together with `RemoveEmptyOne` the kept strings are all the non-empty ones, in order, repeats included |
| Chunking.SplitLines | src/data/database.rs:129-130 | every line kept is non-empty, free of `'\n'`, and one of the split pieces; it is `RemoveEmpty` of the split, so `RemoveEmptyAppend` fixes the order |
| Chunking.SplitLinesLosesOnlyEmptyLines | backend/src/database.rs:228-229 | every non-empty line survives, whitespace-only lines included, and the split itself loses nothing |
| Chunking.TrimmedPieces | src/data/database.rs:138-139 | `map(trim)` then `filter(non-empty)`: at most one piece per input, none empty |
| Chunking.TrimmedPiecesAppend | backend/src/database.rs:237-238 | the trimming filter works part by part, so together with `TrimmedPiecesOne` the pieces come out trimmed, in order, repeats included |
| Chunking.DotPieces | src/data/database.rs:136-140 | the `'.'` split of a chunk, trimmed, empty pieces dropped: no more pieces than the split, none empty |
| Chunking.DotPiecesUnsplittable | src/data/database.rs:136-140 | the `'.'` pieces of a chunk are non-empty, contain no `'.'` and are trimmed |
| Chunking.DotPiecesOfUnsplittable | src/data/database.rs:136-140 | splitting a trimmed, non-empty, `'.'`-free piece gives back exactly that piece, the fixed point that makes the loop hang |
| Chunking.RefinedSettled | src/data/database.rs:133-147 | every chunk the loop leaves is at most 1000 bytes or cannot be split further |
| Chunking.RefinedShort | backend/src/database.rs:233-246 | when every long chunk splits into short pieces, every resulting chunk is at most 1000 bytes |
| Chunking.StepShort | src/data/database.rs:144-146 | an iteration at a chunk of at most 1000 bytes leaves the list alone and advances the index |
| Chunking.StepLong | src/data/database.rs:135-143 | an iteration at a longer chunk replaces it in place by its pieces and keeps the index |
| Chunking.RunOver | src/data/database.rs:133-147 | when every chunk fits, the loop gets past them in `StepCount` iterations and leaves `Refined(cs)`, with neighbours untouched |
| Chunking.LoopTerminates | backend/src/database.rs:232-246 | when every chunk fits, the loop exits with `Refined(cs)` |
| Chunking.StuckForever | src/data/database.rs:133-147 | a stuck state is never left: the guard stays true and the state stays the same |
| Chunking.LoopDiverges | src/data/database.rs:133-147 | when some long chunk has a piece over 1000 bytes, the loop reaches a state that one iteration maps to itself |
| Chunking.SplitLongChunks | src/data/database.rs:133-147 | the loop as written, on inputs where it ends: the result is `Refined(lines)` and every chunk is at most 1000 bytes |
| Chunking.SplitLongChunksFixed | backend/src/database.rs:232-246 | the loop stepping past spliced pieces ends on every input with `Refined(lines)`, all chunks settled, and all short when every chunk fits |
| VectorStore.AsU16 | src/data/database.rs:152 | `i as u16` is `i` below 65536 and agrees with `i` modulo 65536 |
| VectorStore.FilterAscii | src/data/database.rs:83-86 | the filtered string is ASCII and no longer than the input |
| VectorStore.FilterAsciiMembers | backend/src/database.rs:183-186 | the filter keeps exactly the ASCII characters |
| VectorStore.FilterAsciiAppend | backend/src/database.rs:183-186 | the filter works part by part, so together with `FilterAsciiOne` the kept characters stay in order, repeats included |
| VectorStore.FilterAsciiOfAscii | src/data/database.rs:83-86 | an ASCII string passes the filter unchanged |
| VectorStore.Sanitize | src/data/database.rs:83-88 | the stored text is ASCII, has no whitespace at its ends and is no longer than the chunk |
| VectorStore.SanitizeEmpty | backend/src/database.rs:184-191 | a chunk sanitises to empty exactly when all its ASCII characters are whitespace |
| VectorStore.SanitizeIdempotent | src/data/database.rs:83-88 | sanitising twice is sanitising once |
| VectorStore.FilterBeforeTrim | src/data/database.rs:83-88 | the filter runs before the trim: `"é a"` stores `"a"`, whereas trimming first would leave `" a"` |
| VectorStore.InsertIntoVdb | src/data/database.rs:83-115 | empty-chunk error iff the sanitised chunk is empty; a stored row iff it is non-empty and the backend accepts it; the row holds the id, the number and the sanitised text; a backend failure `Some(m)` comes back as `Err(Backend(m))`, passed up unchanged as the `?` does |
| VectorStore.EmptyChunkSkipsBackend | backend/src/database.rs:191-193 | with an empty sanitised chunk the result is the empty-chunk error whatever the backend does, so the backend is never consulted |
| VectorStore.ContainsAt | src/data/database.rs:157 | `contains` holds exactly when the pattern occurs at some position |
| VectorStore.SkippedIffContains | backend/src/database.rs:254 | an error is skipped exactly when its text contains `"content chunk is empty!"`, the empty-chunk error included |
| VectorStore.Attempts | src/data/database.rs:149-153 | one outcome per chunk, in chunk order: chunk `i` is inserted under number `i as u16` |
| VectorStore.Stored | src/data/database.rs:149-156 | the rows stored by the first `n` iterations: at most one per iteration |
| VectorStore.Reported | src/data/database.rs:155-161 | the error texts of the first `n` iterations that were not skipped: at most one per iteration |
| VectorStore.ReportedFrom | backend/src/database.rs:248-260 | the reported texts are exactly the messages of the errors that were not skipped |
| VectorStore.StoredFrom | src/data/database.rs:149-163 | the stored rows are exactly the successful outcomes |
| VectorStore.StoredRows | backend/src/database.rs:248-260 | every stored row is well formed and is chunk `i` sanitised, under number `i as u16`, for some `i` |
| VectorStore.InsertedRow | backend/src/database.rs:189-214 | a row `insert_into_vdb` returns is non-empty, ASCII, trimmed, and carries the given number and id |
| VectorStore.StoredChunk | src/data/database.rs:149-163 | a chunk that sanitises to something the backend accepts is stored |
| VectorStore.EveryChunkAccounted | src/data/database.rs:149-163 | no chunk aborts the loop: each is stored, reported or skipped, exactly one of the three |
| VectorStore.NumberingGap | backend/src/database.rs:248-258 | a skipped empty chunk leaves a gap: chunks `[" ", "a"]` store only `"a"`, under number 1, and report nothing |
| VectorStore.NumberingWraps | src/data/database.rs:152 | chunk 65536 is stored under number 0, the same as chunk 0 |
| VectorStore.ProcessContent | src/data/database.rs:119-166 | with the corrected chunk loop: a failed content insert is the only error; otherwise the content is returned, the chunks are `Refined(SplitLines(text))` (what the loop as written leaves whenever it ends), and the stored and reported rows are those of the numbering loop |
| VectorStore.AdjacentWindow | src/data/database.rs:240-250 | `None` exactly when `chunk_number + upper` overflows `u16`; otherwise `start <= chunk_number <= end` |
| VectorStore.WindowMembers | backend/src/database.rs:134-144 | the window holds exactly the numbers from `chunk_number - lower` to `chunk_number + upper`, floored at 0 |
| SessionTable.Age | src/ai/worker_pool.rs:149 | `duration_since`: never more than `now`, and zero exactly when `last_used` is not before `now` |
| SessionTable.Expired | src/ai/worker_pool.rs:149 | an entry is expired exactly when `now > last_used + 30 min`, strictly |
| SessionTable.Without | src/ai/worker_pool.rs:137 | the `retain` that drops `s` never lengthens the list; `WithoutMembers` and `WithoutAppend` fix its contents and order |
| SessionTable.Evict | src/ai/worker_pool.rs:122-128 | the eviction only removes keys and ids, and changes nothing when `s` is already mapped |
| SessionTable.Prune | src/ai/worker_pool.rs:142-162 | `prune_stale` only removes keys and never lengthens the list |
| SessionTable.Hit | src/ai/worker_pool.rs:130-138 | after `hit_session(s, w)` at `now`, `s` maps to `(w, now)` and is the last id in the list |
| SessionTable.EvictValid | src/ai/worker_pool.rs:122-128 | the eviction keeps map and list in step, and leaves room whenever `s` is new |
| SessionTable.HitPreservesValid | src/ai/worker_pool.rs:120-139 | `hit_session` keeps the invariant: map keys equal list ids, no duplicates, at most 10 |
| SessionTable.HitEviction | src/ai/worker_pool.rs:122-128 | a new session on a full table evicts exactly the front id; on a table with room nothing is evicted; a known session changes neither size nor key set |
| SessionTable.HitKeepsOthers | src/ai/worker_pool.rs:125-138 | every other surviving id keeps its entry, and the other ids keep their relative order |
| SessionTable.WithoutMembers | src/ai/worker_pool.rs:137 | the `retain` that removes the session keeps exactly the other ids |
| SessionTable.PrunePreservesValid | src/ai/worker_pool.rs:142-162 | `prune_stale` keeps the invariant |
| SessionTable.PruneRemovesOnlyExpired | src/ai/worker_pool.rs:148-152 | only expired entries leave the map, and kept entries are unchanged |
| SessionTable.LeadingStaleSpec | src/ai/worker_pool.rs:145-160 | the count of leading stale ids covers ids that are unmapped or expired and stops at the first live one |
| SessionTable.PruneShape | src/ai/worker_pool.rs:144-161 | the leading stale ids leave list and map, and the first live id moves from the front of what is left to its back |
| SessionTable.PruneStopsAtFirstLive | src/ai/worker_pool.rs:142-162 | on a valid table the sweep removes exactly the leading expired run, stops at the first live entry and moves it to the back; an all-expired table becomes empty |
| SessionTable.PruneKeepsAtTtl | src/ai/worker_pool.rs:149 | an entry exactly 30 minutes old is kept (and moved to the back) |
| SessionTable.PruneRotates | src/ai/worker_pool.rs:153-155 | with two live ids, one prune swaps them and a second prune swaps them back |
| SessionTable.PruneThenHitEvictsSecondOldest | src/ai/worker_pool.rs:153-155 | after a prune, recording a new session on a full table evicts the second-oldest id and keeps the oldest |
| SessionTable.PruneFixedShape | src/ai/worker_pool.rs:144-161 | the corrected sweep drops the leading stale ids and leaves the rest of the list in place |
| SessionTable.PruneFixedValid | src/ai/worker_pool.rs:142-162 | the corrected sweep keeps the invariant, and its list is a suffix of the old list |
| SessionTable.PruneFixedIdempotent | src/ai/worker_pool.rs:142-162 | the corrected sweep is idempotent |
| SessionTable.PruneFixedThenHitEvictsOldest | src/ai/worker_pool.rs:120-162 | with the correction, a prune followed by a new session on a full table evicts the oldest id |
| Pool.WrappingIncrement | src/ai/worker_pool.rs:184 | `wrapping_add(1)` adds one below `usize::MAX` and wraps to 0 at it |
| Pool.Select | src/ai/worker_pool.rs:178-187 | a mapped session goes to its recorded worker (out of range panics) and leaves `next` alone; an unmapped one goes to `next % len` and advances `next`; zero workers panics |
| Pool.Misses | src/ai/worker_pool.rs:181-186 | the routings of `k` consecutive unmapped jobs: exactly `k` of them |
| Pool.RoundRobin | src/ai/worker_pool.rs:181-186 | the `i`-th consecutive unmapped job goes to worker `((next + i) mod 2^64) mod len` |
| Pool.RoundRobinFromZero | src/ai/worker_pool.rs:181-186 | from `next = 0`, consecutive unmapped jobs go to workers `0, 1, …` modulo the worker count |
| Pool.SameSessionTwoWorkers | src/ai/worker_pool.rs:164-191 | because `accept` records nothing, one unmapped session sent twice goes to two different workers when there are at least two and `next < usize::MAX` (at `usize::MAX` the wrap to 0 can land on the same worker, e.g. with 3 workers) |
| Pool.SelectAndRecord | src/ai/worker_pool.rs:178-187 | the corrected `accept` routes exactly as `accept` does |
| Pool.PinnedAffinity | src/ai/worker_pool.rs:120-139 | with the correction, a session's second job goes to the same worker, `next` stays put, and the table stays valid |
| Pool.WorkerPool.constructor | src/ai/worker_pool.rs:111-116 | a new pool has an empty, valid table and `next == 0` |
| Pool.WorkerPool.HitSession | src/ai/worker_pool.rs:120-139 | the in-place update leaves exactly the `Hit` table, keeps the invariant and leaves `next` alone |
| Pool.WorkerPool.PruneStale | src/ai/worker_pool.rs:142-162 | the pop/re-push loop leaves exactly the `Prune` table, keeps the invariant and leaves `next` alone |
| Pool.WorkerPool.Accept | src/ai/worker_pool.rs:178-187 | routes as `Select`, updates only `next`, and leaves map and list unchanged |
| Pool.WorkerPool.AcceptPinned | src/ai/worker_pool.rs:164-191 | `accept` followed by `hit_session` on the chosen worker: the `SelectAndRecord` result, keeping the invariant |
| Workers.Display | src/ai/worker_pool.rs:28-31 | an `InferenceResult` displays exactly its inner string |
| Workers.ErrorText | src/ai/worker_pool.rs:80 | the error reply starts with `"id: "` and ends with the engine's message |
| Workers.ErrorTextRoundTrip | src/ai/worker_pool.rs:80 | the error reply `"id: <id>, inference error: <msg>"` gives back the worker id and the engine's message unchanged |
| Workers.Reply | src/ai/worker_pool.rs:77-83 | an `Ok` answer displays as its text; an `Err` answer displays as a line that starts with `"id: "` and ends with the engine's message |
| Workers.Replies | src/ai/worker_pool.rs:69-85 | one reply per job |
| Workers.ReplyAt | src/ai/worker_pool.rs:77-83 | reply `i` answers job `i`, with the engine's `i`-th call after the start |
| Workers.RepliesPerJob | src/ai/worker_pool.rs:69-85 | reply `i` is the engine's text for job `i`, or an error reply carrying the worker id and the engine's message |
| Workers.Worker.constructor | src/ai/worker_pool.rs:53-67 | a worker holds its id and its queue, with no engine calls made |
| Workers.Worker.Run | src/ai/worker_pool.rs:69-85 | the loop drains the whole queue, makes one engine call per job, and sends the replies `Replies` prescribes, in order |

## Left out

- Floating-point embedding vectors, metadata, timestamps and the database's id generation are not modelled. The stored row keeps only the content id, the chunk number and the chunk text.
- All SurrealDB calls are abstract. This covers `get_db`, `VDB::new`, `insert_content`'s `create`, `get_related_chunks`, `get_all_content`, `delete_content`, `get_content` and `get_vector_indexes`. The failure of `insert_content` is the `contentError` parameter of `ProcessContent`, and the embedder plus the `create` call are the `backend` parameter.
- `get_adjacent_chunks` is modelled only up to its bounds. The query that fetches the rows is left out.
- The `println!` output is not modelled. `Reported` collects the error texts (`e.to_string()`) that the loop prints after `"unable to insert vector index: "`, not the printed lines themselves.
- VectorStore.AdjacentWindow: returns `None` where `chunk_number + upper` overflows. That matches the panic of a debug build. A release build wraps the sum instead, and that case is not modelled.
- VectorStore.ProcessContent: runs `SplitLongChunksFixed`, not the loop as written. On a text with a line over 1000 bytes whose `'.'` pieces include one over 1000 bytes (e.g. 1001 `a` characters), the source's `process_content` never returns and inserts nothing, whereas the model returns `Ok` and stores the chunks. On every other text the two agree (`LoopTerminates`).
- Chunking.SplitLongChunks: requires every chunk to fit, because on the other inputs the source's loop never ends. A method cannot end there. `LoopDiverges` states that case on the step-by-step model.
- The tokio channels, `spawn_blocking`, the backpressure of `send().await`, and the `?` on `send` and on the reply receiver in `accept` are concurrency plumbing and are not modelled. The worker's queue is the finite sequence of jobs the channel delivers before it closes.
- The engine's internal state is reduced to the number of calls made before. Model loading in `WorkerPool::new` and everything in the inference and bert modules are not modelled.
- `Instant::now()` is the `now` parameter. `duration_since` saturates at zero when `now` is earlier.
- A failed `reply_tx.send` is ignored by the source and not modelled: `Run` returns every reply.
- Text is a sequence of Unicode scalar values, not raw bytes. Byte lengths come from `ByteLen`. Rust's `str` is always valid UTF-8, so nothing is lost.

## Findings

| source | as written | input that shows it | evidently intended | confidence | as-written member | corrected member |
|---|---|---|---|---|---|---|
| src/ai/worker_pool.rs:164-191 | `accept` reads the session map but never calls `hit_session`, so no session is ever recorded | two jobs of the same session on a pool of two workers with `next = 0` go to workers 0 and 1 | record the session against its worker, so its later jobs stick to it | high (not executed) | Pool.SameSessionTwoWorkers | Pool.PinnedAffinity |
| src/ai/worker_pool.rs:153-155 | `prune_stale` re-inserts the first live id at the back of the recency list, making the least recent session the most recent | table `["a", "b"]`, both live: one prune gives `["b", "a"]`; on a full table a following new session evicts the second-oldest id | put the live id back at the front and stop, leaving the order alone | high (not executed) | SessionTable.PruneThenHitEvictsSecondOldest | SessionTable.PruneFixedThenHitEvictsOldest |
| src/data/database.rs:133-147 | the index stays put after splicing in the `'.'` pieces, and a piece over 1000 bytes is split again into itself, for ever | a line of 1001 `a` characters and no `.` | advance past pieces that cannot be split further | high (not executed) | Chunking.LoopDiverges | Chunking.SplitLongChunksFixed |
