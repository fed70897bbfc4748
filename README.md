# memvectordb core in Dafny

memvectordb keeps named collections of embeddings in memory. An embedding is
an identifier (a string dictionary), a vector of `f32` and optional metadata.
A collection has a fixed dimension and a distance kind (Euclidean, Cosine,
DotProduct). The project models three parts of it:

- The registry `CacheDB` (`src/db.rs`, `src/model.rs`): `new`,
  `create_collection`, `delete_collection`, `insert_into_collection`,
  `update_collection` and `get_collection`.
  - `Registry` states each operation as a function from the collection map
    to the result and the map left behind.
  - The class `Db.CacheDB` updates its `collections` field in place. Each of
    its methods is proved to return and leave exactly what the matching
    function says.
  - Lemmas relate the operations: a batch update is a sequence of single
    inserts; it is not atomic; delete undoes create; every operation keeps
    identifiers distinct and non-Cosine vectors at the collection's
    dimension.
- The top-k search `Collection::get_similarity` (`Search`).
  - Every embedding is scored in storage order.
  - A bounded max-heap keeps the `k` smallest scores. The heap is modelled
    as a multiset; `peek` and `pop` take a greatest element.
  - `into_sorted_vec` orders the kept scores.
  - The result is proved to be a top-`k` selection: the right size, in
    ascending order, no embedding twice, and no omitted score smaller than a
    returned one.
  - `k == 0` on a non-empty collection panics, as `peek().unwrap()` does.
- The log replay (`src/replay_log.rs`).
  - `LogText` models `str::trim`, `str::contains`, the timestamp pattern
    with its leftmost non-overlapping scan, and `split_by_date`.
  - `ReplayLog` models the creation-line pattern, `usize` parsing, the
    distance names, `parse_and_create_collection` (on the shared `CacheDB`),
    and `replay_logs`. The log file is an input value: either it failed to
    open, or it is a list of lines, each read or failed.
  - Proved: the pieces before trimming put back together are the log;
    each entry that starts at a timestamp keeps it after trimming; the
    creation pattern matches at a position exactly when the text it expects
    for admissible groups occurs there (both directions), so that text
    parses back to its groups; replay only adds empty collections and never
    alters existing ones.

Files: `model.dfy` (data types), `registry.dfy`, `db.dfy`, `search.dfy`,
`log_text.dfy`, `replay_log.dfy`.

## Model

| member | source | states |
|---|---|---|
| Db.CacheDB.constructor | src/db.rs:53-57 | a new registry has no collections and is well formed |
| Db.CacheDB.CreateCollection | src/db.rs:63-82 | result and new map are those of `Registry.Create`; the registry stays well formed |
| Db.CacheDB.DeleteCollection | src/db.rs:84-92 | result and new map are those of `Registry.Delete`; the registry stays well formed |
| Db.CacheDB.InsertIntoCollection | src/db.rs:94-120 | result and new map are those of `Registry.Insert`; the registry stays well formed |
| Db.CacheDB.UpdateCollection | src/db.rs:122-155 | the item-by-item loop returns and leaves exactly what `Registry.Update` does, partial appends on failure included; the registry stays well formed |
| Db.CacheDB.GetCollection | src/db.rs:157-159 | `Some` exactly when the name is registered, with the stored collection, which is well formed |
| Registry.Stored | src/db.rs:112-117 | a Cosine collection stores the normalized vector; other kinds store the embedding unchanged; id and metadata are always kept |
| Registry.StoredAll | src/db.rs:145-151 | the stored form of every batch item, in batch order |
| Registry.Get | src/db.rs:157-159 | `Some` exactly for registered names, with their collection |
| Registry.Create | src/db.rs:63-82 | a taken name gives `UniqueViolation` and changes nothing; otherwise the returned empty collection is added under that name only, with any dimension (0 included), and the other entries are untouched |
| Registry.Delete | src/db.rs:84-92 | an absent name gives `NotFound` and changes nothing; otherwise exactly that key is removed |
| Registry.Insert | src/db.rs:94-120 | the checks in source order (`NotFound`, then `UniqueViolation` for a repeated id, then `DimensionMismatch`); success exactly when all three pass; a failure changes nothing; success appends the stored form at the end and touches no other collection |
| Registry.AppendBatch | src/db.rs:133-152 | the loop keeps what was there as a prefix; on success it appends every item's stored form in order; a failure is `UniqueViolation` or `DimensionMismatch` |
| Registry.Update | src/db.rs:122-155 | `NotFound` for an absent name; otherwise names are kept, other collections untouched, success appends the whole batch, and an empty batch changes nothing |
| Registry.UpdateIsInsertSequence | src/db.rs:134-152 | on an existing collection, `update_collection` equals `insert_into_collection` applied to each item in turn, stopping at the first error; each item is checked against earlier items of the same batch |
| Registry.InsertEachFailureKeepsPrefix | src/db.rs:134-143 | when inserting the items one by one fails, the items before the failing one were each inserted and the failing insert changed nothing |
| Registry.UpdateFailureKeepsPrefix | src/db.rs:134-143 | a failed update is not rolled back: some item failed, the items before it stay appended exactly as their own successful update would leave them, and the error is the one a single insert of that item reports |
| Registry.UpdateCount | src/db.rs:151 | a successful update adds exactly one embedding per batch item |
| Registry.CreateThenGet | src/db.rs:69-81 | after creating a fresh name, `get_collection` returns the empty collection with the requested dimension and distance, and creating the name again fails with `UniqueViolation` and changes nothing |
| Registry.DeleteUndoesCreate | src/db.rs:84-92 | deleting a collection right after creating it succeeds and restores the previous registry |
| Registry.UnusedErrors | src/model.rs:42-58 | no registry operation ever returns `EmbeddingUniqueViolation` or `LoggerInitializationError` |
| Registry.AppendPreservesWellFormed | src/db.rs:104-117 | appending an embedding that passed both checks keeps ids distinct and non-Cosine vector lengths equal to the dimension |
| Registry.InsertPreservesWellFormed | src/db.rs:94-120 | `insert_into_collection` keeps every collection well formed |
| Registry.AppendBatchPreservesWellFormed | src/db.rs:134-152 | the batch loop keeps the collection well formed, whether it succeeds or stops early |
| Registry.UpdatePreservesWellFormed | src/db.rs:122-155 | `update_collection` keeps every collection well formed |
| Registry.CreateDeletePreserveWellFormed | src/db.rs:63-92 | create and delete keep every collection well formed |
| Search.ScoresOf | src/db.rs:20-28 | one score per stored embedding, in storage order, each tagged with its own position |
| Search.RejectStep | src/db.rs:32 | a score not below the heap's top is skipped, and the heap still holds only seen scores and never omits a smaller one |
| Search.ReplaceStep | src/db.rs:32-37 | pushing a score below the top and popping a greatest element keeps the heap size and keeps the smallest scores seen; what is popped is never the new score |
| Search.PushStep | src/db.rs:32-33 | while the heap is below `k`, a push keeps it equal to all scores seen |
| Search.Offer | src/db.rs:31-38 | one round of the selection loop panics exactly when `k == 0`; otherwise the heap holds `min(k, seen)` of the scores seen, all of them while fewer than `k` were seen, and never omits a smaller score than one it holds |
| Search.KeepSmallest | src/db.rs:30-39 | the whole loop panics exactly when `k == 0` and there is a score; otherwise it ends with the `min(k, n)` smallest scores |
| Search.IntoSortedVec | src/db.rs:41 | the heap's elements as a permutation in ascending order |
| Search.ResultsOf | src/db.rs:42-47 | one result per selected score, with the score and the embedding stored at its index |
| Search.GetSimilarity | src/db.rs:16-48 | panics exactly when `k == 0` on a non-empty collection; otherwise returns a top-`k` selection: `min(k, n)` results in ascending score order, each paired with its own embedding, and no omitted embedding scores lower than a returned one |
| Search.TopKIndicesDistinct | src/db.rs:41-47 | no embedding appears twice in a search result |
| Search.TopKReturnsAllWhenKLarge | src/db.rs:30-39 | with `k` at least the collection size, every stored embedding is returned |
| Search.SingleEmbeddingSearch | src/handlers.rs:440-458 | a collection holding one embedding answers `k >= 1` with that embedding and its score |
| LogText.TrimStart | src/replay_log.rs:42 | drops exactly the leading Unicode whitespace |
| LogText.TrimEnd | src/replay_log.rs:42 | drops exactly the trailing Unicode whitespace |
| LogText.Trim | src/replay_log.rs:42-48 | `str::trim`: the result is no longer than the input, neither starts nor ends with whitespace, and a string without whitespace is left unchanged |
| LogText.TrimIsSlice | src/replay_log.rs:42-48 | `str::trim` removes exactly a leading and a trailing stretch of whitespace: the result is a contiguous slice of the input, and everything before and after it is whitespace |
| LogText.Contains | src/replay_log.rs:24 | true exactly when the pattern occurs at some position |
| LogText.FindIter | src/replay_log.rs:36-39 | the starts of the timestamp matches found by the scan: each is a match, they do not overlap, and no match starts before the first one or in a gap between two |
| LogText.TimestampAt | src/replay_log.rs:36 | the pattern `\d{4}-\d{2}-\d{2} \d{2}:\d{2}:\d{2}` matches at a position; a match lies within the text and starts and ends with an ASCII digit |
| LogText.Segments | src/replay_log.rs:39-49 | the text from a start cut at each cut in turn, with the tail after the last cut: at most one piece more than there are cuts, and no piece empty (an empty stretch is skipped, as `start != end` and `start < log.len()` skip it) |
| LogText.Pieces | src/replay_log.rs:39-49 | the log cut at every timestamp match: at most one piece more than there are matches, none of them empty |
| LogText.TrimAll | src/replay_log.rs:42 | every piece trimmed, in order |
| LogText.SplitByDate | src/replay_log.rs:35-52 | the loop returns the pieces of the log cut at every match start, with the tail after the last cut, each piece non-empty before trimming and then trimmed (a piece that trims to nothing is kept) |
| LogText.PiecesConcat | src/replay_log.rs:39-49 | before trimming, the pieces put back together are the whole log |
| LogText.EntryCount | src/replay_log.rs:39-49 | one entry per timestamp match, plus one when a non-empty log does not start with a timestamp |
| LogText.PieceAtMatch | src/replay_log.rs:40-45 | the piece cut at a match starts with that match's 19 characters |
| LogText.EntryStartsWithTimestamp | src/replay_log.rs:36-45 | every entry cut at a match still starts with that timestamp after trimming |
| LogText.EmptyLogHasNoEntries | src/replay_log.rs:47-49 | an empty log yields no entries |
| LogText.NoTimestampSingleEntry | src/replay_log.rs:47-49 | a non-empty log with no timestamp yields one entry, the whole log trimmed |
| ReplayLog.RunSpec | src/replay_log.rs:57 | the run of a character class from a position holds only class characters and stops at the end of the line or at a character outside the class |
| ReplayLog.RunExact | src/replay_log.rs:57 | any stretch of class characters that stops at the end or at a character outside the class is the run, so the run is the longest one |
| ReplayLog.MatchGroup | src/replay_log.rs:57 | a matched group ends where its following literal ends, within the line |
| ReplayLog.GroupSound | src/replay_log.rs:57 | a matched group is non-empty, all in its class, and followed by its literal |
| ReplayLog.GroupComplete | src/replay_log.rs:57 | a non-empty text of the class followed by the literal, which starts with a character the class excludes, is the group matched there, and matching resumes after the literal |
| ReplayLog.MatchCreateAt | src/replay_log.rs:57-60 | the creation pattern tried at one position: the three groups of the match starting there, or none; `MatchCreateAtIff` states what it matches |
| ReplayLog.PartsOfShape | src/replay_log.rs:57 | the pattern's text occurring at a position puts its literals and groups one after another |
| ReplayLog.ShapeOfParts | src/replay_log.rs:57 | literals and groups occurring one after another spell the pattern's text |
| ReplayLog.ShapeSound | src/replay_log.rs:57 | a match of the three-group pattern has admissible groups whose pieces occur one after another at the match |
| ReplayLog.ShapeComplete | src/replay_log.rs:57 | admissible groups whose pieces occur one after another are matched there, with the same dimension and distance groups |
| ReplayLog.ShapeCompleteName | src/replay_log.rs:57 | such a match also has the same name group |
| ReplayLog.MatchCreateAtIff | src/replay_log.rs:57 | the creation pattern matches at `p` with given groups exactly when the groups are admissible and their creation text occurs at `p` |
| ReplayLog.FindCreate | src/replay_log.rs:60 | `captures` returns the leftmost match; none exactly when the pattern matches nowhere |
| ReplayLog.FindCreateIsLeftmost | src/replay_log.rs:60 | the first position with a match is the one found |
| ReplayLog.MatchImpliesMarker | src/replay_log.rs:24 | every line the pattern matches contains the marker the replay loop dispatches on |
| ReplayLog.Decimal | src/replay_log.rs:62 | the decimal rendering of a number: non-empty ASCII digits, no leading zero, whose value is the number |
| ReplayLog.ParseUsize | src/replay_log.rs:62 | `parse::<usize>`: an optional `+` and at least one digit; on digits it succeeds exactly when the value fits in 64 bits |
| ReplayLog.ParseDecimal | src/replay_log.rs:62 | parsing a rendered `usize` gives it back |
| ReplayLog.ParseDecimalOverflow | src/replay_log.rs:62 | a dimension above the largest `usize` is a parse error |
| ReplayLog.DistanceFromWord | src/replay_log.rs:65-70 | exactly the three names map to their distance kinds; any other word is unknown |
| ReplayLog.ParseCreateLine | src/replay_log.rs:60-70 | no request exactly when the pattern matches nowhere; otherwise the dimension of the leftmost match is checked before its distance word, and a request carries that match's name, parsed dimension and distance |
| ReplayLog.ApplyCreateLine | src/replay_log.rs:54-80 | a line without a match succeeds and changes nothing; an unreadable dimension or distance fails and changes nothing; otherwise the registry becomes what `create_collection` leaves, and a taken name fails with `UniqueViolation` |
| ReplayLog.ParseAndCreateCollection | src/replay_log.rs:54-80 | on the shared `CacheDB`, the result and the new map are those of `ApplyCreateLine`; the registry stays well formed |
| ReplayLog.FindCreateAfterPrefix | src/replay_log.rs:57-60 | the creation text after a prefix without `C` is the leftmost match, with its own groups |
| ReplayLog.ParseCreateLineRoundTrip | src/replay_log.rs:56-70 | the text the creation pattern expects for given groups (name without quotes, decimal dimension, distance name), with any prefix lacking `C` before it and anything after it, parses back to the same name, dimension and distance |
| ReplayLog.ReplayEntry | src/replay_log.rs:23-31 | an entry without the creation marker (insertions included) leaves the registry unchanged |
| ReplayLog.Replay | src/replay_log.rs:23-31 | the dispatch loop over all entries in order, as a function; no collection name is ever lost |
| ReplayLog.ReplayEntryStep | src/replay_log.rs:23-31 | one entry keeps every existing collection and adds only empty ones |
| ReplayLog.ReplayKeepsExisting | src/replay_log.rs:23-31 | replay never changes or removes a collection it started with |
| ReplayLog.ReplayAddsOnlyEmpty | src/replay_log.rs:23-31 | every collection replay adds is empty: embeddings are not replayed |
| ReplayLog.ReplayPreservesWellFormed | src/replay_log.rs:23-31 | replay keeps the registry well formed |
| ReplayLog.ReplayIgnoresUnmarked | src/replay_log.rs:27-30 | a log whose entries never mention a created collection replays to the registry it started from |
| ReplayLog.ReplayRecreatesCollection | src/replay_log.rs:24-25 | an entry holding the creation pattern's text for given groups, after text containing no `C` (so no earlier match) and before anything, recreates that collection as `create_collection` would |
| ReplayLog.ReadLinesOk | src/replay_log.rs:15-19 | reading succeeds exactly when every line is read, and yields the lines joined with no separator |
| ReplayLog.ReadLinesFirstFailure | src/replay_log.rs:16-17 | a read error reports the message of the first line that failed, every earlier line having been read |
| ReplayLog.ReadLinesErrSticks | src/replay_log.rs:17 | once a line fails, the lines after it are not read |
| ReplayLog.ReadLines | src/replay_log.rs:15-19 | the reading loop: lines joined with no separator, stopping at the first failed line; an error is always the message of some failed line |
| ReplayLog.ReadLog | src/replay_log.rs:11-19 | opening then reading: an error is the opening error when the file did not open, and otherwise the message of a line that failed to read |
| ReplayLog.ReplayEntries | src/replay_log.rs:23-31 | the replay loop on the shared `CacheDB` leaves exactly the replay of the entries over what the registry held, and keeps it well formed |
| ReplayLog.ReplayLogs | src/replay_log.rs:9-33 | an open or read error is returned as its message; otherwise the result is `Ok` and the rebuilt registry is the replay of the split, trimmed content on an empty registry, and is well formed |

## Left out

- The HTTP layer is not part of this model: `src/handlers.rs`, `src/main.rs`, `src/response.rs`, `CacheDB::extension` and the request structs of `src/model.rs`. Its tests are cited only as examples of the properties.
- The similarity module is not part of this model. `normalize` is a parameter (`Registry.Normalize`). `get_cache_attr` and `get_distance_fn` together are one parameter (`Search.Metric`).
- Search.GetSimilarity: scores are integers ordered as `ScoreIndex` values compare, and `ScoreIndex` is taken to compare by score alone, because its `Ord` lives in the similarity module. Floating-point scores, NaN, and which of several tied scores are kept are not modelled. The contract therefore admits every top-`k` selection rather than naming one.
- Search.GetSimilarity: `par_iter` is modelled as a sequential map in storage order; the parallelism is not modelled.
- Vector components are 32-bit patterns (`bv32`) that are stored and passed on, never computed with. The length of `normalize`'s output is unknown, so well-formedness constrains stored vector lengths of non-Cosine collections only.
- `Mutex`/`RwLock` locking, lock poisoning (`lock().unwrap()`) and concurrency are not modelled.
- The regexes are fixed and valid, so the failure of `Regex::new` is not modelled. `\d` is taken to be an ASCII digit; non-ASCII decimal digits, which Rust's `\d` also accepts, are not modelled.
- Positions count characters, not UTF-8 bytes; every cut falls on a character boundary, so the pieces are the same.
- ReplayLog.ReplayLogs: opening `output.log` and splitting it into lines (`BufRead::lines`: terminators removed, invalid UTF-8 reported as an error) happen outside the model. The file is given as a `LogFile` value.
- ReplayLog.ReplayLogs: the source builds the registry in a local variable and drops it on return, so nothing reaches the caller. The rebuilt registry is therefore a ghost out-parameter.
- `print!` and `eprintln!` output is not modelled.
- The writer of `output.log` is not part of this model. The creation handler at src/handlers.rs:30 prints a debug dump of the collection, which does not include its name. The creation pattern's round trip is therefore stated for the text the pattern itself expects, not for text any handler writes.
- `parse_and_insert_embeddings` is commented out in the source. Entries that mention inserted embeddings are recognised and skipped, as in the source.
- `usize` is taken as 64 bits wide.
- Serialization (serde, JSON schema, the lower-case serde names of `Distance`) and error display messages are not modelled.
