# Data manager of a Storj-style erasure-coded store, modelled in Dafny

The data manager keeps files in an erasure-coded object store. A file is cut into segments,
and a segment into stripes. Each stripe is erasure-coded into shares, and the shares are
merged into pieces. The pieces are spread round-robin over a pool of storage nodes. A
relational catalog records files, segments and pieces, and every node keeps one blob (a
file on disk) per piece. On top of that the data manager:

- downloads a file by regrouping its piece rows per segment;
- scans the catalog for segments whose pieces are missing;
- ranks those segments by an estimate of how many churn rounds they can survive;
- repairs a segment by re-encoding it from the pieces that are left.

This project models those decision rules as pure Dafny functions over immutable values:

- The catalog is `Store.Catalog`: the file table as a sequence in row order, and the segment
  and piece tables as maps from id to row.
- The blob store is `Store.Blobs`, a map from (node id, piece id) to bytes.
- The random id generator is `Ids.IdGen`, a counter that never hands out an id twice.
- The erasure codec is `Records.Codec`, a record of uninterpreted functions built from a file
  configuration. The model passes its results along and assumes nothing about them.
- Ordered SQL query results (the joined piece rows of a download, the segment and piece
  lists of the scan, the piece ids of a repair) are parameters. Preconditions tie only their
  piece ids (and, for a download, their segment ids) to catalog rows. The file and segment
  lists of the scan are not tied to the file and segment tables, and the piece ids of a
  repair are not required to belong to the repaired segment.
- An insert whose key already exists changes nothing: segment and piece rows through
  `Seqs.PutIfAbsent`, file rows through `Store.InsertFile`, whose `id` primary key makes a
  second row with a stored id fail. Blobs are created exclusively, so an existing blob is
  never overwritten.

Modules:

- `Ids`: ids and the generator.
- `Records`: entities and the codec.
- `Seqs`: sequence and map helpers.
- `Paths`: blob paths.
- `Store`: the catalog, the blob store and the piece-level operations.
- `Placement`: round-robin placement.
- `Chunking`: the blob write loop.
- `Upload`, `Download`, `Scan`, `Priority` (with `Sorting`) and `Repair`: the orchestrators.

The code behaves as follows, which a reader might not expect:

- A download or repair does not skip a piece whose blob is missing. `download_piece` hands
  back the piece's row with no bytes, and the repair loop drops a piece only when its id is
  nil. `Repair.KeptAll` and `Download.FetchGroup` state this.
- The duplicate-name test compares the name of the record that the lookup by name returns.
  When nothing matches, that record is default-constructed with an empty name, so an upload
  under the empty name is always refused (`Upload.UploadFile`).
- The repair-priority score is not monotone in the number of surviving pieces. For one `k`
  and `0 < r1 < r2`, the score of `r1` is below the score of `r2` exactly when
  `r1 * r2 < (k - 1) * total_nodes` (`Priority.LessSameK`). For k = 5, the configuration
  named in the comment at storj/data_manager.cpp:768, and 20 nodes, 5 surviving pieces sort
  before 6, yet 10 also sort before 9 (`Priority.FewerPiecesFirst`).
- The scan and the repair read ids from left joins. When a file has no segments or a
  segment has no pieces, the join yields a NULL id, and building a string from it throws.
  See "## Findings".
- The sort is `std::sort`, which promises an ordering and a permutation but not stability.
  Only those two promises are stated.
- Old pieces are removed inside the repair transaction, right after the new ones are
  written, not after the commit.

## Model

| member | source | states |
|---|---|---|
| Ids.Draw | storj/data_manager.cpp:489-491 | a drawn id is not nil, was never issued before, and is issued by the advanced generator |
| Ids.DrawMany | storj/data_manager.cpp:520-525 | one id per piece, pairwise distinct and distinct from every earlier id (the counter that stands for random draws also makes them increase; the source's random ids have no order) |
| Paths.PiecePathRoundTrip | storj/data_manager.cpp:145-153 | a piece path parses back into the node id and piece id it was built from, when node ids hold no slash |
| Paths.PiecePathInjective | storj/data_manager.cpp:150-153 | two pieces share a blob path only if they share node and id, so keying blobs by (node, piece) loses nothing |
| Store.InsertFile | storj/data_manager.cpp:161-179 | a file row whose id is already stored leaves the file table as it was; any other row is appended; segment and piece tables are untouched |
| Store.InsertFileKeepsIdsUnique | storj/data_manager.cpp:161-179 | inserting a file row keeps the file ids unique, as the primary key does |
| Store.FirstMatch | storj/data_manager.cpp:245-286 | a lookup by name or by id lands on a matching row with no matching row before it, and finds none exactly when no row matches |
| Store.RemovePiece | storj/data_manager.cpp:430-440 | the piece row is gone whether or not the blob existed; the blob is gone; every other row and blob is unchanged |
| Store.RemoveWithoutBlob | storj/data_manager.cpp:433-437 | when the blob cannot be removed, the catalog row is still deleted and the blob store is unchanged |
| Store.UploadThenDownload | storj/data_manager.cpp:379-428 | a piece written under a fresh key and recorded downloads with exactly its bytes, and passes the audit |
| Store.TopUpNodes | storj/data_manager.cpp:95-117 | the node pool grows to the target size with fresh ids, and is left alone when already that large |
| Placement.Slot | storj/data_manager.cpp:536-548 | the pool position of piece i is a valid position, and is i itself while i is below the pool size |
| Placement.SlotIsMod | storj/data_manager.cpp:536-548 | the pool position of piece i is i mod pool size |
| Placement.SlotNext | storj/data_manager.cpp:544-548 | the next piece's position is one further on, wrapping to 0 after the last node |
| Placement.RoundRobin | storj/data_manager.cpp:534-549 | every segment starts at the first node; with no more pieces than nodes the placement is a prefix of the pool, duplicate-free when the pool is |
| Placement.PlaceSegment | storj/data_manager.cpp:534-549 | the cursor walk that wraps at the end of the pool puts piece i on the node at its slot, which is i mod pool size |
| Placement.RoundRobinWraps | storj/data_manager.cpp:544-548 | the placement repeats with period equal to the pool size: the piece one pool length on lands on the same node |
| Chunking.ChunkWrites | storj/data_manager.cpp:390-399 | the write requests concatenate to the payload; each is at most 16 KiB and all but the last are exactly 16 KiB |
| Chunking.ShortWriteTruncatesBlob | storj/data_manager.cpp:391-398 | a short write that reports success ends the loop without error but leaves a truncated blob |
| Chunking.WriteFullyStoresPayload | storj/data_manager.cpp:391-398 | the corrected loop, when no write fails, stores the whole payload |
| Upload.UploadFile | storj/data_manager.cpp:467-479 | an upload is refused with DuplicateName exactly when some file row has the name or the name is empty |
| Upload.PlanSegment | storj/data_manager.cpp:496-549 | a segment gets a fresh id, its index and the file id; its pieces are the codec's, stamped with indices, the segment id, round-robin nodes and ids above the segment's; with no more pieces than nodes in a duplicate-free pool, no two pieces share a node |
| Upload.PlanSegments | storj/data_manager.cpp:496-550 | segment t is stamped with index t; no id of one segment is drawn again for a later one (stated as counter order; the source's random ids have no order) |
| Upload.UploadRecordsFile | storj/data_manager.cpp:486-492 | a successful upload appends one file row with the requested name and configuration, under an id no stored file carries |
| Upload.UploadStampsSegments | storj/data_manager.cpp:495-504 | one segment per codec segment, with index t and the file id, recorded in the catalog under a fresh id |
| Upload.UploadStampsPieces | storj/data_manager.cpp:519-549 | piece i of a segment has index i, the segment id, the node at its round-robin slot, and a never-issued id absent from the old catalog that its shares carry |
| Upload.UploadRecordsPieces | storj/data_manager.cpp:536-549 | every piece of every uploaded segment has a catalog row and a blob holding its bytes |
| Upload.UploadKeepsExisting | storj/data_manager.cpp:484-549 | an upload changes no stored segment row, piece row or blob (the file table is covered by Upload.UploadRecordsFile) |
| Upload.UploadAddsFresh | storj/data_manager.cpp:486-549 | every row and blob an upload adds sits under an id the upload drew, one that was never issued before |
| Upload.UploadStaysIssued | storj/data_manager.cpp:484-549 | every id left in the stores after an upload was issued by the generator the upload hands back |
| Upload.UploadPlacementDistinct | storj/data_manager.cpp:534-549 | an uploaded segment with no more pieces than nodes has no two pieces on one node |
| Upload.ApplyPiecesFresh | storj/data_manager.cpp:536-549 | writing a segment's pieces under fresh ids adds exactly their rows and blobs and leaves everything stored alone |
| Upload.ApplyPlansKeys | storj/data_manager.cpp:496-550 | after all segments, the tables and the blob store hold exactly the old entries plus the new ones |
| Download.GroupRows | storj/data_manager.cpp:606-622 | the groups read back in order are exactly the rows; each group is a non-empty run of one segment id, and neighbours differ |
| Download.IndexOrderContiguous | storj/data_manager.cpp:591-602 | rows ordered by segment index, within a file whose segments have distinct indices, keep each segment's rows together |
| Download.GroupsDistinct | storj/data_manager.cpp:591-622 | when each segment's rows stand together, as ordering by segment index makes them, no segment id gets two groups |
| Download.FetchGroup | storj/data_manager.cpp:629-639 | one piece per row, in row order, with the blob's bytes, or no bytes when the blob is missing |
| Download.DecodeGroups | storj/data_manager.cpp:641-666 | one segment per group, carrying the group's id and the index and file id of its catalog row |
| Download.DownloadFile | storj/data_manager.cpp:579-675 | the file record comes from the lookup by name, and one segment comes back per run of rows, in row order |
| Download.DownloadDistinctSegments | storj/data_manager.cpp:599-666 | a download whose rows are ordered by segment returns no segment twice |
| Scan.CountPresent | storj/data_manager.cpp:758-765 | the loop counts the listed pieces that pass the audit |
| Scan.PresentBounds | storj/data_manager.cpp:758-765 | the count lies between 0 and the number listed, and reaches it exactly when every piece passes |
| Scan.ScanAsWritten | storj/data_manager.cpp:709-778 | the scan as written fails exactly when some file has no segment rows or some segment has no piece rows; otherwise it reports the entries and tally of the loops |
| Scan.ScanFile | storj/data_manager.cpp:736-777 | one file's loop appends one entry per short segment, in order, and counts them |
| Scan.ScanCorrupted | storj/data_manager.cpp:682-780 | with the NULL join row skipped, the whole scan yields every file's entries in file order, plus the tally |
| Scan.FullSegmentReported | storj/data_manager.cpp:758-775 | a segment listing exactly n pieces is reported exactly when one of them fails the audit |
| Scan.FileEntriesMembers | storj/data_manager.cpp:738-776 | a file's entries are exactly the flags of its segments |
| Scan.AllEntriesFlags | storj/data_manager.cpp:709-778 | the scan's entries are exactly the flags of all segments of all files |
| Scan.ShortSegmentReported | storj/data_manager.cpp:769-775 | a segment with fewer than n passing pieces is reported with the file's k and that count |
| Scan.HealthySegmentNotReported | storj/data_manager.cpp:769-775 | a segment listed once, with at least n passing pieces, is not reported |
| Scan.EntriesAreShortSegments | storj/data_manager.cpp:769-775 | every entry names a scanned segment with fewer than n passing pieces, with its file's k and that count |
| Scan.TallyKeys | storj/data_manager.cpp:777 | the tally has a key for every scanned file id and no other |
| Scan.TallyCountsFirst | storj/data_manager.cpp:709-778 | under a file id, the tally holds the count of the first file scanned with that id |
| Sorting.SortByCorrect | storj/data_manager.cpp:1024 | sorting by a key yields a permutation whose keys never decrease |
| Priority.ChurnPerRound | storj/data_manager.cpp:1005-1009 | the churn is the larger of failure rate times node count and the floor |
| Priority.Weight | storj/data_manager.cpp:1003-1013 | the score equals (r - k + 1)(T - r) / (r * churn); with 0 < r < T it is negative exactly when r < k - 1, and zero exactly at r = k - 1 |
| Priority.Less | storj/data_manager.cpp:1016-1020 | one segment sorts before another exactly when its cross-multiplied score is smaller, whatever the positive churn |
| Priority.LessSameK | storj/data_manager.cpp:1003-1020 | for one k and 0 < r1 < r2, the score of r1 is below that of r2 exactly when r1 * r2 < (k - 1) * T |
| Priority.FewerPiecesFirst | storj/data_manager.cpp:1016-1020 | with k = 5 and 20 nodes, 5 surviving pieces sort before 6, and 10 sort before 9, whatever the positive churn |
| Priority.AssociateFirst | storj/data_manager.cpp:995-1000 | the id map holds exactly the listed ids, each with the pair at its first position |
| Priority.AssociateValues | storj/data_manager.cpp:995-1000 | every pair in the id map is the pair at some position of that id |
| Priority.SortSegments | storj/data_manager.cpp:989-994 | differing lengths leave all three sequences unchanged; otherwise all three keep their common length |
| Priority.SortSegmentsPermutes | storj/data_manager.cpp:1023-1024 | the sorted ids are a permutation of the input ids |
| Priority.SortSegmentsRepairs | storj/data_manager.cpp:1026-1032 | each output position carries the k and r of the first input position of its id |
| Priority.SortSegmentsOrdered | storj/data_manager.cpp:1015-1024 | scores never decrease along the output |
| Repair.KeptAll | storj/data_manager.cpp:842-850 | with no nil id listed, every listed piece reaches the codec in order; a piece whose blob is missing arrives without bytes |
| Repair.KeptCount | storj/data_manager.cpp:842-850 | the codec receives one piece per listed non-nil id |
| Repair.RemoveAll | storj/data_manager.cpp:974-978 | afterwards no listed piece has a row or a blob; every other row and blob is unchanged |
| Repair.RepairSegment | storj/data_manager.cpp:796-978 | after a repair no listed old piece has a row or a blob, and the file and segment tables are unchanged |
| Repair.NewPieces | storj/data_manager.cpp:944-968 | new piece i carries the codec's i-th bytes and shares, index i, the segment id, the node at its round-robin slot, and a fresh increasing id; no two share a node when the pool is duplicate-free and large enough |
| Repair.StampRepaired | storj/data_manager.cpp:944-968 | new piece i keeps the codec's bytes and shares, gets index i, the segment id, the node at its round-robin slot and a fresh id above every earlier one; no two share a node when the pool is duplicate-free and large enough |
| Repair.RepairRecordsNew | storj/data_manager.cpp:944-978 | every new piece has a never-issued id that the returned generator has issued, and a catalog row that survives the removal of the old pieces |
| Repair.RepairWritesNew | storj/data_manager.cpp:953-978 | every new piece's bytes sit in a blob under its node and id, and survive the removal of the old pieces |
| Repair.RepairKeepsOthers | storj/data_manager.cpp:953-978 | unlisted rows and other blobs are unchanged, and everything added carries a freshly drawn id |
| Repair.RepairStaysIssued | storj/data_manager.cpp:944-978 | every id left in the stores was issued by the generator the repair hands back |

## Left out

- I/O is not modelled. The file system, the SQL engine, the clock and console output are all
  out; `perror`/`puts` messages and the timing log of `repair_segment` (lines 853-942) do not
  influence any decision.
- The erasure codec (`data_processor`) is not part of this model. Its operations are
  uninterpreted, so byte-for-byte round trips of a whole file, reconstruction from any k
  pieces, and the "fewer than k shares" failure cannot be stated.
- Transactions (begin, commit, rollback on a thrown `int`) are left out. The model has no
  failure inside an upload or repair that would roll back.
- The SQL failure paths are left out. A `prepare` that fails and returns early, and a lookup
  of a segment or piece id with no row, are excluded by preconditions. The NULL rows that a
  download's left joins yield for a file without segments, or for a segment without pieces,
  are excluded the same way, since every row's ids must name catalog rows. The source hands
  those NULL columns to the uuid parser (lines 611-613).
- Scan.ScanFile and Scan.ScanCorrupted skip the NULL row of an empty left join: a file
  without segments is tallied 0, and a segment without pieces counts 0 passing pieces. The
  source throws there instead. `Scan.ScanAsWritten` models the throw; see "## Findings".
- Repair.RepairSegment: a segment with no piece rows is repaired from no kept pieces. The
  source throws at line 830 on the left join's NULL id, as in the scan.
- Repair.RepairSegment: requires a non-empty node pool, as do the lemmas about it. The
  source also accepts an empty pool when the codec yields no pieces, and dereferences the
  end of the node set when it yields some (lines 954-968). Repair.NewPieces and
  Repair.StampRepaired accept the empty pool when there is nothing to place.
- Priority.Weight: computed over `real`, not IEEE doubles, and requires r != 0. With r = 0
  the source divides by zero and gets an infinity or NaN. `Priority.ValidModel` also
  excludes a node count or churn of zero.
- Priority.SortSegments: requires every r to be non-zero, because the score it sorts by is
  undefined at r = 0 (see Priority.Weight).
- The erasure-share insert (lines 196-212) is never called by the modelled operations.
- The file and segment removals (lines 331-365) are never called by the modelled
  operations.
- A lookup by name or id whose SQL has no `ORDER BY` takes the first matching row in table
  order (`Store.FirstMatch`). SQLite leaves the row unspecified and in practice scans in rowid
  order.
- Rendering ids as strings and parsing them back is reduced to comparing ids.
- The node directories created at start-up (lines 132-137) are reduced to the blob map.
- Upload.UploadFile: requires a non-empty node pool. The source also accepts an empty pool
  when the codec yields no pieces, and dereferences the end of the node set when it yields
  some.
- Store.UploadPiece: stores the whole payload. The chunked write loop and its short-write
  defect are modelled separately in `Chunking`.
- Chunking.ChunkWrites: requires the payload to leave room for the 32-bit loop counter's
  last step. Larger payloads overflow the `int` counter in the source.
- Download.DownloadFile: the final `mergeToSegment` bytes are whatever the codec returns.
  Only the segment ids, indices and file ids are constrained.

## Findings

| source | as written | input that shows it | evidently intended | confidence | as-written member | corrected member |
|---|---|---|---|---|---|---|
| storj/data_manager.cpp:714-755 | the segment and piece queries are left joins, and each id column is read into a `std::string` built from the column's text, which is a null pointer on the NULL row a file without segments or a segment without pieces yields; the constructor throws (undefined behaviour by the standard) and the scan ends without a report | a catalog holding one file row and no segment rows: the segment query yields one NULL row and the scan throws, so every later scan throws too | skip the NULL row, so a file without segments is tallied 0 and a segment without pieces is reported with 0 passing pieces | not executed | Scan.ScanAsWritten | Scan.ScanCorrupted |
| storj/data_manager.cpp:391-398 | the write loop advances the offset by a full 16 KiB unit after every `write` that returns a positive count, even when fewer bytes were written | a 2-byte payload whose single `write` stores 1 byte and returns 1: the loop ends without error and the blob holds 1 byte | advance the offset by the count `write` returns, so that a short write is followed by a write of the rest | not executed | Chunking.ShortWriteTruncatesBlob | Chunking.WriteFullyStoresPayload |
