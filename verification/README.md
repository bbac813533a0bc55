# StitchDB: buckets, transactions and the logs that must reproduce them

StitchDB keeps a bucket as a B-tree of entries ordered by key. Around it stand redundant copies: an eviction
tree ordered by expiry, an invalidation tree, one tree for each index over a JSON field, and an R-tree of
coordinates. Transactions record what they change, and commit by appending one statement per changed key to an
append-only file, or roll back by replaying what they recorded. A manager flushes the file, rewrites it when it
has grown, evicts expired entries without logging that, and flags invalid ones. The buckets themselves are
listed in a second log, the catalogue.

This project proves what each of these shortcuts keeps, and for those that do not keep what they should it
proves exactly when they do.

`dafny verify dfyconfig.toml` checks everything.

## Layout

| file | module | subject |
|---|---|---|
| prelude.dfy | Prelude | options, results, the orders a `range` over a map may take |
| text.dfy | Text | Go's Split, TrimSpace, Itoa, ParseInt and ParseBool on bytes |
| entry.dfy | Entries | entries, time, visibility, gjson as a parameter, what a reload leaves of an entry |
| trees.dfy | Trees | B-trees as sorted sequences under the comparators of entry.go and index.go |
| bucket_spec.dfy | BucketSpec | what insert, delete and an index build make of the whole bucket |
| tx_spec.dfy | TxSpec | what transactions record; commit and rollback in every map order |
| index_spec.dfy | IndexSpec | field indexes under operations and rollback |
| eviction_spec.dfy | EvictionSpec | the eviction loop, its bound, and its invisibility |
| codec.dfy, reader.dfy | Codec, Reader | the statement format and the batched loader |
| replay.dfy | Loading | replaying statements into a key map, applying them to a bucket, loading a bucket from bytes |
| compaction.dfy | Compaction | the rewrite of the file |
| recovery.dfy | Recovery | whole runs of commits, rollbacks and manager cycles, and what they keep of the file |
| durability.dfy | Durability | what a reader finds who comes back after a run: recovery, rewrites, torn writes |
| runs.dfy | DerivedRuns | indexes and the eviction tree over whole runs |
| radius.dfy | Radius | the search within a radius |
| catalogue.dfy | Catalogue | the log of buckets over whole runs |
| storage.dfy | Storage | classes EntryRef, Tree and Index, and the statement writers |
| bucket.dfy | Engine | class Bucket |
| tx.dfy | Transactions | class Tx |
| database.dfy | Databases | class Database |

The specification modules work on values: a bucket is a `State`, and `Insert`, `Delete`, `Evict`, `Restore` and
so on are functions of it. The classes change their fields in place as the original does, and each method's
`ensures` ties the new state to one of these functions, about which the lemmas then speak. The definitions on which
both rest are in turn characterized on their own, in lemmas named `…Meaning`: comparators, due times, distances, the
bytes of both logs, the trigger and the threshold of a rewrite.

## How the original is read

- An `Entry` is the part of an entry that never changes; the mutable `invalid` flag lives in `EntryRef`. A flag
  is only ever set on an entry that is out of date anyway (`FlagsSound`), so reads do not depend on it.
- Comparators have no tie-break by key (entry.go:79-91, index.go:47-60): entries with equal times or field
  values displace each other. A tree is *sound* when it is sorted and holds only live entries that belong in it,
  and *exact* when it also holds all of them.
- A string index compares `Float()` (index.go:55-56), not the string; the model does the same.
- Maps are walked in any order: theorems hold for every order that visits each key once.
- An `Instant` counts nanoseconds and its second fits 64 bits. Statements print whole seconds (TODO.md:12), so
  a reload brings expiry forward by up to a second; `InLostFraction` says when that shows.
- `~` is not escaped in keys and values. Nil options are printed as fixed defaults.
- Readings of JSON fields are a parameter (`Json`), and so are the float64 values and their printing (`FloatCodec`).
  Of printing only what strconv promises is used: it parses back, for float64 values, and has no blanks or `~`. A
  codec that keeps this promise is exhibited. Arithmetic is that of the reals, and 0.01 stands for its float64.
- Characters are bytes; TrimSpace trims ASCII blanks.
- The R-tree is a list of items; it hands out those whose closed box meets the query box. Distances are compared through their
  squares. The doc comment of SearchWithinRadius has the meaning of `georincl` the wrong way round
  (tx.go:482-485 against tx.go:525-526), and announces an error for a bucket that is not geo which the code does
  not return; the model follows the code.
- `compactLog` never writes the buffer left over at the end and leaves the file open at its start (bucket.go:467-479,
  bucket.go:499); `Bucket.CompactLog` does just that. `rct` is not reset by it. So a rewrite loses whatever was not
  flushed, everything if the statements take at most 1 MiB, and the next commit overwrites the head of the file.
- The invalidation loop only ever looks at the least item (bucket.go:439-449).
- `CreateBucket` on an existing bucket annotates a nil error, that is, returns none (db.go:362-365).
- The catalogue is rewritten while it has *few* lines for the number of buckets (db.go:225).

## Model

| member | source | states |
|---|---|---|
| Durability.RecoveryAfterAnyRun | bucket.go:70-142 | After any run of commits, rollbacks and manager cycles, rewrites of any size included, the file and buffer load without error exactly when what the log has left of the last rewritten file loads on its own; a later read of a key that rollbacks left as it was, or a later commit wrote, then finds what that rest holds if it writes the key, else the reloaded entry it would have found if the log writes the key, else nothing |
| Durability.RecoveryAfterRun | bucket.go:70-142 | In particular, if no rewrite was due, the load succeeds and such a read finds the reloaded entry it would have found before; it finds nothing instead exactly within the lost fraction of a second |
| Durability.RecoveryAfterRewrites | bucket.go:414-420 | With rewrites of at most 1 MiB in the run the load succeeds too, and such a read finds the same for keys written since the last rewrite, and nothing for all others |
| Durability.CommitAfterRewrite | bucket.go:499 | The first commit after a rewrite overwrites the head of the new file: it then loads without error exactly when the rest of that file does, with the statements of both; with nothing left behind, as the commit's statements alone; if a `~` in its first line shows that the rest begins inside a statement, with an error and without the commit but for full batches |
| Durability.FileLoads | bucket.go:70-142 | The same of any number of commits after a rewrite |
| Durability.StaleRead | bucket.go:499 | Where the log ends with a statement of the rewritten file, the keys behind read as they were at the rewrite, even if written or deleted since |
| Durability.TornWrite | bucket.go:158 | A write of statements cut off at any byte leaves the statements before the cut, so a commit is not atomic; the file loads as the log, these, and what stands behind |
| Durability.TornCommitAfterRun | bucket.go:76-95 | After any run with rewrites of at most 1 MiB, what a file loads into whose last commit was cut off at any byte; a cut inside a length line takes along earlier commits beyond the last full batch |
| Durability.RecoveryAfterRollback | tx.go:60-74 | After a rollback, whether or not it undid what it should, a written key reads back right exactly when the entry before its last write reads back like the one before the transaction |
| Durability.RecoveryInvisible | tx.go:323-334 | In runs as for RecoveryAfterRun, a key whose entry has whole-second times and takes its location from the value reads the same before and after recovery at any later time |
| Recovery.RunKeepsInv | bucket.go:384-457 | Every state of every run, rewrites of any size included, has sound eviction and invalidation trees and an exact R-tree; the file is the log since the last rewrite written over the head of the rewritten file, with nothing left of that if rewrites take at most 1 MiB, and never more statements than `rct` |
| Recovery.RunKeepsKey | tx.go:60-116 | In every such state the log agrees with the key map on any key that every rollback left as it was or a later commit wrote, and if no rewrite was due since, a live such key is logged |
| Recovery.LastRewrite | bucket.go:459-504 | What the log is written over is the file as the last rewrite left it |
| Recovery.CommitKeepsInv | tx.go:98-116 | A commit, in any order of `forward`, keeps the trees sound and lengthens the log in the file |
| Recovery.CommitKeepsKey | tx.go:107-115 | It brings every key it writes into agreement with the log, whatever was there, and keeps the others as they are |
| Recovery.RollbackKeepsInv | tx.go:60-74 | A rollback, in any order of `backward`, keeps the trees sound and the log in the file |
| Recovery.RollbackKeepsKey | tx.go:60-74 | It keeps the agreement on a key whose last write started from the original entry |
| Recovery.ManageKeepsInv | bucket.go:390-453 | A manager cycle with flush, rewrite if due, and unlogged eviction keeps the trees sound and the log in the file |
| Recovery.ManageKeepsKey | bucket.go:390-453 | It keeps the agreement on any key, and without a rewrite a live logged key stays logged |
| Durability.LogStaysShort | bucket.go:415-420 | In every run, while the compaction trigger does not fire, at most ten statements per entry have been written since the last rewrite; with rewrites of at most 1 MiB the file and buffer hold exactly these |
| DerivedRuns.IndexesAfterRun | index.go:80-105 | In any run among entries with distinct field values whose rollbacks are safe, every index is exactly the sorted sequence of live entries having its field |
| DerivedRuns.RebuildAfterRun | index.go:118-122 | In any such run a rebuild equals the index kept up to date all along |
| DerivedRuns.IndexesSoundAfterRun | index.go:80-105 | In any run, whatever values collide, if rollbacks put back only entries having the fields, every index holds only live entries having its field, in strict order |
| DerivedRuns.TimesAfterRun | bucket.go:263-318 | In any run among entries no two of which, under different keys, expire at the same time, the eviction tree is exactly the live entries that may expire; and so with invalidation times and the invalidation tree |
| DerivedRuns.PassesDrainAfterRun | bucket.go:425-435 | After any such run, floor(log2 n)+1 passes at one time leave no expired entry in the bucket |
| Loading.LoadedFrom | bucket.go:104-142 | A file of written statements loads without error into a sound bucket holding their replay, with `rct` their number |
| Loading.LoadedData | bucket.go:104-122 | Whatever the bytes, the key map loaded is the replay of the statements loaded |
| Recovery.ReplayCommit | tx.go:108-114 | Replaying what a commit wrote sets each changed key to its reloaded entry, and no other |
| Recovery.RunsExtend | bucket.go:390-453 | A bucket just opened is a run, and every commit, rollback or manager cycle extends a run |
| Recovery.StepsExist | tx.go:60-116 | In every state a transaction of writable operations can be committed or rolled back |
| TxSpec.RollbackExactly | tx.go:58-74 | Whatever the order, each key ends with the entry it had just before its last effective write, and an unwritten key is left alone |
| TxSpec.RollbackRestores | tx.go:58-74 | The key map is restored if and only if the last write of each key started from the original entry |
| TxSpec.RollbackRestoresKey | tx.go:58-74 | A single key is restored if and only if its own last write started from the original entry |
| TxSpec.SingleWritesRestore | tx.go:343-348 | All are whenever no key is effectively written twice |
| TxSpec.SecondWriteSurvivesRollback | tx.go:347 | Two writes of a new key: `backward` is overwritten and the rollback leaves the first, uncommitted entry behind |
| TxSpec.RecordsMeaning | tx.go:346-365 | `backward` holds, for exactly the effectively written keys, the entry just before the last write; `forward` together with the old map determines the new one |
| TxSpec.CommitEqualsHistory | tx.go:108-115 | One change per key, in any order, has the effect of every Set and Delete run in turn |
| TxSpec.RunOpsSound | tx.go:339-409 | Any operations keep the bucket sound, with the key map the records are about |
| TxSpec.RestoreSound | tx.go:62-74 | A rollback in any order keeps the eviction, invalidation and R-trees sound whatever collides, and patches the key map |
| IndexSpec.UndoInsertExact | tx.go:63-67 | Undoing an insert, which also removes a bare probe from the index, keeps it exact if and only if no other live entry reads like a missing field |
| IndexSpec.UndoOverwriteExact | tx.go:68-73 | Putting an entry back without the field check keeps an index exact if and only if the entry has the field and collides with no other |
| IndexSpec.RollbackIndexExact | tx.go:62-74 | Among distinct field values, a rollback leaves an index exact in every order if and only if it is safe: restored entries have the field and, if an insert is undone, nothing that stays reads like a missing field |
| IndexSpec.RollbackDropsZeroField | tx.go:65-67 | With values `{"f":0}` and `{}`, rolling back the insert of the second takes the first out of an integer index over f |
| IndexSpec.RunOpsIndexesExact | bucket.go:254-332 | Among distinct field values, Set, Delete, CreateIndex and DropIndex keep every index exact |
| IndexSpec.RestoreIndexesExact | tx.go:62-74 | So does a safe rollback in any order, for every index |
| IndexSpec.RunOpsIndexesSound | index.go:80-105 | With colliding values allowed, operations keep every index sound |
| IndexSpec.RestoreIndexesSound | tx.go:68-73 | So does a rollback that restores only entries having the field |
| BucketSpec.RelinkSound | bucket.go:262-289 | Replacing an entry keeps a derived tree sound whatever collides |
| BucketSpec.UnlinkSound | bucket.go:309-319 | So does deleting one |
| BucketSpec.RelinkExact | bucket.go:262-289 | Replacing an entry keeps a tree exact if and only if the new entry collides with no other live one |
| BucketSpec.UnlinkExact | bucket.go:309-319 | Deleting always keeps a tree exact |
| BucketSpec.ExactUnique | entry.go:78-91 | Exactness determines the tree |
| BucketSpec.ReplotExact | bucket.go:273-297 | The R-tree holds one item per live entry with coordinates, and keeps doing so, because removal goes by key |
| BucketSpec.InsertSound | bucket.go:256-299 | An insert keeps the whole bucket sound |
| BucketSpec.DeleteSound | bucket.go:303-332 | A delete keeps the whole bucket sound |
| BucketSpec.BuildKeepsGreatestKey | index.go:107-122 | A built index holds, for each field value, exactly the entry with the greatest key |
| BucketSpec.BuildLive | index.go:107-116 | A built index is sound and holds every live entry with the field that collides with no other |
| BucketSpec.BuildExact | index.go:107-122 | A built index is exact if and only if no two live entries collide |
| BucketSpec.RebuildSame | index.go:118-122 | Rebuilding an exact index gives the same index |
| BucketSpec.RebuildDiffers | index.go:118-122 | With two colliding entries, inserted greater key first, the index keeps the other one and a rebuild the greater key |
| EvictionSpec.EvictExactly | bucket.go:425-435 | With n entries in the tree, m of them expired, one pass deletes exactly the min(m, ceil(n/2)) in front |
| EvictionSpec.ExpiredAreInFront | bucket.go:427-431 | The expired entries are exactly the ones in front |
| EvictionSpec.PassDrainsOrHalves | bucket.go:425-435 | A pass leaves no expired entry or halves the tree |
| EvictionSpec.PassesDrain | bucket.go:425-435 | floor(log2 n)+1 passes at one time leave no expired entry in the tree |
| EvictionSpec.PassesDrainData | bucket.go:425-435 | If the tree lacks no live entry that may expire, they leave none in the bucket |
| EvictionSpec.EvictedHaveExpired | bucket.go:431-434 | Deletion by key removes only entries that may expire and whose time lies in the past, and changes no other |
| EvictionSpec.EvictInvisible | bucket.go:424-436 | No read at the time of the pass or later changes |
| Codec.StmtRoundTrip | entry.go:161-217 | A statement whose tolerance is a float64 reads back as itself up to the fraction of its times if and only if key and value hold no `~` |
| Codec.FaithfulCodec | entry_options.go:73-111 | What is asked of float printing can be met |
| Codec.RewriteIsStable | entry.go:161-198 | Printing what was read reproduces the bytes |
| Codec.OptionsRoundTrip | entry_options.go:62-122 | Options, nil ones included, read back truncated to seconds |
| Reader.LoadWritten | bucket.go:70-142 | A file of any number of written statements loads as exactly these, in batches |
| Reader.LoadTorn | bucket.go:76-95 | What is applied and whether an error is reported, for a cut at every byte of the last record |
| Reader.LoadWithTail | bucket.go:70-142 | Written statements followed by any bytes load without error exactly when these bytes do, with the statements of both |
| Reader.ReadBatch | bucket.go:76-102 | Reads up to 1024 frames and says how the file ends if it ends among them |
| Reader.DeliveredByBatch | bucket.go:75-131 | Applying batch by batch delivers what the file as a whole delivers |
| Reader.ParseAllConcat | bucket.go:104-122 | Batches parse one after the other as their concatenation would, up to the first error |
| Entries.ReloadedVisible | entry_options.go:69-71 | A reloaded entry is visible exactly when the entry is and its lost fraction has not begun |
| Entries.ReloadedTwice | entry_options.go:90-122 | A second reload changes nothing |
| Compaction.Stream | bucket.go:467-478 | Written bytes and buffer are the statements up to and after the last flush, together the whole stream, with at most 1 MiB left in the buffer |
| Compaction.FlushedSizes | bucket.go:472-475 | At every point of the walk the buffer is at most 1 MiB, and what was written is nothing or more than that |
| Compaction.StreamRebuilds | bucket.go:467-478 | Replaying the complete stream rebuilds the reloaded key map |
| Compaction.CompactedFileLoads | bucket.go:459-504 | The file left behind loads into exactly the reloaded entries flushed |
| Compaction.CompactedFileComplete | bucket.go:459-504 | It holds the whole bucket if and only if the walk ends with an empty buffer |
| Compaction.CompactedFileEmpty | bucket.go:472-475 | The rewrite leaves an empty file if and only if the stream takes at most 1 MiB |
| Compaction.SmallLogIsLost | bucket.go:466-479 | Which loads into an empty bucket |
| Radius.SearchWithinRadius | tx.go:486-538 | Box query and filter together return exactly the items in the ball that the box reaches, among those searched before an item of another dimension is handed out; if there is none and no tolerance is negative, what looking at every item returns |
| Radius.SearchComplete | entry.go:129-133 | Nothing in the ball is missed if and only if each item in it lies within radius and tolerance by coordinate, as it does without negative tolerances |
| Radius.Filter | tx.go:502-530 | Refuses exactly the items farther than the radius, or at the radius unless inclusive, and aborts on another dimension |
| Radius.BallInBox | tx.go:491-500 | The query box loses no point of the ball |
| Radius.BruteForceMeaning | tx.go:519-528 | What is returned lies nearer than the radius, or on the sphere if inclusive, each item as often as the tree holds it |
| Radius.SearchFindsLive | tx.go:531-537 | On a geo bucket, the search returns once each exactly the live entries with "coords" in the ball, and on another nothing |
| Catalogue.CatalogueRecovery | db.go:117-148 | After any run of creates, drops and rewrites the file recovers exactly the open buckets with their options, and has as many lines as counted |
| Catalogue.CreateRecovers | db.go:355-395 | A new bucket is recovered, with all others, if and only if its name is free of `:` and newline and its line fits the scanner |
| Catalogue.DropRecovers | db.go:402-431 | After a drop the file, one line longer, recovers all buckets but this one; a name that is not found changes nothing |
| Catalogue.RewriteRecovers | db.go:225-246 | A rewrite in any order keeps the file in step |
| Catalogue.InvRecovers | db.go:70-94 | The invariant gives back the open buckets, and the line count |
| Catalogue.CreateLineParses | bucket.go:525-551 | A create line reads back as the name and options |
| Catalogue.DropLineParses | db.go:98-107 | A drop line reads back as a dropped name |
| Catalogue.OptionFieldsParse | bucket_options.go:75-127 | Bucket options read back unchanged |
| Storage.EntryRef.IsExpired | entry.go:94-102 | Holds exactly if the entry may expire and its time lies before the given one |
| Storage.EntryRef.IsInvalid | entry.go:105-116 | Holds exactly if the entry is flagged, or may become invalid and its time lies before the given one |
| Storage.EntryOptionsCreateStmt | entry_options.go:62-86 | Builds the option fields the codec specifies |
| Storage.EntryStmt | entry.go:161-198 | Builds the framed statement the codec specifies |
| Storage.Index.Get | index.go:65-75 | Finds what a lookup by field value finds, nothing without the field |
| Storage.Index.Insert | index.go:80-90 | Puts an entry with the field, and returns the displaced one, if any |
| Storage.Index.Delete | index.go:95-105 | Removes whatever has the entry's field value, and returns it |
| Storage.Index.Build | index.go:108-116 | Inserts every entry of the primary tree in key order |
| Storage.Index.Rebuild | index.go:119-122 | Empties the tree and builds it |
| Engine.Bucket.Insert | bucket.go:256-299 | Replaces in the primary tree and unlinks and links in every derived tree, as specified; returns the previous entry |
| Engine.Bucket.Delete | bucket.go:303-332 | Removes by key from the primary tree, and the previous entry from every derived tree |
| Engine.Bucket.RestoreOne | tx.go:63-73 | One round of the rollback loop |
| Engine.Bucket.EvictPass | bucket.go:424-436 | The loop over a shrinking length does what the specification of a pass does |
| Engine.Bucket.InvalidatePass | bucket.go:438-450 | Flags at most the entry with the least time of the invalidation tree, when this lies in the past, and changes nothing else |
| Engine.Bucket.WriteAOFBuf | bucket.go:155-175 | Moves the buffer to the file at its position if the database persists |
| Engine.Bucket.CompactLog | bucket.go:460-504 | Replaces the file by the flushed part of the stream and continues at its start |
| Engine.Bucket.Manage | bucket.go:390-453 | One cycle is a step of a run: flush, rewrite if more than ten rows are counted per entry, evict, flag |
| Engine.Bucket.LoadBucketFile | bucket.go:70-142 | The batched loader does what loading statement by statement does, errors and index rebuild included; loaded entries are new and not flagged |
| Engine.Bucket.Open | bucket.go:191-207 | Opening a bucket on a file of written statements gives the first state of a run, with no flags set |
| Engine.Bucket.FlagsStaySound | entry.go:105-116 | A flag that says nothing new now says nothing new later |
| Transactions.Tx.Get | tx.go:323-334 | Returns the live entry, flag or no flag, exactly as long as neither of its times lies in the past |
| Transactions.Tx.Set | tx.go:339-350 | Inserts, and records the previous and the new entry; the records stay those of the history |
| Transactions.Tx.Delete | tx.go:354-367 | Deletes, and records this exactly if there was something to delete |
| Transactions.Tx.CreateIndex | tx.go:372-391 | Builds a new index, or reports the one that exists |
| Transactions.Tx.DropIndex | tx.go:395-409 | Drops an index, or reports that there is none |
| Transactions.Tx.Commit | tx.go:98-116 | Appends one statement per recorded key in some order and writes the buffer: with the operations before it, a step of a run |
| Transactions.Tx.Rollback | tx.go:60-74 | Undoes the records in some order, a step of a run; the key map is the original one if and only if the last writes started from it |
| Transactions.Tx.SearchWithinRadius | tx.go:486-538 | The same on the bucket's R-tree; with one dimension and no negative tolerance, returns exactly the live entries with coordinates in the ball, expired or not |
| Databases.Database.Open | db.go:117-156 | Opens exactly the buckets recovered from the file, or fails exactly when recovery does |
| Databases.Database.CreateBucket | db.go:355-399 | Adds a bucket of a new name with its options and appends its line; does nothing for an existing one |
| Databases.Database.DropBucket | db.go:402-432 | Removes the bucket of that name and no other, and appends its line; fails exactly if there is none |
| Databases.Database.Manage | db.go:223-262 | Rewrites the file from the open buckets exactly if their number times the limit exceeds the lines counted |
| Databases.ReopenSame | db.go:129-145 | Reopening a catalogue that is in step finds the same buckets and line count |
| Trees.SortedUnique | entry.go:78-91 | A sorted tree is determined by its items |
| Trees.LessMeaning | entry.go:79-91 | The comparator of each tree, with the reading of the field index.go:47-60 names for each type of index; a missing field reads as zero or no text |
| Trees.StrLessMeaning | entry.go:89 | A key precedes another if behind a common beginning its byte is smaller, or it ends there |
| Trees.MemberMeaning | bucket.go:263-286 | What belongs in which tree |
| BucketSpec.IndexKeepsBoth | index.go:47-90 | Of two entries put into an index both are kept and found exactly if the readings its type compares differ, and else the later one |
| BucketSpec.ExpiriesKeepBoth | entry.go:83 | The eviction tree keeps two entries apart exactly if their times differ, to the nanosecond |
| BucketSpec.InvalidationsKeepBoth | entry.go:85 | So does the invalidation tree with its times |
| BucketSpec.HeadIsDueFirst | bucket.go:427-441 | The head of either tree has the least time |
| BucketSpec.UpdateMeaning | bucket.go:256-332 | After an insert the entry is live, in the R-tree exactly if the bucket is geo and its value has "coords", and one more row is counted; a delete leaves nothing under the key |
| IndexSpec.ProbeMeaning | tx.go:65-67 | An entry reads like a missing field exactly if what the index compares is zero, or no text |
| Entries.GetMeaning | tx.go:327-333 | A live entry is read exactly as long as neither of its times lies in the past, to the nanosecond |
| Entries.LostFractionMeaning | entry_options.go:69-71 | What a reload loses is the time from the beginning of the second of a due time to that time |
| Codec.EncodeMeaning | entry.go:161-198 | The bytes of a statement, with fixed text for nil options |
| Codec.ParseMeaning | bucket.go:145-151 | Which statements are recognized, and which of these can be read |
| Codec.ReloadedMeaning | entry.go:202-217 | What is read back, field by field |
| Reader.FrameMeaning | bucket.go:77-100 | What a length line and the bytes behind it are read as |
| Recovery.CommitStmtsMeaning | tx.go:108-114 | A commit writes the entry of a changed key, and a delete statement with nothing but the key of a deleted one |
| Compaction.FlushedMeaning | bucket.go:471-475 | Passing an entry writes the buffer exactly if its statement takes it over 1048576 bytes |
| Radius.DistanceMeaning | tx.go:514-519 | The squared distance is the square of the difference for one coordinate, and sums over concatenated points |
| Radius.IntersectsMeaning | entry.go:129-133 | The query box and the box of an entry meet if they have a point in common in each coordinate |
| EvictionSpec.InOrderOfExpiry | entry.go:83 | Earlier items of the eviction tree expire earlier |
| EvictionSpec.FrontMeaning | entry.go:96 | The items counted as expired are those whose time lies in the past, to the nanosecond |
| EvictionSpec.Log2Meaning | bucket.go:425-435 | The number of passes is bounded by the power of two not above n |
| Catalogue.CreateLineMeaning | bucket.go:525-533 | The bytes of a create line |
| Catalogue.ParseLineMeaning | db.go:98-107 | Which lines are recognized, and as what |
| Catalogue.LastLinesMeaning | db.go:85-92 | Of the lines for a name the last one counts |
| Catalogue.ScanCarriageReturn | db.go:77-81 | A carriage return in front of a newline is dropped |
| Catalogue.ScanLastLine | db.go:77-81 | The last line needs no newline |
| Text.TrimSpaceMeaning | bucket.go:84 | Trimming cuts white space, and all of it, off both ends |
| Text.SpaceCodes | bucket.go:84 | What white space is |
| Text.ParseUnsignedMeaning | bucket.go:84 | Digits without a sign parse within the range of an int64 |
| Text.ParseSignedMeaning | entry_options.go:100 | So do digits behind a sign |
| Text.ItoaCanonical | entry.go:173 | Numbers are printed in decimal without leading zeros |
| Text.DigitsMeaning | entry.go:173 | Digits count in decimal, most significant first |
| Text.ParseBoolMeaning | entry_options.go:91 | The twelve texts that parse as a truth value |
| Text.SplitJoin | bucket.go:146 | Splitting undoes joining when no piece holds the separator |
| Text.ItoaRoundTrip | bucket.go:84 | A printed 64-bit number parses back and holds no separator |

## Left out

- Operating system calls: the file is bytes with a position; syncs, failed or short writes, renames and closing are not modelled.
- Goroutines, tickers and locks: each transaction and each manager cycle is one step, and time never runs backwards; within a cycle it is one instant.
- The `_sys` and `_sysperf` entries and performance records, configuration and functional options.
- Iteration wrappers (Ascend, Descend and their ranges), Min, Max, Has, Size, Indexes, intersection and nearest-neighbour queries: they forward to the tree libraries. They set `iterating`, which Set and Delete refuse.
- Undo of CreateIndex and DropIndex: `backwardIndex` is recorded and never replayed, so it is not kept here.
- Recovery of indexes: a bucket just opened has none, as index definitions are not logged.
- Engine.Bucket: its `open` flag stands for the open bucket and the open database together; a nil bucket is not modelled.
- Transactions.Tx.Set: asks for options, without which insert dereferences nil; and takes the entry as not changed by its owner afterwards, except for its flag.
- Transactions.Tx.Rollback: the records are left as they are, as the transaction ends with it.
- Radius.SearchWithinRadius: asks for a positive radius, without which the library makes no box. Whether the library hands out items of another dimension than the box is a parameter; should it panic at them, that is not modelled.
- Storage.Index.Rebuild: empties its tree where the original allocates a new one, as nothing else refers to the old one.
- Floating point: NaN, rounding and the square root.
- `rct` as a 64-bit counter that could wrap.
- Databases.Database.DropBucket: dropping `_sysperf` while performance monitoring is off, which dereferences nil, and the effects on the bucket's own file.
- Databases.Database.Open: opening the buckets' own files, which Engine.Bucket.Open models one at a time.
- Unicode blanks in TrimSpace, and text that is not ASCII in case-sensitive parsing.
