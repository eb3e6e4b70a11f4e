# A verified model of the storage daemon

The storage daemon keeps uploaded files and their metadata under generated names, logs every change
in a binlog, applies what other servers of its group logged, counts what it does and reports the
counts to its trackers. This project models that behaviour in Dafny and proves it, module by module:

| module | what it models |
|---|---|
| `Store`, `Replication`, `FaultyReplication` | the files and the binlog under every failure of a disk call; replay, re-delivery and convergence of a replica |
| `Binlog`, `Server` | `storage_binlog_write` and the request handlers, as classes with the daemon's fields, from a received packet to the changed files |
| `Packets` | length fields and sections of the request packets |
| `Metadata` | splitting, sorting and packing metadata in place |
| `Base64`, `PjwHash`, `FileNames` | generated file names |
| `Trimming`, `Ini`, `StatFile`, `Trackers` | configuration files, the status file, the list of trackers |
| `Admission` | the accept loop and its workers, interleaved |
| `Counters`, `Heartbeat` | statistics of any number of workers, interleaved with a reporter; the heartbeat packet |
| `CStrings`, `Numbers`, `Sorting` | C strings, number printing and parsing, `qsort` and `bsearch` |

How things are represented:

- A C `char` is a `char`; a C string is the part of a buffer before its first NUL. What works in
  place on a buffer works in place on an `array<char>`, at a position, with a contract that also
  says which bytes stay as they were. The string a buffer holds is passed as a ghost argument.
- A 32-bit `int` is the subset type `int32`, and sums that can leave it are wrapped explicitly. The
  hash uses 32-bit words.
- `qsort` is not stable and `bsearch` may return any match, so callers use only that much of their
  contracts. Where the result does not depend on it (the list of trackers, the status file), that is
  proved.
- Disk calls, sends, locks, clocks and random numbers are parameters: each handler takes one value
  that says how its calls go, and its contract holds for all of them. A contract names the request
  of the model that the call amounts to (`Store.Request`), so that theorems about runs of requests
  are theorems about sequences of calls.
- The accept loop, the workers and the reporters are state machines. A step is one access to shared
  memory, an increment counting as one; theorems hold for every interleaving of steps.

Where the code falls short of what its comments or its callers expect, the model follows the code, a
lemma gives the failing case, and the property is proved under the exact condition where there is one:

- `Metadata.PackParse`, `Metadata.SavedBytes`: metadata is saved with its declared length, and that
  is its packed form exactly when every row is regular and the declared bytes hold no NUL.
- `Metadata.PackMetadata`: packing no items writes a NUL to the byte before the buffer.
- `Packets.UploadSections`, `Packets.ShortUploadAccepted`: the 32-bit sum of the sizes can wrap, but
  an accepted upload is tiled by its sections exactly when it is at least two length fields long.
- The upload layout comment asks for a pad byte of value 0; the handler does not look at it and
  overwrites it (`Server.StorageServer.UploadFile`).
- `Store.AgreementExactly`, `Store.FailuresDisagree`: a request that fails half-way can leave files and
  log in disagreement; the first lemma says exactly which.
- `Replication.UploadOrphan`, `Replication.DeleteOrphan`: failures half-way can leave a metadata file
  without its data file; the lemmas say exactly which.
- `FaultyReplication.SourceKeepsItsWord`: the result of fclose is ignored, so a file can be reported as
  written and be short; the source has what it was sent exactly when no such file is left standing.
- `Replication.RetriedCreate`, `FaultyReplication.FaultyReplicaConverges`: a create that failed after a
  short write is answered EEXIST and taken for done when it is sent again; the replica ends with the
  right files exactly when no such file is left standing.
- `Admission.ShutdownPossible`, `Admission.NoReporterReports`: reporters increment their count when they
  end and nothing decrements it. The main thread waits for it to be zero, so it can leave its wait
  exactly while no reporter has ended; the reporters wait for it at their start, so none ever reports.
- `Admission.DrainBoundedExactly`: after a failed accept the main thread waits without telling the workers
  to stop, and the wait is bounded exactly when none of them is serving.
- `Admission.LockFreeAtShutdown`: past its wait the main thread destroys the lock, which is free exactly
  when every worker is gone; `Admission.LockMayBeHeldAtShutdown` is a run in which one still holds it.
- `Counters.LostBeat`, `Counters.OvertakenBeat`, `Counters.TornBeat`: the change counter is marked as sent
  before the packet is sent, and is read after the statistics, which are read one by one. The first
  two can leave the tracker's copy behind with the counters equal, the third lets the values be of
  different moments; `Counters.CopyExactly` says for every run how far behind each value is.
- `Ini.GetValues`: a name of more than 64 characters is searched for by its first 64 but compared in
  full, so at most one value is returned for it.

## Model

| member | source | states |
|---|---|---|
| `Replication.ReplicaConverges` | storage_service.c:285-325 | main result: after any run of uploads and deletes from an empty store in which every request is reported as successful, a replica whose handlers meet no failure, and whose log is read with any number of steps back, has exactly the source's names and contents whenever it has read to the end |
| `Replication.Convergence` | storage_service.c:366-435 | the log of such a run is exactly the shipped records, applying them with what is in the source's files to an empty store gives the source's files, and a metadata file exists only if its data file does |
| `Replication.UploadShips` | storage_service.c:524-552 | a successful upload changes files and log as its shipped records do, also where fclose lost a part, and keeps that a metadata file has its data file |
| `Replication.DeleteShips` | storage_service.c:285-325 | the same for a successful delete, where a missing metadata file is no error |
| `Replication.HandlerApplies` | storage_service.c:710-771 | when no call fails the sync handlers end every operation with success and do to the files what the operation says: create on an existing name changes nothing and is answered EEXIST, delete of a missing one is no error |
| `Replication.SuffixAgain` | storage_service.c:710-741 | at-least-once delivery is harmless: a store that has applied any sequence of creates, updates and deletes is unchanged by applying any suffix of it again |
| `Replication.Idempotent` | storage_service.c:985-1010 | what any sequence of operations leaves of a name is unchanged by applying the sequence a second time |
| `Replication.MoveKeeps` | storage_service.c:710-741 | step invariant of a log reader that may go back at any time: from every earlier position, going on restores what delivering each record once would give |
| `Replication.CaughtUp` | storage_service.c:985-1010 | for every schedule of deliveries and rewinds, a reader that has caught up has the files of exactly-once delivery |
| `Replication.RetriedCreate` | storage_service.c:710-771 | a create that failed and is sent again is answered EEXIST if the failed attempt left a file, ends its handler with success, and leaves the right content if and only if the failed attempt wrote nothing or everything |
| `FaultyReplication.FaultyReplicaConverges` | storage_service.c:710-771 | main result: with a source whose requests were all reported as successful and a reader whose deliveries may fail in every call, fclose included, are repeated until the handler succeeds, and may go back at any time, a replica that has read the whole log has exactly the source's files if and only if no write that came out short is left standing |
| `FaultyReplication.SourceKeepsItsWord` | shared_func.c:262-274 | the source itself, after a run in which every request is reported as successful, has what its clients asked for if and only if no write lost at fclose is left standing |
| `FaultyReplication.FaultyDelivery` | storage_service.c:710-771 | the same for any operations and any start: caught up, the replica is as if every record had been applied once and in full, if and only if no write came out short without a later update or removal of the file |
| `FaultyReplication.DamageExactly` | storage_service.c:710-726 | for one name: what was applied ends where what was meant would, if and only if no event on the name is harmful |
| `FaultyReplication.AttemptApplies` | storage_service.c:723-741 | what one attempt does to the files for every outcome of its calls, fclose included, and that an attempt whose handler succeeds has had an effect |
| `FaultyReplication.AppliedDiffers` | shared_func.c:248-275 | what was applied differs from what was meant if and only if a write took place and left fewer bytes, at fwrite or at fclose |
| `Replication.UploadOrphan` | storage_service.c:411-431 | an upload, whatever fails in it, keeps that a metadata file has its data file if and only if it is not the case that the metadata came out short and the undoing unlink worked |
| `Replication.DeleteOrphan` | storage_service.c:285-325 | a delete of any name, whatever fails in it, keeps it if and only if it did not take a data file away and stop before that file's metadata |
| `Store.ReplayAgreement` | storage_service.c:284-325 | in every run of all four handlers under arbitrary disk, append and send failures, a name on which files and replayed log disagree was touched by a request that returned non-zero, and by no successful one since |
| `Store.SuccessAgrees` | storage_service.c:723-740 | a request that succeeds leaves every name it touches in agreement, whatever failed before |
| `Store.Elsewhere` | storage_service.c:401-431 | a request, failed or not, changes neither the content nor the logged state of any name it does not touch |
| `Store.UploadSuccess` | storage_service.c:524-552 | an upload reported as successful has stored data and metadata under a free name, all of them but what fclose lost, and logged a C record for each |
| `Store.DeleteSuccess` | storage_service.c:285-325 | a successful delete found the data file, removed it and its metadata, and logged a D record for each |
| `Store.SyncCopySuccess` | storage_service.c:723-741 | a create or update from replication that succeeds has written the file and logged one record, c for a create and u for an update |
| `Store.SyncCopyOfExisting` | storage_service.c:710-721 | creating a file that exists changes neither files nor log |
| `Store.SyncDeleteSuccess` | storage_service.c:985-1010 | a delete from replication that succeeds leaves no such file and has logged one record, d |
| `Store.RecordsAdded` | include/storage_sync.h:4-9 | whatever fails, a request adds records at the end of the log only, and only under its own letter |
| `Store.ReplicationLogsNoSource` | storage_service.c:729-738 | in every run without client requests only records c, u and d are added |
| `Store.DeleteStatus` | storage_service.c:284-325 | a delete of a missing name answers ENOENT and does nothing; else the status is the errno of the first call that fails, a missing metadata file being no failure |
| `Store.UploadStatus` | storage_service.c:394-434 | an upload without a free name answers ENOENT and does nothing; else the status is the errno of the first call that fails |
| `Store.SyncStatus` | storage_service.c:723-741 | the same for the handlers of replication |
| `Store.AgreementExactly` | storage_service.c:284-325 | the exact condition: a request, failed or not, takes a name on which files and log agree out of agreement if and only if the outcomes of its calls are among those that Breaks lists |
| `Store.RunAgreesExactly` | storage_service.c:284-325 | in every run of requests with arbitrary failures, files and log agree on a name all the way if and only if no request breaks it |
| `Store.UploadBreaks` | storage_service.c:401-431 | an upload breaks its data name if and only if the data was written short, or written and neither undone nor logged; and its metadata name if and only if a new metadata file was written and its record not |
| `Store.DeleteBreaks` | storage_service.c:285-325 | a delete breaks each of its names if and only if the file was unlinked and its record not appended |
| `Store.SyncCopyBreaks` | storage_service.c:710-741 | a create or update breaks its name if and only if there was no such file and it was written short, or written and not logged |
| `Store.SyncDeleteBreaks` | storage_service.c:985-1010 | a delete from replication breaks its name if and only if the file was unlinked and the record not appended |
| `Store.FailuresDisagree` | storage_service.c:401-408 | such failures exist: concrete requests after which a file has no record, and a record no file |
| `Store.FirstFree` | storage_service.c:374-400 | the name chosen is a candidate that is free; none is chosen only if all candidates are taken |
| `Store.FirstFreeIsFirst` | storage_service.c:374-400 | it is the first candidate that is free |
| `Server.StorageServer.UploadFile` | storage_service.c:445-588 | for every packet that is refused or holds both length fields, and every outcome of the calls made: files, binlog, response status and result are those of one upload request of the model, with the names, data and metadata of this packet, or of a rejected one; the name is sent back exactly on success |
| `Server.StorageServer.DeleteFile` | storage_service.c:215-342 | the same for a delete, for every outcome of unlink, append and send; a packet for another group is answered EINVAL and changes nothing |
| `Server.StorageServer.SyncCopyFile` | storage_service.c:596-772 | the same for create and update from replication; an existing name is answered EEXIST in the response while the handler returns 0; a packet for another group is refused and changes nothing |
| `Server.StorageServer.SyncDeleteFile` | storage_service.c:918-1022 | the same for delete from replication |
| `Server.StorageServer.SaveFile` | storage_service.c:366-435 | saving leaves what the model's save leaves for every failure, the undoing unlink included; the metadata written is the sorted form of the bytes received |
| `Server.StorageServer.FreeName` | storage_service.c:374-400 | at most 1024 attempts find the first generated name that is free, if any is |
| `Server.SortedContent` | storage_service.c:344-364 | the metadata file's content has the declared length, parses to the items with their names in ascending dictionary order, and is their packed form if and only if the declared bytes hold no NUL and only regular rows |
| `Server.UploadIsFromClient` | storage_service.c:28-70 | uploads as the server makes them satisfy what the convergence theorem asks of a request: all their candidate names have 22 characters |
| `Binlog.BinlogFile.Write` | storage_sync.c:251-338 | for every outcome of its system calls: what is appended, when bytes count, when a new file starts, when the daemon is told to stop; success means appended, counted, flushed and unlocked |
| `Binlog.Accounting` | storage_sync.c:306-325 | for every sequence of records below 256 bytes: the size stays below 2^30, the index grows once per file filled, each filled file has 2^30 to 2^30+254 bytes, and no byte is lost |
| `Binlog.ClosedCount` | storage_sync.c:311-320 | from an empty log, n files filled means at least n times 2^30 bytes and fewer than (n+1) times (2^30+255) |
| `Binlog.LineLength` | storage_sync.c:276-279 | a record is 5 to 15 bytes longer than its file name, for every 32-bit time |
| `Binlog.LineReads` | storage_sync.c:276-277 | a line is read back: time, letter and name, with its exact length |
| `Packets.UploadSections` | storage_service.c:501-527 | an accepted upload is cut into fixed fields, metadata, pad byte and file that tile it if and only if it holds both length fields, the wrapping 32-bit check notwithstanding |
| `Packets.ShortUploadAccepted` | storage_service.c:513-518 | an upload shorter than its length fields that is accepted because the 32-bit sum wraps |
| `Packets.UploadAccepted` | storage_service.c:501-527 | an upload is accepted if and only if its declared sizes are not negative and its file size is what the packet leaves, up to 2^32; all others are refused with EINVAL |
| `Packets.UploadRoundTrip` | storage_service.c:437-444 | a packet built from any metadata and file is accepted, tiled, and gives both back |
| `Packets.CopySections` | storage_service.c:653-708 | an accepted sync packet is tiled by length fields, group, name and data, of the declared sizes |
| `Packets.CopyAccepted` | storage_service.c:611-708 | a sync packet is accepted if and only if it is long enough, for this group, with a name of 1 to 127 bytes and a file that fill it; the errno of each refusal |
| `Packets.CopyRoundTrip` | storage_service.c:589-595 | every group, name and file survives building and parsing a sync packet |
| `Packets.SetMetaSections` | storage_service.c:1061-1153 | an accepted set-metadata packet is tiled by length fields, flag, group, name and metadata, of the declared sizes |
| `Packets.SetMetaAccepted` | storage_service.c:1061-1146 | a set-metadata packet is accepted if and only if it is long enough, for this group, with flag O or M, a name of 1 to 31 bytes and metadata that fill it; all others are refused with EINVAL |
| `Packets.SetMetaRoundTrip` | storage_service.c:1031-1040 | every flag, group, name and metadata survives building and parsing such a packet |
| `Packets.NameRoundTrip` | storage_service.c:225-280 | every group and name survives building and parsing a delete packet |
| `Packets.NameAccepted` | storage_service.c:225-279 | a delete packet is accepted if and only if it has 17 to 47 bytes and is for this group, and for the name that follows; all others are refused with EINVAL |
| `Packets.FieldOfLength` | storage_service.c:502-505 | a nine-byte hexadecimal length reads back for every size below 2^31, wherever it stands and whatever follows |
| `Metadata.SplitEx` | shared_func.c:293-327 | in place, for any number of columns asked for: the columns stand in the buffer as the strings that the splitting function gives, and nothing but separators inside the string is overwritten |
| `Metadata.GetOccurCount` | shared_func.c:277-291 | counts the occurrences of the separator |
| `Metadata.JoinColumns` | shared_func.c:293-327 | however many columns are asked for, joining them gives the source back |
| `Metadata.SplitFree` | shared_func.c:277-291 | asking for one column more than there are separators yields exactly that many, none of which holds a separator |
| `Metadata.SplitJoin` | shared_func.c:293-327 | splitting undoes joining for every non-empty list of rows without the separator |
| `Metadata.SplitMetadata` | tracker_proto.c:160-228 | in place: one item per row with a field separator, cut at the first one and at the limits, in order; only record separators are overwritten |
| `Metadata.PackMetadata` | tracker_proto.c:246-266 | in place: the packed form with its terminator and nothing else; for no items, a NUL in the byte before |
| `Metadata.PackMetadataNew` | tracker_proto.c:237-266 | without a buffer: the one allocated by the size of the items in memory always has room for the packed form |
| `Metadata.ParsePack` | tracker_proto.c:160-266 | split(pack(l)) = l for every non-empty list of items within limits whose names avoid both separators and whose values avoid the record separator |
| `Metadata.PackParse` | tracker_proto.c:160-266 | pack(split(b)) is never longer than b, and equals b, or just has its length, if and only if every row has a field separator and no part exceeds its limit |
| `Metadata.ParseWellFormed` | tracker_proto.c:192-223 | whatever a buffer held, the items split from it survive packing |
| `Metadata.RowSays` | tracker_proto.c:192-223 | what any row says: the name up to the first field separator and the value after it, cut to 64 and 256 characters; nothing without a separator |
| `Metadata.PackedPair` | tracker_proto.c:249-264 | the separators are the bytes 1 between items and 2 between name and value |
| `Metadata.SizePermutation` | storage_service.c:356-360 | no reordering of the items changes the size of their packed form |
| `Metadata.NameOrder` | tracker_proto.c:155-158 | the comparison is a total preorder, as qsort needs |
| `Metadata.SortedIsAscending` | tracker_proto.c:155-158 | sorted by the comparison means that no name comes before an earlier one in dictionary order |
| `Metadata.SortMetadataBuff` | storage_service.c:344-364 | in place: leaves a permutation of the items with their names in ascending dictionary order, packed where the string was, writing nothing before it or past its terminator when an item is kept; what is overwritten when none is |
| `Metadata.CanonicalPacking` | storage_service.c:344-364 | sorting and packing loses no item, never needs more room, and keeps the length if and only if every row was regular |
| `Metadata.SavedBytes` | storage_service.c:424-431 | the declared number of bytes then saved always parses to the sorted items, and is their packed form if and only if the declared size was the string's length and all rows were regular |
| `Base64.Base64EncodeEx` | fdfs_base64.c:25-153 | writes exactly the encoding and a terminator, in lines of 72, padded or not, and no byte past the padded length |
| `Base64.RoundTrip` | fdfs_base64.c:41-153 | decoding gives back every byte string, padded or not, with or without line separators, for every invertible alphabet |
| `Base64.EncodedLength` | fdfs_base64.c:112-153 | the length is 4G plus a separator for each full 18 of the G-1 first groups, less (3 - n%3)%3 when unpadded |
| `Base64.PaddingEndsTheText` | fdfs_base64.c:127-150 | the padded encoding is the unpadded one with the padding appended, so it never lands on a separator |
| `Base64.QuadSays` | fdfs_base64.c:92-112 | the four letters of three bytes are chosen by the base-64 digits of the 24-bit number they make |
| `Base64.WrappedAt` | fdfs_base64.c:81-90 | each character stands behind one separator for every 72 characters before it |
| `Base64.SeparatorAt` | fdfs_base64.c:81-90 | and a separator follows every 72nd character that is not the last |
| `PjwHash.PJWHash` | hash.c:4-26 | the loop computes the fold over the bytes, and stays below 2^28 |
| `PjwHash.StepIsFold` | hash.c:17-26 | one round of shift, conditional xor and mask equals (s mod 2^28) xor 16 (s div 2^28), with s = (16h + b) mod 2^32, for all 32-bit words |
| `PjwHash.HashBound` | hash.c:17-26 | the hash of every key is below 2^28 |
| `PjwHash.HashAbsorbs` | hash.c:13-26 | the hash starts at 0 and absorbs the bytes in order; of one byte it is that byte |
| `FileNames.Int2Buff` | shared_func.c:185-193 | writes the four big-endian bytes of an int and nothing else |
| `FileNames.IntBytesInverse` | shared_func.c:185-193 | the bytes determine the int, negative numbers included |
| `FileNames.IntBytesMeans` | shared_func.c:185-193 | the bytes are those of the unsigned 32-bit value, the highest first |
| `FileNames.GenFilename` | storage_service.c:28-70 | writes exactly the name of time, size and random value, and its terminator, within scratch buffers of the declared sizes |
| `FileNames.NameShape` | storage_service.c:52-67 | every name has 22 characters, two hexadecimal directories that follow from the other 16, and slashes in their places |
| `FileNames.DirPrefixReads` | storage_service.c:60-64 | read as hexadecimal, the two directories are the hash of the bytes of the other 16 characters modulo 65536, high byte first |
| `FileNames.NameInverse` | storage_service.c:35-67 | the 16 characters decode to the bytes of time, file size and random value in this order, so all three are read back from the name |
| `FileNames.NamesDistinct` | storage_service.c:35-67 | two names are equal only if all three ints are |
| `Trimming.Trim` | shared_func.c:178-183 | in place: the buffer holds the trimmed string, and bytes past the old terminator stay |
| `Trimming.TrimLeft` | shared_func.c:149-176 | in place: leading blanks are gone |
| `Trimming.TrimRight` | shared_func.c:121-147 | in place: trailing blanks are gone |
| `Trimming.TrimmedCut` | shared_func.c:121-183 | the trimmed string is the part between two runs of blanks, with no blank at either end |
| `Trimming.TrimmedUnique` | shared_func.c:121-183 | and it is the only such part |
| `Trimming.BlankChars` | shared_func.c:137-137 | blanks are space, newline, carriage return and tab |
| `Ini.ChunksCover` | ini_file_reader.c:104-107 | the reads of a file lose nothing, and each but the last is a whole line or fills the buffer |
| `Ini.ChunksOfLines` | ini_file_reader.c:104-107 | a file of lines below 512 characters is read line by line |
| `Ini.ItemOfAssignment` | ini_file_reader.c:108-158 | a line "name=value" within the limits, without blank ends, is read back as that item |
| `Ini.LineSays` | ini_file_reader.c:109-158 | what any trimmed line says: nothing if it is empty, starts with # or has no equals sign; else name and value around the first equals sign, cut to 64 and 128 characters and trimmed |
| `Ini.CommentSaysNothing` | ini_file_reader.c:108-115 | a line whose first character that is not blank is # yields no item, whatever it says |
| `Ini.LoadedShape` | ini_file_reader.c:120-156 | every item loaded from any file is trimmed, within 64 and 128 characters, with no "=" in its name |
| `Ini.ReadItems` | ini_file_reader.c:94-160 | through growth by eight: the slots in use hold the items of the file in order, unused slots stay zero, and the table is never larger than needed |
| `Ini.LoadItems` | ini_file_reader.c:70-165 | the slots in use are a permutation of the items of the file with their names in ascending dictionary order, the others zero |
| `Ini.NameOrder` | ini_file_reader.c:12-15 | the comparison is a total preorder, as qsort and bsearch need |
| `Ini.SortedIsAscending` | ini_file_reader.c:12-15 | sorted by the comparison means that no name comes before an earlier one in dictionary order |
| `Ini.GetStrValue` | ini_file_reader.c:17-35 | finds a value of the name, cut to 64 characters, if and only if there is one |
| `Ini.GetIntValue` | ini_file_reader.c:37-49 | the number in such a value, or the default if there is none |
| `Ini.GetValues` | ini_file_reader.c:175-224 | for a name of at most 64 characters: the first max of a permutation of all matching values; for a longer one, at most one value |
| `Ini.RunIsAll` | ini_file_reader.c:197-222 | in a sorted table a run of matches that stops on both sides holds all matches |
| `Ini.MatchingPermutation` | ini_file_reader.c:161-161 | what matches a name, with multiplicity, does not depend on the order of the table |
| `StatFile.StorageStat.WriteToStatFile` | storage_func.c:366-447 | prints each field under its name, in the order of the file; text and terminator fit the 512-byte buffer; and what the file holds afterwards, for every failure of the four calls that write it |
| `StatFile.FileAfterWrite` | storage_func.c:366-406 | the write succeeds exactly when no call fails, and what the file holds after each failure |
| `StatFile.StorageStat.OpenStorageStat` | storage_func.c:589-675 | without a file all counters are zero; with fewer than twelve items it fails and changes nothing; else each field is what its name looks up in the file's items, and the file is opened and written again, with the outcome of those calls |
| `StatFile.TextLoads` | storage_func.c:413-442 | loading the text gives the twelve items back, in order and nothing else |
| `StatFile.StatRoundTrip` | storage_func.c:608-651 | for all twelve 32-bit values, a lookup in the text printed for them can give a number if and only if it is the value printed |
| `StatFile.RestartKeeps` | storage_func.c:589-675 | what a restart accepts and loads from the printed text is exactly what was printed |
| `StatFile.TextFits` | storage_func.c:410-442 | the text is always shorter than 512 bytes |
| `Trackers.ServerOrder` | storage_func.c:47-58 | the comparison is a total order, equal only for equal servers |
| `Trackers.CmpIsOrder` | storage_func.c:47-58 | the comparison is negative exactly for servers in dictionary order of addresses, by port where these are equal |
| `Trackers.EntrySays` | storage_func.c:91-136 | what any entry with a colon says: the host, up to 127 characters of it, and the port, or 22000 when it reads as zero or less; it is refused exactly when the host does not resolve or is 127.0.0.1 |
| `Trackers.EntryForm` | storage_func.c:93-101 | an entry without a colon is refused, and every other one has that form |
| `Trackers.HostAndPort` | storage_func.c:103-136 | host, colon and a port of 1 to 2^31-1 give the server they name |
| `Trackers.HostsAndPorts` | storage_func.c:91-146 | a list of such entries is valid and stands for exactly the servers they name |
| `Trackers.PortDifference` | storage_func.c:57-57 | the 32-bit difference of ports is exact if and only if it fits, and for positive ports it does |
| `Trackers.TrackerList.InsertIntoSortedServers` | storage_func.c:60-78 | in place: the server is inserted where it belongs, the rest moves up by one |
| `Trackers.TrackerList.CopyTrackerServers` | storage_func.c:80-149 | succeeds if and only if every entry is valid; then the list holds exactly the servers of the entries, each before every later one by address and port, in the memory allocated for them |
| `Trackers.SortedListIsUnique` | storage_func.c:91-146 | a strictly sorted list is determined by its set of servers |
| `Trackers.LoadTrackerServers` | storage_func.c:283-311 | from the configuration file to the list: up to 16 entries the result is determined by the file, whatever order sorting and searching give the entries |
| `Admission.AdmissionSafety` | main.c:170-222 | in every interleaving: 0 <= count <= limit and never more workers before their decrement than the limit; with the lock free the count is exactly their number; a connection is refused only when the limit is reached; once the main thread has seen zero none is left |
| `Admission.StepKeepsInv` | storage_service.c:1355-1376 | every step of the accept loop and of any worker keeps the invariant |
| `Admission.NoDeadlock` | main.c:227-236 | no step but the stop signal is enabled if and only if all workers are gone, the main thread is done or waits with a reporter ended, and no reporter can end |
| `Admission.DrainEnds` | main.c:223-236 | after the stop signal, from any state, no run is longer than a bound computed from the state: everything comes to rest |
| `Admission.ShutdownPossible` | main.c:227-236 | the main thread can still get past its wait if and only if no reporter has ended: reporters increment the count it waits for, and nothing decrements it |
| `Admission.WaitForever` | tracker_client_thread.c:312-462 | with at least one reporter, a run from the start that comes to rest with the main thread still waiting |
| `Admission.DrainBoundedExactly` | main.c:227-236 | the wait of the main thread is bounded over all runs without a stop signal if and only if the flag is already false or no worker is serving |
| `Admission.DrainMayLast` | main.c:152-158 | after a failed accept with the flag still set, a run in which it is not: the wait can take any number of steps |
| `Admission.NoReporterReports` | tracker_client_thread.c:312-324 | in no interleaving does a reporter get past its start barrier while the flag is true, so none ever reports: the barrier waits for a count that only ending reporters raise |
| `Admission.LockFreeAtShutdown` | main.c:223-236 | once the main thread is past its wait, the lock it destroys is free if and only if every worker is gone |
| `Admission.LockMayBeHeldAtShutdown` | main.c:223-236 | a run in which it is not |
| `Counters.CounterConservation` | storage_service.c:1227-1353 | in every interleaving of any number of workers: total minus success is its start value plus requests in flight plus workers stopped by a failure of that command; the change counter is one plus the commands completed; the status file is written once per 1000 changes |
| `Counters.StepConserves` | storage_service.c:1246-1353 | every step of every worker keeps that balance |
| `Counters.StepCountsFlushes` | storage_service.c:19-26 | every step keeps flushes, plus those about to happen, equal to the change counter divided by 1000 |
| `Counters.TimesByCommand` | storage_service.c:1274-1336 | which of the two times each command stamps |
| `Counters.HeartbeatCoherence` | tracker_client_thread.c:135-175 | the twelve values are read one by one, then the count, then the packet is sent. After any run whatever, from any moment at which the counts differ and no beat is under way: in every interleaving where beats are delivered and not overtaken, with the counts equal and no beat under way each value the tracker has was true at a moment of its own since the last change; a total lags by exactly the requests begun since that moment, a success counter and a time by no more than workers in the middle of completing |
| `Counters.CopyExactly` | tracker_client_thread.c:135-175 | every run, with beats lost, overtaken or neither: each value the tracker has was read at a moment of its own, and from that moment a total is behind by exactly the requests begun, a success counter by exactly the workers that passed it, a time by exactly what was stamped; and a success counter is coherent if and only if no more requests were completed since than were midway at that moment |
| `Counters.BehindExactly` | storage_service.c:1248-1353 | over any run a success counter is behind by no more than the workers in the middle of completing if and only if no more requests of its kind were completed in it than were midway when it began |
| `Counters.NothingSentExactly` | tracker_client_thread.c:172-188 | the tracker has nothing if and only if no beat with values was delivered |
| `Counters.QuietBeat` | tracker_client_thread.c:138-163 | a beat during whose reads no worker changes the statistics is the statistics of one moment |
| `Counters.ReadingOrder` | tracker_client_thread.c:140-163 | each total is read right before the successes of its kind, and the times last |
| `Counters.QuietRun` | storage_service.c:1262-1336 | over any run in which the change counter has not moved, success counters and times differ only by what workers are in the middle of |
| `Counters.TotalsGrow` | storage_service.c:1246-1341 | over any run a total grows by exactly the requests of its kind begun |
| `Counters.LostBeat` | tracker_client_thread.c:165-185 | a run in which a beat is lost and the tracker never gets anything, with the counts equal |
| `Counters.OvertakenBeat` | tracker_client_thread.c:136-165 | a run in which all beats are delivered and the copy still misses a completed command |
| `Counters.TornBeat` | tracker_client_thread.c:140-163 | a run in which nothing completes and the beat is delivered, yet the copy as a whole was true at no single moment |
| `Heartbeat.Reporter.HeartBeat` | tracker_client_thread.c:127-188 | the packet byte by byte: length, command 83, status 0, and, if the change counter is not the one last sent, the twelve fields in the order of FDFSStorageStatBuff, else nothing; the sync count is set whatever becomes of the packet |
| `Heartbeat.BeatReads` | tracker_client_thread.c:138-163 | a packet with the twelve values in their fields and its length in front is read back as exactly those values |
| `Numbers.AtoiOfPrintDec` | ini_file_reader.c:37-49 | atoi reads back what "%d" prints, for all 32-bit values |
| `Numbers.PrintDecMeans` | storage_func.c:412-424 | what "%d" prints: a minus exactly for negative numbers, then digits without leading zero whose value is the magnitude |
| `Numbers.StrtolReads` | storage_service.c:502-505 | what strtol reads: after blanks and at most one sign, the digits up to the first character that is none, clamped to 64 bits |
| `Numbers.HexFieldOfPrintHex` | storage_service.c:502-505 | strtol in base 16, stored in an int, reads back what "%x" prints below 2^31, whatever follows that is not a hexadecimal digit, x or X |
| `Sorting.Qsort` | ini_file_reader.c:161-161 | a sorted permutation |
| `Sorting.Bsearch` | ini_file_reader.c:27-27 | the index of some match, or none if there is none |

## Left out

- Sockets, `select`, name resolution (a parameter of the tracker list), logging, signals and daemonising: input and output only.
- Failing locks, and failing allocations other than the one for sorting metadata: assumed to succeed. Increments of shared counters are indivisible.
- Binlog rotation beyond sizes, index and records: the stream pointer is cleared before it is closed and the next file opened for reading, neither of which the model follows.
- `storage_do_set_metadata` (a stub), downloads and metadata reads: they change no files. Of `storage_set_metadata` only the packet layout is modelled.
- Directories: the daemon makes 16 by 16 of them while names use 256 by 256, so files are modelled by name only, without the directories they need. Truncation of full paths longer than their buffers is not modelled either.
- The base64 tables: `valueToChar`, `pad_ch` and the separator are never filled in these files, so the alphabet is a parameter (any 64 different characters, other than the padding and the separator, for the round trip). The decoder is only declared, so it is written as specification.
- Receiving an upload: the code asks for `sizeof` of a pointer; the model starts from a fully received packet.
- Server.StorageServer.UploadFile: an accepted packet shorter than its two length fields has no sections to read (see `Packets.UploadSections`), so such a packet is excluded; what the C code does with it is undefined.
- Metadata.PackMetadataNew: an empty list is excluded; the code then writes to the byte before the buffer it has allocated, where there is none.
- StatFile.StorageStat.OpenStorageStat: a status file that exists and cannot be opened for reading is not modelled, as for Ini.LoadItems.
- Ini.LoadItems: a configuration file that cannot be opened is not modelled (`iniLoadItems` then closes a null stream), nor is a failing `realloc`. `iniGetBoolValue` is not modelled either.
- Store.ReplayAgreement: names are canonical paths. The handlers pass a name to the file system, where two spellings such as `00/11/x` and `00//11/x` are one file, while the binlog keeps the spelling of the request.
- Store.Elsewhere: for the same reason, it speaks of names and not of files reached by another spelling.
- Counters.CounterConservation: counters are unbounded integers; 32-bit overflow of a counter is not modelled.
- Replication.ReplicaConverges: the sender of the logged operations is not in these files; an operation carries what is in the source's file once the request is done.
- `Counters` has one reporter, past its start barrier: reporters only read what they share. By `Admission.NoReporterReports` the daemon as it stands never gets a reporter that far, so these results are about `tracker_heart_beat` and not about when it is reached.
- Ini.GetValues: which values are returned when there are more than asked for is left open, as the order of equal names after sorting is.
- The sync status file, whose reader is an empty branch, and the list of local addresses, whose lookup advances by one byte, are not modelled.
