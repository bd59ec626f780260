# A model of three key-value servers

Three versions of a small key-value server, modelled in Dafny at the level of
their stateful components. Loops that update variables are methods with
invariants, objects with fields are classes, and each method is tied to a
function or a predicate on values whose properties the lemmas prove.

| modules | what they model |
|---|---|
| `FreeList`, `ByteStore`, `FirstFit`, `KVIndex` | v1: a first-fit allocator of C strings in one byte array, with a cache of 1500 slots |
| `RecordArray`, `FirstRecord`, `NewKVIndex` | v1: an array of records that are appended and expired, its restart scan and its compaction, and what deleting absent keys does to it |
| `SlotCache`, `Requests` | v1: what both indexes share, and what a client should be told |
| `SemQueue` | v2: the queue over two semaphores and two mutexes, one step per atomic action, any number of threads |
| `Recency`, `LruCache` | v2: the LRU cache, as a sequence with times of last use and as a doubly linked list on the heap |
| `Bytes`, `RecordLog`, `LogIndex`, `LogRestart`, `DiskFiles`, `StoreTasks`, `KVStore` | v2: the byte format, the append-only files, the index over them, the index a restart builds, what files keep, cut ones too, how tasks are to be answered, and the store |
| `Compaction`, `CompactedFile`, `HistoryPass` | v2: the compaction pass, interleaved with foreground changes, where the copies it makes are, and a pass over the files of a history |
| `ShmMessages`, `ShmQueue`, `ShmMonitor` | v3: messages cut into nodes of a ring in shared memory, and its two condition variables |
| `Modular`, `Counting` | remainders, sizes of sets of threads |

The central results:

- v1 byte store: free blocks and live values tile the array after every
  operation, placement is first fit on bytes, every cached copy is the stored
  value, and so in every run of requests a get is answered with the value last
  set, and "NULL" if there is none (`KVIndex.KVIndex.Process`,
  `Requests.RunIsRight`).
- v1 record array: every run of requests, whatever it deletes, is answered as a
  plain map would, and a restart loses at most one key, under an exact condition
  on the run (`NewKVIndex.KVIndex.Process`, `NewKVIndex.RestartAfterRun`).
- v2 queue: over every interleaving, what is read is a prefix of what was
  written, each item read is returned by exactly one call, none is lost, and
  threads are stuck only in front of a ring that is truly full or truly empty
  (`SemQueue.EveryRunIsFifo`, `SemQueue.StuckOnlyWhenFullOrEmpty`).
- v2 store: after every history each index entry addresses its key's latest
  record; a restart, over whatever files, finds each key's last record with a
  value; and the store's thread answers every run of tasks, on an empty
  directory, after any number of restarts and over files that a compaction pass
  has cut, as a definite plain map
  (`LogIndex.EntriesAreLatest`, `LogRestart.RebuiltFindsLast`,
  `KVStore.SimpleKVStore.DiskIO`, `HistoryPass.PassOnDisk`).
- v2 compaction: over every interleaving no foreground change is undone, no
  deleted key comes back and every other entry follows its record; whether the
  entry then finds its copy is decided by an exact condition on the file, the
  index and the foreground's changes, and for a pass over the files of a history
  by one on the history (`Compaction.CompactionIsInvisible`,
  `CompactedFile.MovedEntryFindsCopy`, `HistoryPass.PassOverHistory`).
- v2 LRU list: the heap structure refines the sequence, and the one evicted is
  the one used least recently, over every run of calls
  (`LruCache.Cache.PerformAll`, `Recency.EvictsLeastRecent`).
- v3 ring: a message comes out byte for byte as it went in, first in first
  out, whatever its length and wherever it wraps; no consumer wakeup is lost
  (`ShmQueue.CShareQueue.Dequeue`, `ShmMonitor.NoConsumerWakeupIsLost`). When
  every message fits into an empty ring, no sender is left asleep over one
  (`ShmMonitor.StuckSendersFaceMessages`).

## Where the code does not keep its promise

What a client can cause:

- v1 record array: deleting an absent key makes the map enter it with record 0,
  and so expires record 0; `main.cpp` does not check first. Look-ups are not
  affected, but after a restart a key is gone exactly when it was the first one
  ever set, was never changed since, and an absent key was deleted later
  (`FirstRecord.OnlyFirstIsLost`, and `FirstRecord.StrayDeleteLoses` for a run).
- v2 restart: records without a value are skipped, so deleted keys come back
  (`LogRestart.DeletedKeyComesBack`). With the values that clients can set, a key
  survives a restart exactly when it was not deleted after having been set
  (`LogRestart.ClientKeySurvives`).
- v2 compaction: when a compare-and-set fails, the pass takes the size of the
  copy back, but the bytes stay where they are, so offsets noted later are too
  small. A compare-and-set fails exactly for a record with a value that the index
  did not have before the pass, or whose key the foreground touched before its
  turn (`CompactedFile.FailedExactly`). A live record's entry finds its copy
  exactly when no such record comes before it
  (`CompactedFile.MovedEntryFindsCopy`). No concurrency is needed: while the
  foreground rests, any dead record with a value ahead of a live one is enough
  (`CompactedFile.QuietPass`), and a key may then read its own old value or
  another key's (`CompactedFile.QuietPassMisreads`). In terms of what clients did:
  a key last set in that file finds its copy exactly when no earlier record of
  the file has a value whose key was set or deleted again later
  (`HistoryPass.PassOverHistory`).
- v2 restart after a pass: the file is cut by as many bytes as the failed records
  have, so a start finds only the records that are whole in what is left
  (`HistoryPass.PassOnDisk`), and the last live ones can be lost, or give way to
  old values (`HistoryPass.PassThenRestartLoses`).

What a well-formed request cannot cause, only a direct caller of a class, because
`main.cpp` of v1 splits requests at spaces, so that keys and values are not empty,
and `kvlogiclayer.h` of v2 (lines 60-64) refuses a set without a value:

- The v1 byte store's restart scan takes the lone NUL of an empty value for
  free space. It rebuilds the free list exactly when no value is empty
  (`ByteStore.ScanRebuildsFreeList`, `ByteStore.EmptyValueIsForgotten`).
- The v1 record array's scan stops at the first blank record, and an expired
  record with an empty key and value is blank
  (`RecordArray.ScanRebuildsTable`, `RecordArray.BlankRecordHidesRest`).
- A v2 restart forgets keys last set to an empty value
  (`LogRestart.RestartEntry`).
- The v2 compaction pass leaves behind the entries of untouched keys with empty
  values, so they dangle once the old file is dropped
  (`Compaction.NothingDangles`, `Compaction.EmptyValueDangles`); without such
  entries nothing is left (`Compaction.NothingLeftOfClients`).

## Assumptions about callers

- v1: stored values contain no NUL, and `Get` is called for a key that is there
  (`main.cpp` asks `Exist` first). The byte store has at least one byte.
- v1 record array: keys and values have no NUL and at most 29 characters.
- v1 cache: an older slot can keep an iterator to an entry that was erased
  since. Iterators carry the identity of the map node they were made for, and
  writing through one whose node is gone is taken to touch no live entry.
- v2: the queue has at least one slot; `addToCache` is given a key that is not
  cached; keys and values have lengths that fit a 32-bit field. The compaction
  thread picks its file before the foreground opens another one, and the
  foreground never appends to it.
- v2: keys have at most 128 bytes and values at most 2048. A restart and a pass read
  records into buffers of these sizes (`record.h:4-5`), while a request can carry
  about 4 KB.
- v2: requests are well-formed. The parser looks for the end of a key from its second
  byte on (`kvlogiclayer.h:56-67`), so a set with an empty key that is followed by
  more input gives a negative `valueLen`, and the walk of a restart ends at such a
  record. In the model lengths are those of the bytes stored.
- v2: `getRecord` moves the position of a file descriptor and then reads, and the
  compaction thread and the foreground's `getVal` share the old file's descriptor
  (`datanode.h:62-92`) without a lock. A read of a record is taken to be one step.
- v3: the ring has at least one node. A signal wakes one sleeper if there is one.

`simplekvsvr/main.cpp` includes `NewKVIndex.h`; its worker loop is modelled over
both indexes, which have the same interface.

Where a source function is long, its model is split into smaller methods, and
lemmas about one step are not listed; the rows below name the outer members.

## Model

| member | source | states |
|---|---|---|
| FreeList.CoverDeterminesList | simplekvsvr/KVIndex.h:100-117 | two free lists in order and without touching blocks that cover the same bytes are the same list |
| FreeList.TakeFrontCover | simplekvsvr/KVIndex.h:167-172 | taking the front of a block takes exactly those bytes off the list |
| FreeList.GrowCover | simplekvsvr/KVIndex.h:142-147 | doubling frees exactly the bytes of the new half |
| FreeList.CoalescingReturnsBlock | simplekvsvr/KVIndex.h:204-228 | inserting a block at its place and joining it with both neighbours covers the old bytes and the block's, and nothing else, with no two blocks touching |
| ByteStore.DoubledLayout | simplekvsvr/KVIndex.h:124-153 | free blocks and live values still tile the array after doubling, and free bytes are zero |
| ByteStore.AllocatedLayout | simplekvsvr/KVIndex.h:161-175 | the same after copying a value into the front of a free block |
| ByteStore.ReleasedLayout | simplekvsvr/KVIndex.h:200-232 | the same after zeroing a value and giving its bytes and terminator back |
| ByteStore.LiveLooksFree | simplekvsvr/KVIndex.h:104-110 | a live byte looks free to the scan if and only if it is the terminator of an empty value |
| ByteStore.ScanRebuildsFreeList | simplekvsvr/KVIndex.h:100-117 | the scan of the raw bytes rebuilds the free list if and only if no live value is empty |
| ByteStore.EmptyValueIsForgotten | simplekvsvr/KVIndex.h:106-116 | a store with one empty value whose scan gives the value's byte away |
| FirstFit.GrewOnce | simplekvsvr/KVIndex.h:159-182 | a doubling happens only when nothing fits, keeps the size below twice old size plus length, and lengthens the block at the end |
| FirstFit.FirstBlockIsFirstFit | simplekvsvr/KVIndex.h:161-175 | the first block long enough starts at the lowest address with room, in the smallest store that has room |
| SlotCache.UnslotKeepsLinks | simplekvsvr/KVIndex.h:296-304 | writing -1 through a slot's iterator leaves no entry naming the slot and keeps every other link |
| KVIndex.KVIndex.Resize | simplekvsvr/KVIndex.h:124-153 | twice the bytes, the old ones kept and the new ones zero and free, with the layout kept |
| KVIndex.KVIndex.Insert | simplekvsvr/KVIndex.h:154-192 | ends for every length; the value is placed first fit, in a store grown by doublings only as far as needed, and nothing else moves |
| KVIndex.KVIndex.GiveBack | simplekvsvr/KVIndex.h:202-228 | the free list covers the old bytes and the block's, in order, without touching blocks |
| KVIndex.KVIndex.Delete | simplekvsvr/KVIndex.h:193-239 | removes the key and nothing else, or returns -1 and changes nothing |
| KVIndex.KVIndex.Get | simplekvsvr/KVIndex.h:261-295 | returns the value last set, from slot or store, and moves the key to the next slot in turn without changing the map |
| KVIndex.KVIndex.Exist | simplekvsvr/KVIndex.h:305-317 | true if and only if the key is live |
| KVIndex.KVIndex.Set | simplekvsvr/KVIndex.h:318-328 | the map gets the value at the key, and no other key changes or moves |
| KVIndex.KVIndex.Scan | simplekvsvr/KVIndex.h:100-117 | finds exactly the bytes that look free, as a list in order without touching blocks |
| KVIndex.KVIndex.Start | simplekvsvr/KVIndex.h:74-123 | opens the saved bytes and offsets with every slot empty and the scan's free list |
| KVIndex.KVIndex.Restored | simplekvsvr/KVIndex.h:74-123 | if they were saved from a store, the free list is as it was if and only if no value was empty, and then the index is valid with the same map |
| KVIndex.KVIndex.Quit | simplekvsvr/KVIndex.h:32-46 | what it leaves is what Start needs: the bytes and each key's offset |
| KVIndex.KVIndex.Answer | simplekvsvr/main.cpp:51-81 | a get is answered with the key's value or "NULL", a set with "OK", a delete with "OK" or "error" by whether the key is there, and the map changes accordingly |
| KVIndex.KVIndex.Process | simplekvsvr/main.cpp:18-96 | in every run each get is answered with the value last set, or the one from before the run, or "NULL"; each set with "OK", each delete with "OK", or "error" if the key is not there; and the final map is the one last set |
| Requests.RunIsRight | simplekvsvr/main.cpp:51-81 | the replies that a plain map gives are right by the requests before each alone: the last set or delete of the key decides |
| Requests.OneOrAbsent | simplekvsvr/main.cpp:51-81 | by the requests before it a key has one value or none, never both |
| RecordArray.ExpiredTable | simplekvsvr/NewKVIndex.h:179-185 | expiring a live key's record removes that key and nothing else |
| RecordArray.StrayExpire | simplekvsvr/NewKVIndex.h:182 | expiring record 0 for an absent key keeps every look-up and loses exactly the key that has record 0 |
| RecordArray.AppendedTable | simplekvsvr/NewKVIndex.h:167-170 | appending a record for an absent key adds that key and value and keeps the table |
| RecordArray.ScanRebuildsTable | simplekvsvr/NewKVIndex.h:106-118 | the scan finds the same size if and only if no record below it is blank, and then every key that is not lost, at its slot, with its value |
| RecordArray.BlankRecordHidesRest | simplekvsvr/NewKVIndex.h:109-111 | a table with a live key on which every scan finds nothing |
| RecordArray.BlankIsZero | simplekvsvr/DataNode.h:11-15 | a record is blank if and only if its strings are empty and its flag is off |
| RecordArray.ValidKeeps | simplekvsvr/NewKVIndex.h:36-44 | each valid record goes to the position that counts the valid ones before it |
| RecordArray.CompactedTable | simplekvsvr/NewKVIndex.h:33-51 | packing keeps the key-to-value map but for a lost key, and leaves blanks behind |
| RecordArray.SweepPacks | simplekvsvr/NewKVIndex.h:36-44 | packing one record in place does not touch any record still to be read |
| FirstRecord.OnlyFirstIsLost | simplekvsvr/NewKVIndex.h:179-198 | from an empty array a run loses a key if and only if the key was the first one set, never changed since, and an absent key was deleted later |
| FirstRecord.NothingLost | simplekvsvr/main.cpp:61-67 | a run that deletes only keys that are there loses none |
| FirstRecord.StrayDeleteLoses | simplekvsvr/main.cpp:61-67 | a set and a delete of an absent key after which the key set is lost |
| NewKVIndex.KVIndex.Scan | simplekvsvr/NewKVIndex.h:106-118 | stops at the first blank record, with each key's last valid record before it |
| NewKVIndex.KVIndex.Restored | simplekvsvr/NewKVIndex.h:106-123 | over the records of a table the size comes back if and only if no record below it is blank, and then the index is valid with all keys but a lost one |
| NewKVIndex.KVIndex.Set | simplekvsvr/NewKVIndex.h:153-178 | the map gets the value at the key and no other key changes; the record goes to the end of the array, which doubles only when it is full |
| NewKVIndex.KVIndex.Delete | simplekvsvr/NewKVIndex.h:179-198 | expires the key's record, or record 0 for an absent key; the key is gone, every other look-up stays, and which key has record 0, lost or not, is as the run says |
| NewKVIndex.KVIndex.Get | simplekvsvr/NewKVIndex.h:222-246 | returns the value last set, from slot or record, and moves the key to the next slot in turn |
| NewKVIndex.KVIndex.Exist | simplekvsvr/NewKVIndex.h:255-267 | true if and only if the key is in the map |
| NewKVIndex.KVIndex.MemoryRecycle | simplekvsvr/NewKVIndex.h:33-51 | keeps the map but for a lost key, leaves the valid records in their order and as many as live keys, and blanks above |
| NewKVIndex.KVIndex.Sweep | simplekvsvr/NewKVIndex.h:34-45 | the in-place loop leaves exactly the valid records it was given, with an entry each |
| NewKVIndex.KVIndex.Answer | simplekvsvr/main.cpp:51-81 | the same for every request, stray deletes included, except that a delete is always answered with "OK" |
| NewKVIndex.KVIndex.Process | simplekvsvr/main.cpp:18-96 | the same over every run, which keeps keys non-empty and says which key has record 0 |
| NewKVIndex.RestartAfterRun | simplekvsvr/NewKVIndex.h:106-118 | after a run from an empty array the scan finds the run's map without exactly the key that `FirstRecord.OnlyFirstIsLost` names |
| SemQueue.StepKeepsInv | simplekvsvr_v2/queue.h:33-53 | every atomic action of any thread keeps the whole invariant |
| SemQueue.ReturnsKept | simplekvsvr_v2/queue.h:43-53 | every action keeps the finished and pending dequeues in one-to-one correspondence with the items read |
| SemQueue.RunHasInv | simplekvsvr_v2/queue.h:19-53 | every state reachable by any interleaving, from any positive size, has the invariant |
| SemQueue.EveryRunIsFifo | simplekvsvr_v2/queue.h:33-53 | over every interleaving: reads are a prefix of writes; each item read belongs to exactly one call, finished or in progress, which returns it; the items asked for are those given to the calls made; at most size items are unread and they lie in order in the ring |
| SemQueue.GivenIsPutOrHeld | simplekvsvr_v2/queue.h:33-41 | over every interleaving the items given to the calls of enqueue are, each counted, those written and those still in their callers' hands |
| SemQueue.EveryCallReadsOrWants | simplekvsvr_v2/queue.h:43-53 | over every interleaving each call of dequeue that was made has read one item or is yet to read one |
| SemQueue.DifferentSlots | simplekvsvr_v2/queue.h:37-48 | a writing enqueue and a reading dequeue touch different slots, and no two threads are inside the same end |
| SemQueue.StuckOnlyWhenFullOrEmpty | simplekvsvr_v2/queue.h:35-46 | no thread can step if and only if none is inside a call, or all inside wait to enqueue into a full ring, or all wait to dequeue from an empty one |
| SemQueue.Queue.Enqueue | simplekvsvr_v2/queue.h:33-41 | entering the call is the machine's action: the thread holds the item it was given, which is recorded |
| SemQueue.Queue.Dequeue | simplekvsvr_v2/queue.h:43-53 | entering the call is the machine's action: the thread waits for an item |
| SemQueue.Queue.Step | simplekvsvr_v2/queue.h:33-53 | each statement of a call on the object is the machine's step and keeps the invariant |
| Recency.CachedInOrder | simplekvsvr_v2/cache.h:64-113 | after every legal history at most 128 keys are cached, most recently used first, each with the value it was last added with |
| Recency.EvictsLeastRecent | simplekvsvr_v2/cache.h:81-93 | adding to a full cache drops the one key used least recently and keeps all others |
| Recency.WhoIsCached | simplekvsvr_v2/cache.h:64-113 | one more call makes no other difference to which keys are cached: an add brings in its key, and puts the least recent one out if 128 were there; a delete takes its key out; a get changes none |
| LruCache.LruNode.Unlink | simplekvsvr_v2/linkedlist.h:30-38 | the two neighbours point at each other and the node at nothing |
| LruCache.KeyPosition | simplekvsvr_v2/cache.h:66-71 | the index finds a key if and only if it is in the list, at the node that holds it |
| LruCache.Cache.AddToHead | simplekvsvr_v2/cache.h:40-49 | the node is first after the sentinel; `prev` mirrors `next` and `tail` is the last node |
| LruCache.Cache.RemoveTail | simplekvsvr_v2/cache.h:51-62 | the last node leaves the list, the index and the count |
| LruCache.Cache.GetCache | simplekvsvr_v2/cache.h:64-79 | finds the key's node, with the value last added, and the list is the recency sequence of the history with this call |
| LruCache.Cache.AddToCache | simplekvsvr_v2/cache.h:81-93 | the list stays acyclic, mirrored, indexed, at most 128 long and the recency sequence of the history |
| LruCache.Cache.DeleteCache | simplekvsvr_v2/cache.h:95-113 | removes the key from list and index and nothing else, or changes nothing |
| LruCache.Cache.PerformAll | simplekvsvr_v2/cache.h:40-113 | after any run of calls that adds only absent keys the list is acyclic, mirrored, indexed, at most 128 long and the recency sequence of all calls so far |
| Bytes.Int32RoundTrip | simplekvsvr_v2/datanode.h:105 | a 32-bit field read back from its four bytes is the same, for every sign |
| Bytes.Int32Bytes | simplekvsvr_v2/datanode.h:105 | the four bytes add up to the integer, least significant first, a negative one as its complement |
| RecordLog.EncodedParts | simplekvsvr_v2/datanode.h:103-127 | where the five parts of a written record lie: checksum, key length, value length, key, value |
| RecordLog.ReadWritten | simplekvsvr_v2/datanode.h:60-130 | reading where a record was written gives it and its size back, whatever surrounds it |
| RecordLog.ReadExactly | simplekvsvr_v2/datanode.h:60-94 | a read gives nothing if and only if at the end, and a record if and only if its bytes lie there |
| RecordLog.WalkLog | simplekvsvr_v2/datanode.h:60-94 | walking from 0 by the sizes returned meets the appended records in order |
| RecordLog.ParsesOnce | simplekvsvr_v2/datanode.h:60-94 | any bytes are walked into one sequence of records only |
| RecordLog.ParsesLog | simplekvsvr_v2/datanode.h:60-130 | the walk over a log meets exactly the records appended and stops at its end |
| RecordLog.DataNode.GetRecord | simplekvsvr_v2/datanode.h:60-94 | 0 at the end, -1 for bytes that are no whole record, else the record and its size |
| RecordLog.DataNode.AppendRecord | simplekvsvr_v2/datanode.h:96-130 | the record's bytes go to the end of the file and `totalOffset` grows by their number |
| LogIndex.RunAddresses | simplekvsvr_v2/simplekvstore.h:259-334 | after every history each live key's entry reads back the key with the value of a plain map, and no other key has one |
| LogIndex.EntriesAreLatest | simplekvsvr_v2/simplekvstore.h:286-334 | after every history no record of a key comes after the one its entry addresses |
| LogIndex.RunFilled | simplekvsvr_v2/simplekvstore.h:218-257 | after every history every file but the last is longer than 10485760 bytes, and none was before its last record |
| LogRestart.RebuiltFindsLast | simplekvsvr_v2/simplekvstore.h:162-198 | over any files the rebuilt index has a key if and only if some record has it with a value, and then at the last such record in manifest order |
| LogRestart.RestartAddresses | simplekvsvr_v2/simplekvstore.h:162-198 | after every history the rebuilt index reads back exactly the map made by the sets of values that are not empty |
| LogRestart.KeptAnswers | simplekvsvr_v2/simplekvstore.h:191-194 | a restarted server answers for a key as before if and only if the key was not last set to an empty value, nor deleted after a set of a value that is not empty |
| LogRestart.RestartEntry | simplekvsvr_v2/simplekvstore.h:179-197 | a restart rebuilds a key's very entry if and only if the key survives in that sense |
| LogRestart.RestartIndex | simplekvsvr_v2/simplekvstore.h:162-198 | a restart rebuilds the whole index if and only if every key survives |
| LogRestart.NoDeletesSurvive | simplekvsvr_v2/simplekvstore.h:286-311 | every key survives a history of sets of non-empty values |
| LogRestart.ClientKeySurvives | simplekvsvr_v2/kvlogiclayer.h:60-68 | when no value is empty, a key survives if and only if it was not deleted after having been set |
| LogRestart.DeletedKeyComesBack | simplekvsvr_v2/simplekvstore.h:191-194 | a set and a delete after which a restart has the key again |
| LogRestart.FilesWritten | simplekvsvr_v2/simplekvstore.h:179-197 | over files that were only appended to, the walk of every file meets what was written |
| DiskFiles.KeptInIsLast | simplekvsvr_v2/simplekvstore.h:162-198 | files keep a key if and only if some record has it with a value, and its value is that of the last such record |
| DiskFiles.KeptInAddresses | simplekvsvr_v2/simplekvstore.h:162-198 | over any files of the store the rebuilt index reads back exactly the map they keep |
| DiskFiles.HistoryKeeps | simplekvsvr_v2/simplekvstore.h:286-334 | the files of a history keep the map made by its sets of values that are not empty |
| DiskFiles.HistoryOnDisk | simplekvsvr_v2/simplekvstore.h:286-334 | the bytes that a history leaves are files that a start accepts |
| DiskFiles.PartIsNotRead | simplekvsvr_v2/datanode.h:60-94 | a record of which a part is missing is never read, wherever it is cut |
| DiskFiles.WholeInExactly | simplekvsvr_v2/simplekvstore.h:123 | how many records are whole in the first bytes of a file |
| DiskFiles.CutIntact | simplekvsvr_v2/simplekvstore.h:123 | a file cut at any byte still begins with its whole records, and the walk meets these and no others |
| KVStore.SimpleKVStore.Check | simplekvsvr_v2/simplekvstore.h:218-257 | one new, empty file is opened if and only if there is none or the last one is over 10485760 bytes; else nothing changes |
| KVStore.SimpleKVStore.SetVal | simplekvsvr_v2/simplekvstore.h:286-311 | appends the record and points the index at it; the map gets the value |
| KVStore.SimpleKVStore.DelVal | simplekvsvr_v2/simplekvstore.h:313-334 | appends a record without value and removes the key; fails if and only if it was absent |
| KVStore.AfterAppends | simplekvsvr_v2/simplekvstore.h:286-334 | every set or delete appends one record to the last file, with its key, its value or none, and checksum 0, and changes no other record |
| KVStore.SimpleKVStore.GetVal | simplekvsvr_v2/simplekvstore.h:259-284 | succeeds if and only if the key is in the plain map, with its value |
| KVStore.SimpleKVStore.ScanFile | simplekvsvr_v2/simplekvstore.h:177-197 | the loop over one file, with any bytes, indexes each record that has a value and counts the bytes of all |
| KVStore.SimpleKVStore.Initlization | simplekvsvr_v2/simplekvstore.h:143-202 | over any files the index maps each key to its last record with a value, in manifest order, and every size is that of the records met |
| KVStore.SimpleKVStore.Restart | simplekvsvr_v2/simplekvstore.h:143-202 | over any files of the store, cut ones too, with a whole last one, the restarted store is valid and holds the map they keep |
| KVStore.SimpleKVStore.ProcessTask | simplekvsvr_v2/simplekvstore.h:336-354 | a get succeeds if and only if the key is there, and gives its value; a set succeeds; a delete succeeds if and only if the key was there; and the map changes accordingly |
| KVStore.SimpleKVStore.DiskIO | simplekvsvr_v2/simplekvstore.h:356-367 | over any files of the store it reads them back; each get then gives the value last set, or the one the files keep, and fails if there is none; sets succeed, deletes if the key is there; and it leaves files that a start accepts again |
| StoreTasks.RunIsRight | simplekvsvr_v2/simplekvstore.h:336-367 | the answers that a plain map gives are right by the tasks before each alone: the last set or delete of the key decides |
| KVStore.FilesOfLongerHistory | simplekvsvr_v2/simplekvstore.h:286-334 | serving tasks over a history's files leaves the files of the history with their changes |
| Compaction.StepKeepsInv | simplekvsvr_v2/simplekvstore.h:97-122 | every copy, compare-and-set, save and delete keeps the invariant of index and offsets |
| Compaction.RunHasInv | simplekvsvr_v2/simplekvstore.h:97-122 | every interleaving keeps the invariant of index and offsets |
| Compaction.CompactionIsInvisible | simplekvsvr_v2/simplekvstore.h:97-122 | over every interleaving: the same keys as without the pass, foreground entries as written, and each other entry as it was or at the offset noted for its record's copy |
| Compaction.ForegroundIsLastTouch | simplekvsvr_v2/simplekvindex.h:27-62 | the index that the foreground alone makes has the entry last saved, none if the key was deleted last, and else the one from before |
| Compaction.NothingDangles | simplekvsvr_v2/simplekvstore.h:129-141 | after the pass no entry leads to the old file if and only if the foreground has touched every entry of an empty value |
| Compaction.NothingLeftOfClients | simplekvsvr_v2/simplekvstore.h:129-141 | no entry leads to the old file after the pass when none was for an empty value |
| Compaction.EmptyValueDangles | simplekvsvr_v2/simplekvstore.h:118-121 | a pass over one empty value after which its entry still leads to the old file |
| CompactedFile.FailedExactly | simplekvsvr_v2/simplekvstore.h:118-121 | a record's compare-and-set fails if and only if it has a value and the index did not have the record before the pass, or the foreground touched its key before its turn |
| CompactedFile.NotedIsPlaced | simplekvsvr_v2/simplekvstore.h:108-121 | the offset noted for a copy is never beyond its bytes, and is where they are if and only if no earlier record fails |
| CompactedFile.MovedEntryFindsCopy | simplekvsvr_v2/simplekvstore.h:108-123 | the entry of a live, untouched record is moved, and leads to the whole copy in the truncated file if and only if no earlier record fails |
| CompactedFile.QuietPass | simplekvsvr_v2/simplekvstore.h:97-123 | with the foreground at rest: if and only if every earlier record with a value is live |
| CompactedFile.PassCanFinish | simplekvsvr_v2/simplekvstore.h:97-122 | whatever has happened so far, the pass can go on to its end |
| CompactedFile.LookupAfterPass | simplekvsvr_v2/simplekvstore.h:97-123 | and then a look-up reads in the truncated file the record that it read in the old one |
| CompactedFile.TotalExactly | simplekvsvr_v2/simplekvstore.h:118-123 | the truncated file is shorter than the old one by exactly the records that failed |
| CompactedFile.QuietPassMisreads | simplekvsvr_v2/simplekvstore.h:118-121 | a pass with the foreground at rest after which a key reads a dead record, its own or another key's |
| CompactedFile.MisplacedCopyIsRead | simplekvsvr_v2/simplekvstore.h:118-121 | a pass with one save in it after which a key reads another key's record |
| HistoryPass.HistoryStarts | simplekvsvr_v2/simplekvstore.h:129-134 | after any history the store's index is one that a pass over any of its files may start with |
| HistoryPass.RestartStarts | simplekvsvr_v2/simplekvstore.h:129-134 | so is the index of a restart over any files of the store |
| HistoryPass.RecordIsOp | simplekvsvr_v2/simplekvstore.h:286-334 | record by record, the files hold the operations in their order, with their keys and values |
| HistoryPass.LiveExactly | simplekvsvr_v2/simplekvstore.h:286-334 | the index addresses a record if and only if it was written by the last operation on its key, and that is a set |
| HistoryPass.PassOverHistory | simplekvsvr_v2/simplekvstore.h:97-123 | with the foreground at rest, a key last set in the file finds its copy if and only if no earlier record of the file has a value and a key that was changed again |
| HistoryPass.PassOnDisk | simplekvsvr_v2/simplekvstore.h:123 | after a pass the files are ones that a start accepts, the compacted one with the records that are whole in what is left |
| HistoryPass.PassThenRestartLoses | simplekvsvr_v2/simplekvstore.h:118-123 | a pass after which a restart has lost a live key, or has its old value back |
| Compaction.SimpleKVIndex.SaveVal | simplekvsvr_v2/simplekvindex.h:27-34 | sets the key's entry and no other |
| Compaction.SimpleKVIndex.GetVal | simplekvsvr_v2/simplekvindex.h:36-48 | found if and only if present, with its entry |
| Compaction.SimpleKVIndex.DelKey | simplekvsvr_v2/simplekvindex.h:50-62 | removes the key's entry; true if and only if there was one |
| Compaction.SimpleKVIndex.CompareAndSet | simplekvsvr_v2/simplekvindex.h:64-80 | replaces the entry if and only if it is the expected one, else changes nothing |
| Compaction.ReBuild.CopyNext | simplekvsvr_v2/simplekvstore.h:99-116 | the loop's first half on the objects is the machine's copy step, or the end of the file |
| Compaction.ReBuild.SwapNext | simplekvsvr_v2/simplekvstore.h:118-121 | the loop's second half on the objects is the machine's compare-and-set step |
| Compaction.ReBuild.Truncate | simplekvsvr_v2/simplekvstore.h:123 | after the pass the new file is the old bytes cut to the size it believes to have |
| ShmMessages.NeedNodes | simplekvsvr_v3/taskpool/shm_cqueue.h:59-61 | the least number of 512-byte nodes that hold the message |
| ShmMessages.StoredAppend | simplekvsvr_v3/taskpool/shm_cqueue.cpp:117-131 | a ring decodes to the queue with the message appended once its nodes follow the queue's |
| ShmMessages.WritingDone | simplekvsvr_v3/taskpool/shm_cqueue.cpp:117-131 | when all parts are written the ring decodes to the queue with the message last |
| ShmQueue.CShareQueue.NodesInUse | simplekvsvr_v3/taskpool/shm_cqueue.h:63-71 | free nodes are capacity less the queue's need, within the asserted bounds; FullQueue if and only if 0, EmptyQueue if and only if no message |
| ShmQueue.CShareQueue.Write | simplekvsvr_v3/taskpool/shm_cqueue.cpp:117-131 | an admitted message is appended and no node in use is written |
| ShmQueue.CShareQueue.Enqueue | simplekvsvr_v3/taskpool/shm_cqueue.cpp:105-136 | refused, waiting or done, each in exactly its case; the queue changes only when done |
| ShmQueue.CShareQueue.Read | simplekvsvr_v3/taskpool/shm_cqueue.cpp:151-164 | returns the oldest message byte for byte with its length, and frees its nodes |
| ShmQueue.CShareQueue.Dequeue | simplekvsvr_v3/taskpool/shm_cqueue.cpp:138-169 | refused, waiting or the oldest message, each in exactly its case |
| ShmQueue.CShareQueue.SendStep | simplekvsvr_v3/taskpool/shm_cqueue.cpp:109-131 | a sender's pass of the loop on the ring is the step of the machine of threads, sleeping if and only if it waits |
| ShmQueue.CShareQueue.RecvStep | simplekvsvr_v3/taskpool/shm_cqueue.cpp:143-164 | a receiver's pass is the machine's step, with the message the machine receives |
| ShmMonitor.StepKeepsInv | simplekvsvr_v3/taskpool/shm_cqueue.cpp:105-169 | every step keeps mutual exclusion, order, capacity and wakeups |
| ShmMonitor.NoConsumerWakeupIsLost | simplekvsvr_v3/taskpool/shm_cqueue.cpp:132-149 | over every interleaving with spurious wakeups: first in first out, within capacity, and while the mutex is free and a consumer sleeps, queued messages are at most woken consumers |
| ShmMonitor.EveryMessageIsSentOrHeld | simplekvsvr_v3/taskpool/shm_cqueue.cpp:105-136 | over every interleaving the messages given to the calls made are, each counted, those put in and those still in their senders' hands |
| ShmMonitor.EveryCallTakesOrWants | simplekvsvr_v3/taskpool/shm_cqueue.cpp:138-169 | over every interleaving each call of a receiver has taken one message or is yet to take one |
| ShmMonitor.StuckReceiversHaveNothing | simplekvsvr_v3/taskpool/shm_cqueue.cpp:143-149 | when no thread can go on, all inside a call sleep, and a consumer only over an empty queue |
| ShmMonitor.NoSenderIsForgotten | simplekvsvr_v3/taskpool/shm_cqueue.cpp:109-166 | over every interleaving of messages that each fit into an empty ring: while the ring is empty and a sender sleeps, a receiver is about to signal or a sender is on its way |
| ShmMonitor.StuckSendersFaceMessages | simplekvsvr_v3/taskpool/shm_cqueue.cpp:109-166 | and so, when no thread can go on, a sender sleeps only over a ring that is not empty |

## Left out

- Sockets, epoll, thread and process pools, the request parser and reply
  formatting, statistics and debug printing: plumbing. `quit`, `stats` and
  unknown commands do not touch the index and are not among the requests.
- Failures of `mmap`, `ftruncate`, `read` and `write`, overflow of sizes and
  offsets, and `fileNum` reaching `MAXFILE`: these calls succeed and sizes are
  mathematical integers. Negative lengths read from a file are malformed.
- The text of the v1 file `key`: the saved index is a map from keys to offsets.
- Freeing memory and destructors.
- KVIndex.KVIndex.Get: only for a key that is there, because the source would otherwise make an entry at offset 0; the worker loop asks first.
- NewKVIndex.KVIndex.Get: only for a key that is there, for the same reason.
- NewKVIndex.KVIndex.MemoryRecycle: its call is commented out in `Delete`; slots are not emptied by it, and iterators left in them are taken to touch no live entry.
- LruCache.Cache.AddToCache: only for an absent key, as its intended callers do; in the store all calls of the cache are commented out.
- KVStore.SimpleKVStore.Check: does not write the manifest, which lists the files in the order of `fileList`, and does not start the compaction thread; compaction has its own module, over one old file and with entries for all newer files. A start may find files that a pass has cut (`HistoryPass.PassOnDisk`), but no pass runs beside the store's thread in `DiskIO`.
- Compaction.CompactionIsInvisible: entries of records are compared by place; what a moved entry reads is said by `CompactedFile.MovedEntryFindsCopy` and `CompactedFile.LookupAfterPass`. Renaming the file and swapping the pointer in `fileList` are not modelled.
- Compaction.ReBuild.CopyNext: the read of a record and the append of its copy are one step, so another reader that moves the shared descriptor in between is left out.
- ShmQueue.CShareQueue.Enqueue: one pass of the waiting loop, `Waits` where the source sleeps; sleeping and waking are in `ShmMonitor`, whose steps `SendStep` and `RecvStep` match.
- ShmMonitor.NoConsumerWakeupIsLost: while the queue is not shut down, because `Shutdown` sets its flag without the mutex.
- ShmMonitor.StuckSendersFaceMessages: only over an empty ring and for messages that fit into one, because one signal per dequeue can wake a producer whose message still does not fit, while one that would fit sleeps on; a message longer than the ring waits for ever.
- Allocating and attaching the shared memory.
