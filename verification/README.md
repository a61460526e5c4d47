# A verified model of the Arma 3 REST extension

The extension lets a game script make HTTP requests without stopping the game. The game thread calls
`RVExtensionArgs` to queue a request, three worker threads take requests from the queue and execute them, and
the game polls for the result, which it reads in slices the size of its buffer. A JSON answer is first rewritten
as an SQF array in which objects and arrays are tagged. The repository also carries the headers of the Poco
library it is built on, with the bodies of their templates. This project models both in Dafny and proves what
each part is there for. The main statements are for every input, every run or every reachable state.

`dafny verify dfyconfig.toml` checks everything.

| file | what it models |
|---|---|
| `Job.dfy`, `GetResult.dfy`, `Extension.dfy` | a job, reading its result in slices, the script loop that does so, the entry point |
| `Scheduler.dfy`, `Progress.dfy` | client and workers as a transition system, its safety and its progress |
| `Worker.dfy`, `System.dfy` | the scheduler and worker objects, and that they step as the transition system does |
| `SqfPrinter.dfy` | the printer from JSON trees to tagged array texts, and a decoder |
| `Delivery.dfy`, `EndToEnd.dfy` | from the worker that prints an answer to the text the game has joined, in any interleaving |
| `LinearHashTable.dfy` | Litwin linear hashing and the hash map over it |
| `ListNodes.dfy`, `LruCache.dfy`, `ExpireCache.dfy` | the cache with its recency and its expiry strategy |
| `NumericString.dfy` | printing and parsing integers |
| `FifoBuffer.dfy`, `BinaryCodec.dfy` | the compacting FIFO buffer; seven-bit integers and vectors in binary streams |
| `EventDispatch.dfy` | events whose callbacks change the event |
| `ListMap.dfy`, `ArchiveStrategy.dfy`, `Pbkdf2.dfy` | the grouped list map; renumbering log archives; HMAC and PBKDF2 |
| `Basics.dfy` | what several of these share |

Where the source changes objects step by step, the model has a class with the same fields and methods with the
same loops. Each such method is proved against a function on values, and the laws are lemmas about those
functions. So the class says what one call does, the lemmas what runs of calls keep. What such a function
computes is also stated apart from it, in fields, indices, characters or bits.

## What is assumed

- Leaf texts of the printer come from library code whose bodies are not in the repository. `LeavesAreTokens` is
  the assumption about them: a scalar is an unquoted token other than `null`, a string or key is one quoted token.
  `NulFree` adds that none holds a NUL, and is needed only where a JSON answer is followed into the game's buffer.
- What the network did with a request is a parameter (`Outcome`): JSON text, other text, or an exception.
- What callbacks do to an event is a parameter: one script of actions for each invocation, nested notifications
  included. The quantification over scripts is one over all behaviours of all callbacks.
- The hash function under HMAC is a parameter: any function on byte strings, a block size and a digest size.
- The clock of the expiry strategy may advance at each reading by any amount and never goes back.
- Steps of threads are atomic where the source holds a lock, and `AddJob`, which holds none, is two steps.
- Numbers that only count (jobs, sizes, iterations) are unbounded; widths are modelled where they matter, which is
  in integer parsing, seven-bit decoding, 32-bit words and the block number of PBKDF2.

## Where code and expectation differ

The model follows the code. These are the places where what the code does is not what its documentation says or
what a caller would expect, with the lemma or contract that says exactly when.

- **A job can be lost.** `AddJob` pushes the job before it assigns the id and takes no lock. A worker can finish
  it in between, and then files it under -1 (`Protocol.AddJobCanLoseAJob`, `StrayIsLost`). The table of finished
  jobs is right if and only if that has not happened (`TableExactIffNoStrays`); with `AddJob` atomic it never does
  (`AtomicAddsKeepEveryJob`).
- **The script loop may not end.** After a slice the script goes on until it sees `RESULT_COMPLETE`, but the last
  slice of a JSON result says `RESULT_COMPLETE_JSON` (`Results.ScriptTerminatesIff`, `ScriptCanRunForever`).
- **A buffer of one byte** has no room for anything but the NUL, and a result with a NUL is cut at it
  (`Results.CompletesIff`, `CycleDelivers`).
- **Job 0 cannot be disposed of**, because the id serves as a condition (`SchedulerObjects.Scheduler.Dispose`).
- **The message for a missing URL is never seen**: the check of its length that follows overwrites it
  (`Extension.NewRequest`).
- **Nested vectors** are written in full but read wrongly unless all elements but the last are empty, since one
  element variable serves for the whole loop and is never cleared (`Vectors.RoundTripIff`, `NestedVectorsMerge`).
- **Integers** print in bases that cannot be read back: digits 8 and 9 are refused in the bases 9 and 11 to 15,
  letters in all bases but 16, a minus sign in all but 10, and the prefix `0x` always (`NumericText.RoundTripIff`,
  `SomeTextsAreNotRead`).
- **A thousand separator** follows every third digit, also where no digit comes before it: 123 prints as `,123`
  (`NumericText.StartsWithSeparatorIff`, `SeparatorWithNothingBefore`).
- **`AbstractStrategy::onAdd`** is documented to throw for a key that is already there. The recency strategy keeps
  the old node in its list instead, and is consistent afterwards if and only if the key was new; the cache only
  ever adds new keys (`LruCaching.LruStrategy.OnAdd`, `LruCache.Add`). The expiry strategy replaces the entry.
- **A resize of the FIFO buffer** does not compact, so shrinking can leave elements outside
  (`FifoBuffers.FifoBuffer.Resize`, `ShrinkingLeavesElementsOutside`). When a full buffer grows, nobody is told that it
  is writable, because the old count is compared with the new size (`FifoStream.BeliefIsTruthIff`, `GrowthIsMissed`).
- **`ArchiveByTimestampStrategy::archive`**, when an archive with the time stamp exists already, renumbers that
  archive and does not archive the log file at all (`Archiving.LogIsArchivedIff`,
  `SameStampLeavesLog`).
- **`PBKDF2Engine::digest`** does not reset the engine as the base class says (`KeyedHashing.ResultStays`).
- `script_macros.hpp` gives `CALL_E_GENERIC` the value `0xff`, which is `DEBUG_INFO_DUMP` in `src/Job.h`; the model
  has the values of `src/Job.h`.

## Model

| member | source | states |
|---|---|---|
| `LinearHashing.AdvanceSplit` | `src/include/Poco/LinearHashTable.h:424-439` | When the split pointer passes bucket s, no hash outside bucket s changes its address, and those of bucket s go to s or s + front, where nothing else goes |
| `LinearHashing.Renormalize` | `src/include/Poco/LinearHashTable.h:441-448` | A finished round (split = front) addresses every hash as a fresh round with twice the front does |
| `LinearHashing.ResidueIsRemainder` | `src/include/Poco/LinearHashTable.h:424-439` | The residue that all address reasoning uses is the remainder the code takes |
| `LinearHashing.ScatterAppendsSelection` | `src/include/Poco/LinearHashTable.h:453-459` | Refiling a bucket appends to each bucket exactly the entries addressed to it, in their order |
| `LinearHashing.SplitHolds` | `src/include/Poco/LinearHashTable.h:441-460` | A split keeps every entry, once, in the bucket its hash addresses |
| `LinearHashing.MergeHolds` | `src/include/Poco/LinearHashTable.h:462-480` | A merge keeps every entry, once, in the bucket its hash addresses |
| `LinearHashing.SplitDividesOneBucket` | `src/include/Poco/LinearHashTable.h:449-459` | A split divides one bucket between itself and the new last bucket, both in the old order, and leaves all others alone |
| `LinearHashing.MergeAppendsLastBucket` | `src/include/Poco/LinearHashTable.h:469-479` | A merge appends the whole last bucket to one bucket and touches no other |
| `LinearHashing.SplitGeometry` | `src/include/Poco/LinearHashTable.h:441-452` | The front stays a power of two over splits |
| `LinearHashing.MergeGeometry` | `src/include/Poco/LinearHashTable.h:462-472` | A merge with more than one bucket never drives the front to zero and leaves at least one bucket |
| `LinearHashing.MemberIffInMap` | `src/include/Poco/LinearHashTable.h:332-342` | A lookup succeeds exactly for the keys of the represented map and finds their entries |
| `LinearHashing.InsertRefines` | `src/include/Poco/LinearHashTable.h:351-378` | An insert refines the insertion into a finite map that keeps an existing binding |
| `LinearHashing.EraseRefines` | `src/include/Poco/LinearHashTable.h:380-396` | An erase refines the removal from a finite map, and the merge it makes is always possible |
| `LinearHashing.InitialRepresents` | `src/include/Poco/LinearHashTable.h:236-244` | The table of the constructor represents the empty map |
| `LinearHashing.Run` | `src/include/Poco/LinearHashTable.h:351-403` | After any run of inserts, erases and clears the table is well formed (buckets = front + split = size + 1, front a power of two, entries distinct and at home) and represents the map the same run builds |
| `LinearHashing.VisitIsRemainder` | `src/include/Poco/LinearHashTable.h:141-152` | A loop from any position dereferences the rest of the buckets laid end to end |
| `LinearHashing.IterationVisitsEachOnce` | `src/include/Poco/LinearHashTable.h:278-291` | A loop from begin() to end() visits each entry of the map exactly once and nothing else |
| `LinearHashing.LinearHashTable.BucketAddress` | `src/include/Poco/LinearHashTable.h:424-439` | The code's two remainders give the address that the invariant speaks of, for every reachable pair of front and split |
| `LinearHashing.LinearHashTable.Find` | `src/include/Poco/LinearHashTable.h:332-342` | Returns end() exactly for keys outside the map, otherwise the position of the key's entry |
| `LinearHashing.LinearHashTable.Refile` | `src/include/Poco/LinearHashTable.h:453-459` | The refiling loop computes the scatter that the lemmas are about |
| `LinearHashing.LinearHashTable.SplitBucket` | `src/include/Poco/LinearHashTable.h:441-460` | The in-place split ends in the specified table |
| `LinearHashing.LinearHashTable.MergeBucket` | `src/include/Poco/LinearHashTable.h:462-480` | The in-place merge ends in the specified table |
| `LinearHashing.LinearHashTable.Add` | `src/include/Poco/LinearHashTable.h:351-378` | Inserts if and only if the key is new, keeps the invariant, and returns the position of the key's entry; a new entry is the last of the bucket the key addresses after one split |
| `LinearHashing.LinearHashTable.RemoveAt` | `src/include/Poco/LinearHashTable.h:380-389` | Erasing at an iterator removes exactly the entry it points at, the others keep their order, and one merge follows; erasing at end() changes nothing |
| `LinearHashing.LinearHashTable.Remove` | `src/include/Poco/LinearHashTable.h:391-396` | The represented map loses exactly the key |
| `LinearHashing.LinearHashTable.First` | `src/include/Poco/LinearHashTable.h:278-291` | begin() skips the leading empty buckets |
| `LinearHashing.LinearHashTable.Advance` | `src/include/Poco/LinearHashTable.h:141-152` | The increment goes to the next entry, over any number of empty buckets, or to the end |
| `LinearHashing.LinearHashTable.Clear` | `src/include/Poco/LinearHashTable.h:398-403` | The table is an initial one again |
| `LinearHashing.AddressIsRemainder` | `src/include/Poco/LinearHashTable.h:424-439` | The remainder by the front, or by twice the front for buckets before the split pointer |
| `LinearHashing.WithoutAtKeepsOrder` | `src/include/Poco/LinearHashTable.h:380-389` | An erased entry's successors move up by one, in their order |
| `HashMapping.HashMap.Insert` | `src/include/Poco/HashMap.h:167-176` | A map view: an existing binding is kept, the flag says so, and the position returned is that of the key in either case |
| `HashMapping.HashMap.Erase` | `src/include/Poco/HashMap.h:183-187` | The map loses exactly the key |
| `HashMapping.HashMap.At` | `src/include/Poco/HashMap.h:204-211` | The value bound to the key, or the exception exactly when there is none |
| `HashMapping.HashMap.Subscript` | `src/include/Poco/HashMap.h:213-218` | Binds a missing key to the default and refers to the value bound afterwards |
| `Recency.Inclusion` | `src/include/Poco/AbstractCache.h:207-351` | For every run of add, update, get, remove and clear, every entry of a cache of capacity n is, with the same value, in one of capacity m >= n |
| `Recency.RunNested` | `src/include/Poco/LRUStrategy.h:57-128` | The smaller cache's recency list is at every moment the larger one's list restricted to the smaller one's keys; neither exceeds its capacity |
| `Recency.StepNested` | `src/include/Poco/LRUStrategy.h:57-128` | Each operation keeps that nesting |
| `Recency.EvictsLeastRecent` | `src/include/Poco/LRUStrategy.h:104-128` | An add to a full cache evicts exactly the least recently used key, never the added one; otherwise nothing is evicted |
| `Recency.KeepTruncated` | `src/include/Poco/AbstractCache.h:338-351` | Dropping the keys behind position n, in any order, is truncating the recency list to n |
| `Recency.WritingPutsFirst` | `src/include/Poco/AbstractCache.h:207-253` | After an add or update the entry is first with its value, the others keep value and order, and only from a full cache, for a new key, the last entry is gone |
| `Recency.ReadingMovesFirst` | `src/include/Poco/LRUStrategy.h:78-88` | After a get a known key's entry is first and the others keep their order; an unknown key changes nothing |
| `Recency.RemovingTakesOut` | `src/include/Poco/LRUStrategy.h:67-76` | After a removal the key is gone and the others keep value and order; a clear leaves nothing |
| `Recency.PutFirstPutsInto` | `src/include/Poco/AbstractCache.h:207-253` | In terms of the map: the key is bound to the value, the others keep theirs, and only the evicted key is missing |
| `LruCaching.LruStrategy.OnAdd` | `src/include/Poco/LRUStrategy.h:57-65` | Puts a new node at the front; list and index stay consistent if and only if the key was new (an old node would stay in the list) |
| `LruCaching.LruStrategy.OnRemove` | `src/include/Poco/LRUStrategy.h:67-76` | Takes the key's node out of list and index together; an unknown key changes nothing |
| `LruCaching.LruStrategy.OnGet` | `src/include/Poco/LRUStrategy.h:78-88` | Moves the node of a known key to the front, by identity, and leaves the others in order |
| `LruCaching.LruStrategy.OnUpdate` | `src/include/Poco/AbstractStrategy.h:43-48` | Remove then add stays consistent for known and unknown keys |
| `LruCaching.LruStrategy.OnClear` | `src/include/Poco/LRUStrategy.h:90-94` | List and index are empty |
| `LruCaching.LruStrategy.OnIsValid` | `src/include/Poco/LRUStrategy.h:96-102` | A key is valid exactly if it is in the index |
| `LruCaching.LruStrategy.OnReplace` | `src/include/Poco/LRUStrategy.h:104-128` | Names exactly the keys from position size of the recency list on |
| `LruCaching.LruCache.DoRemove` | `src/include/Poco/AbstractCache.h:275-284` | Data and strategy lose the key together |
| `LruCaching.LruCache.DoReplace` | `src/include/Poco/AbstractCache.h:338-351` | Afterwards the entries are the first ones of the recency list, at most the capacity |
| `LruCaching.LruCache.Add` | `src/include/Poco/AbstractCache.h:207-219` | Data, list and index agree again and are the specified step; spelt out: the new entry is first, the others keep value and order, and of a full cache the last entry goes when the key was new |
| `LruCaching.LruCache.Update` | `src/include/Poco/AbstractCache.h:235-253` | The same for an update: the entry is first with the new value, whether or not the key was there |
| `LruCaching.LruCache.Remove` | `src/include/Poco/AbstractCache.h:275-284` | The entries lose exactly the key, data too, and the others keep their order |
| `LruCaching.LruCache.Get` | `src/include/Poco/AbstractCache.h:303-329` | A hit returns the value and becomes the first entry, the others keep their order; a miss returns nothing and changes nothing; nothing is ever found invalid |
| `LruCaching.LruCache.Has` | `src/include/Poco/AbstractCache.h:286-301` | True exactly for the keys of the cache, without touching the order |
| `LruCaching.LruCache.Clear` | `src/include/Poco/AbstractCache.h:331-336` | Empty in data, list and index |
| `LruCaching.LruCache.Size` | `src/include/Poco/AbstractCache.h:146-152` | Between public calls there is nothing left to replace |
| `ExpireCaching.AppendIndexed` | `src/include/Poco/ExpireStrategy.h:61-73` | A node with a current time goes to the end of the time index, which stays sorted and in bijection with the keys |
| `ExpireCaching.UnlinkIndexed` | `src/include/Poco/ExpireStrategy.h:75-83` | Removing a key keeps the time index sorted and in bijection with the keys |
| `ExpireCaching.ExpireStrategy.OnAdd` | `src/include/Poco/ExpireStrategy.h:61-73` | The index stays in bijection with the keys for known and unknown keys; the key gets a time within the call |
| `ExpireCaching.ExpireStrategy.OnRemove` | `src/include/Poco/ExpireStrategy.h:75-83` | Key map and time index lose exactly the key |
| `ExpireCaching.ExpireStrategy.OnUpdate` | `src/include/Poco/AbstractStrategy.h:43-48` | The key gets a new time within the call, all others keep theirs |
| `ExpireCaching.ExpireStrategy.OnClear` | `src/include/Poco/ExpireStrategy.h:90-94` | Key map and index are empty |
| `ExpireCaching.ExpireStrategy.OnIsValid` | `src/include/Poco/ExpireStrategy.h:96-108` | Valid exactly if known and not expired at the time of the answer |
| `ExpireCaching.ExpireStrategy.OnReplace` | `src/include/Poco/ExpireStrategy.h:110-121` | The prefix scan, whose clock moves on, names every key expired at its start and only expired keys |
| `ExpireCaching.ExpireCache.DoReplace` | `src/include/Poco/AbstractCache.h:338-351` | Every entry expired at the start is dropped, only expired ones are, from data and strategy alike |
| `ExpireCaching.ExpireCache.Add` | `src/include/Poco/AbstractCache.h:207-219` | The entry is written with a time within the call; no other entry that was expired before is left, nothing that is not expired is dropped, and nothing else is renewed |
| `ExpireCaching.ExpireCache.Update` | `src/include/Poco/AbstractCache.h:235-253` | The same for an update |
| `ExpireCaching.ExpireCache.Remove` | `src/include/Poco/AbstractCache.h:275-284` | Data and strategy lose exactly the key |
| `ExpireCaching.ExpireCache.Get` | `src/include/Poco/AbstractCache.h:303-329` | Returns the value exactly when the entry has not expired at the time of the call, never renews it, and removes an expired one |
| `ExpireCaching.ExpireCache.Has` | `src/include/Poco/AbstractCache.h:286-301` | Never reports an expired entry, always reports another |
| `ExpireCaching.ExpireCache.GetAllKeys` | `src/include/Poco/AbstractCache.h:165-177` | Returns no key that was expired when the call began, and leaves out only expired ones |
| `ExpireCaching.ExpireCache.Clear` | `src/include/Poco/AbstractCache.h:331-336` | Empty |
| `ExpireCaching.ExpireStrategy.IsElapsed` | `src/include/Poco/Timestamp.h:249-254` | Expired at the time of the reading, which is not before the call |
| `ExpireCaching.ExpireCache.DoRemove` | `src/include/Poco/AbstractCache.h:275-284` | Data and strategy lose the key together |
| `ExpireCaching.PurgesByTime` | `src/include/Poco/Timestamp.h:249-254` | Which keys a replacement takes, in the times themselves: expired means that at least the expiry time has passed |
| `ListNodes.UnlinkConsistent` | `src/include/Poco/LRUStrategy.h:67-76` | Taking one node out of list and index keeps every index entry pointing at the one node of its key |
| `Jobs.CodesAreDistinct` | `src/Job.h:8-21` | The game can tell all status codes apart |
| `Jobs.ExecuteFinishes` | `src/GetRequest.cpp:20-54` | Every path of Execute, the invalid job and the exception handlers included, ends complete with a status set, and keeps the id |
| `Jobs.Job.ExecuteGet` | `src/GetRequest.cpp:20-54` | For a valid job the JSON text with RESULT_COMPLETE_JSON, the body with RESULT_COMPLETE or the message with RESULT_EXCEPTION_CAUGHT; an invalid job keeps its result and gets RESULT_EXCEPTION_CAUGHT; complete in any case |
| `Jobs.Job.MarkComplete` | `src/Job.cpp:97-102` | Status, result and completion flag change together, nothing else |
| `Jobs.Job.AssignId` | `src/Job.cpp:88-90` | Only the id changes |
| `Jobs.Job.UpdateResultOffset` | `src/Job.cpp:117-119` | The offset advances by the increment; the result stays |
| `Jobs.Job.ResetResultOffset` | `src/Job.cpp:121-123` | The offset is zero; the result stays |
| `Jobs.CodesAre` | `src/Job.h:8-21` | The values of the status codes |
| `Jobs.OutcomesAreStored` | `src/GetRequest.cpp:20-54` | What each outcome leaves in the job, with the exact status; nothing else about the job changes |
| `Protocol.NextInv` | `src/Scheduler.cpp:25-46` | Every step of client and workers, in any interleaving, keeps ids, queue order, conservation, progress and table in step |
| `Protocol.ExecInv` | `src/Scheduler.cpp:11-46` | The invariant holds after every run |
| `Protocol.EachJobInOnePlace` | `src/Worker.cpp:38-67` | In every reachable state each job pushed is queued once, held by exactly one worker, or filed: exactly one of the three |
| `Protocol.AcquiredInPushOrder` | `src/Scheduler.cpp:25-34` | Jobs leave the queue in the order they were pushed, one for each acquisition |
| `Protocol.FiledOnce` | `src/Scheduler.cpp:42-46` | No job is filed twice; nothing filed is lost or replaced |
| `Protocol.TableExactIffNoStrays` | `src/Scheduler.cpp:15-46` | The table maps exactly the filed jobs, each under its id, if and only if no worker completed a job before its id was assigned |
| `Protocol.AddJobCanLoseAJob` | `src/Scheduler.cpp:36-40` | Such a run exists with one worker: AddJob pushes before it assigns the id and takes no lock |
| `Protocol.StrayIsLost` | `src/Scheduler.cpp:15-23` | A job lost that way is never found by its id, whatever happens next |
| `Protocol.AtomicAddsKeepEveryJob` | `src/Scheduler.cpp:36-46` | With AddJob atomic, in every run the ids are 0 to counter - 1, one for each job, and the table holds exactly the filed jobs under their ids |
| `Protocol.FinishedIsReadable` | `src/Scheduler.cpp:15-23` | Whatever a lookup yields is complete with its status set |
| `Protocol.FinishedIsStable` | `src/Job.cpp:97-102` | A job that was once found stays findable; its result, status and completion never change again |
| `Progress.BusyTickWorks` | `src/Worker.cpp:38-53` | Each action of a worker that has something to do uses up one unit of the remaining work |
| `Progress.WaitingStays` | `src/Worker.cpp:38-53` | No other step brings work back or changes what a waiting worker will do |
| `Progress.FairSchedulesDrain` | `src/Worker.cpp:38-67` | Once adding stops, every fair infinite schedule reaches a moment from which on nothing is queued or held and every job is filed |
| `SchedulerObjects.Scheduler.AddJob` | `src/Scheduler.cpp:36-40` | Queue, counter and the job's id after the call |
| `SchedulerObjects.Scheduler.AcquireJob` | `src/Scheduler.cpp:25-34` | The oldest job leaves the queue; an empty queue yields null and no change |
| `SchedulerObjects.Scheduler.CompleteJob` | `src/Scheduler.cpp:42-46` | Files the job unless its id is taken |
| `SchedulerObjects.Scheduler.Dispose` | `src/Scheduler.cpp:48-56` | Succeeds exactly for a found job whose id is not 0, which is then not found again; everything else stays |
| `SchedulerObjects.Worker.Iterate` | `src/Worker.cpp:38-53` | One undisturbed iteration takes the oldest job through execution to the table |
| `SchedulerObjects.Scheduler.GetNewId` | `src/Scheduler.cpp:11-13` | Every call hands out the next number |
| `SchedulerObjects.Worker.GetNextJob` | `src/Worker.cpp:55-61` | The worker holds the oldest job, or none |
| `SchedulerObjects.Worker.CompleteJob` | `src/Worker.cpp:63-67` | The job is filed and the worker holds none |
| `SystemObjects.IterationIsThreeTicks` | `src/Worker.cpp:38-67` | In the protocol, three undisturbed ticks of an idle worker take the oldest job through execution to the table |
| `SystemObjects.AddIsTwoSteps` | `src/Scheduler.cpp:36-40` | In the protocol, a push and its assignment do what an undisturbed AddJob does |
| `SystemObjects.System.constructor` | `src/Worker.cpp:11-16` | Scheduler and workers start in the initial state of the protocol |
| `SystemObjects.System.AddJob` | `src/Scheduler.cpp:36-40` | The objects, in a state of the protocol before, are in the state after a push and its assignment |
| `SystemObjects.System.GetNextJob` | `src/Worker.cpp:55-61` | An idle worker taking a job is one tick of the protocol: queue, worker and jobs match the next state |
| `SystemObjects.System.Execute` | `src/Worker.cpp:44` | Executing the held job is one tick of the protocol |
| `SystemObjects.System.CompleteJob` | `src/Worker.cpp:63-67` | Filing the held job is one tick of the protocol |
| `SystemObjects.System.Iterate` | `src/Worker.cpp:38-53` | A whole iteration of the work loop keeps the objects in a state of the protocol, one or three ticks further |
| `SystemObjects.System.GetResult` | `src/RVExtension.cpp:145-168` | Reading a slice keeps the objects in a state of the protocol, one read further, and delivers the answer that state gives |
| `Results.CStringIsUpToNul` | `src/RVExtension.cpp:152-165` | The copy to the game's buffer is the whole text if and only if it holds no NUL |
| `Results.CallCountIsCeiling` | `src/RVExtension.cpp:134-169` | The calls of a cycle are max(1, ceil(L / (size - 1))) |
| `Results.AnswerInCycle` | `src/RVExtension.cpp:152-166` | Each call but the last delivers a full slice and RESULT_SLICED, the last one the rest and the job's own status |
| `Results.CycleDelivers` | `src/RVExtension.cpp:134-169` | For every result and size >= 2 a cycle ends with the job as it was found, all answers but the last are slices, and the joined texts are the result if and only if it is free of NUL |
| `Results.CycleRestarts` | `src/Job.cpp:113-123` | After a cycle the answers repeat |
| `Results.OneByteBufferStalls` | `src/RVExtension.cpp:164-166` | With a buffer of one byte a non-empty result never arrives |
| `Results.CompletesIff` | `src/RVExtension.cpp:134-169` | Some call returns the job's own status if and only if the size is at least 2 or the result is empty |
| `Results.CallsInterleave` | `src/RVExtension.cpp:134-169` | For any mixed sequence of calls each job answers as if only its own calls had been made |
| `Results.ScriptTerminatesIff` | `addons/rest-client/functions/rest/fn_createJobSync.sqf:34-41` | The script loop stops if and only if the result fits one buffer or has the status RESULT_COMPLETE; on a sliced JSON result or error it never does |
| `Results.GetResult` | `src/RVExtension.cpp:148-166` | The three branches: a short result whole and the offset as it was; the last slice and the offset zero; or a full slice, RESULT_SLICED and the offset behind it; each copied up to its first NUL with a NUL behind |
| `Results.StrCpy` | `src/RVExtension.cpp:152-165` | The text up to its first NUL, and a NUL behind it |
| `Results.ScriptCanRunForever` | `addons/rest-client/functions/rest/fn_createJobSync.sqf:36-41` | A JSON result of three characters and a buffer of two: the script never stops |
| `Extension.StoiReadsIds` | `src/RVExtension.cpp:119-122` | Every id the extension returns is read back from its decimal text, whatever text without a digit in front follows |
| `Extension.Extension.GetRequest` | `src/RVExtension.cpp:111-116` | Queues a fresh job behind the others, valid exactly if its trimmed target has three characters, answers with the id it got, and changes nothing else |
| `Extension.Extension.CheckJob` | `src/RVExtension.cpp:117-133` | 0x30 exactly for a text that is no id, 0x10 exactly for an id with a finished job, 0x11 otherwise |
| `Extension.Extension.GetResult` | `src/RVExtension.cpp:134-169` | Refusals touch nothing; a delivery touches the buffer and the offset of the one job only |
| `Extension.Extension.RVExtensionArgs` | `src/RVExtension.cpp:107-182` | Each function name has the whole effect of its branch; no other name changes scheduler or buffer |
| `Extension.NewRequest` | `src/Job.cpp:13-44` | The two checks of the constructor, one after the other: a missing target ends with the message for a short one, never with its own |
| `Extension.EveryTextIsCut` | `src/RVExtension.cpp:117-133` | Every text is blanks, a sign, digits and a rest, each as long as it can be |
| `Extension.StoiOfText` | `src/RVExtension.cpp:117-133` | A text cut so is no id if it has no digits or its number leaves 32 bits, and otherwise the id that the digits write down |
| `Extension.TargetIff` | `src/Util.cpp:7-25` | A request has a target if and only if at least three characters of its first argument are neither tabs, blanks nor quotes |
| `SqfPrinter.DecodePrinted` | `src/Util.cpp:66-134` | The printed text of every JSON tree is one well-formed array text, with no stray separator at any depth, and decodes to the tree |
| `SqfPrinter.PrintedIsInjective` | `src/Util.cpp:66-134` | Different trees print differently |
| `SqfPrinter.UntagTagged` | `src/Util.cpp:100-134` | The tagged arrays of objects and arrays can be told apart and turned back |
| `SqfPrinter.Stringify` | `src/Util.cpp:66-98` | The recursive printer appends exactly the text of the value to the stream |
| `SqfPrinter.StringifyObj` | `src/Util.cpp:100-118` | The loop over members, with its separator test, appends the text of the object |
| `SqfPrinter.StringifyArr` | `src/Util.cpp:120-134` | The loop over values, with its separator test, appends the text of the array |
| `SqfPrinter.StringifyString` | `src/Util.cpp:109` | Appends the quoted key |
| `SqfPrinter.StringifyMember` | `src/Util.cpp:108-112` | A member is printed as [key,value] |
| `SqfPrinter.PrintedArray` | `src/Util.cpp:119-134` | An array is ["a",[ and its items, separated by single commas, and ]] |
| `SqfPrinter.PrintedObject` | `src/Util.cpp:98-117` | An object is ["o",[ and its [key,value] members, separated by single commas, and ]] |
| `SqfPrinter.PrintedLeaves` | `src/Util.cpp:79-91` | An empty value prints as null, a scalar or string as its own text |
| `ArrayText.ParseShow` | `src/Util.cpp:100-134` | Parsing a printed array gives it back and consumes exactly its text |
| `NumericText.RoundTripIff` | `src/include/Poco/NumericString.h:79-168` | For every value of the type, width, space or zero fill and base 2 to 16, parsing the printed text gives the value back without an overflow on the way if and only if: it is non-negative or the base is ten, no hexadecimal prefix was printed, the base can read the digits, and the type can hold the magnitude |
| `NumericText.ScanDigits` | `src/include/Poco/NumericString.h:104-168` | Reading the digits of n arrives at n without a limit check or overflow if n is legible, and refuses or overflows otherwise |
| `NumericText.ReverseInPlace` | `src/include/Poco/NumericString.h:323-330` | The swapping loop reverses the text and leaves the rest of the buffer alone |
| `NumericText.SignedDigit` | `src/include/Poco/NumericString.h:284-288` | The signed remainder picks the right digit of the mirrored table, also for negative values |
| `NumericText.WriteDigits` | `src/include/Poco/NumericString.h:284-294` | The digit loop writes the digits and separators of the magnitude, last digit first, and throws exactly if they do not fit |
| `NumericText.WriteFormatted` | `src/include/Poco/NumericString.h:281-316` | What is written before the reversal is the formatted text backwards; it throws exactly if the text exceeds the buffer |
| `NumericText.IntToStr` | `src/include/Poco/NumericString.h:258-333` | The buffer holds the formatted text and its terminator, for every buffer and text: a longer text throws, one as long as the buffer overruns it, a base outside 2 to 16 is refused with an empty text |
| `NumericText.StrToInt` | `src/include/Poco/NumericString.h:79-168` | The loop with its limit check computes the specified parse |
| `NumericText.Ptr.Put` | `src/include/Poco/NumericString.h:202-207` | Writing through the bounded pointer appends one character, or throws exactly at the end of the buffer and leaves it alone |
| `NumericText.Fill` | `src/include/Poco/NumericString.h:301-315` | Pads up to the width and not beyond, and throws exactly if the padding does not fit |
| `NumericText.WriteHead` | `src/include/Poco/NumericString.h:304-311` | Prefix and sign, back to front, or a throw exactly if they do not fit |
| `NumericText.ReadDigits` | `src/include/Poco/NumericString.h:104-163` | The digit loop with its limit check computes the specified scan |
| `NumericText.StartsWithSeparatorIff` | `src/include/Poco/NumericString.h:284-294` | A printed number starts with a thousand separator if and only if the number of its digits is a multiple of three |
| `NumericText.SeparatorWithNothingBefore` | `src/include/Poco/NumericString.h:289-293` | 123 prints as ,123 |
| `NumericText.SomeTextsAreNotRead` | `src/include/Poco/NumericString.h:110-146` | Printed and not read back: 8 in base nine, 10 in base eleven, a negative number in base sixteen, a hexadecimal prefix, the minimum of a signed type |
| `NumericText.WriteSeparator` | `src/include/Poco/NumericString.h:289-293` | A separator behind every third digit, or a throw exactly if it does not fit |
| `NumericText.DigitsOfBothCases` | `src/include/Poco/NumericString.h:108-146` | Which characters are digits and what they count: letters in both cases |
| `NumericText.DigitsAre` | `src/include/Poco/NumericString.h:284-294` | The digits printed write down the number, in capitals and without leading zeros |
| `NumericText.GroupsOfThree` | `src/include/Poco/NumericString.h:284-294` | With a separator the text is groups of three digits, each full group with the separator before it |
| `NumericText.FormattedLayout` | `src/include/Poco/NumericString.h:296-315` | Sign, prefix, zeros and digits, or padding, sign, prefix and digits, with exactly as many fill characters as the width still needs |
| `NumericText.ScanReads` | `src/include/Poco/NumericString.h:104-163` | A value is read if and only if every character is a digit of the base or a separator and the number is within the type; an intermediate result overflows exactly where the limit check passes and the next digit leaves the type |
| `NumericText.ParseReads` | `src/include/Poco/NumericString.h:87-98` | Leading blanks of all six kinds, then a sign: a minus counts in base ten alone and only for signed types, a plus always |
| `FifoStream.RunConserves` | `src/include/Poco/FIFOBuffer.h:116-330` | Over any run of writes, reads, drains, copies and growing resizes, with or without content, the accepted elements are the removed ones followed by the contents: nothing lost, doubled or reordered |
| `FifoStream.EventsAreExact` | `src/include/Poco/FIFOBuffer.h:513-525` | Over any run of writes, reads, drains and copies an observer of the events knows whether the buffer is empty and whether it is full, and no event is redundant |
| `FifoStream.WhatObserversBelieve` | `src/include/Poco/FIFOBuffer.h:116-134` | Over any run, growth included, an observer knows whether the buffer is empty, and takes it for full exactly if it is or if it was when it grew and has not been filled since; an event is news to him except where such a buffer is announced full again |
| `FifoStream.BeliefIsTruthIff` | `src/include/Poco/FIFOBuffer.h:513-525` | What was announced is the truth after a run if and only if no buffer was full when it grew and has stayed below its new size since |
| `FifoStream.GrowthIsMissed` | `src/include/Poco/FIFOBuffer.h:130-133` | A full buffer of one that grows to two: its observers still take it for full |
| `FifoBuffers.Buffer.Resize` | `src/include/Poco/Buffer.h:147-173` | Grows the memory only if it must, never shrinks it, keeps the old content if asked, and always sets the size |
| `FifoBuffers.FifoBuffer.Compact` | `src/include/Poco/FIFOBuffer.h:350-363` | Moving the data to the start keeps the contents |
| `FifoBuffers.FifoBuffer.Write` | `src/include/Poco/FIFOBuffer.h:219-251` | Takes exactly the first elements that fit, behind the contents, with or without compaction, none after an error or the end, and announces the edges |
| `FifoBuffers.FifoBuffer.Copy` | `src/include/Poco/FIFOBuffer.h:311-330` | All elements behind the contents, or none; refused exactly when they do not fit or the buffer takes none |
| `FifoBuffers.FifoBuffer.Peek` | `src/include/Poco/FIFOBuffer.h:136-153` | The first elements, at most the length asked for, nothing changed |
| `FifoBuffers.FifoBuffer.Read` | `src/include/Poco/FIFOBuffer.h:174-195` | Hands out the first elements, at most the length asked for, and removes them, also where the source advances by more than it read |
| `FifoBuffers.FifoBuffer.Drain` | `src/include/Poco/FIFOBuffer.h:288-309` | A length of zero, or one that is not below the count, empties the buffer; any other removes the first elements and keeps the rest |
| `FifoBuffers.FifoBuffer.Resize` | `src/include/Poco/FIFOBuffer.h:116-134` | Refused exactly when the elements to keep do not fit; otherwise history, announced events and counts are stated in every case, and the live elements stay in the buffer, and what they were, if and only if they end before the new size |
| `FifoBuffers.FifoBuffer.Notify` | `src/include/Poco/FIFOBuffer.h:513-525` | Readable is announced exactly when the buffer becomes empty or no longer is, writable exactly when it becomes full or no longer is, each with the new value |
| `FifoBuffers.FifoBuffer.Store` | `src/include/Poco/FIFOBuffer.h:236-246` | The data goes behind the contents, which compaction does not change |
| `FifoBuffers.FifoBuffer.Extend` | `src/include/Poco/FIFOBuffer.h:236-248` | Contents, history and announced events after storing |
| `FifoBuffers.FifoBuffer.Discard` | `src/include/Poco/FIFOBuffer.h:188-190` | The first elements go, the others stay in order |
| `FifoBuffers.FifoBuffer.Shorten` | `src/include/Poco/FIFOBuffer.h:185-192` | Contents, history and announced events after discarding |
| `FifoBuffers.FifoBuffer.Grow` | `src/include/Poco/FIFOBuffer.h:116-134` | A resize that does not shrink is never refused, keeps the contents if asked or removes all, and is the step of the stream law |
| `FifoBuffers.ShrinkingLeavesElementsOutside` | `src/include/Poco/FIFOBuffer.h:116-134` | Three written, one drained, resized to two: not refused, and an element is outside |
| `SevenBit.RoundTrip` | `src/include/Poco/BinaryReader.h:167-183` | Decoding an encoded value of a type of any width gives it back, consumes exactly its bytes, and makes no undefined shift |
| `SevenBit.RoundTripMany` | `src/include/Poco/BinaryWriter.h:183-194` | The same for any list of values written one behind the other |
| `SevenBit.PrefixFree` | `src/include/Poco/BinaryWriter.h:183-194` | No encoding is the beginning of another value's |
| `SevenBit.EncodedLength` | `src/include/Poco/BinaryWriter.h:183-194` | The number of bytes is the least that holds the value, one for zero |
| `SevenBit.BinaryWriter.Write7BitEncoded` | `src/include/Poco/BinaryWriter.h:183-194` | The do-while loop appends the encoding |
| `SevenBit.BinaryReader.Read7BitEncoded` | `src/include/Poco/BinaryReader.h:167-183` | The do-while loop decodes, on every input; it stops where the language leaves a shift undefined, and says so exactly then |
| `SevenBit.EncodedBytes` | `src/include/Poco/BinaryWriter.h:183-194` | The bytes are the groups of seven bits, least significant first, and all but the last have the high bit |
| `SevenBit.DecodedGroups` | `src/include/Poco/BinaryReader.h:167-183` | Any groups, also more than the encoding has, are read as their number cut to the type, unless a shift is too wide |
| `SevenBit.EndOfStream` | `src/include/Poco/BinaryReader.h:173-175` | A number that the stream cuts off is read as if a zero byte followed |
| `Vectors.RoundTripIff` | `src/include/Poco/BinaryReader.h:84-99` | A vector, nested to any depth, is read back as written if and only if in each vector of vectors all elements but the last are empty; vectors of numbers always are |
| `Vectors.ReadWritten` | `src/include/Poco/BinaryReader.h:84-99` | What is read consumes exactly the bytes written and is each element appended to the one before it |
| `Vectors.NestedVectorsMerge` | `src/include/Poco/BinaryReader.h:93-97` | Two filled inner vectors come back wrong: the second starts with the first, because the element variable is not cleared |
| `Vectors.WordRoundTrip` | `src/include/Poco/BinaryWriter.h:164-177` | A 32-bit word survives either byte order |
| `Vectors.Write` | `src/include/Poco/BinaryWriter.h:90-102` | The recursive writer appends size and elements |
| `Vectors.Read` | `src/include/Poco/BinaryReader.h:84-99` | The recursive reader computes the specified reading on every input, short ones included |
| `Vectors.WordBytes` | `src/include/Poco/BinaryWriter.h:164-177` | The four bytes of a word, in either order |
| `Vectors.WrittenExample` | `src/include/Poco/BinaryWriter.h:90-102` | A vector of two vectors, byte by byte, in either order |
| `Dispatch.InvokedIffRegisteredAtTurn` | `src/include/Poco/AbstractEvent.h:224-244` | Whatever the callbacks add, remove, clear or notify: a delegate of the snapshot is invoked exactly if it is still registered when its turn comes |
| `Dispatch.InvokedInOrder` | `src/include/Poco/DefaultStrategy.h:57-63` | The delegates invoked are a subsequence of the snapshot: registration order, and no later addition |
| `Dispatch.SurvivorsAreInvoked` | `src/include/Poco/AbstractEvent.h:224-244` | A delegate that is registered after the round and was in the snapshot has been invoked |
| `Dispatch.QuietRound` | `src/include/Poco/AbstractEvent.h:224-244` | If nobody of the snapshot is removed all are invoked, also when a callback disables the event |
| `Dispatch.RoundLinked` | `src/include/Poco/DefaultStrategy.h:72-114` | After any round the list holds exactly the delegates that are not disabled, each once; disabled ones stay disabled |
| `Dispatch.RoundSplits` | `src/include/Poco/DefaultStrategy.h:57-63` | A round over a list is a round over its first part followed by one over the rest, with the scripts left |
| `Dispatch.AddingRegisters` | `src/include/Poco/DefaultStrategy.h:65-70` | A new enabled delegate at the end; nothing else changes |
| `Dispatch.RemovingTakesFirst` | `src/include/Poco/DefaultStrategy.h:72-83` | The first registered delegate that is enabled and has the target is disabled and taken off, all others stay as and where they are; without one nothing changes |
| `Dispatch.RemovingByHandle` | `src/include/Poco/DefaultStrategy.h:85-96` | The same for a handle |
| `Dispatch.ClearingDisablesListed` | `src/include/Poco/DefaultStrategy.h:107-114` | Exactly the listed delegates are disabled, and the list is empty |
| `Dispatch.SwitchingKeepsList` | `src/include/Poco/AbstractEvent.h:281-294` | The flag changes and nothing else |
| `Dispatch.PerformInOrder` | `src/include/Poco/AbstractEvent.h:224-244` | A callback's actions take effect one after the other |
| `Dispatch.RoundPerforms` | `src/include/Poco/DefaultStrategy.h:57-63` | A round is, for each delegate of the snapshot in turn, its callback if the delegate is enabled by then and nothing otherwise |
| `Dispatch.NotifyingRunsARound` | `src/include/Poco/AbstractEvent.h:224-244` | A nested notification runs a round over the list of that moment, or does nothing if the event is disabled |
| `Events.Event.Add` | `src/include/Poco/DefaultStrategy.h:65-70` | A fresh enabled delegate with the target at the end of the list; nothing else changes |
| `Events.Event.Remove` | `src/include/Poco/DefaultStrategy.h:72-83` | The first listed delegate that is enabled and has the target is disabled and taken off, every other flag and the order of the others stay; without one nothing changes |
| `Events.Event.RemoveHandle` | `src/include/Poco/DefaultStrategy.h:85-96` | The same for the first delegate of the handle |
| `Events.Event.Clear` | `src/include/Poco/DefaultStrategy.h:107-114` | All listed delegates are disabled, no others, and the list is empty |
| `Events.Event.Notify` | `src/include/Poco/AbstractEvent.h:224-244` | Objects, aliases and re-entrant callbacks included, the copy-then-dispatch loop does what the round on values says; a disabled event does nothing |
| `Events.Delegate.Disable` | `src/include/Poco/Delegate.h:86-90` | Disabled |
| `Events.Event.RemoveAt` | `src/include/Poco/DefaultStrategy.h:76-81` | The delegate at the position is disabled and off the list, the others stay in order |
| `Events.Event.Execute` | `src/include/Poco/AbstractEvent.h:172-307` | What a callback does to the event from within a round |
| `Events.Event.Run` | `src/include/Poco/AbstractEvent.h:224-244` | A callback that does several things one after the other |
| `Events.Event.SetEnabled` | `src/include/Poco/AbstractEvent.h:281-294` | The flag changes and nothing else |
| `GroupedLists.RunIsGrouped` | `src/include/Poco/ListMap.h:133-206` | However the map was built, equal keys stand together |
| `GroupedLists.RunSeenByKey` | `src/include/Poco/ListMap.h:133-206` | Over any run each key has its own list of values, in insertion order, that operations on other keys never disturb |
| `GroupedLists.GroupedIsContiguous` | `src/include/Poco/ListMap.h:133-143` | Grouped means: between two entries of a key only entries of that key |
| `GroupedLists.InsertAppendsToKey` | `src/include/Poco/ListMap.h:133-143` | An insert puts the entry behind those of its key and keeps the order of the others |
| `GroupedLists.InsertKeepsGrouped` | `src/include/Poco/ListMap.h:133-143` | An insert keeps the grouping |
| `GroupedLists.EraseRemovesKey` | `src/include/Poco/ListMap.h:150-170` | The early exit misses nothing: every entry of the key goes, the others stay in order, and the count is theirs |
| `GroupedLists.RemovedKeepsGrouped` | `src/include/Poco/ListMap.h:145-148` | Erasing at an iterator keeps the grouping |
| `GroupedLists.FindsOldest` | `src/include/Poco/ListMap.h:103-116` | A lookup finds the oldest entry of the key |
| `GroupedLists.SameIff` | `src/include/Poco/ListMap.h:210-222` | Two keys are the same if they are equal, or, where case does not count, if they have the same length and differ only in the case of ASCII letters |
| `ListMaps.ICompare` | `src/include/Poco/String.h:200-224` | Zero exactly for strings that differ at most in the case of ASCII letters; otherwise the sign says which one comes first, by the first difference or the length |
| `ListMaps.ListMap.Find` | `src/include/Poco/ListMap.h:118-131` | The first position of the key, or the end |
| `ListMaps.ListMap.Insert` | `src/include/Poco/ListMap.h:133-143` | The entry goes behind the first block of its key, or to the end of the list, and the position is returned |
| `ListMaps.ListMap.Erase` | `src/include/Poco/ListMap.h:150-170` | The loop with its early exit removes exactly the first block of the key and counts it |
| `ListMaps.ListMap.EraseAt` | `src/include/Poco/ListMap.h:145-148` | Removes exactly the entry at the position |
| `ListMaps.ListMap.At` | `src/include/Poco/ListMap.h:187-194` | The value of the oldest entry of the key, or the exception exactly when there is none |
| `ListMaps.ListMap.Subscript` | `src/include/Poco/ListMap.h:196-207` | The position of the first entry of the key; a missing key gets a default entry at the end of the list, and nothing else changes |
| `Archiving.SuffixedInjective` | `src/include/Poco/ArchiveStrategy.h:110-139` | Different numbers give different names |
| `Archiving.TakenAreFew` | `src/include/Poco/ArchiveStrategy.h:117-123` | No more suffixes can be taken than there are files, so the search for a free one ends |
| `Archiving.ShiftOneMore` | `src/include/Poco/ArchiveStrategy.h:125-138` | Each move goes to a free name and shifts one more file |
| `Archiving.RenumberedSuffixes` | `src/include/Poco/ArchiveStrategy.h:110-139` | The new .0 holds the old base file, each new .i the old .i-1, and the base name is free |
| `Archiving.MoveConserves` | `src/include/Poco/ArchiveStrategy.h:125-138` | A move to a free name keeps the number of files of every content |
| `Archiving.LogIsArchivedIff` | `src/include/Poco/ArchiveStrategy.h:92-107` | The log file is archived exactly when no archive has its time stamp yet; otherwise only that archive is renumbered |
| `Archiving.SameStampLeavesLog` | `src/include/Poco/ArchiveStrategy.h:103-106` | A second rotation within one time stamp: the archive moves to suffix 0 and the log file is not archived |
| `Archiving.SuffixIsDecimal` | `src/include/Poco/ArchiveStrategy.h:110-123` | A suffixed name is the base path, a dot and the decimal number without leading zeros |
| `ArchiveStrategies.ArchiveByTimestampStrategy.ArchiveByNumber` | `src/include/Poco/ArchiveStrategy.h:110-139` | Both loops end; the chain up to the first free suffix moves one up, no other file is touched, and every content keeps its number of files |
| `ArchiveStrategies.ArchiveByTimestampStrategy.Archive` | `src/include/Poco/ArchiveStrategy.h:92-107` | Which file ends where, for a new and for an existing archive name |
| `ArchiveStrategies.ArchiveByTimestampStrategy.OpenLog` | `src/include/Poco/ArchiveStrategy.h:106` | An existing log file is continued, a missing one created |
| `ArchiveStrategies.Directory.MoveFile` | `src/include/Poco/ArchiveStrategy.h:54` | The content is under the new name and no longer under the old one |
| `Engines.HmacEngine.constructor` | `src/include/Poco/HMACEngine.h:94-125` | The two pads are the masked key block of RFC 2104, section 2, for keys of every length |
| `Engines.HmacEngine.Finish` | `src/include/Poco/HMACEngine.h:78-91` | The digest is the HMAC of everything fed since the last reset, and the engine is ready for the next text |
| `Engines.HmacEngine.Update` | `src/include/Poco/HMACEngine.h:127-130` | Only the concatenation of the updates matters |
| `Engines.HmacEngine.Reset` | `src/include/Poco/HMACEngine.h:72-76` | The same key, no text |
| `Engines.Pbkdf2Engine.F` | `src/include/Poco/PBKDF2Engine.h:109-131` | Appends block T_i of RFC 2898, section 5.2; an iteration count of 0 works as 1 |
| `Engines.Pbkdf2Engine.XorInto` | `src/include/Poco/PBKDF2Engine.h:124-127` | Bit for bit, the inner loop sets the bits in which the two blocks differ |
| `Engines.Pbkdf2Engine.Finish` | `src/include/Poco/PBKDF2Engine.h:92-101` | The first digest is the derived key of RFC 2898 for every passphrase, salt, count and length; the block number never leaves 32 bits; later digests return the first result |
| `Engines.Pbkdf2Engine.Update` | `src/include/Poco/PBKDF2Engine.h:104-107` | Appends to the passphrase and leaves the result |
| `Engines.HmacEngine.KeyInto` | `src/include/Poco/HMACEngine.h:96-118` | Both pads hold the key block, for short and long keys |
| `Engines.HmacEngine.MaskPads` | `src/include/Poco/HMACEngine.h:119-123` | Bit for bit, the pads differ from the key block in the bits of 0x36 and 0x5c |
| `Engines.HashEngine.Finish` | `src/include/Poco/DigestEngine.h:56-61` | The hash of what was fed, and the engine is empty again |
| `Engines.HashEngine.Update` | `src/include/Poco/DigestEngine.h:44-47` | Feeding appends |
| `Engines.Pbkdf2Engine.Reset` | `src/include/Poco/PBKDF2Engine.h:86-90` | Neither passphrase nor result |
| `Engines.Pbkdf2Engine.NextU` | `src/include/Poco/PBKDF2Engine.h:120-122` | The next iteration is the HMAC of the last one |
| `KeyedHashing.KeyIsFitted` | `src/include/Poco/HMACEngine.h:100-118` | A key longer than a block works as its hash, a shorter one as if zeros followed it |
| `KeyedHashing.SplittingDoesNotMatter` | `src/include/Poco/PBKDF2Engine.h:92-107` | After a reset the result depends on the passphrase, not on how it was cut into updates |
| `KeyedHashing.ResultStays` | `src/include/Poco/PBKDF2Engine.h:92-101` | Without a reset a second digest is the first one again, whatever was added to the passphrase |
| `KeyedHashing.DerivedPrefix` | `src/include/Poco/PBKDF2Engine.h:92-101` | A shorter key is the beginning of a longer one |
| `KeyedHashing.BigEndianReadBack` | `src/include/Poco/PBKDF2Engine.h:113-114` | The four bytes write down the block number, the most significant first |
| `KeyedHashing.XorIsBitwise` | `src/include/Poco/HMACEngine.h:119-123` | Bit for bit, in arithmetic: a bit of the exclusive or is set if and only if the two bytes differ in it |
| `KeyedHashing.XorTwice` | `src/include/Poco/PBKDF2Engine.h:124-127` | A second exclusive or with the same byte undoes the first |
| `KeyedHashing.MacIsNestedHash` | `src/include/Poco/HMACEngine.h:72-125` | H(opad + H(ipad + text)) for pads that differ from the fitted key in the bits of 0x36 and 0x5c: section 2 of RFC 2104 |
| `KeyedHashing.IterationsChain` | `src/include/Poco/PBKDF2Engine.h:111-122` | U_1 is the code of the salt and the block number's four bytes, each U_k+1 the code of U_k: section 5.2 of RFC 2898 |
| `KeyedHashing.BlockIsParity` | `src/include/Poco/PBKDF2Engine.h:118-130` | A bit of a block is set if and only if it is set in an odd number of the iterations |
| `KeyedHashing.DerivedAt` | `src/include/Poco/PBKDF2Engine.h:92-101` | Each byte of the derived key is that byte of the block it falls into; blocks are numbered from one |
| `Delivery.ReadsAreUndisturbed` | `src/RVExtension.cpp:134-169` | In any interleaving with adding, executing, filing and reading other jobs, the n-th read of a finished job returns the n-th answer of an undisturbed reader |
| `Delivery.ResultArrives` | `src/RVExtension.cpp:134-169` | End to end: after one cycle of reads in any interleaving the game has the whole result, if and only if it holds no NUL, and the job can be read again |
| `Delivery.JsonArrives` | `src/RVExtension.cpp:134-169` | If the result of a finished job is a printed JSON tree, what the game has joined after a cycle of reads in any interleaving decodes to that tree |
| `Delivery.StepOffset` | `src/Job.cpp:113-123` | No step but a read of the job itself moves its offset, and none changes its result or status |
| `Delivery.PrintedIsNulFree` | `src/Util.cpp:66-134` | The printer adds no NUL, so a JSON answer is never cut |
| `EndToEnd.JsonAnswerArrives` | `src/GetRequest.cpp:27-40` | In every run with atomic adds in which a worker executes a valid job with a JSON answer, and every fair schedule after it, there is a moment from which the game finds the job with RESULT_COMPLETE_JSON, and whatever happens then, what it has joined after one cycle of reads decodes to the tree of the answer |
| `EndToEnd.RunCarries` | `src/GetRequest.cpp:36-40` | From its execution on a job carries the result and status that the outcome calls for, unread, through every run in which it is not read |
| `EndToEnd.FiledIsFound` | `src/Scheduler.cpp:15-23` | When the work is done the job is found under its id |
| `EndToEnd.AnswerArrives` | `src/GetRequest.cpp:20-54` | From the start, for any outcome and for invalid jobs: in every run with atomic adds in which a worker executes the job, and every fair schedule after it, there is a moment from which the game finds the job with the result and status of that outcome, and what it has joined after one cycle of reads in any interleaving is that result if and only if it holds no NUL |
| `EndToEnd.TextAnswerArrives` | `src/GetRequest.cpp:41-44` | The body of an answer that is not JSON reaches the game unchanged, with RESULT_COMPLETE |
| `EndToEnd.ScheduleCarries` | `src/GetRequest.cpp:20-54` | The result and status stay with the job along every schedule in which it is not read |

## Left out

- HTTP, TLS, redirects and URIs (`src/NetRequest.cpp`), logging, DLL loading and the `dump` text: I/O.
- `ParseSQFArray`, and the query parameters and arguments of a job: their parsing is library code that is not shown.
- The JSON parser, `toJSON` and the conversions of `Dynamic::Var`: their bodies are not shown; see the assumption on leaves. Objects are member sequences in iteration order.
- Races on memory: `AddJob` and `GetCompletedJob` touch containers without a lock. The interleavings are modelled, a torn container is not.
- Terminating workers and joining their threads; `Dispose` deletes the job, of which only the table is modelled.
- Extension.Extension.RVExtensionArgs: a call of `CheckJob` or `GetResult` without arguments is left out, because it reads past the end of a vector.
- Overflow of counters: job ids beyond 32 bits, the result offset of a result of 2 GB, the file counter of the archive.
- LinearHashing.Run: the hash of a key is part of the key, so nothing is said about a hash function that gives one key two values; `reserve` and capacities are not modelled.
- Copying and swapping hash tables, maps and list maps, and the wrappers that only count or test for emptiness.
- The strategy that renews entries on access: `doGet` renews before it asks whether the entry is valid. The caches that combine strategies: `StrategyCollection` is not part of this model.
- Mutexes of caches, buffers and events, events that users attach to a cache, and exceptions from callbacks.
- `notifyAsync`, expiring and prioritised delegates, and delegates without a sender: the same dispatch, or threads.
- Events.Event.Notify: a delegate's mutex, held while it runs, is not modelled, so neither is waiting for a delegate that runs on another thread.
- NumericText.IntToStr: what happens after the terminator has been written behind the buffer. `uIntToStr` is `intToStr` for values that are not negative.
- NumericText.RoundTripIff: fills other than a space and a zero, and a space as thousand separator, are not covered. What follows an overflow is not modelled: unsigned types wrap, and 8- and 16-bit types are computed in `int` and narrowed, so that their minimum does come back.
- Floating point text, number formatting and date formatting; the archive's time stamp is a parameter.
- The FIFO buffer's `setError`, `setEOF` and `advance`, wrapped external memory, and the overloads on `Buffer`: flags that switch operations off, or the same operation.
- `Buffer::setCapacity`, `assign` and `append`: the FIFO buffer does not use them.
- Vectors of anything but 32-bit words and further vectors: each further element type is another fixed layout.
- SevenBit.BinaryReader.Read7BitEncoded: reading at the end of the stream is modelled as reading a zero byte, as the code initializes it; stream states are not modelled.
- `ArchiveByNumberStrategy` and compression of archives: their bodies are not shown. `moveFile` is taken to rename one file.
- Engines.Pbkdf2Engine.Finish: a digest size of zero, with which the original does not end, is excluded.
- The digest algorithms themselves (MD5, SHA1): their bodies are not shown.
