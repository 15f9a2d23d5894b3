# Core.Extensions, modelled in Dafny

This project models the core of Core.Extensions, a .NET utility library. At its centre are two batch-coalescing engines. Each turns many individually submitted async requests into a few bulk operations and still gives every caller its own result:

- `EntityQueue` (module `EntityQueueing`) coalesces writes. It keeps one FIFO of (entity, completion task) records per entity type. A periodic tick drains each queue into a snapshot and passes it, in chunks of at most 1000, to a batch sink: `Process` followed by `SaveChanges`. A chunk whose save fails has every task faulted with that exception, and the tick moves on to the next chunk. An exception from `Process` escapes the tick. `Dispose` faults every task still queued with `ObjectDisposedException`.
- `MemCacheService` (module `MemCaching`) coalesces reads. A lookup gets or creates one record per key in a key-to-record map. A new record is stamped with its expiry time and appended to an expiration queue. Each lookup dispatches exactly one fetch, carrying the records that lookup created. The fetch fills each record with the factory's value, or with the default on a miss or a failure. A sweep dequeues expired records from the head of the queue.

Around the engines sit smaller parts:
- the lazy and grouped dictionaries (`Collections`);
- a dictionary-backed in-memory repository (`InMemoryRepository`);
- list and dictionary extension helpers (`CollectionExtensions`, `DictionaryExtensions`);
- enum bit-flag decomposition and batching (`EnumExtensions`);
- the sort-descriptor text form (`Sorting`);
- the per-request API context item bag (`Threading`);
- encrypt-then-MAC framing and the hex key parser, with AES and HMAC-SHA256 kept uninterpreted (`Security`);
- the Redis connection-string lookup and the connection caches (`Redis`).

Shared result and error types are in `Wrappers`.

Modelling conventions:
- A `TaskCompletionSource` is a ticket or a cell id into a map or sequence of write-once states.
- The timer tick is an explicit step method.
- Wall-clock time is an integer `now` parameter.
- A `ConcurrentDictionary`'s enumeration order is a `listing` parameter: any duplicate-free sequence of its keys.
- `default(T)` is an explicit `dflt` parameter.
- A thrown exception is a `Failure` of `Result` or a `Fail` of `Outcome`, carrying the exception's kind and message.

## Model

| member | source | states |
|---|---|---|
| EntityQueueing.EntityQueue.constructor | Core/Repository/IEntityQueue.cs:26-30 | a new engine has no queues, no tasks, and is neither disposed nor writing |
| EntityQueueing.EntityQueue.Insert | Core/Repository/IEntityQueue.cs:37-59 | once disposed, fails with ObjectDisposed("Unable to access disposed EntityQueue") and changes nothing; otherwise it hands out a fresh ticket whose task is pending, appends exactly one record to the tail of the queue of `t` (creating it and registering `t` on first use), and leaves the other queues unchanged |
| EntityQueueing.EnqueueKeepsInvariant | Core/Repository/IEntityQueue.cs:44-58 | an enqueue keeps the engine invariant: every queued record holds a distinct pending task and every queue is registered |
| EntityQueueing.EntityQueue.DeQueueAll | Core/Repository/IEntityQueue.cs:76-85 | takes, in FIFO order, at most the count read at the start from the head of the queue; the rest stays queued in order |
| EntityQueueing.EntityQueue.ResolveChunk | Core/Repository/IEntityQueue.cs:121-133 | every task of the chunk gets the chunk's result, each exactly once, since each was pending and the tickets are distinct |
| EntityQueueing.ResolveAt | Core/Repository/IEntityQueue.cs:123-133 | resolving a chunk sets exactly the tasks of its records and leaves every other task as it was |
| EntityQueueing.EntityQueue.ProcessSnapshot | Core/Repository/IEntityQueue.cs:95-137 | the chunk loop over one snapshot computes the tasks, the sink calls and the escaped exception that `ProcessFrom` gives |
| EntityQueueing.ProcessFromBatches | Core/Repository/IEntityQueue.cs:97-119 | each sink call carries 1 to 1000 entities of the type; all but the last carry exactly 1000 and returned normally; an escaped exception is the one the last call's `Process` raised |
| EntityQueueing.ProcessFromFlat | Core/Repository/IEntityQueue.cs:97-108 | the chunks, in order, are exactly the snapshot in arrival order when nothing escapes, and a prefix of it otherwise: each record lands in exactly one chunk because the offset advances by the chunk length |
| EntityQueueing.ProcessFromTaskAt | Core/Repository/IEntityQueue.cs:112-133 | the task of each snapshot record ends as its chunk's call decides: true after a save, the save's exception after a failed save, still pending when `Process` failed or no call carried it |
| EntityQueueing.ProcessFromKeeps | Core/Repository/IEntityQueue.cs:123-133 | no task outside the snapshot is touched |
| EntityQueueing.ProcessSettlesAt | Core/Repository/IEntityQueue.cs:97-137 | when nothing escapes, no task of the snapshot is left pending |
| EntityQueueing.EntityQueue.Loop | Core/Repository/IEntityQueue.cs:87-141 | does nothing once disposed; otherwise sets `writing`, then drains and processes each registered type's queue in the given enumeration order (any listing of the registry) until an exception escapes, the new state being `DrainFrom` of the old in that order; `writing` is cleared once a type finishes |
| EntityQueueing.EntityQueue.DrainTypes | Core/Repository/IEntityQueue.cs:93-139 | the `foreach` over the registry gives the state of `DrainFrom` and keeps every queued task pending and distinct |
| EntityQueueing.DrainSettlesAll | Core/Repository/IEntityQueue.cs:93-139 | a tick from which nothing escapes empties every queue, settles every task that was queued when it began, and unsettles none |
| EntityQueueing.EntityQueue.Dispose | Core/Repository/IEntityQueue.cs:145-178 | idempotent: a second call changes nothing; the first marks the engine disposed, empties every queue, faults every queued task with ObjectDisposed("Queue was disposed") and leaves every other task as it was |
| EntityQueueing.EntityQueue.CancelRemainInQueue | Core/Repository/IEntityQueue.cs:61-74 | every registered queue ends empty, with the state `CancelFrom` gives for the given enumeration order |
| EntityQueueing.ListingRegistered | Core/Repository/IEntityQueue.cs:65 | any enumeration of the registry, each type once, lists exactly the registered types without repetition |
| EntityQueueing.EntityQueue.CancelQueue | Core/Repository/IEntityQueue.cs:65-73 | the dequeue loop of one type empties its queue and faults exactly its records' tasks |
| EntityQueueing.CancelFaultsQueued | Core/Repository/IEntityQueue.cs:61-74 | cancelling empties every visited queue, keeps the others, faults every task queued under a visited type and touches no other task |
| MemCaching.MemCache.constructor | NetCore.Extensions.Entity/MemCacheService.cs:42-50 | a new cache has an empty map, an empty queue and no records |
| MemCaching.MemCache.GetAsync | NetCore.Extensions.Entity/MemCacheService.cs:74-99 | looks up every key as `Gather` does, appends the records it created to the expiration queue as new pending cells, and dispatches exactly one request, numbered afresh, carrying exactly those records (possibly none); a sorted queue stays sorted when the new stamp is no earlier than the queued ones |
| MemCaching.MemCache.Lookup | NetCore.Extensions.Entity/MemCacheService.cs:82-93 | the get-or-create loop: every unseen key gets one new record in the map, the queue and `missing`; the outputs are those of `Gather` |
| MemCaching.GatherResults | NetCore.Extensions.Entity/MemCacheService.cs:82-93 | one record per input key, in input order and with repeats; an existing key reuses its record, and every key maps to its result afterwards; no existing entry changes |
| MemCaching.GatherFresh | NetCore.Extensions.Entity/MemCacheService.cs:84-90 | the created records carry consecutive new cell ids, the stamp `now + expiry`, and distinct keys of the call that were unseen before it |
| MemCaching.GatherCreates | NetCore.Extensions.Entity/MemCacheService.cs:84-92 | the record of a key unseen before the call is one the call created |
| MemCaching.GatherAllSeen | NetCore.Extensions.Entity/MemCacheService.cs:95 | when every key is already cached, the call creates nothing and its request carries no records, yet it is still sent |
| MemCaching.GatherAgrees | NetCore.Extensions.Entity/MemCacheService.cs:84-90 | the map stays equal to the map of the queue, and the queue's keys stay distinct |
| MemCaching.AppendSorted | NetCore.Extensions.Entity/MemCacheService.cs:80-87 | appending records stamped no earlier than the queued ones keeps the queue sorted by expiry |
| MemCaching.MemCache.CleanUp | NetCore.Extensions.Entity/MemCacheService.cs:52-69 | dequeues the expired head records and removes their keys from the map; the rest of the queue is untouched and a sorted queue stays sorted |
| MemCaching.ExpiredPrefix | NetCore.Extensions.Entity/MemCacheService.cs:58-62 | the sweep stops at the first unexpired head; on a sorted queue it removes exactly the records that have expired |
| MemCaching.MemCache.SetValue | NetCore.Extensions.Entity/MemCacheService.cs:36-39 | sets a pending cell once; nothing else changes |
| MemCaching.MemCache.Complete | NetCore.Extensions.Entity/MemCacheService.cs:101-132 | completing a request fills its records with what `Fetched` gives and retires the request |
| MemCaching.MemCache.GetAsyncValid | NetCore.Extensions.Entity/MemCacheService.cs:82-95 | the state after a lookup keeps the invariant: the map agrees with the queue, and every pending cell belongs to exactly one in-flight request |
| MemCaching.MemCache.CompleteValid | NetCore.Extensions.Entity/MemCacheService.cs:111-128 | completing a request keeps the invariant, so no cell is set twice |
| MemCaching.ToDictionaryPairs | NetCore.Extensions.Entity/MemCacheService.cs:109 | the conversion succeeds exactly when no key repeats, and then holds exactly the returned pairs |
| MemCaching.FetchedValue | NetCore.Extensions.Entity/MemCacheService.cs:109-129 | each record gets the factory's value for its key, the default when the key is missing, and the default when the factory failed or returned a key twice |
| MemCaching.FillAt | NetCore.Extensions.Entity/MemCacheService.cs:111-121 | every record of the request gets its fetched value and no other cell changes |
| MemCaching.CompleteValues | NetCore.Extensions.Entity/MemCacheService.cs:109-129 | the value each requested record receives, for each outcome of the factory |
| MemCaching.Answer | NetCore.Extensions.Entity/MemCacheService.cs:97-98 | the answer exists once every looked-up cell is set, and then holds one pair per record carrying its key and its value |
| MemCaching.AnswerKeys | NetCore.Extensions.Entity/MemCacheService.cs:92-98 | the answer has one pair per input key, in input order |
| Collections.GroupDictionary.constructor | Core/Collections/IGroupDictionary.cs:17 | a new grouped dictionary has no groups |
| Collections.GroupDictionary.GetOrAddGroup | Core/Collections/IGroupDictionary.cs:19-29 | returns the group's inner dictionary, first creating it empty when the group is unseen |
| Collections.GroupDictionary.Get | Core/Collections/IGroupDictionary.cs:31-34 | returns the group's dictionary and, as a side effect, creates an empty one for an unseen group |
| Collections.GroupDictionary.TryGet | Core/Collections/IGroupDictionary.cs:36-40 | finds the key exactly when the group held it before, yielding its value or the default, and still creates the empty group when it is unseen |
| Collections.GroupDictionary.GetOrAdd | Core/Collections/IGroupDictionary.cs:42-52 | the stored value of the key in the group, or the factory's value, which is then stored; no other group changes |
| Collections.LazyDictionary.constructor | Core/Collections/IGroupDictionary.cs:59-62 | a new lazy dictionary is empty |
| Collections.LazyDictionary.AddPair | Core/Collections/IGroupDictionary.cs:80-83 | adds the pair unless its key is present; an existing entry is never overwritten |
| Collections.LazyDictionary.Clear | Core/Collections/IGroupDictionary.cs:85-88 | afterwards the dictionary is empty |
| Collections.LazyDictionary.Contains | Core/Collections/IGroupDictionary.cs:90-93 | answers as the code does, which is false for every pair when the values' `Equals` rejects objects of another type (see Findings) |
| Collections.ContainsAsWritten | Core/Collections/IGroupDictionary.cs:90-93 | for values whose `Equals` rejects objects of another type, `Contains` as written is false for every pair |
| Collections.HasPair | Core/Collections/IGroupDictionary.cs:90-93 | the intended `Contains`: true exactly when the key is stored with that value |
| Collections.ContainsMissesStoredPair | Core/Collections/IGroupDictionary.cs:90-93 | after a pair is added, it is stored, yet `Contains` as written denies it |
| Collections.LazyDictionary.CopyTo | Core/Collections/IGroupDictionary.cs:95-98 | always fails with NotSupported |
| Collections.LazyDictionary.RemovePair | Core/Collections/IGroupDictionary.cs:100-103 | always fails with NotSupported |
| Collections.LazyDictionary.Count | Core/Collections/IGroupDictionary.cs:105 | the number of stored keys |
| Collections.LazyDictionary.ContainsKey | Core/Collections/IGroupDictionary.cs:117-120 | true exactly when the key is among the stored keys, which is exactly when the getter finds it |
| Collections.LazyDictionary.Add | Core/Collections/IGroupDictionary.cs:112-115 | adds the entry unless the key is present; an existing entry is never overwritten |
| Collections.LazyDictionary.Remove | Core/Collections/IGroupDictionary.cs:122-125 | removes the key, answering whether it was present |
| Collections.LazyDictionary.TryGetValue | Core/Collections/IGroupDictionary.cs:127-137 | true with the stored value when present, false with the default when absent |
| Collections.LazyDictionary.Get | Core/Collections/IGroupDictionary.cs:139-145 | the indexer's getter: the stored value, or KeyNotFound for an absent key |
| Collections.LazyDictionary.Set | Core/Collections/IGroupDictionary.cs:146-152 | the indexer's setter overwrites; afterwards the getter returns the new value |
| Collections.LazyDictionary.Keys | Core/Collections/IGroupDictionary.cs:154 | the keys of the stored entries |
| Collections.LazyDictionary.Values | Core/Collections/IGroupDictionary.cs:156-162 | always fails with NotSupported |
| Collections.LazyDictionary.GetOrAdd | Core/Collections/IGroupDictionary.cs:166-169 | the stored value, or the factory's value, which is then stored; afterwards the getter returns that value, so later calls agree |
| Collections.LazyDictionary.TryRemove | Core/Collections/IGroupDictionary.cs:171-181 | removes the key, answering true with its value, or false with the default when absent; afterwards the key is not found |
| Collections.LazyDictionary.TryAdd | Core/Collections/IGroupDictionary.cs:183-186 | adds and answers true exactly when the key was absent; otherwise keeps the existing entry and answers false |
| Collections.LazyDictionary.AddOrUpdate | Core/Collections/IGroupDictionary.cs:188-191 | stores the value for an absent key and `factory(key, old)` for a present one; nothing else changes |
| InMemoryRepository.MemoryRepository.constructor | Core.Entity/MemoryRepository.cs:15 | a new repository holds no records |
| InMemoryRepository.MemoryRepository.OpenConnection | Core.Entity/MemoryRepository.cs:19-22 | always fails with NotSupported |
| InMemoryRepository.MemoryRepository.Count | Core.Entity/MemoryRepository.cs:24-33 | the number of records without a predicate; with one, the number of keys whose record satisfies it, which is at most the number of records |
| InMemoryRepository.MemoryRepository.CountFind | Core.Entity/MemoryRepository.cs:24-33 | `Count` of a filter equals the number of records `Find` returns for it without skip and limit, in any enumeration order |
| InMemoryRepository.WhereCount | Core.Entity/MemoryRepository.cs:32 | as many values of a listing pass `Where` as there are listed keys whose record passes |
| InMemoryRepository.MemoryRepository.CountSplit | Core.Entity/MemoryRepository.cs:24-33 | the records that satisfy a predicate and those that fail it add up to all records |
| InMemoryRepository.MemoryRepository.Delete | Core.Entity/MemoryRepository.cs:60-63 | removes only the record keyed by the entity's id |
| InMemoryRepository.MemoryRepository.DeleteMany | Core.Entity/MemoryRepository.cs:70-91 | clears everything without a filter; with one, removes exactly the matching records (collected in a first pass, removed in a second) and keeps the rest |
| InMemoryRepository.MemoryRepository.DeleteManyItems | Core.Entity/MemoryRepository.cs:93-97 | removes exactly the records whose ids are among the items' ids |
| InMemoryRepository.MemoryRepository.Find | Core.Entity/MemoryRepository.cs:121-133 | the matching records in enumeration order, cut to the contiguous run that starts after `Skip ?? 0` of them (a negative skip skipping none) and holds at most `Limit ?? Count` (a negative limit taking none); every result is a stored record that passes the filter |
| InMemoryRepository.WhereConcat | Core.Entity/MemoryRepository.cs:130 | `Where` keeps the order of its input: filtering a concatenation concatenates the filtered parts |
| InMemoryRepository.MemoryRepository.FindAll | Core.Entity/MemoryRepository.cs:121-133 | without skip and limit, every matching record is found |
| InMemoryRepository.MemoryRepository.FindIncluding | Core.Entity/MemoryRepository.cs:109-115 | fails with NotSupported exactly when include expressions are given; otherwise it is `Find` |
| InMemoryRepository.MemoryRepository.FindOne | Core.Entity/MemoryRepository.cs:160-173 | a stored record that passes the filter, or null exactly when none does |
| InMemoryRepository.MemoryRepository.FirstMatch | Core.Entity/MemoryRepository.cs:160-173 | the first position in enumeration order whose record passes the filter |
| InMemoryRepository.MemoryRepository.FindOneIncluding | Core.Entity/MemoryRepository.cs:151-158 | fails with NotImplemented exactly when include expressions are given; otherwise it is `FindOne` |
| InMemoryRepository.MemoryRepository.GetById | Core.Entity/MemoryRepository.cs:188-193 | the record stored under the id, or null exactly when there is none |
| InMemoryRepository.MemoryRepository.Insert | Core.Entity/MemoryRepository.cs:204-207 | adds the entity only when its id is absent; an existing record with that id is kept |
| InMemoryRepository.MemoryRepository.InsertMany | Core.Entity/MemoryRepository.cs:214-218 | inserts every item in turn, with the state `Inserts` gives |
| InMemoryRepository.InsertsKeeps | Core.Entity/MemoryRepository.cs:214-218 | inserting gains exactly the items' ids as keys and keeps every stored entity |
| InMemoryRepository.InsertsFirstWins | Core.Entity/MemoryRepository.cs:204-218 | the first item with an id not stored before is the one stored under it |
| InMemoryRepository.MemoryRepository.Update | Core.Entity/MemoryRepository.cs:229-232 | an upsert: afterwards `GetById` of the entity's id is the entity |
| InMemoryRepository.MemoryRepository.UpdateMany | Core.Entity/MemoryRepository.cs:239-243 | updates with every item in turn, with the state `Upserts` gives |
| InMemoryRepository.UpsertsLastWins | Core.Entity/MemoryRepository.cs:229-243 | the last item with a given id is stored under it; ids no item has keep their records; the keys are the old ones plus the items' ids |
| InMemoryRepository.MemoryRepository.UpdateManyWhere | Core.Entity/MemoryRepository.cs:245-256 | replaces every matching record by its update, keyed by the new entity's id; when the update keeps ids, exactly the matching records are replaced |
| InMemoryRepository.UpdateWherePrefix | Core.Entity/MemoryRepository.cs:245-256 | with an id-keeping update, each step of the loop replaces exactly the matching records seen so far |
| CollectionExtensions.RemoveWhere | Core/Extensions/CollectionExtensions.cs:33-105 | a null list, a null predicate and a read-only list are errors that change nothing; otherwise the list becomes its survivors and the answer is the number removed |
| CollectionExtensions.SurvivorsMeaning | Core/Extensions/CollectionExtensions.cs:74-88 | no survivor matches, every non-matching element survives, and nothing else does |
| CollectionExtensions.ArrayCopy | Core/Extensions/CollectionExtensions.cs:115-116 | `Array.Copy` overwrites exactly the target range with the source range |
| CollectionExtensions.Append | Core/Extensions/CollectionExtensions.cs:112-118 | a fresh array: `source` followed by `destination` |
| CollectionExtensions.SumLengths | Core/Extensions/CollectionExtensions.cs:325 | the total length of the arrays |
| CollectionExtensions.Join | Core/Extensions/CollectionExtensions.cs:321-336 | fails on null; otherwise a fresh array of the total length in which each position holds the element of the last array long enough to reach it; no concatenation is claimed |
| CollectionExtensions.CopyAtZero | Core/Extensions/CollectionExtensions.cs:330-333 | copying every array to offset 0 gives the covering that `Covered` states |
| CollectionExtensions.CoveredStep | Core/Extensions/CollectionExtensions.cs:330-333 | copying one more array to offset 0 keeps the covering |
| CollectionExtensions.JoinMisplaces | Core/Extensions/CollectionExtensions.cs:321-336 | joining `[1]` and `[2]` as written gives an array starting with 2, not `[1, 2]` |
| CollectionExtensions.JoinConcatenating | Core/Extensions/CollectionExtensions.cs:321-336 | the intended join: fails on null, and otherwise gives the concatenation of the arrays |
| CollectionExtensions.CopyConsecutive | Core/Extensions/CollectionExtensions.cs:330-333 | the intended second loop: each array copied just after the previous one gives the concatenation |
| CollectionExtensions.IndexOf | Core/Extensions/CollectionExtensions.cs:190-200 | the index of the first element satisfying the predicate, or -1 exactly when none does |
| CollectionExtensions.ContainsAny | Core/Extensions/CollectionExtensions.cs:209-217 | true exactly when some item is in the collection |
| CollectionExtensions.ContainsAll | Core/Extensions/CollectionExtensions.cs:219-222 | true exactly when every element of the second is in the first |
| CollectionExtensions.Except | Core/Extensions/CollectionExtensions.cs:221 | the elements of `b` that are not in `a`, and all of them |
| CollectionExtensions.Any | Core/Extensions/CollectionExtensions.cs:211-216 | true exactly when some element satisfies the predicate |
| CollectionExtensions.SafeToDictionary | Core/Extensions/CollectionExtensions.cs:224-236 | builds the dictionary `SafeMap` describes, never failing on a repeated key |
| CollectionExtensions.SafeMapLastWins | Core/Extensions/CollectionExtensions.cs:224-236 | each key maps to the value of the last element with that key, and there are no other keys |
| CollectionExtensions.WithItem | Core/Extensions/CollectionExtensions.cs:251-259 | the item is present afterwards; a list holding it is unchanged, otherwise the item is appended |
| CollectionExtensions.WithItemIdempotent | Core/Extensions/CollectionExtensions.cs:251-259 | adding an item twice has the effect of adding it once |
| CollectionExtensions.Collection.Add | Core/Extensions/CollectionExtensions.cs:255 | `IList.Add`: appends the item, or fails with NotSupported and changes nothing on a read-only list |
| CollectionExtensions.AddIfNotExist | Core/Extensions/CollectionExtensions.cs:251-259 | a list that holds the item is returned unchanged; otherwise the item is appended and the same list returned (its items being `WithItem` of the old ones), except that a read-only list fails with NotSupported and stays unchanged |
| CollectionExtensions.GetOrAdd | Core/Extensions/CollectionExtensions.cs:261-273 | the first matching item with the list unchanged; when none matches, `func()`, appended to the list, or NotSupported with the list unchanged when the list is read-only |
| CollectionExtensions.JoinSequences | Core/Extensions/CollectionExtensions.cs:285-296 | the elements of the first sequence followed by those of the second |
| CollectionExtensions.Flatten | Core/Extensions/CollectionExtensions.cs:298-307 | as long as all inner sequences together |
| CollectionExtensions.FlattenMembers | Core/Extensions/CollectionExtensions.cs:298-307 | every element of every inner sequence is in the result, and nothing else is |
| DictionaryExtensions.Dictionary.Add | Core/Extensions/DictionaryExtensions.cs:12 | `Dictionary.Add`: stores a new entry; a present key is an error that changes nothing |
| DictionaryExtensions.CheckAndAdd | Core/Extensions/DictionaryExtensions.cs:8-14 | adds the entry only when the key differs from the value; otherwise the dictionary is unchanged; a present key is `Add`'s error |
| DictionaryExtensions.GetOrDefault | Core/Extensions/DictionaryExtensions.cs:31-40 | fails with ArgumentNull exactly when the factory is null; otherwise the stored value, or `defaultFactory()` when the dictionary is null or lacks the key |
| DictionaryExtensions.GetOrDefaultValue | Core/Extensions/DictionaryExtensions.cs:26-29 | the stored value, or the given default |
| DictionaryExtensions.GetOrEmpty | Core/Extensions/DictionaryExtensions.cs:21-24 | the stored value, or the empty string |
| DictionaryExtensions.SplitJoin | Core/Extensions/DictionaryExtensions.cs:48 | splitting loses nothing: no piece holds the separator, there is one piece more than separators, and joining gives the string back |
| DictionaryExtensions.Trim | Core/Extensions/DictionaryExtensions.cs:50 | a substring of the input that neither starts nor ends with white space |
| DictionaryExtensions.ToList | Core/Extensions/DictionaryExtensions.cs:42-54 | empty for an absent key; otherwise one element per comma-separated piece, trimmed and converted, in order |
| DictionaryExtensions.GetOrAdd | Core/Extensions/DictionaryExtensions.cs:56-65 | the stored value without calling the factory, or `factory(key)`, which is then stored |
| DictionaryExtensions.GetOrAddList | Core/Extensions/DictionaryExtensions.cs:67-70 | the stored list object itself (not a copy, so a caller's later `Add` writes through to the dictionary), or a new empty writable list, which is then stored; other entries are unchanged |
| DictionaryExtensions.Succ | Core/Extensions/DictionaryExtensions.cs:74-76 | 32-bit increment: one more, with the largest value wrapping to the smallest |
| DictionaryExtensions.Increment | Core/Extensions/DictionaryExtensions.cs:72-84 | an absent key becomes 1, a present one goes up by one; no other key changes |
| DictionaryExtensions.MergedStep | Core/Extensions/DictionaryExtensions.cs:88-98 | merging one more key extends the merge so far |
| DictionaryExtensions.Merge | Core/Extensions/DictionaryExtensions.cs:86-100 | every key of `addition` gets `mergeFun(addition's value, the old value or the default)`; keys only in `destination` keep theirs |
| EnumExtensions.GetFlags | NetCore.Extensions.Core/Extensions/EnumExtensions.cs:60-82 | the backward loop gives `Flags` |
| EnumExtensions.PeelSound | NetCore.Extensions.Core/Extensions/EnumExtensions.cs:64-74 | the picked masks and the leftover bits split the value |
| EnumExtensions.FlagsDecompose | NetCore.Extensions.Core/Extensions/EnumExtensions.cs:60-78 | for a nonzero value the result is empty exactly when bits are left over; otherwise the flags are declared values in ascending index order, pairwise disjoint, whose OR is the value |
| EnumExtensions.FlagsUncovered | NetCore.Extensions.Core/Extensions/EnumExtensions.cs:75-76 | left-over bits give an empty result |
| EnumExtensions.FlagsOfZero | NetCore.Extensions.Core/Extensions/EnumExtensions.cs:77-81 | for zero, `[values[0]]` when that is zero, and empty otherwise |
| EnumExtensions.GetFlagValues | NetCore.Extensions.Core/Extensions/EnumExtensions.cs:84-97 | yields only declared powers of two, skipping zero; for ascending values, exactly the powers of two, in order |
| EnumExtensions.ClimbAsWritten | NetCore.Extensions.Core/Extensions/EnumExtensions.cs:93 | the climb as written with 64-bit wrap-around: it stops at once when the probe is not below the value, and a probe that has become 0 never stops for a nonzero value, however many steps it is given |
| EnumExtensions.Climb | NetCore.Extensions.Core/Extensions/EnumExtensions.cs:93 | the probe stays a power of two and stops at the first one not below the value, or at the top bit |
| EnumExtensions.ClimbStop | NetCore.Extensions.Core/Extensions/EnumExtensions.cs:93-95 | where the probe stops tells whether the value is a power of two |
| EnumExtensions.ClimbAsWrittenHangs | NetCore.Extensions.Core/Extensions/EnumExtensions.cs:93 | as written, the probe never reaches 2^63 + 1: it wraps from 2^63 to 0 |
| EnumExtensions.MergeEnum | NetCore.Extensions.Core/Extensions/EnumExtensions.cs:120-131 | fails with InvalidData("Enums is null for empty") exactly for null or empty input; otherwise the OR of all values |
| EnumExtensions.OrFoldBound | NetCore.Extensions.Core/Extensions/EnumExtensions.cs:125-129 | the merged value contains every element and lies within any value that contains them all |
| EnumExtensions.TryMerge | NetCore.Extensions.Core/Extensions/EnumExtensions.cs:99-109 | true with the OR of the values exactly for a non-empty enum array; otherwise false and the default |
| EnumExtensions.Merge | NetCore.Extensions.Core/Extensions/EnumExtensions.cs:111-118 | the OR of the values for a non-empty enum sequence, the default otherwise |
| EnumExtensions.Is | NetCore.Extensions.Core/Extensions/EnumExtensions.cs:143-155 | true exactly for an enum whose first value has every flag of the second |
| EnumExtensions.BitContains | NetCore.Extensions.Core/Extensions/EnumExtensions.cs:157-160 | `(a & b) == b` exactly when every bit of `b` is set in `a` |
| EnumExtensions.Batches | NetCore.Extensions.Core/Extensions/EnumExtensions.cs:176-193 | the loop yields `BatchesOf` |
| EnumExtensions.BatchesShape | NetCore.Extensions.Core/Extensions/EnumExtensions.cs:176-193 | the batches cut the items into consecutive runs keyed 0, 1, 2, …; with a positive size every batch but the last is full; a final batch is always yielded, so empty input gives one empty batch; with a size below 1 batch 0 is empty and each later one holds one item |
| Sorting.DirectionText | NetCore.Extensions.Core/Data/SortDescriptor.cs:37 | "asc" exactly for ascending and "desc" exactly for descending |
| Sorting.Parsed | NetCore.Extensions.Core/Data/SortDescriptor.cs:24-33 | descending exactly when the last dash-separated segment is "desc"; the member becomes the first segment when there are at least two, and is kept otherwise |
| Sorting.SortDescriptor.constructor | NetCore.Extensions.Core/Data/SortDescriptor.cs:17-22 | a new descriptor has no member and sorts ascending |
| Sorting.SortDescriptor.Deserialize | NetCore.Extensions.Core/Data/SortDescriptor.cs:24-33 | the new member and direction are those `Parsed` gives from the old member |
| Sorting.SortDescriptor.Serialize | NetCore.Extensions.Core/Data/SortDescriptor.cs:35-38 | the member, a dash and the direction's word |
| Sorting.DirectionRoundTrip | NetCore.Extensions.Core/Data/SortDescriptor.cs:24-38 | reading a descriptor's text back always restores its direction |
| Sorting.MemberRoundTrip | NetCore.Extensions.Core/Data/SortDescriptor.cs:24-38 | reading it back restores a member that holds no dash; a null member comes back as the empty name |
| Sorting.DashedMemberCut | NetCore.Extensions.Core/Data/SortDescriptor.cs:26-31 | a member holding a dash is cut at its first dash |
| Threading.ApiContext.WithUser | Core/Threading/ApiContext.cs:15-18 | the context is for the given user and has no items |
| Threading.ApiContext.constructor | Core/Threading/ApiContext.cs:20-22 | the context has no user and no items |
| Threading.ApiContext.SetContextItem | Core/Threading/ApiContext.cs:24-30 | stores the value under the key, creating the bag when needed; other keys keep theirs; afterwards the lookup finds the value; the identity fields are untouched |
| Threading.ApiContext.TryGetContextItem | Core/Threading/ApiContext.cs:32-42 | true with the stored value exactly when the key has an item; false with the default otherwise, in particular when nothing was ever stored |
| Threading.ApiContextAccessor.constructor | Core/Threading/ApiContext.cs:50-63 | no current context yet |
| Threading.GetOrCreate | Core/Threading/ApiContext.cs:67-75 | an existing current context is returned as it is; otherwise the factory's result (possibly null), or a fresh empty context without a factory, is installed and returned; the answer is null only when the factory returned null |
| Security.ToByteArrayShape | Core/Security/DefaultEncriptionService.cs:136-142 | parsing succeeds exactly for hex of even length; a hex string of length 2n gives n bytes, byte i read in base 16 from characters 2i and 2i+1; a trailing single digit is out of range |
| Security.AesKey | Core/Security/DefaultEncriptionService.cs:122-127 | the parsed encryption key, which must be 16, 24 or 32 bytes long |
| Security.Frame | Core/Security/DefaultEncriptionService.cs:34-40 | the IV, the ciphertext and the signature together are the message |
| Security.FrameOfParts | Core/Security/DefaultEncriptionService.cs:34-40 | framing an IV, ciphertext and signature put together gives them back |
| Security.Encode | Core/Security/DefaultEncriptionService.cs:76-110 | succeeds exactly with valid keys, giving IV, then the ciphertext, then the HMAC of both |
| Security.Decode | Core/Security/DefaultEncriptionService.cs:27-64 | a message too short for an IV and a digest overflows; a signature that differs from the HMAC of the rest is an ArgumentError; success implies the signature checked; with valid keys, every correctly signed message of that length is decrypted with the IV of its first bytes and the ciphertext between the IV and the signature |
| Security.CopyOut | Core/Security/DefaultEncriptionService.cs:34-40 | a fresh buffer holding the given range of the message |
| Security.CopyParts | Core/Security/DefaultEncriptionService.cs:34-40 | a short message overflows; otherwise fresh buffers holding the IV, ciphertext and signature that `Frame` gives |
| Security.DecodeArray | Core/Security/DefaultEncriptionService.cs:27-64 | decoding the buffer gives what `Decode` states |
| Security.DecodeEncode | Core/Security/DefaultEncriptionService.cs:34-45 | an untampered message passes the signature check and is decrypted with the IV and ciphertext it was built from |
| Security.EncodeRoundTrip | Core/Security/DefaultEncriptionService.cs:27-110 | when decryption inverts encryption, decoding an encoding gives the data back |
| Security.EncodeText | Core/Security/DefaultEncriptionService.cs:112-120 | null and empty strings pass through; anything else succeeds exactly with valid keys, as Base64 of the encoding of its UTF-8 bytes |
| Security.DecodeText | Core/Security/DefaultEncriptionService.cs:66-74 | null and empty strings pass through; anything else is read from Base64, decoded and read as UTF-8, failing when a step fails |
| Security.EncodeTextRoundTrip | Core/Security/DefaultEncriptionService.cs:66-120 | with valid keys, a faithful codec and an inverting cipher, the string form round-trips, null and empty included |
| Redis.GetConnectionString | NetCore.Extensions.Core/Redis/RedisConnectionProvider.cs:26-43 | succeeds exactly when the service has a non-empty connection name with a non-empty connection string, and returns that string; otherwise raises "Connection name is null or empty for: service" or "Connection string is null or empty for: service" |
| Redis.Multiplexer.Connect | NetCore.Extensions.Core/Redis/RedisConnectionProvider.cs:55 | a new connection for the configuration, with the library default order setting |
| Redis.RedisConnectionProvider.constructor | NetCore.Extensions.Core/Redis/RedisConnectionProvider.cs:17-24 | a provider over the settings and the two separate caches |
| Redis.RedisConnectionProvider.GetConnection | NetCore.Extensions.Core/Redis/RedisConnectionProvider.cs:45-64 | a null or white-space string is ArgumentNull("connectionString") and changes nothing; otherwise the cached connection, or a fresh one with the setting's preserve-async-order value, stored in the cache; the other cache is untouched |
| Redis.RedisConnectionProvider.PreserveAsyncOrderGetConnection | NetCore.Extensions.Core/Redis/RedisConnectionProvider.cs:66-82 | the same over the second cache, a fresh connection always preserving async order |
| Redis.GetConnectionTwice | NetCore.Extensions.Core/Redis/RedisConnectionProvider.cs:52-61 | asking twice for the same string gives the same connection |

## Left out

- The `System.Threading.Timer`, the thread pool and all interleaving of the concurrent queues and dictionaries are not modelled: every operation is one atomic step, and the tick is the explicit step `Loop`.
- `Dispose`'s grace wait for a running tick (`Thread.Sleep` while `writing`) is a no-op, since no tick runs beside it; `timer.Dispose()` is not modelled.
- The database context, `Process` and `SaveChanges` are one opaque batch sink, a function parameter with three outcomes.
- The EntityQueue registry is a map of queues plus the sequence of types in registration order; it is not built on the `LazyDictionary` model. Its enumeration order is unspecified, so `Loop` and `Dispose` take it as a parameter, any listing of the registered types, and what they promise holds for every such order.
- The completion tasks are tickets (EntityQueue) or cell ids (MemCacheService) into write-once states; `await` is reading a set cell.
- The MemCacheService factory's timeout (`CancellationTokenSource`) is a failed outcome; the self-rescheduling `Task.Factory.StartNew` and `Task.Delay` of `CleanUp` are left out; `DateTime.Now` is the `now` parameter and `DateTime` overflow is not modelled.
- The order in which a `ConcurrentDictionary` enumerates is a `listing` parameter, so results that depend on it are stated for any order.
- `LazyDictionary` holds values directly: `Lazy<T>` with an impure factory, and a factory that runs twice under contention, are not modelled.
- Dictionary keys are never null in the model: the key types have no null value, so the `ArgumentNullException` that `Dictionary` and `ConcurrentDictionary` throw for a null key is not modelled. This concerns `LazyDictionary`, `GroupDictionary`, the `DictionaryExtensions` helpers, the `MemoryRepository` ids, the `MemCacheService` keys and the `ApiContext` item keys.
- `GroupDictionary.Get` returns the inner dictionary as a value, not as a live reference that later writes go through.
- InMemoryRepository.MemoryRepository.UpdateManyWhere: the model visits the values as they were when the call began. The source's `foreach` runs over the live `ConcurrentDictionary`, so an update that changes an entity's id inserts a new entry that the same pass may or may not reach and update again, even without any concurrent caller; that case is not modelled (with id-keeping updates no entry is added and the two agree).
- `LongCount` is the same as `Count`; the async wrappers (`CountAsync`, `FindAsync`, …) and the projection overloads of `Find` are left out, since they only delegate.
- `RemoveWhere` dispatches on `HashSet`, `SortedSet`, `List` and `ICollection`; every kind is modelled by the `IList` backward loop, which removes the same elements.
- `Trim` knows only ASCII white space; Unicode white space is not modelled.
- Redis.IsNullOrWhiteSpace: `string.IsNullOrWhiteSpace` also counts Unicode white space; the model knows only ASCII white space, so `GetConnection` and `PreserveAsyncOrderGetConnection` are modelled as accepting a string made only of non-ASCII white space.
- Collections.LazyDictionary.Contains: a null stored value makes the source throw NullReferenceException, and a value whose `Equals` accepts another type (an `object` value that holds the same pair, say) can make it answer true; the model answers false in both cases.
- `Merge` where `destination` and `addition` are the same dictionary is not modelled; `addition` is a value.
- Enum values are sets of bit positions of unbounded width; the `Convert.ToUInt64` and `Convert.ToInt32` overflow on negative or wide enum values is not modelled.
- The public `GetFlags` and `GetIndividualFlags` wrappers, `Find` by name and the reflection they use are left out; only the private loop over given values is modelled.
- CollectionExtensions.Join: the positions that no array reaches keep `default(T)`; the model states only the positions some array covers.
- Sorting.SortDescriptor.Deserialize: a null source, which throws NullReferenceException, is not modelled.
- Threading.ApiContext.TryGetContextItem: the typed cast of the stored object is not modelled; values have one type.
- Threading.GetOrCreate: the factory's result is a parameter, so whether the factory is called lazily is not modelled; the `AsyncLocal` flow of the accessor is a plain cell.
- Security.ToByteArray: a null key is not modelled, and `Convert.ToByte`'s acceptance of a sign or a `0x` prefix is treated as a format error.
- Security.Encode: the IV is a parameter, since `GenerateIV` is random.
- Security.Decode: a null buffer is not modelled; AES, HMAC-SHA256, UTF-8 and Base64 are function parameters with the laws a round trip needs stated as predicates.
- Security.Decode: the `ArgumentException` thrown on a bad signature has an empty message.
- Redis.GetConnectionString: null settings dictionaries and a null `service` are not modelled.
- Redis.RedisConnectionProvider.GetConnection: `ConfigurationOptions.Parse` and `Connect` never fail; the library's own default for `PreserveAsyncOrder` is `None`.

## Findings

| source | as written | input that shows it | evidently intended | confidence | as-written member | corrected member |
|---|---|---|---|---|---|---|
| Core/Collections/IGroupDictionary.cs:90-93 | `Contains(item)` compares the stored value with the whole key/value pair; a value whose `Equals` accepts only its own type never equals the pair, so for such values it is always false | a dictionary holding key 1 with value "a", asked `Contains((1, "a"))` | true exactly when the key is stored with that value | not executed | Collections.ContainsAsWritten, Collections.ContainsMissesStoredPair | Collections.HasPair |
| Core/Extensions/CollectionExtensions.cs:328-333 | `Join` never advances `offset`, so every array is copied to position 0 | joining `[1]` and `[2]` gives `[2, 0]` | the concatenation of the arrays | not executed | CollectionExtensions.Join, CollectionExtensions.JoinMisplaces | CollectionExtensions.JoinConcatenating |
| NetCore.Extensions.Core/Extensions/EnumExtensions.cs:93 | `while (flag < bits) flag <<= 1` on a 64-bit `flag` shifts the top bit out, so `flag` becomes 0 and the loop never ends | a ulong enum value 2^63 + 1 | stop climbing at the top bit, leaving such a value out as no power of two | not executed | EnumExtensions.ClimbAsWritten, EnumExtensions.ClimbAsWrittenHangs | EnumExtensions.GetFlagValues |
