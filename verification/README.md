# Verified model of MSM

MSM shares three dynamic types between one writer and any number of readers without locks: strings,
growing arrays, and objects (ordered key/value maps whose fields may be objects again). A slot holds one
pointer; size, length or count live in the header of the buffer it points to. Every replacement of a
buffer ends in one release store of the pointer, every append in place in one release store of the
count, and superseded buffers are neither freed nor rewritten while the segment lives. Records are laid
out at compile time as nested runs of slots.

`dafny verify dfyconfig.toml` checks everything.

## How it is organised

Keys
- `Fnv`: the two FNV-1a loops and what can and cannot collide. `FieldNames`: when keys can stand for names.
- `OrderedFields`: the insertion-ordered map an object stands for. `EntryBuffers`: buffers of entries.

Concurrency, as interleavings of single stores and loads
- `ObjectProtocol`, `ObjectInvariants`, `ObjectLinearizability`: objects. `ObjectProgress`: no call gets stuck.
- `ArrayProtocol`, `ArrayHistory`: arrays. `StringProtocol`: strings. `Pointers`, `ArrayBuffers`: what they share.

Concurrency, under release/acquire
- `ReleaseAcquire`: a view-based memory. Every location keeps all messages ever written to it; a release
  store carries the writer's view, an acquire load joins it; a plain read may return any message the
  reader's view does not rule out. This is the release/acquire fragment of section 6.9.2.1 [intro.races]
  and section 31.4 [atomics.order] of C++20.
  The writer's actions are allocating, filling, publishing, appending and committing, and also clearing an
  array and overwriting a scalar in place. A run is quiet when it does without the last two.
- `MemoryShape`: what all of these keep. `Initialisation`: in every run no reader loads uninitialised memory.
- `RaceFreedom`: in quiet runs reads find the last value, for good, and no store races.
- `WriterPrograms`, `WriterCalls`: the store sequences of the calls; every sequence of calls runs.
- `Races`, `CallRaces`: when a plain store, and when a call, may race with a reader; both directions.
- `SizeCoherence`: while the writer only grows, the sizes one reader loads never decrease.
- `CallSequences`, `ArrayContents`: whole sequences of calls under every schedule. When they may collide with
  readers, whichever side comes first; and that readers of a growing array find what was pushed.
- `CallMeanings`: what the stores of the calls leave in memory, under every schedule, as strings, rows and fields.

Sequential meaning
- `ObjectMemory` says what the object calls do to memory, `ObjectHeap` carries them out on arrays in place
  and is proved equal to it, `ObjectProxy` does the bracket chains.
- `Trees` is the reference: edits of nested ordered maps. `ObjectTree` and `ObjectPaths` prove that calls and
  chains of calls refine it, share no block, and lose track of none; `ManyObjects`, that any number of objects
  in one memory do so side by side.
- `Teardown`: freeing objects. `RetentionCost`: what objects retain. `ArraySlot`: the array in place, its
  meaning as a list, and what it retains.
- `RecordLayout`, `RecordTeardown`, `RecordUpdates`: offsets, non-interference, freeing records, strings and
  arrays, and what the calls on them keep so that freeing is right.

## Conventions

- One writer. Each commit follows exactly one prepare, with no reserve or clear in between
  (`ArrayProtocol.Enabled`, `ArraySlot.Allowed`).
- Allocation succeeds. In the protocols and in `ObjectMemory` it returns the next unused address, so an
  address is never reused; the record teardown takes any heap of non-overlapping blocks.
- Lengths and capacities are unbounded: `cap * 2` in src/msm/msm_allocator.cpp:317 and 608 stays below 2^32.
- In the byte-addressed record model an array's capacity is what its buffer's block has room for.
- A value block is one word: the payload of a scalar, or the pointer in a string or object slot.
- A type mismatch ends the process; `Aborted` is that outcome.
- Where comments and code differ the code is modelled. Slots are 16 bytes; `msm_array_reserve` keeps the old
  buffer, unlike src/msm/msm_allocator.h:82 says; removal hashes the whole name while every other call
  narrows its length to 16 bits (src/msm/msm_allocator.cpp:683 and 930); freeing an object is not recursive
  and does not give back superseded buffers, whatever tests/test_memory_overhead.cpp:207-209 suggests.

Three properties one might expect are false of the code. Each is stated with its exact condition and a
concrete run that fails it.
- Removal undoes a set. It does if and only if the name is shorter than 65536 bytes or its narrowed form
  hashes the same (`FieldNames.RemoveFindsWhatSetStored`). The name a followed by 65535 times b stays
  (`LongNameStays`), and shares its field with the empty name (`LongNamesShareAField`).
- Freeing an object frees everything reachable from it. It does if and only if no field holds a nested
  object with a buffer of its own (`Teardown.FreesEverythingExactlyWhenFlat`). After `obj[a][b] = 1` it
  does not (`NestedFieldIsStranded`).
- The writer never stores plainly to what a reader may have read. A call keeps to this for every schedule
  of the readers if and only if it is neither a set on a scalar field that is there, nor a push onto an
  array buffer that has counted more elements than it holds
  (`CallRaces.CallMayRaceExactlyWhenItRewrites`). Setting a field twice may race (`SecondSetRaces`), and so
  may push, clear, push (`PushAfterClearRaces`). The value read is initialised even so. From a zeroed slot a
  whole sequence of calls may collide with readers, whichever side comes first, if and only if one of its
  calls is such a one (`CallSequences.SequenceMayCollideExactlyWhenACallRewrites`).

## Model

| member | source | states |
|---|---|---|
| Fnv.SchemaHash | src/msm/msm_allocator.cpp:115-125 | the loop over a C string hashes exactly the bytes before the first NUL; a null pointer hashes to 0 |
| Fnv.HashName | src/msm/msm_allocator.cpp:555-564 | the loop by length computes the same function as the loop to the NUL |
| Fnv.HashRound | src/msm/msm_allocator.cpp:560-561 | the hash after one more byte, said without the loops: the 64-bit number whose bits tell where the hash so far and the byte differ, times 1099511628211, modulo 2^64 |
| Fnv.XorIsThere | src/msm/msm_allocator.cpp:560 | there is such a number, and it is what the xor of a round computes |
| Fnv.BitsDetermine | src/msm/msm_allocator.cpp:560 | there is only one, since bits determine a number |
| Fnv.KnownHashes | tests/test_schema_hash.cpp:38 | the hash of the empty string is 14695981039346656037, that of "a" is 0xaf63dc4c8601ec8c |
| Fnv.CStringEndsAtFirstNul | src/msm/msm_allocator.cpp:119 | the string a NUL-terminated scan covers ends at the first NUL and nowhere else |
| Fnv.MultiplicationInjective | src/msm/msm_allocator.cpp:561 | multiplying by the FNV prime modulo 2^64 is injective |
| Fnv.StepInjectiveInState | src/msm/msm_allocator.cpp:560-561 | one step with the same byte never merges two states |
| Fnv.StepInjectiveInByte | src/msm/msm_allocator.cpp:560-561 | one step from the same state never merges two bytes |
| Fnv.AbsorbInjectiveInState | src/msm/msm_allocator.cpp:558-562 | nor do any number of steps over the same bytes |
| Fnv.CommonSuffix | src/msm/msm_allocator.cpp:558-562 | a common suffix neither creates nor hides a collision |
| Fnv.OneByteApartNeverCollide | src/msm/msm_allocator.cpp:492-497 | strings of one length that differ in exactly one position have different hashes |
| Fnv.AccessAndRemoveAgree | src/msm/msm_allocator.cpp:930 | set and remove use the same key if and only if the name is shorter than 65536 bytes, collisions aside |
| Fnv.HashParity | src/msm/msm_allocator.cpp:558-562 | the parity of a hash is the parity of the number of odd bytes, flipped by the starting state: a class of names whose keys provably differ |
| Fnv.LongNameHasTwoKeys | src/msm/msm_allocator.cpp:683 | a followed by 65535 times b: set stores it under the key of the empty name, remove looks for another |
| FieldNames.SearchByHash | src/msm/msm_allocator.cpp:577-581 | the search by hash finds the name's own field exactly when the first field of that hash bears the name |
| FieldNames.RunLifts | src/msm/msm_allocator.cpp:492-497 | any run of sets and removals, with the keys each of them uses, over names below 65536 bytes without collisions gives the same object keyed by hash or by name |
| FieldNames.RemoveFindsWhatSetStored | src/msm/msm_allocator.cpp:930 | after set and remove of any name the field is still there if and only if the name has 65536 bytes or more and its narrowed form hashes differently |
| FieldNames.LongNameStays | src/msm/msm_allocator.cpp:927-938 | such a name: removing it right after setting it leaves it in place |
| FieldNames.OneOfTwoLongNamesStays | src/msm/msm_allocator.cpp:927-938 | of any two names of 65536 bytes that differ in one byte, which share a field, at least one stays after set and remove |
| FieldNames.LongNamesShareAField | src/msm/msm_allocator.cpp:683 | two names, two fields by name, one field in the code: the second set overwrites the first |
| OrderedFields.PutIsMapUpdate | src/msm/msm_allocator.cpp:680-714 | the list operation behind set is the map update, and keeps keys distinct |
| OrderedFields.WithoutIsMapRemoval | src/msm/msm_allocator.cpp:958-995 | the list operation behind remove is the map removal, and keeps keys distinct |
| OrderedFields.IndexAfterPut | src/msm/msm_allocator.cpp:686-712 | a set moves no other field; a new field comes last |
| OrderedFields.LookupAfterWithout | src/msm/msm_allocator.cpp:982-996 | after a removal every other field is found with the same contents |
| OrderedFields.PutAfterWithoutIsLast | src/msm/msm_allocator.cpp:680-714 | a field removed and set again moves to the end |
| EntryBuffers.Find | src/msm/msm_allocator.cpp:568-583 | the index of the first committed entry of that hash, or the count when there is none |
| EntryBuffers.FieldsOfFiltered | src/msm/msm_allocator.cpp:982-996 | the filtered buffer presents the same fields in the same order without the removed one |
| ObjectInvariants.StepKeepsInv | src/msm/msm_allocator.cpp:598-640 | every step of writer or reader keeps count within capacity, committed hashes distinct in every buffer, copies of an entry identical, and the private buffer the grown or filtered copy of the current one |
| ObjectInvariants.RunKeepsInv | src/msm/msm_allocator.cpp:598-640 | so does every run from an empty slot |
| ObjectInvariants.BuffersAreStable | src/msm/msm_allocator.cpp:622-623 | a step changes at most the current buffer, beyond its committed entries; publishing a pointer changes no buffer and no value |
| ObjectInvariants.BlocksAreStable | src/msm/msm_allocator.cpp:694-695 | a value block changes only by the overwrite of a field that refers to it |
| ObjectInvariants.LookupIsIndex | src/msm/msm_allocator.cpp:568-583 | the writer's lookup is the lookup in the abstract map |
| ObjectInvariants.StepRefines | src/msm/msm_allocator.cpp:495-503 | the abstract map changes only at an operation's single commit point, and then by exactly that operation |
| ObjectInvariants.StepTracksRequests | src/msm/msm_allocator.cpp:680-714 | map and pending operation together always amount to the requests made |
| ObjectInvariants.WritesAreAtomic | src/msm/msm_allocator.cpp:927-1003 | in every run the map is the one a sequential execution of the writer's calls gives, apart from the one in flight |
| ObjectLinearizability.RunIsGood | src/msm/msm_allocator.cpp:568-583 | in every run each reader's partial result is justified by an instant since its pointer load, although its buffer may be superseded and its value blocks shared |
| ObjectLinearizability.ReadsAreLinearizable | src/msm/msm_allocator.cpp:857-917 | every completed count, has, type or value read returns what the abstract map answers at some instant between its pointer load and its return, in every interleaving |
| ObjectLinearizability.CallBeganAt | src/msm/msm_allocator.cpp:570 | that interval starts at the call's own pointer load |
| ObjectLinearizability.StableFieldsAreAlwaysSeen | tests/test_concurrent.cpp:306-360 | if no operation on its key becomes visible during a has, type or value read, the read answers what the object held for the key when the read began, whatever is added and removed beside it |
| ObjectLinearizability.CountsStayWithinOne | tests/test_concurrent.cpp:306-360 | while only one marker field comes and goes beside n others, every count read is n or n + 1 |
| ObjectLinearizability.NothingDisappears | src/msm/msm_allocator.cpp:919-926 | of two count or has reads that follow one another, by any readers, the later one finds no fewer fields and every field the earlier one found, as long as nothing is removed meanwhile |
| ObjectLinearizability.PublishedBuffersPersist | src/msm/msm_allocator.cpp:622-623 | a buffer readers have reached keeps capacity, distinct hashes and committed entries for the rest of the run; once superseded it is never current again and never changes at all |
| ObjectLinearizability.TypeIsConstant | src/msm/msm_allocator.cpp:688-693 | a field's type is constant from its add to its removal |
| ObjectLinearizability.StepsRunOut | src/msm/msm_allocator.cpp:568-583 | each of a reader's own steps lowers its measure; no other step raises it |
| ObjectLinearizability.ReadsAreWaitFree | src/msm/msm_allocator.cpp:577-581 | a lookup takes at most its buffer's capacity plus four steps of its own, whatever the writer does meanwhile |
| ObjectProgress.WriterStepCounts | src/msm/msm_allocator.cpp:587-641 | each writer step brings the call one store closer to its end, at most seven in all, and disturbs no reader |
| ObjectProgress.WriterFinishes | src/msm/msm_allocator.cpp:679-729 | from any instant of any run, whatever readers are in the middle of, the call in flight can be finished by the writer's own steps, with the effect it announced |
| ObjectProgress.RequestIsServed | src/msm/msm_allocator.cpp:679-729 | from any instant at which the writer rests, any set, ensure or removal is carried out in full within eight steps; it ends the process, changing nothing, exactly when the field is there with another type |
| ObjectProgress.QueryIsAnswered | src/msm/msm_allocator.cpp:857-917 | from any instant of any run, a query with nothing beside it returns what the ordered map answers, in a number of steps bounded by the capacity |
| ArrayProtocol.StepKeepsInv | src/msm/msm_allocator.cpp:275-341 | every step keeps size within capacity and leaves the committed elements alone, except that commit appends one and clear drops all |
| ArrayProtocol.BuffersAreStable | src/msm/msm_allocator.cpp:290-300 | a step changes at most the current buffer; without clear committed elements never change |
| ArrayHistory.ArrayIsHistory | src/msm/msm_allocator.cpp:303-374 | in every run, with clear, the array is the list that the writer's steps alone amount to: for each commit since the last clear the value filled in last since its prepare, 0 if none; while the writer rests its capacity is what the reserves and doublings amount to |
| ArrayHistory.PushIsServed | src/msm/msm_allocator.cpp:303-341 | from any instant of any run at which the writer rests, a push of any value is done in at most five stores of its own and adds that value, and builds a buffer exactly when the current one is full |
| ArrayHistory.CallIsServed | src/msm/msm_allocator.cpp:275-301 | likewise a reserve of any size, or a clear, has its effect in at most one more step; it builds a buffer exactly when more room is asked for than there is |
| ArrayHistory.QueryIsAnswered | src/msm/msm_allocator.cpp:352-365 | from any instant of any run, a size or get with nothing beside it answers for the list pushed: its length, its element at that index, or null exactly from its end on |
| ArrayHistory.HistoryGrows | src/msm/msm_allocator.cpp:275-341 | without clear an earlier array is a prefix of every later one |
| ArrayHistory.SizeIsWithinHistory | src/msm/msm_allocator.cpp:259-265 | without clear, a size read lies between the lengths of the history when the call began and when it returned |
| ArrayHistory.SizesNeverDecrease | src/msm/msm_allocator.cpp:259-265 | without clear sizes read one after another never decrease |
| ArrayHistory.EveryFoundElementIsHistory | src/msm/msm_allocator.cpp:352-365 | without clear, every non-null get, whenever it began, holds for the rest of the run the value the writer pushed at its index |
| ArrayHistory.CommittedElementsAreFound | src/msm/msm_allocator.cpp:352-365 | without clear, an element pushed before a get begins is found, at an address that holds its value from then on |
| ArrayHistory.GetAfterSize | src/msm/msm_allocator.cpp:352-365 | without clear, after a size call returned n every later get below n is non-null and holds the value pushed there, across any number of grows |
| ArrayHistory.RunIsGood | src/msm/msm_allocator.cpp:367-374 | with clear, the size in a superseded buffer stays the abstract size at the instant it was superseded |
| ArrayHistory.SizesAreLinearizable | src/msm/msm_allocator.cpp:259-265 | in every run, with clear, a size read is the number of values pushed since the last clear at some instant during the call |
| ArrayHistory.AddressesStayInside | src/msm/msm_allocator.cpp:352-365 | in every run, with clear, a non-null get lies within the capacity of a published buffer |
| StringProtocol.BuffersNeverChange | src/msm/msm_allocator.cpp:427-443 | no step ever writes to an existing string buffer |
| StringProtocol.StoredIsLastSet | src/msm/msm_allocator.cpp:415-475 | the stored or about to be stored string is the one last requested, null and clear counting as empty |
| StringProtocol.ReadsAreSnapshots | src/msm/msm_allocator.cpp:446-468 | what get designates is for the rest of the run the whole string current at its pointer load, NUL-terminated inside its own buffer; length is that string's length |
| StringProtocol.SetIsServed | src/msm/msm_allocator.cpp:415-443 | from any instant at which the writer rests, a set runs to its end and leaves exactly that string, the empty one for null |
| StringProtocol.ClearIsServed | src/msm/msm_allocator.cpp:470-475 | likewise a clear leaves the empty string |
| StringProtocol.QueryIsAnswered | src/msm/msm_allocator.cpp:446-468 | from any instant of any run, a get or length with nothing beside it returns the string that is stored then, or its length |
| MemoryShape.ActKeepsShape | src/msm/msm_allocator.cpp:285-374 | every store of the writer, clears and overwrites included, keeps messages initialised, counts within capacity, pointers to published buffers and references to finished blocks |
| Initialisation.ReadsAreInitialised | src/msm/msm_allocator.cpp:18-42 | no load returns uninitialised memory, and a plain read stays within rows that were counted and blocks that are referred to |
| Initialisation.ActKeepsMemoryInv | src/msm/msm_allocator.cpp:367-374 | what views know survives every store: whoever may load a cell has seen a write to it and no reference is ahead |
| Initialisation.NothingUninitialisedIsRead | src/msm/msm_allocator.cpp:18-42 | in every run, with clears and in-place overwrites, no read of header, entry, element, string byte or value block returns uninitialised memory |
| Initialisation.OnlyRewrittenCellsAreReadLate | src/msm/msm_allocator.cpp:694-695 | in every run a plain read of a cell that has not been rewritten finds every store to it ordered before the read, so only the last value can be returned |
| Initialisation.RewrittenByAStore | src/msm/msm_allocator.cpp:324-326 | a cell counts as rewritten if and only if some plain store went to it when readers could already reach it |
| RaceFreedom.ReadsAreRaceFree | src/msm/msm_allocator.cpp:18-42 | while nothing has been cleared or overwritten in place, a plain read can return only the last message, which is initialised and frozen |
| RaceFreedom.ReadKeepsInv | src/msm/msm_allocator.cpp:18-42 | acquire loads and plain reads keep the invariant of views of quiet runs |
| RaceFreedom.ActKeepsMemoryInv | src/msm/msm_allocator.cpp:285-300 | so does every store of the discipline: allocate, fill, publish, append, commit |
| RaceFreedom.RunKeepsInv | src/msm/msm_allocator.cpp:18-42 | the invariant holds in every quiet run of writer and readers |
| RaceFreedom.ReadersSeeInitialisedMemory | src/msm/msm_allocator.cpp:18-42 | in every quiet run a plain read returns the last value ever written there, for good |
| RaceFreedom.FrozenForGood | src/msm/msm_allocator.cpp:632-640 | in a quiet run counted rows of published buffers are never written again |
| RaceFreedom.WritesAreRaceFree | src/msm/msm_allocator.cpp:598-640 | in a quiet run no plain store goes to a location some reader has read |
| Races.RowMayBeReadExactlyWhenCounted | src/msm/msm_allocator.cpp:324-330 | readers can be scheduled to read a cell of a buffer's row if and only if the buffer has counted that row before, cleared since or not |
| Races.StoreMayRaceExactlyWhenReadable | src/msm/msm_allocator.cpp:694-695 | a plain store may race if and only if readers can get to its cell before it |
| Races.LinkedBlockMayBeRead | src/msm/msm_allocator.cpp:860-868 | readers can always get to the value block of a counted entry |
| CallRaces.CallMayRaceExactlyWhenItRewrites | src/msm/msm_allocator.cpp:680-853 | over strings, arrays and objects: some schedule of readers makes a call race if and only if the call sets a scalar field that is there, or pushes onto a buffer that has counted more than it holds |
| CallRaces.SecondSetRaces | src/msm/msm_allocator.cpp:694-695 | a run that races: the same scalar field set twice |
| CallRaces.PushAfterClearRaces | src/msm/msm_allocator.cpp:325-326 | a run that races: push, clear, push |
| CallSequences.SequenceMayCollideExactlyWhenACallRewrites | src/msm/msm_allocator.cpp:680-853 | for any sequence of calls from a zeroed slot: some schedule makes a plain store and a plain read of the same cell meet unordered, whichever comes first, if and only if some call rewrites |
| CallSequences.AfterAnySchedule | src/msm/msm_allocator.cpp:680-853 | after any schedule of any calls memory is as the calls leave it, and the condition for races applies to whatever call comes next |
| CallSequences.CallGrows | src/msm/msm_allocator.cpp:275-341 | the stores of reserve, push and every add keep counts from falling, within a buffer and from one to the next |
| CallSequences.SizesOfGrowingCalls | src/msm/msm_allocator.cpp:259-265 | under any schedule of reserves, pushes and adds the sizes one reader loads never decrease |
| ArrayContents.StepKeepsHistory | src/msm/msm_allocator.cpp:275-341 | every store of reserves and pushes keeps all buffers, superseded ones included, showing parts of one history that only grows at the end |
| ArrayContents.ReadersFindWhatWasPushed | src/msm/msm_allocator.cpp:352-365 | under any schedule of reserves and pushes, what any reader reads in cell i, of whatever buffer it reached, is the i-th number ever pushed |
| CallMeanings.CallMeans | src/msm/msm_allocator.cpp:275-1059 | what the stores of one call leave in memory, said without them: a string slot holds exactly the string set and its NUL; an array slot the rows reserved, pushed and cleared; an object slot the same fields in order with the key put, appended or filtered out, every string field with its text, length and NUL, every value block unshared and of its type's size; capacities as the code chooses them |
| CallMeanings.EveryScheduleMeans | src/msm/msm_allocator.cpp:275-1059 | from a zeroed slot on this holds for any sequence of calls under any schedule of their stores and any readers |
| CallMeanings.AddMeans | src/msm/msm_allocator.cpp:699-712 | the stores of an add append one field with the given key, type and contents, grown or in place, and keep all others |
| CallMeanings.RemoveMeans | src/msm/msm_allocator.cpp:958-999 | the stores of a removal leave the fields without the one at that index, in order |
| CallMeanings.OverwriteMeans | src/msm/msm_allocator.cpp:694-695 | the store of a set on a scalar field that is there changes that field's value and no other |
| CallMeanings.LookupIsIndex | src/msm/msm_allocator.cpp:568-583 | the writer's search through the counted rows is the search among the fields |
| WriterPrograms.BuildRuns | src/msm/msm_allocator.cpp:285-297 | building a private buffer, cleared or not, is allowed and gives the intended count and contents |
| WriterPrograms.ReplaceRuns | src/msm/msm_allocator.cpp:299-300 | building and publishing is allowed, makes that buffer current and leaves all else as it was |
| WriterPrograms.StringSetRuns | src/msm/msm_allocator.cpp:427-443 | the stores of a string set are allowed although the buffer is not cleared first; the current buffer then holds the bytes and the NUL |
| WriterPrograms.GrowRuns | src/msm/msm_allocator.cpp:605-626 | the stores of a grow or reserve are allowed and keep every counted row |
| WriterPrograms.FirstBufferRuns | src/msm/msm_allocator.cpp:605-626 | so are those that create the first buffer |
| WriterPrograms.RemoveRuns | src/msm/msm_allocator.cpp:966-999 | the stores of a removal are allowed although the buffer is not cleared; the rows are the old ones without row i |
| WriterPrograms.AppendRowRuns | src/msm/msm_allocator.cpp:324-341 | array prepare, fill and commit are allowed and count one more row with the given contents; every other cell is as before |
| WriterPrograms.AddScalarRuns | src/msm/msm_allocator.cpp:699-712 | the stores that add a scalar field are allowed; the new entry holds the given hash, type and size and refers to a finished block with the given payload; every other cell is as before |
| WriterPrograms.AddStringRuns | src/msm/msm_allocator.cpp:839-851 | so are those that add a string field; the entry refers to a zeroed block that refers to the given text |
| WriterCalls.EverySequenceRuns | src/msm/msm_allocator.cpp:275-1059 | from a zeroed slot every sequence of string, array or object calls, growing wherever it must, runs without violating a guard |
| WriterCalls.CallRuns | src/msm/msm_allocator.cpp:680-853 | each call runs and keeps whole rows and well-formed entries; every call but array clear keeps a count that never fell |
| SizeCoherence.ActKeepsOrdered | src/msm/msm_allocator.cpp:290-300 | while the writer only grows, counts rise within a buffer and from each published buffer to the next |
| SizeCoherence.BuiltIsGrowing | src/msm/msm_allocator.cpp:290-300 | publishing what a grow or reserve builds is such a growing step |
| SizeCoherence.CountIsFloor | src/msm/msm_allocator.cpp:259-265 | once a reader has loaded a count, its view rules out every smaller count of every buffer it can still reach |
| SizeCoherence.SizesNeverDecrease | src/msm/msm_allocator.cpp:259-265 | in every run in which the writer only grows, with overwrites in place but no clear, sizes one reader loads one after another never decrease |
| SizeCoherence.NeverNullAgain | src/msm/msm_allocator.cpp:262-263 | nor does that reader see a null pointer again |
| ObjectMemory.MakeRoom | src/msm/msm_allocator.cpp:598-630 | growing leaves room, leaves a buffer, and is the identity on committed entries |
| ObjectHeap.EntryBuffer.FillHead | src/msm/msm_allocator.cpp:703-705 | three stores fill the free entry and nothing else |
| ObjectHeap.EntryBuffer.FillValueAndCommit | src/msm/msm_allocator.cpp:710-712 | the value pointer, then the count |
| ObjectHeap.Heap.FindEntry | src/msm/msm_allocator.cpp:568-583 | the scanning loop finds the first entry of the hash |
| ObjectHeap.Heap.Lookup | src/msm/msm_allocator.cpp:586-589 | and returns that entry, or none exactly when there is none |
| ObjectHeap.Heap.BuildGrown | src/msm/msm_allocator.cpp:605-620 | the grow fills a zeroed array of the next capacity with the committed entries |
| ObjectHeap.Heap.AddEntry | src/msm/msm_allocator.cpp:598-630 | in place, this is MakeRoom |
| ObjectHeap.Heap.BuildFiltered | src/msm/msm_allocator.cpp:973-996 | the removal's two copies give the entries without entry i, in order, in a tight buffer |
| ObjectHeap.Heap.SetField | src/msm/msm_allocator.cpp:680-853 | in place, the typed set calls do exactly what Set says, or abort exactly when it says so |
| ObjectHeap.Heap.FillNext | src/msm/msm_allocator.cpp:839-851 | head, value block, text, value pointer, count, in this order: memory gains one finished entry |
| ObjectHeap.Heap.Ensure | src/msm/msm_allocator.cpp:1029-1059 | in place, this is EnsureObject |
| ObjectHeap.Heap.RemoveField | src/msm/msm_allocator.cpp:927-1003 | in place, this is Remove; the status tells whether the field was there |
| ObjectHeap.Heap.SetString | src/msm/msm_allocator.cpp:415-444 | null for the empty string, a fresh buffer otherwise, the old one kept |
| ObjectHeap.Heap.GetScalar | src/msm/msm_allocator.cpp:857-899 | the stored payload, or 0 for a missing field or another type |
| ObjectHeap.Heap.GetType | src/msm/msm_allocator.cpp:1020-1027 | the recorded type, 0 for a missing field |
| ObjectHeap.Heap.GetText | src/msm/msm_allocator.cpp:901-908 | the stored bytes, or none for a missing field or another type |
| ObjectHeap.Heap.FieldCount | src/msm/msm_allocator.cpp:1005-1011 | the count in the current buffer, 0 without one |
| Trees.SetReadsBack | src/msm/object.hpp:84-91 | a path reads back what was set on it: the type's number and the value, booleans as 0 or 1 |
| Trees.DroppedIsGone | src/msm/object.hpp:172-175 | a removed field is gone |
| Trees.OtherPathsAreUnchanged | src/msm/object.hpp:84-91 | paths that part ways with the edited one read the same |
| Trees.ObjectsOnTheWayExist | src/msm/msm_allocator.cpp:1045-1058 | missing objects on the way are created |
| Trees.EditKeepsWellFormed | src/msm/msm_allocator.cpp:1029-1059 | keys stay distinct and type tags right at every level |
| Trees.AbortsExactlyWhenBlocked | src/msm/msm_allocator.cpp:1037-1041 | the process dies if and only if a field on the way is not an object or the assigned field has another type |
| ObjectTree.FindIsIndex | src/msm/msm_allocator.cpp:568-583 | searching the buffer is searching the node's fields |
| ObjectTree.AppendRefines | src/msm/msm_allocator.cpp:598-640 | an append adds one field at the end, with a block of its own, whether or not the buffer grows |
| ObjectTree.SetRefines | src/msm/msm_allocator.cpp:680-853 | a set call does to the tree what the ordered map says, aborts exactly when that does, and keeps the blocks a forest |
| ObjectTree.EnsureRefines | src/msm/msm_allocator.cpp:1029-1059 | an ensure call changes nothing if the object is there and else adds an empty one; its result is that object's slot |
| ObjectTree.RemoveRefines | src/msm/msm_allocator.cpp:927-1003 | a removal filters out exactly that field and keeps order; it loses the old buffer and the removed field's blocks |
| ObjectTree.ReplaceChild | src/msm/object.hpp:84-91 | a change inside one field's blocks leaves every other field as it was |
| ObjectPaths.PerformRefines | src/msm/object.hpp:84-91 | a chain of names ending in set, remove or nothing edits exactly that path of the tree, aborts exactly when the edit does, takes every fresh block into the tree and loses only the removed subtree and superseded buffers |
| ObjectPaths.ExistingChainsOnlyRead | src/msm/msm_allocator.cpp:1034-1043 | a chain over existing objects changes and allocates nothing |
| ObjectPaths.ReadsWriteExactlyWhenMissing | src/msm/object.hpp:84-91 | following a chain leaves memory as it is if and only if an object stands at its end; otherwise reading creates what is missing |
| ObjectPaths.ReadsFollowTheTree | src/msm/object.hpp:63-91 | whatever exists on the way, the getters at the end of any chain that does not abort answer what stood there in the tree before |
| ObjectPaths.DenotationIsUnique | src/msm/object.hpp:84-91 | one slot in one memory denotes one tree |
| ObjectPaths.PathReadsBack | src/msm/object.hpp:84-91 | after `obj[p1]...[pk] = v` the same chain reads v and changes nothing |
| ObjectPaths.TypedFieldReadsBack | src/msm/msm_allocator.cpp:784-908 | then the getter of the value's own type answers the number, the bit pattern, the bytes, or 0 or 1 for a boolean; and the type query answers 1 for bool, 2 for int32, 4 for int64, 5 for float64, 6 for string |
| ObjectPaths.ReachedIsAnObject | src/msm/msm_allocator.cpp:1029-1059 | whatever a chain leads to is of type 8 afterwards |
| ObjectPaths.OtherPathsReadTheSame | src/msm/object.hpp:84-91 | any other chain reads the same before and after, existing or not, is not blocked by the edit, and creates no more than before |
| ObjectPaths.CallIsAccounted | src/msm/msm_allocator.cpp:953-956 | a call moves blocks only from the tree to the superseded or the detached ones, and never writes to those |
| ObjectPaths.RunRefines | src/msm/msm_allocator.cpp:927-1059 | over any run the object at the slot is the edited tree; every address handed out is in exactly one of tree, superseded buffers, detached values and blocks of others, and the last three are never written |
| ObjectPaths.OthersAreUntouched | src/msm/msm_allocator.cpp:927-1059 | after such a run a second object in the same memory is the same tree and its own books still balance |
| ManyObjects.InterleavedRunRefines | src/msm/msm_allocator.cpp:927-1059 | calls on any number of objects in one memory, in any order: each object is edited by its own calls and no others, all keep their slots, books and separation, and the run aborts exactly when some object's own calls do |
| ObjectPaths.ZeroedSlotIsAnObject | src/msm/msm_allocator.cpp:104-107 | a zeroed slot is an empty object, whatever else there is in memory |
| ObjectProxy.Index | src/msm/object.hpp:87-91 | indexing a proxy ensures the object it names |
| ObjectProxy.Chain | src/msm/object.hpp:84-91 | a loop of index calls resolves the whole chain |
| ObjectProxy.SetPath | src/msm/object.hpp:52-61 | the whole statement, in place, is one Perform |
| Teardown.DeallocateEntryValue | src/msm/msm_allocator.cpp:642-675 | the recursive walk frees every block below the entry exactly once, and nothing else |
| Teardown.NestingOfField | src/msm/msm_allocator.cpp:665-669 | nesting strictly decreases from an object to its entries, so the recursive walk ends on every tree |
| Teardown.WalkFreesEverything | src/msm/msm_allocator.cpp:655-672 | over all entries that is everything but the slot |
| Teardown.Deallocate | src/msm/object.hpp:113-156 | the flat loop frees each value block, each string's bytes and the entries buffer once, and clears the slot |
| Teardown.EmptiedSlotIsAnObject | src/msm/object.hpp:153-155 | the slot then reads as an empty object |
| Teardown.FreesEverythingExactlyWhenFlat | src/msm/object.hpp:127-148 | everything reachable is freed if and only if no field holds a nested object with a buffer of its own |
| Teardown.NestedFieldIsStranded | src/msm/object.hpp:127-148 | a run that fails it: after `obj[a][b] = 1` on an empty object, freeing the object strands a block |
| Teardown.TeardownIsAccounted | src/msm/object.hpp:113-156 | what stays allocated is the slot, the superseded buffers, the detached values and the stranded nested blocks, each in one place only; blocks of other objects stay as they are |
| RetentionCost.AppendCost | src/msm/msm_allocator.cpp:607-612 | an append allocates a buffer only if the current one is full, and then of twice the capacity, or 4 |
| RetentionCost.RemoveCost | src/msm/msm_allocator.cpp:968-976 | a removal allocates exactly a tight buffer, or none for the last field |
| RetentionCost.RemovalCost | src/msm/msm_allocator.cpp:968-999 | removing k of f fields, k < f, in any order allocates exactly 8k + 12k(2f-k-1) bytes of buffers |
| RetentionCost.CycleCost | results/valgrind-leak.log:188-201 | an add and remove beside f fields, after a first removal, allocates exactly 16 + 72f bytes of buffers and restores the object |
| RetentionCost.CyclesCost | results/valgrind-leak.log:188-201 | any number of such cycles, whatever their keys and values, costs exactly that many times as much |
| RetentionCost.RemovalThenCyclesCost | results/valgrind-leak.log:188-201 | from any object of f + 1 fields a removal and then any number of cycles allocate exactly 8 + 24f bytes and 16 + 72f bytes a cycle |
| ArraySlot.RunIsList | src/msm/msm_allocator.cpp:275-374 | under any reserves, grows and clears the array is the list of values committed since the last clear |
| ArraySlot.CallKeepsGeometric | src/msm/msm_allocator.cpp:315-322 | prepare, commit and clear keep the capacities 8, 16, 32, ... and the sums that go with them |
| ArraySlot.RetentionIsGeometric | src/msm/msm_allocator.cpp:315-322 | in every run without explicit reserve all capacities sum to 2cap-8, the superseded ones and the elements copied to cap-8, below twice the largest size prepared |
| ArraySlot.RetainedBytes | src/msm/msm_allocator.cpp:285 | in every run without explicit reserve, with n buffers of which the last has capacity cap = 4 * 2^n: all of them take 8n + (2cap-8) * size bytes, the superseded ones 8(n-1) + (cap-8) * size |
| ArraySlot.Array.Reserve | src/msm/msm_allocator.cpp:275-301 | in place: elements kept, the old buffer kept and unchanged |
| ArraySlot.Array.PreparePush | src/msm/msm_allocator.cpp:306-330 | in place: room made, the next element zeroed, size unchanged |
| ArraySlot.Array.CommitPush | src/msm/msm_allocator.cpp:334-341 | the prepared element becomes the last one |
| ArraySlot.Array.PushBack | src/msm/array.hpp:96-102 | committing first and writing afterwards comes to prepare, fill, commit |
| ArraySlot.Array.Get | src/msm/msm_allocator.cpp:352-365 | the element of the list at that index, nothing outside it |
| ArraySlot.Array.ClearAll | src/msm/msm_allocator.cpp:367-374 | size 0, buffer kept |
| RecordLayout.OffsetsAgree | src/msm/record.hpp:23-84 | the accumulator form, the direct recursion and the sum of preceding slots are the same offset, for every index |
| RecordLayout.SlotsAreAdjacent | src/msm/record.hpp:69-84 | slots follow one another without gap or overlap |
| RecordLayout.SizesAreCounts | src/msm/types.hpp:15-119 | the size of any nested type is 8 bytes for each boolean, int32 and float32 leaf, 16 for each other leaf, 8 for each record's header |
| RecordLayout.FlatRecord | src/msm/record.hpp:128-143 | a record without nested records has size 8 plus 8 or 16 for each field, and its i-th field lies at 8 plus as much for the fields before it |
| RecordLayout.UniqueExactlyWhenDistinct | src/msm/record.hpp:86-119 | the compile-time check holds if and only if no name occurs twice |
| RecordLayout.CountIsZeroExactlyWhenAbsent | src/msm/record.hpp:86-101 | a name's count is zero if and only if no field bears it |
| RecordLayout.FindIsFirst | src/msm/record.hpp:36-51 | the search finds the first field of that name, and -1 exactly when there is none |
| RecordLayout.FindInvertsNaming | src/msm/record.hpp:36-51 | with unique names the search inverts naming |
| RecordLayout.PathsStayInside | src/msm/record.hpp:159-169 | every chain of gets stays inside the record and off its header |
| RecordLayout.PathsLieAt | src/msm/record.hpp:159-169 | where any chain of gets ends: 8 or 16 bytes on for each leaf, 8 for each record, laid out before it at every level |
| RecordLayout.PathsAreApart | src/msm/record.hpp:132-169 | chains of which neither continues the other lead to disjoint slots |
| RecordLayout.LeavesAreApart | src/msm/record.hpp:132-169 | distinct leaves of any nested record share no byte |
| RecordLayout.HeadersAreNeverCovered | src/msm/record.hpp:133-134 | no leaf covers a byte of any record's header |
| RecordLayout.PayloadsLieAt | src/msm/types.hpp:15-119 | a leaf's payload is bytes 4 to 7 of an 8-byte slot, 8 to 15 of a 16-byte slot, at the end of any chain |
| RecordLayout.WritesGoTo | src/msm/types.hpp:15-119 | a write stores the payload there byte by byte, and nothing elsewhere |
| RecordLayout.WriteReadsBack | src/msm/types.hpp:45-55 | a payload written to a slot is read back |
| RecordLayout.WritesDoNotInterfere | src/msm/types.hpp:15-119 | writing one leaf's payload leaves every other leaf's read unchanged |
| RecordLayout.WritesKeepHeaders | src/msm/types.hpp:15-119 | and every header and every byte outside the record |
| RecordLayout.VisitsAreWhatGetReturns | src/msm/record.hpp:185-196 | the deallocation visits exactly the slots get returns, in order, pairwise disjoint |
| RecordLayout.LeafVisitsInOrder | src/msm/record.hpp:151-155 | through nested records it runs over disjoint leaves from left to right |
| RecordLayout.EveryLeafIsVisited | src/msm/record.hpp:185-196 | it reaches every leaf some chain of gets leads to |
| RecordLayout.EveryVisitIsALeaf | src/msm/record.hpp:185-196 | and nothing else |
| RecordLayout.ElementsAreApart | src/msm/msm_allocator.cpp:364 | elements of a buffer are disjoint, off its header and inside it |
| RecordLayout.ElementsLieAt | src/msm/msm_allocator.cpp:364 | element i lies 8 bytes plus i times the item's size after the buffer's start, in numbers |
| RecordTeardown.PartsDoNotInterfere | src/msm/array.hpp:61-67 | tearing down one element or field leaves alone all that another one reads |
| RecordTeardown.Deallocate | src/msm/array.hpp:49-76 | records, arrays and strings nested in any way: exactly the reachable blocks are freed, each once, and exactly their pointers are cleared |
| RecordTeardown.DeallocateFields | src/msm/record.hpp:185-196 | the recursion over the fields with the offset carried along does this for each field |
| RecordTeardown.SlotReadsEmpty | src/msm/string.hpp:36-50 | afterwards the slot reads empty at every level |
| RecordTeardown.TeardownIsExact | src/msm/record.hpp:151-155 | everything reachable is freed, nothing else is, and no byte outside the value changes |
| RecordUpdates.ReplaceKid | src/msm/record.hpp:159-169 | a change inside one field or element leaves all others as they were and no buffer shared |
| RecordUpdates.GrowAchieves | src/msm/msm_allocator.cpp:275-301 | growing an array copies its elements, themselves strings, arrays or records, to a new buffer where they denote the same |
| RecordUpdates.PushAchieves | src/msm/msm_allocator.cpp:324-341 | a push adds one empty element behind the others |
| RecordUpdates.UpdateKeepsGood | src/msm/msm_allocator.cpp:275-475 | a string set, a scalar store, or a push, grow or clear of an array, at any depth, changes that part as it should and nothing else |
| RecordUpdates.RunKeepsGood | src/msm/record.hpp:151-155 | from a zeroed slot on, any run of these leaves the slot denoting the value one expects with no buffer shared, which is what the teardown takes for granted |

## Left out

- Allocation failure, and 32-bit wrap-around of capacities and lengths: success and bounds are assumed.
- What a reader finds in an element while the writer clears the array and pushes over it: that it is initialised is proved, its contents are claimed for clear-free runs only.
- Array iterators and `push_back` alongside readers: both are documented as single-threaded; `push_back` is proved sequentially.
- Pairs of calls, such as a length followed by a get: each call is linearizable, a pair is not one call.
- Tearing inside one aligned payload copy: each payload copy is one step.
- What a plain read that races with an overwrite or a cleared element's rewriting returns beyond being initialised: C++ leaves it undefined, the model returns one of the values written.
- Array elements that are slots: their pointer cells are slots of their own in the release/acquire model, so rows hold numbers there.
- Linearizability across slots: the concurrent models are about one slot; a nested object's slot or a string field's slot is a slot of its own, so a chain or a string field read by a concurrent reader is a sequence of single-slot reads.
- The writer's own lookups and the building of a private buffer are single steps of the interleaving model; the release/acquire model has every store of them.
- Reuse of freed addresses by malloc: addresses in the object model are never reused, freed or not.
- Linearizability, and array contents beside clears, are proved for interleavings; the release/acquire model proves initialisation, race conditions, the order of sizes and the contents of growing arrays.
- RecordTeardown.Deallocate: does not cover object fields inside records, because objects have their own memory model in Teardown.
- RecordTeardown.DeallocateFields: does not cover object fields either, for the same reason.
- The bytes of pointer and size cells in the record teardown: each is one word; cells of different values are proved disjoint.
- The named registry, the mutex, segments and schema checks: a map behind a lock.
- Float arithmetic, diagnostics, export macros, the C# binding and the benchmark program.
