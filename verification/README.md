# A verified model of TypeART

TypeART instruments the allocations of a program at compile time and answers, at run time, which type starts at an
address and how many elements follow. This project models its core in Dafny and proves what that core is for:

- **Address resolution** (`TypeDatabase`, `TypePicture`, `AllocMap`, `TypeResolution`). A layout has a simple meaning,
  a picture with one cell per byte (start of an object with its remaining count, inside of an atom, padding, span of a
  member of unknown type), and a declarative reading of that picture: a start cell is exactly the outermost subobject
  that starts at the byte, an unsized cell exactly a byte of a member of unknown type. The
  lookup of the nearest base below an address, the single bounds check and the descent with quotients and remainders
  are proved to give the answer of searching all recorded allocations, whatever their types, for every well-formed
  database; the queries without an answer are characterised exactly.
- **Type registration** (`ScalarTypes`, `TypeGen`, `LayoutPreserved`). LLVM types are trees over scalar kinds, whose
  sizes come from the data layout. Registration reserves an id, visits the members and then pushes the entry; its
  invariant holds in the middle of every nested registration. Ids are dense, names and ids are one-to-one, an id tells
  its type, lookup agrees with registration, type files restore the manager, and the byte picture under the id of a
  type is the byte picture of the type itself, over any number of translation units.
- **Stack scopes** (`StackInstrumentation`, `StackScopes`, `AllocationTracking`, `CallbackCounts`,
  `RecordedAllocations`). A rewrite of control-flow graphs in place, executions of the rewritten program with nested
  calls, and a machine of atomic steps of many threads that share a map and counters. Every activation leaves the
  address stack as it found it, pops exactly its own addresses, and the counters account for every entry of the map
  in every interleaving.
- **Filter search and graph closures** (`Filter`, `CallGraph`, `DefUseChain`). A path-avoiding depth-first search with
  a cut-off at phi nodes, and two worklist algorithms, each proved to decide plain reachability; the search for
  handlers that look at the value, and without phi nodes for handlers that look at the whole path.
- **End to end** (`EndToEnd`). Types registered over any number of translation units, callbacks of any number of threads
  in any interleaving, and a query: it answers with what the LLVM type has at the byte.
- **Glob translation** (`Glob`). Globs and POSIX extended regular expressions (section 9.4 of IEEE Std 1003.1-2017, Base
  Definitions) have their own parsers and languages; the translation preserves the language.

Parts that work by changing state are classes and methods with loops, proved against specification functions or
against the property itself; the specification functions have their meaning proved by lemmas.

Facts about the code that came out of the proofs:

- `JSONCG::reachable` looks up the body of the *target* where its comments speak of all reachable functions. The model
  follows the code; `CallGraph.DocumentedIff` says exactly when the two agree, `CallGraph.DocumentedDiffers` names a
  case in which they do not.
- A status of `doAlloc` is never equal to `ADDR_SKIPPED`, so null and skipped allocations are counted, and null stack
  addresses are pushed (lib/runtime/AllocationTracking.cpp:113, 121, 130). The account of the counters holds all the same.
- The counters account for the map exactly up to overwritten entries of type id -1, which `put` cannot tell from a
  fresh slot. No entry of that id means no such overwrite; `AllocationTracking.HiddenReuseExample` is an input with one.
- With a well-formed database, a query divides by zero in two cases and no other: the nearest allocation is of an
  unknown type and starts below the address (lib/runtime/TypeResolution.cpp:226), or it covers the address by the span
  of a struct member of unknown type, at any depth (line 92). Unknown types elsewhere do not matter, nor does a query
  for the base itself. `TypeResolution.UnknownTypeExample` and `TypeResolution.UnknownMemberExample` are inputs.
  Well-formed means that members come in order without overlap and refer to earlier entries; every database that
  registration makes is, whatever types have no id, but for vectors of 80-bit floats and structs without members.
- Where a handler looks at the path, the search may pass a value although a walk reaches a call to keep, because it
  never takes a value twice: `Filter.LoopedCallIsMissed`.
- An unguarded scope exit with count zero differs from a guarded one only in when the stack maximum is recorded; what
  maximum and current size tell about the peak is the same.
- A vector of 80-bit floats never has a well-formed layout: its element has 10 bytes in one place and 16 in the other.
- An address below every recorded base is not counted as missing.
- `getSubTypeInfo` gives the start of the member, not of the array element. A client that steps down by itself has to
  add the elements it has passed.

## Model

| member | source | states |
|---|---|---|
| TypeDatabase.KnownTypeHasSize | lib/typelib/TypeDB.cpp:116-129 | in a well-formed database a type is known if and only if its size is positive, so a size of zero tells an unknown type |
| TypeDatabase.TypeDB.Clear | lib/typelib/TypeDB.cpp:48-52 | afterwards the database is the empty one |
| TypeDatabase.TypeDB.RegisterStruct | lib/typelib/TypeDB.cpp:85-101 | a struct id from 256 on that is not indexed is appended and indexed at its list position; every other id changes nothing |
| ScalarTypes.BuiltinTypeId | lib/passes/typegen/TypeManager.cpp:44-80 | every scalar kind has the number of the public interface, integers of other widths the unknown type |
| ScalarTypes.BuiltinTables | lib/typelib/TypeDB.cpp:33-42 | under the id of a scalar kind the database has the size the data layout gives the kind, and its name |
| ScalarTypes.IdTellsKind | lib/typelib/TypeInterface.h:27-37 | different scalar kinds have different ids |
| ScalarTypes.ElementBytes | lib/passes/support/TypeUtil.cpp:58-60 | bits divided by eight are the allocation size exactly for scalars other than the 80-bit float |
| TypePicture.Interior | lib/typelib/TypeDB.cpp:116-137 | the picture of one element has exactly as many cells as the type has bytes; the recursion ends because members sit at smaller list positions |
| TypePicture.Block | lib/runtime/TypeResolution.cpp:206-248 | the picture of an allocation has count times size cells |
| TypePicture.BlockAt | lib/runtime/TypeResolution.cpp:235-247 | byte o of element k is marked with the elements left from k on if o is zero, else it is byte o of the element |
| TypePicture.MembersAt | lib/runtime/TypeResolution.cpp:85-106 | within the span of a member, up to the start of the next one, lie that member's cells |
| TypePicture.InteriorAt | lib/runtime/TypeResolution.cpp:85-106 | the same for a whole struct, whose last span ends with it |
| TypePicture.MemberCellAt | lib/runtime/TypeResolution.cpp:85-106 | a span holds the member's elements and then only padding, or for a member of unknown type only unsized cells |
| TypePicture.StartIsOutermost | lib/runtime/RuntimeInterface.h:52-80 | a cell is marked with a type and a count exactly when that is the least nested object starting there, by a definition that mentions neither pictures nor search |
| TypePicture.UnsizedIsUnknownMember | lib/runtime/TypeResolution.cpp:90-93 | a cell is unsized exactly when its byte, past the start of its element, is in the span of a member of unknown type, at any depth |
| TypePicture.SubobjectDescends | lib/runtime/TypeResolution.cpp:140-163 | past the first byte of an element, its objects are exactly those of the one member that holds the byte, one level deeper |
| AllocMap.PointerMap.Put | lib/runtime/AllocMapWrapper.h:63-69 | the new map, and that an overwrite is reported exactly for an entry whose type id is not -1 |
| AllocMap.PointerMap.Find | lib/runtime/AllocMapWrapper.h:71-89 | the entry with the greatest key not above the address, or none exactly when all keys are above it |
| AllocMap.PointerMap.LowerBound | lib/runtime/AllocMapWrapper.h:77-81 | the first key that is not below the address, or the end when there is none |
| AllocMap.PointerMap.Remove | lib/runtime/AllocMapWrapper.h:91-100 | the entry is gone and handed back, all others stay; an absent address changes nothing |
| AllocMap.PointerMap.RemoveRange | lib/runtime/AllocMapWrapper.h:102-112 | the map without the addresses, and what each removal found: an entry once, nothing for a repeated address |
| AllocMap.ErasedMeaning | lib/runtime/AllocMapWrapper.h:102-112 | removing a sequence of addresses leaves exactly the entries whose address is not in it, unchanged |
| TypeResolution.GetMemberIndexAt | lib/runtime/TypeResolution.cpp:48-66 | the member whose span, up to the next member's start, holds the offset |
| TypeResolution.GetSubTypeInfo | lib/runtime/TypeResolution.cpp:73-114 | for any member types: a step finds the object the picture shows at the byte, or a struct member element around it with smaller list position and the same cell, and base, counts and offsets satisfy the address equation; a failure is the picture's; it divides by zero exactly at an unsized cell |
| TypeResolution.StepIntoUnknown | lib/runtime/TypeResolution.cpp:90-93 | in the span of a member of unknown type the division is what the picture says |
| TypeResolution.StepAgreesAt | lib/runtime/TypeResolution.cpp:90-113 | quotient and remainder by the member size decide between padding, inside of an atom, start and nested struct as the picture does |
| TypeResolution.CellOfMember | lib/runtime/TypeResolution.cpp:90-106 | the picture at byte x of element k of a member, elements beyond the member's count being padding |
| TypeResolution.GetTypeInfoInternal | lib/runtime/TypeResolution.cpp:116-167 | the descent loop returns what the byte picture says, a division by zero included; it ends, and never in a bad offset, wrong kind, invalid id or error |
| TypeResolution.GetStructInfo | lib/runtime/TypeResolution.cpp:250-263 | found exactly for registered ids, wrong kind exactly below the struct ids, invalid id otherwise |
| TypeResolution.GetContainingTypeInfo | lib/runtime/TypeResolution.cpp:206-248 | for every allocation and any address from its base on: a division by zero exactly above the base of an unknown type, success exactly inside (the base included, whatever type and count), with the elements left and the byte within the element |
| TypeResolution.AnswerAtPosition | lib/runtime/TypeResolution.cpp:184-201 | element count and byte offset determine the cell of the address in the picture of the allocation |
| TypeResolution.GetTypeInfo | lib/runtime/TypeResolution.cpp:169-204 | for one allocation of any type: the answer of its picture inside, unknown address outside, a division by zero only above the base of an unknown type; exactly one miss recorded for an unknown address |
| TypeResolution.NotInsideIffCoveredOnce | lib/runtime/TypeResolution.cpp:270-277 | no base lies strictly inside another allocation if and only if no address is covered twice |
| TypeResolution.NearestBelowSuffices | lib/runtime/TypeResolution.cpp:270-277 | one bounds check on the nearest base below equals searching all allocations |
| TypeResolution.NearestDecides | lib/runtime/TypeResolution.cpp:218-226 | both ways of dividing by zero depend on the nearest entry alone |
| TypeResolution.CoveredIsAnswered | lib/runtime/TypeResolution.cpp:206-248 | the bounds check never divides by zero for an address that some allocation covers, if no base lies inside another allocation |
| TypeResolution.BlockAnswerMeaning | lib/runtime/RuntimeInterface.h:52-80 | the picture answers with a type and a count exactly when that outermost object starts at the address |
| TypeResolution.BlockAnswerBad | lib/runtime/RuntimeInterface.h:74-79 | the picture answers bad alignment exactly when no object starts at the address and it is not in a member of unknown type |
| TypeResolution.BlockAnswerUndefined | lib/runtime/TypeResolution.cpp:90-93 | the picture has no answer exactly in the span of a member of unknown type |
| TypeResolution.AnswersMeanOutermost | lib/runtime/RuntimeInterface.h:52-80 | for all allocations together: found if and only if an allocation has that outermost object at the address, bad alignment if and only if the address is in an allocation but starts nothing and its type is known, no answer if and only if it is in a member of unknown type |
| TypeResolution.RuntimeSystem.GetType | lib/runtime/TypeResolution.cpp:270-277 | for any recorded allocations: a division by zero if and only if the nearest one starts below the address and is of an unknown type or covers it by a member of unknown type; unless the bounds check divides, the answer of searching all; fails only as unknown address or bad alignment, and records the request and, with some base below, the miss with its address |
| TypeResolution.UnknownTypeExample | lib/runtime/TypeResolution.cpp:223-226 | an input whose bounds check divides by zero: one allocation of an id the database does not have |
| TypeResolution.UnknownMemberExample | lib/runtime/TypeResolution.cpp:90-93 | an input whose descent divides by zero: a known struct with a member of unknown type |
| TypeResolution.RuntimeSystem.GetContainingType | lib/runtime/TypeResolution.cpp:343-355 | for any recorded allocations: the nearest one if it contains the address, with the position in it, unknown address when none does, and a division by zero exactly above the base of an unknown type |
| TypeResolution.RuntimeSystem.ResolveStepwise | lib/runtime/RuntimeInterface.h:133-175 | a client that asks for the containing type and then for subtypes until no byte offset is left gets the answer of the type query, and the element addresses it computes from member bases and counts end at the queried address |
| TypeResolution.RuntimeSystem.ResolvePosition | lib/runtime/RuntimeInterface.h:133-175 | the client's loop from the position in the containing block on: it ends with the cell of the address, at the address |
| TypeResolution.ElementAddress | lib/runtime/TypeResolution.cpp:108-111 | base of the subtype plus passed elements times size, with the subtype's own offset, is the queried byte; the member is found from its start alone |
| TypeResolution.MemberStartsAt | lib/runtime/TypeResolution.cpp:48-66 | only one member with elements starts at an offset, and looking the offset up finds it |
| TypeResolution.RequestRecorder.IncUsedInRequest | lib/runtime/AccessCounter.h:276-281 | counts the request, remembers the address, and leaves the misses alone |
| TypeGen.FlattenedSize | lib/passes/support/TypeUtil.cpp:77-95 | flattened length times element size is the size of the array, for every nesting of dimensions |
| TypeGen.ReserveKeepsInv | lib/passes/typegen/TypeManager.cpp:288-292 | the reserved id is fresh, and with the name pending the invariant holds again |
| TypeGen.PublishKeepsInv | lib/passes/typegen/TypeManager.cpp:279-285 | pushing the finished entry is never rejected and ends the reservation; all entries stay topologically ordered translations of their types |
| TypeGen.RegisterTypeKeepsInv | lib/passes/typegen/TypeManager.cpp:200-286 | at any depth of recursion registration keeps the invariant, changes no earlier entry, name or id, and returns the id that lookup gives from then on |
| TypeGen.StructID | lib/passes/typegen/StructTypeHandler.cpp:39-50 | nothing exactly for a new name, the id exactly for a struct, the unknown type for a name of something else |
| TypeGen.VectorID | lib/passes/typegen/VectorTypeHandler.cpp:112-131 | the same for vectors, and the unknown type for elements without an id |
| TypeGen.RegisterMembersKeepsInv | lib/passes/typegen/TypeManager.cpp:245-277 | the member loop does so for each member, and ids found early are still right at the end |
| TypeGen.SameNameBranchIsDead | lib/passes/typegen/TypeManager.cpp:256-258 | a member struct never carries the name of the struct around it, so that branch is never taken |
| TypeGen.RegisterAllKeepsInv | lib/passes/typegen/TypeManager.cpp:200-286 | any sequence of registrations keeps the invariant and everything registered before |
| TypeGen.RegistrationIsStable | lib/passes/typegen/TypeManager.cpp:159-221 | at any later time, registering a type again changes nothing and lookup gives the id of the first registration |
| TypeGen.IdTellsType | lib/passes/typegen/TypeManager.cpp:159-198 | in every state of a registration, two types with an id of their own and the same id are the same type |
| TypeGen.ScalarIsInterfaceId | lib/passes/typegen/TypeManager.cpp:159-163 | lookup and registration give a scalar the number of the public interface, in every state |
| TypeGen.UnknownIffNoId | lib/passes/typegen/TypeManager.cpp:159-221 | the unknown type is the answer exactly for types without an id, and registering one changes nothing |
| TypeGen.NewTypeGetsNextId | lib/passes/typegen/TypeManager.cpp:232-235 | a new name gets 256 plus the counter, before any name inside it |
| TypeGen.IdsAreDense | lib/passes/typegen/TypeManager.cpp:288-292 | at rest the ids are exactly 256 up to 256 plus the counter, one per entry and per name, both one-to-one |
| TypeGen.LoadRestoresDatabase | lib/typelib/TypeIO.cpp:84-105 | after k entries the loaded database is the stored one cut off after k entries |
| TypeGen.LoadRestoresNames | lib/passes/typegen/TypeManager.cpp:145-148 | the names of the first k entries, each with the id it had |
| TypeGen.NamesAreFirst | lib/passes/typegen/TypeManager.cpp:145-148 | whatever a file holds, every name in it is known with the id of its first entry, and no other name is |
| TypeGen.Load | lib/passes/typegen/TypeManager.cpp:137-151 | the same for the loaded manager, whose counter is the number of different names |
| TypeGen.StoreLoadRoundTrip | lib/passes/typegen/TypeManager.cpp:137-157 | loading what was stored restores list, index, names and counter |
| TypeGen.UnitsAgreeWithOneProcess | lib/passes/typegen/TypeManager.cpp:137-157 | any split of the types into translation units, each loading the file of the one before, gives the database of one process |
| TypeGen.VectorLayoutIff | lib/passes/typegen/TypeManager.cpp:108-124 | the entry of a vector, padding included, is laid out without overlap if and only if its element is not the 80-bit float |
| TypeGen.StructLayoutWellFormed | lib/passes/typegen/TypeManager.cpp:237-281 | the entry of a struct has members that do not overlap and lie inside, from what the data layout promises, also with members of unknown type |
| TypeGen.RegisteredLayoutsWellFormed | lib/passes/typegen/TypeManager.cpp:223-286 | every database registration can reach satisfies what the resolver relies on, whatever leaf types have no id |
| TypeGen.DecimalInjective | lib/passes/typegen/VectorTypeHandler.cpp:105-110 | different lengths have different decimal texts |
| TypeGen.DecimalValue | lib/passes/typegen/VectorTypeHandler.cpp:105-107 | the decimal text of a length evaluates to it and has no leading zero |
| TypeGen.VectorNameText | lib/passes/typegen/VectorTypeHandler.cpp:105-110 | a vector name is "vec", digits that stand for the length, a colon and the name of the element kind |
| TypeGen.VectorNameInjective | lib/passes/typegen/VectorTypeHandler.cpp:105-110 | a vector name determines element type and length |
| TypeGen.NamingExists | lib/passes/typegen/StructTypeHandler.cpp:28-33 | equal names meaning equal structs, one size in bytes per vector shape and no struct called like a vector are enough for a naming that covers all types |
| TypeGen.TypeManager.ReserveNextId | lib/passes/typegen/TypeManager.cpp:288-292 | the id handed out and the whole new state |
| TypeGen.TypeManager.GetOrRegisterType | lib/passes/typegen/TypeManager.cpp:200-221 | the object's new state and the id are those of the registration whose invariants are proved |
| TypeGen.TypeManager.GetOrRegisterVector | lib/passes/typegen/TypeManager.cpp:82-128 | the same for vectors, with explicit padding bytes |
| TypeGen.TypeManager.GetOrRegisterStruct | lib/passes/typegen/TypeManager.cpp:223-286 | the same for structs, the loop over the members included |
| TypeGen.TypeManager.LoadFrom | lib/passes/typegen/TypeManager.cpp:137-151 | the state after loading is the loaded manager, whatever the state before |
| LayoutPreserved.RunIsBlock | lib/passes/typegen/TypeManager.cpp:250-254 | equal elements side by side are a block of their id once one element is its picture |
| LayoutPreserved.VectorPreserved | lib/passes/typegen/TypeManager.cpp:108-124 | the picture of a vector entry is the vector's elements and its filling bytes |
| LayoutPreserved.StructPreserved | lib/passes/typegen/TypeManager.cpp:279-281 | with its members' bytes in place, the picture of a struct entry is the struct's |
| LayoutPreserved.MembersPreserved | lib/passes/typegen/TypeManager.cpp:245-277 | the bytes of the first k members are those of the first k fields, gaps included |
| LayoutPreserved.PicturePreserved | lib/passes/typegen/TypeManager.cpp:223-286 | for every registered type the picture under its id is the picture of the LLVM type with types replaced by ids |
| LayoutPreserved.RegisteredIsResolved | lib/passes/typegen/TypeManager.cpp:200-221 | every type in the registered sequence is resolved at its end |
| LayoutPreserved.AllocationPreserved | lib/passes/typegen/TypeManager.cpp:200-286 | over any number of translation units, an allocation of n objects looks to the resolver byte for byte as the type lays it out |
| LayoutPreserved.QueryAnswersType | lib/runtime/TypeResolution.cpp:270-277 | compiler and runtime database together: a query inside n recorded objects answers with what the LLVM type has at that byte, scalars by the numbers of the public interface, and does not divide by zero |
| EndToEnd.QueryAfterCallback | lib/runtime/TypeResolution.cpp:270-277 | after a completed callback of any kind in any interleaving, while its entry is left alone, a query inside the objects answers with what the LLVM type has at that byte |
| AllocationTracking.SoloIsCompleted | lib/runtime/AllocationTracking.cpp:111-226 | a callback whose atomic steps run without interference has the effect of its closed form |
| AllocationTracking.MicroStepKeepsThread | lib/runtime/AllocationTracking.cpp:119-126 | one atomic step keeps the relation between a thread's stack, its counters, its history and its largest stack so far |
| AllocationTracking.MicroStepKeepsAccount | lib/runtime/AllocationTracking.cpp:136-226 | one atomic step changes map size and counters alike, but for an overwritten entry of type id -1 |
| AllocationTracking.MicroStepRaisesMaximum | lib/runtime/AccessCounter.h:48-53 | no step lowers the heap maximum, only the thread's own proposal raises it, and a proposal is dropped only once it is reached |
| AllocationTracking.RunKeepsInv | lib/runtime/AllocationTracking.cpp:111-226 | all of this for every schedule of every number of threads, spurious failures included |
| AllocationTracking.Conservation | lib/runtime/AllocationTracking.cpp:111-226 | whenever no callback is running, the map size plus hidden overwrites equals all allocations minus nulls, reuses and frees |
| AllocationTracking.NoHiddenReuses | lib/runtime/AllocMapWrapper.h:63-69 | without allocations of type id -1 there are no hidden overwrites, so the account is exact |
| AllocationTracking.HiddenReuseExample | lib/runtime/AllocMapWrapper.h:63-69 | an input with a hidden overwrite: two heap callbacks of type id -1 at one address leave one entry, two allocations and no reuse |
| AllocationTracking.RemovedCountIsDifference | lib/runtime/AllocationTracking.cpp:212-221 | the stack frees counted for a scope are by how much the map shrinks, repeated addresses included |
| AllocationTracking.ThreadStackTold | lib/runtime/AccessCounter.h:105-123 | between callbacks a thread has the stack its own callbacks make, its counter tells the size, and the larger of maximum and current size is the peak |
| AllocationTracking.PeaksAreLargest | lib/runtime/AccessCounter.h:120-123 | that peak, and the heap peak, are the largest values over all states of the run |
| AllocationTracking.MaximumTold | lib/runtime/AccessCounter.h:195-202 | the heap maximum never exceeds the true peak, is zero or some proposed value, and with no update under way is the greatest proposal |
| AllocationTracking.MaximumGrows | lib/runtime/AccessCounter.h:48-53 | from any earlier state of a run to a later one the maximum only grows |
| AllocationTracking.UpdateReaches | lib/runtime/AccessCounter.h:48-53 | in any interleaving, once a thread has completed an update with a value, the maximum is at least that value in every later state |
| AllocationTracking.SingleThreadPeak | lib/runtime/AccessCounter.h:195-202 | in a run of one thread, between callbacks, the recorded heap maximum is the true peak, spurious failures included |
| CallbackCounts.StepCounts | lib/runtime/AllocationTracking.cpp:111-171 | a step changes a counter exactly by what its callback stops owing and by what it finds in the map |
| CallbackCounts.CountersTold | lib/runtime/AccessCounter.h:195-234 | whenever no callback is running, each counter of null, empty, heap, global and stack allocations is the number of such callbacks in all threads, in every interleaving |
| CallbackCounts.LiveHeapTold | lib/runtime/AccessCounter.h:246-267 | whenever no callback is running, reuses are the recorded entries overwritten, frees the entries that heap frees removed, and the current heap count is the heap callbacks minus those frees, and the heap allocations minus the heap frees counted |
| CallbackCounts.LiveHeapBalances | lib/runtime/AccessCounter.h:195-202 | in every state of every run the current heap count is allocations minus frees counted, plus the threads that are between their two counting steps |
| AllocationTracking.EmptyScopeExit | lib/passes/instrumentation/TransformUtil.h:63-71 | calling the exit with count zero, which a guard avoids, changes nothing but when the maximum is recorded; the peak it tells is the same |
| AllocationTracking.ScopeExitRemoves | lib/runtime/AllocationTracking.cpp:201-226 | in any interleaving, the popped addresses leave the map, every other entry is untouched, and the stack is what is kept plus what is popped |
| RecordedAllocations.CallbackRecords | lib/runtime/AllocationTracking.cpp:136-171 | in any interleaving, once the put of a callback at a non-null address has happened, the map holds its type, count and return address until another callback puts, frees or pops the address |
| RecordedAllocations.CompletedCallbackRecords | lib/runtime/AllocationTracking.cpp:111-134 | so it does when the thread is between callbacks again |
| RecordedAllocations.ScopeExitInRun | lib/runtime/AllocationTracking.cpp:201-226 | in any interleaving, the scope exit of an activation is called with the number of its own stack callbacks, finds their addresses on top of the stack it started on, and takes exactly those out of the map |
| AllocationTracking.RemovalsCounted | lib/runtime/AllocationTracking.cpp:212-221 | the removals reported to the callback are as many as the entries that were there |
| AllocationTracking.AccessRecorder.CompareExchangeWeak | lib/runtime/AccessCounter.h:51-51 | succeeds exactly on the expected value without a spurious failure, otherwise stores nothing and reports the value seen |
| AllocationTracking.AccessRecorder.UpdateMaxHeap | lib/runtime/AccessCounter.h:48-53 | alone, and with any finite number of spurious failures, leaves the maximum of old value and argument |
| AllocationTracking.AccessRecorder.IncHeapAlloc | lib/runtime/AccessCounter.h:195-214 | current, total and maximum after an allocation, the arrays, the share of the thread and the count of the type id |
| AllocationTracking.AccessRecorder.DecStackAlloc | lib/runtime/AccessCounter.h:120-123 | the maximum is taken before the count is lowered |
| AllocationTracking.AllocationTracker.DoAlloc | lib/runtime/AllocationTracking.cpp:136-171 | entry with its return address and counters as in the machine, and each status flag as an equivalence on address, count, type and the entry that was there |
| AllocationTracking.OutcomeFlags | lib/runtime/AllocationTracking.h:31-40 | what each of the eight flags of a status says |
| AllocationTracking.AllocationTracker.OnAlloc | lib/runtime/AllocationTracking.cpp:111-117 | the whole new state is that of the completed heap callback |
| AllocationTracking.AllocationTracker.OnAllocStack | lib/runtime/AllocationTracking.cpp:119-126 | the whole new state is that of the completed stack callback; the address is pushed even when it is null |
| AllocationTracking.AllocationTracker.OnAllocGlobal | lib/runtime/AllocationTracking.cpp:128-134 | the whole new state is that of the completed global callback |
| AllocationTracking.AllocationTracker.DoFreeHeap | lib/runtime/AllocationTracking.cpp:173-192 | succeeds exactly for a recorded non-null address, which leaves the map and is counted; else nothing changes |
| AllocationTracking.AllocationTracker.OnFreeHeap | lib/runtime/AllocationTracking.cpp:194-199 | the whole new state is that of the completed free |
| AllocationTracking.AllocationTracker.OnLeaveScope | lib/runtime/AllocationTracking.cpp:201-226 | the whole new state after leaving a scope, with an argument larger than the stack reduced to it |
| StackInstrumentation.AnchorsMeaning | lib/passes/instrumentation/MemOpInstrumentation.cpp:189-199 | a callback goes behind exactly the lifetime starts of a variable that has some, if they are instrumented, and behind its alloca otherwise |
| StackInstrumentation.AnchorsCounted | lib/passes/instrumentation/MemOpInstrumentation.cpp:189-199 | a variable is anchored once at its alloca, or once for each of its lifetime starts, as often as that start is listed, and nowhere else |
| StackInstrumentation.CallbacksTracked | lib/passes/instrumentation/MemOpInstrumentation.cpp:177-187 | behind an instruction stand as many callbacks of a variable as it is to be tracked there |
| StackInstrumentation.InsertAfterMeaning | lib/passes/instrumentation/MemOpInstrumentation.cpp:190-197 | an insertion puts the new instruction right behind the one with the id and moves nothing else |
| StackInstrumentation.InsertExpands | lib/passes/instrumentation/MemOpInstrumentation.cpp:189-199 | inserting callbacks one at a time gives each instruction of the program the run of its callbacks, whatever was inserted before |
| StackInstrumentation.InstrumentStack | lib/passes/instrumentation/MemOpInstrumentation.cpp:167-208 | the function becomes the declared rewrite of the original, unchanged without callbacks; the result counts one callback for each alloca or each lifetime start, and that many stand behind each instruction |
| StackInstrumentation.InstrumentAnchor | lib/passes/instrumentation/MemOpInstrumentation.cpp:177-187 | one more callback in place, and the count of its block right |
| StackInstrumentation.AddStackHandling | lib/passes/instrumentation/TransformUtil.h:37-73 | counter, increments and scope exits in every block, in whichever order the counts are visited |
| StackInstrumentation.AddIncrements | lib/passes/instrumentation/TransformUtil.h:45-52 | each block with callbacks ends by adding their number |
| StackInstrumentation.AddScopeExit | lib/passes/instrumentation/TransformUtil.h:58-72 | a return leaves the scope, behind a test of the counter exactly when all predecessors count |
| StackInstrumentation.ReturnPredecessors | lib/passes/instrumentation/TransformUtil.h:63-65 | splitting earlier returns does not change which blocks precede a return, so the guard test reads the original graph |
| StackScopes.ExpandCounts | lib/passes/instrumentation/MemOpInstrumentation.cpp:182-183 | a rewritten block has as many stack callbacks as were counted for it |
| StackScopes.ExpandKeepsProgram | lib/passes/instrumentation/MemOpInstrumentation.cpp:167-208 | without the inserted instructions a block is the original one |
| StackScopes.VisitsExit | lib/passes/instrumentation/TransformUtil.h:37-73 | from any block on, along any path to a return, the activation comes back to the stack it started on, and the last callback pops all it pushed |
| StackScopes.NextBlock | lib/passes/instrumentation/TransformUtil.h:63-69 | along every jump, the inserted test included, the counter equals the number of addresses the activation has on the stack |
| StackScopes.InsertedBlockExits | lib/passes/instrumentation/TransformUtil.h:65-71 | the two blocks behind a guard end at the stack of the activation's start, whichever is taken |
| StackScopes.ActivationBalanced | lib/passes/instrumentation/TransformUtil.h:37-73 | every activation, with all activations nested in it, leaves the address stack unchanged, and no scope count is ever too large |
| StackScopes.ScopeExitPopsOwn | lib/passes/instrumentation/TransformUtil.h:54-71 | the argument of the scope exit is the number of stack callbacks the activation ran itself, zero included, and their addresses are what lies on top; an activation that pushed anything calls it |
| StackScopes.RuntimeStackRestored | lib/runtime/AllocationTracking.cpp:201-226 | among any other threads: after the callbacks of an activation the thread's stack and its size counter are those of before |
| Filter.IRPath.Push | lib/passes/filter/IRPath.h:67-72 | the path grows by the value, and only phi nodes are counted |
| Filter.IRPath.Pop | lib/passes/filter/IRPath.h:61-65 | the last value leaves the path, the phi counts stay |
| Filter.Search | lib/passes/filter/IRSearch.h:24-65 | the users of a value, or the target of a store that is not on the path; nothing for a phi seen twice and a value stored to an alloca |
| Filter.AllDone | lib/passes/filter/IRSearch.h:27-61 | where statuses depend on the value: what the search leaves out, a phi seen before or a store to a value on the path, has been searched or is being searched |
| Filter.DFSfilter | lib/passes/filter/FilterBase.h:173-224 | for handlers that may look at the whole path: on true the path is restored, recorded paths are simple walks to calls to follow, visited values are finished if statuses depend on the value, and without phi nodes all simple walks from here are covered; on false the path runs from the start to a reason to keep |
| Filter.SearchSuccessors | lib/passes/filter/FilterBase.h:200-220 | the same for the loop over the successors, all of which are then visited and none of which is a task store |
| Filter.FinishedIsCovered | lib/passes/filter/FilterBase.h:200-223 | without phi nodes and for any handlers, a value left on true has no kept simple walk through it, and all its calls to follow are recorded |
| Filter.WalkStaysVisited | lib/passes/filter/FilterBase.h:173-224 | once everything visited is finished, no walk leaves the visited values, if statuses depend on the value |
| Filter.FilterFrom | lib/passes/filter/FilterBase.h:106-114 | on false the path shows the reason, a simple walk, for any handlers; if statuses depend on the value, passed if and only if no walk is kept, and every reachable call to follow ends a recorded path; without phi nodes, whatever handlers look at, passed if and only if no simple walk is kept, and all simple walks to calls to follow are recorded |
| Filter.LoopedCallIsMissed | lib/passes/filter/FilterBase.h:211-214 | an input with a handler that looks at the path, on which the value is passed although a walk reaches a call to keep |
| Glob.ParsersAgree | lib/passes/support/Util.h:142-183 | the expression parser reads the emitted text just as the glob parser reads the glob, at every depth of braces |
| Glob.TranslateMatches | lib/passes/support/Util.h:142-183 | the pieces of a glob match exactly its strings, whatever follows |
| Glob.AnchoredFound | lib/passes/support/Util.h:142-183 | found anywhere in a string means that the whole string is in the glob |
| Glob.RegexParses | lib/passes/support/Util.h:142-183 | the emitted text is a defined expression exactly when the text is a glob, and then it is the glob's expression |
| Glob.TranslationPreservesLanguage | lib/passes/support/Util.h:142-183 | both directions: same defined inputs, same language |
| Glob.GlobIffBalanced | lib/passes/support/Util.h:142-147 | a text is a glob, and its translation defined, exactly when a one-pass check of braces, brackets and empty alternatives succeeds |
| Glob.UnbalancedExamples | lib/passes/support/Util.h:143-143 | inputs outside the check whose translation is no expression: an open brace and an empty alternative |
| Glob.Glob2Regex | lib/passes/support/Util.h:142-183 | the loop's result, for every balanced glob and every name, matches the name if and only if the glob does |
| CallGraph.JSONCG.GetReachableFunctions | lib/passes/filter/CGInterface.cpp:82-98 | exactly the functions reachable by one or more steps to a callee or an overriding function, for every pick order, cycles included; it ends |
| CallGraph.Graph.DirectlyCalled | lib/passes/filter/CGInterface.cpp:100-114 | exactly the callees of a caller with an entry and, where considered, the functions that override it |
| CallGraph.JSONCG.LookUpBody | lib/passes/filter/CGInterface.cpp:38-38 | the read, and that the entry it may insert changes no later read |
| CallGraph.JSONCG.MatchAll | lib/passes/filter/CGInterface.cpp:47-55 | in any order and with or without early exit: whether some function matches, and if none does, what the bodies say |
| CallGraph.JSONCG.Reachable | lib/passes/filter/CGInterface.cpp:31-69 | the answer in terms of reachability alone, with the counters and the unchanged reading of the body map |
| CallGraph.DocumentedIff | lib/passes/filter/CGInterface.cpp:62-68 | for every call graph and body map, code and comments agree if and only if a match is reachable, the source has no body, nothing is reachable, or the target has a body exactly when all reachable functions do |
| CallGraph.DocumentedDiffers | lib/passes/filter/CGInterface.cpp:49-68 | a call graph and body map on which the code answers never and the comments maybe |
| CallGraph.DocumentedDiffersWhenAsked | lib/passes/filter/CGInterface.cpp:31-69 | the query itself, with or without early exit, answers never on that call graph |
| DefUseChain.DefUseChain.AddToWork | lib/passes/support/DefUseChain.h:35-47 | the unseen values are appended in their order, once each, and all are seen |
| DefUseChain.DefUseChain.Peek | lib/passes/support/DefUseChain.h:49-56 | the value added last, taken out, or nothing exactly for an empty list |
| DefUseChain.DefUseChain.DoTraverse | lib/passes/support/DefUseChain.h:58-93 | the callback is applied exactly once to each value reachable through values neither skipped nor constant, and to no other; it ends on cyclic graphs, and cancelling does not stop it |
| DefUseChain.OnlySkipMatters | lib/passes/support/DefUseChain.h:77-86 | callbacks that skip the same values visit the same values, whatever else they answer, so cancelling stops nothing |

## Left out

- Integer widths: counters, offsets and addresses are unbounded; wrap-around of 32-bit counters and of address arithmetic is not modelled.
- LLVM's data layout: offsets and sizes are given, with the usual facts that members come in order, do not overlap and lie inside. The picture of an LLVM type itself is stated for types without unknown leaves (`Supported`); vectors of 80-bit floats and structs without members or bytes are outside `LaidOut`.
- Names: that a struct name determines its type, and a vector shape its size in bytes, is an assumption (`Determined`); literal structs, whose name is their address in the compiler, satisfy it within one run only.
- Scalable vectors, and scalars that have no built-in id, beyond the unknown type they are mapped to.
- TypeGen.TypeManager.LoadFrom: takes the list of entries; the YAML text and file errors in between are not modelled.
- Exception edges of `EscapeEnumerator` and `longjmp`: activations end at a return. The counter's load and store are one instruction.
- StackScopes.ActivationBalanced: heap and global callbacks of an activation are arbitrary callbacks off the stack, not tied to particular calls of the program.
- Scope counts are natural numbers; a negative argument of the scope exit is not modelled.
- OpenMP variants of callbacks, OpenMP task and executor patterns, array cookies, malloc-user collection and the collection of heap, free and global arguments: heuristics over the shape of LLVM code.
- Counters for arrays and per type id of stack, global and free callbacks, which only the statistics read.
- Filter.FilterFrom: for handlers that look at the path in a program with phi nodes, only what false and the recorded paths mean is stated; the cut-off at a phi seen before may leave out a path there. A null value is not modelled.
- `DFSFuncFilter`: it pops its path once per argument and pushes once per call, and cuts recursion by a known open point, so it has no clean statement.
- Mutexes and the tree behind the address map: locked operations are single steps. `remove_range` and the counting inside it are one step.
- The re-entrancy flag of `RTGuard`.
- The class members of an OpenMP or single-threaded build: the locked map is the only variant.
- Regular expressions beyond what translated globs need: bracket expressions, intervals and case folding; name demangling.
- JSON, environment variables, logging, statistics tables, compiler wrappers, interceptors and demos.
