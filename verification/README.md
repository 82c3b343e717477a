# A verified model of the GJS call engine

GJS calls C functions that it knows only through introspection. For each function it caches a plan, one marshaller per
argument, and runs every call as "convert in, call C, convert out, release". This project models that engine in Dafny
and proves what it keeps: which JS value reaches which C argument, which cells of memory are allocated, handed over and
freed, how long callbacks and views live, and which numbers pass the range checks.

Memory is modelled by numbered heap cells. A C value is a tree whose blocks carry the number of their cell, an allocator
hands out numbers in sequence, and every ownership claim compares two bags of cells by how often each cell occurs. The
callee is nondeterministic: it takes and hands over what the transfer annotations say, and a callee that sets a GError
takes nothing and leaves its out arguments alone.

Loops and objects that the source updates in place are methods and classes here, each proved against a specification
function or predicate; the lemmas are about those.

| module | what it models |
|---|---|
| `Basics`, `JsValues`, `CValues`, `Ledger` | integer types, JS values, introspected types and C values, bags of cells |
| `Numeric` | conversion between JS Numbers and C integers |
| `Marshal`, `MarshalMemory`, `MarshalLoops` | the recursive marshallers for lists, tables and arrays, and what they allocate and free |
| `RoundTrip` | reading the same values back |
| `Meaning`, `ReadingMeans` | what a C value stands for, which both directions respect, and which values can be converted |
| `Containers`, `ContainerMarshallers` | the specialised marshallers for containers of basic elements |
| `ArgsCache`, `CallbackCells` | construction of the plan, and what a callback argument writes by it |
| `Invoke`, `CallCoverage` | the call protocol and what every run of it has in common |
| `Ownership`, `OutFailures` | cells over whole calls; what an output that cannot be converted does to them |
| `WholeCall`, `FreedOnce` | the container marshallers run through a whole call on one heap; exactly when it frees a cell twice |
| `Trampoline`, `TrampolineRuns`, `Closure` | callbacks: reference counts over any run, invalidation, context teardown |
| `BoxedViews`, `BoxedPlaces`, `BoxedLife`, `DirectAllocation`, `FieldNames` | boxed structures: nested views, allocation, field names |
| `CallbackOutputs` | results of calls and results of callbacks |
| `EnumFlags`, `ExplicitArray` | enum bounds and flags masks in 32 bits, arrays with a length argument |

## Where the code does less than one might expect

Each of these is a lemma: the exact condition under which the property holds, and an input for which it does not.

- A property overwritten in a C hash table loses its cells, because the table has no destroy functions. JS names that are
  not numbers are all key 0 of an integer table, and "1.5" is key 1 (`MarshalMemory.InArgumentReclaimed`,
  `MarshalMemory.CollidingNames`).
- The release pass cannot tell a failure of out() from a failure before the call: it then frees in arguments that the
  callee owns (`OutFailures.AlwaysPartitionedIff`, `OutFailures.FreedThoughTaken`).
- A fully transferred output that cannot be converted is freed by its out(). If it shares cells with an argument, as an
  inout value that came back in place does with itself, the release pass frees them a second time
  (`OutFailures.FreedTwiceIff`, `FreedOnce.RunFreesOnceIff`, `OutFailures.FreedTwice`).
- After a failed out() the release pass passes over what JS did not supply, so that returned and out containers other than
  the one that failed are not reclaimed (`OutFailures.HandedOverFreedIff`, `OutFailures.OutputLeaked`).
- What GJS owns of an inout container is not reclaimed if it comes back in place. After transfer EVERYTHING and a completed
  call it owns nothing of it; but in a call that fails it owns all of it, whatever the transfer
  (`Containers.InOutReclaimedIff`, `Containers.InOutLeftOver`).
- The counters of a plan are off by arguments that were counted before something took them over, less those that never
  count: for the in count, user data before its callback and destroy notifies without one; for both, lengths of another
  direction than their array (`ArgsCache.CountsExactIff`, `ArgsCache.SaneEvenIff`, `ArgsCache.MixedLength`).
- Overlapping calls of one function share the closure remembered in the cached argument, and an async callback that fires
  twice is dropped twice (`TrampolineRuns.CountsExactIff`, `TrampolineRuns.OverlapBreaksCounts`,
  `TrampolineRuns.FiringTwiceBreaksCounts`).
- A callback kept forever is dead after shutdown, although C may still call it (`TrampolineRuns.AliveUnlessShutDown`,
  `TrampolineRuns.DeadAfterShutdown`).
- The count of a string array that does not fit the type of its length leaves strings behind, or makes the release read
  past the buffer; so does sharing the length with another array (`ExplicitArray.ReclaimedIff`,
  `ExplicitArray.SharedReclaimedIff`, `ExplicitArray.StringsLeftBehind`, `ExplicitArray.ReadsPastBuffer`).
- Two fields of a structure can have the same name in JS; the cache is then built against the presupposition of its
  insertions (`FieldNames.CreateFieldMap`, `FieldNames.MangledClash`).
- A closure that its context called back stays in that context's notifier set (`Closure.StaleIff`, `Closure.StaleEntry`).
- Array lengths among the outputs, and void pointers, are counted differently by calls and by callbacks
  (`CallbackOutputs.InverseIff`, `CallbackOutputs.LengthLost`, `CallbackOutputs.PointerLost`).
- An enum whose values need both 32-bit types rejects some of them (`EnumFlags.AcceptsIntervalIff`, `EnumFlags.MixedEnum`); an
  enum without values accepts -1 and 0 (`EnumFlags.EmptyEnum`).
- The destructor of a boxed wrapper can reach its assertion (`BoxedLife.UnreachableIff`, `BoxedLife.AssertionReachable`).

## Where comments and code disagree

The model follows the code.

- gi/function.cpp:1040-1041 says the out loop is skipped when the function set its GError. It is not: every out() runs, and
  only the result is dropped.
- gi/arg.cpp:307-312 raises an exception for an out-of-range integer key, but reports success and uses the truncated key.

## Model

| member | source | states |
|---|---|---|
| `Numeric.AcceptedFits` | gi/js-value-inl.h:247-314 | Every JS value accepted for a C integer type, however strings read as numbers, is stored as a value of that type. |
| `Numeric.SmallRoundTrip` | gi/js-value-inl.h:359-395 | C to JS to C is the identity for every 8-, 16- and 32-bit integer. |
| `Numeric.NarrowAccepts` | gi/arg-types-inl.h:53-88 | From the holder type and its range check: an 8- or 16-bit argument accepts a Number if and only if its ToInt32 (section 7.1.6 of ECMA-262) lies in the range of the type, and stores that. |
| `Numeric.Uint32Accepts` | gi/arg-types-inl.h:98-106 | From the same check with a double as holder: a uint32 argument accepts a Number if and only if it is not finite or lies between 0 and 2^32 - 1, and stores its truncation. |
| `Numeric.Int32Wraps` | gi/arg-types-inl.h:89-97 | An int32 argument is never out of range: it is congruent to the truncated Number modulo 2^32. |
| `Numeric.BigIntAccepts` | gi/js-value-inl.h:223-284 | A BigInt is taken as it is where a 64-bit integer is wanted, if it is in range, and refused otherwise. |
| `Numeric.RoundingGivesDoubles` | gi/js-value-inl.h:369-375 | Rounding a 64-bit integer to the nearest double, ties to even, gives a 53-bit significand times a power of two. |
| `Numeric.RoundingKeepsDoubles` | gi/js-value-inl.h:369-375 | Integers that are doubles already are not changed by rounding. |
| `Numeric.NearestDouble` | gi/js-value-inl.h:369-375 | The double a 64-bit integer is rounded to is at least as near as every other double, and of two that are equally near it is the even one. |
| `Numeric.BigRoundTrip` | gi/js-value-inl.h:223-284 | A 64-bit integer comes back from JS unchanged if and only if a double represents its magnitude. |
| `Numeric.SafeRoundTrip` | gi/arg-inl.h:212-231 | The rounding warning is raised for a 64-bit integer exactly beyond a magnitude of 2^53 - 1; without it the integer comes back unchanged. |
| `Numeric.FirstLoss` | gi/arg-inl.h:212-231 | 2^53 + 1 raises the warning and comes back as 2^53. |
| `JsValues.ParsePrint` | gi/arg.cpp:2948-2954 | The property key written for an integer table key reads back as that integer. |
| `Marshal.ToConserves` | gi/arg.cpp:200-282 | For every type and value, each cell a successful conversion allocates is in the C value, or lost to a colliding table key, or freed on the way: one of these, once. |
| `Marshal.InsertConserves` | gi/arg.cpp:284-292 | Inserting into a table without destroy functions keeps, or loses, every cell of the old table and the new entry. |
| `Marshal.InsertAt` | gi/arg.cpp:284-292 | An equal key keeps its place and takes the new value; a new key is appended. |
| `Marshal.FindNone` | gi/arg.cpp:284-292 | The insertion finds an entry exactly when one has an equal key. |
| `MarshalMemory.ToHasType` | gi/arg.cpp:1949-2104 | A converted value has the type it was converted to, at every depth, and no pointer to an array in it is null. |
| `MarshalMemory.ReleaseFreesAll` | gi/arg.cpp:3780-4141 | The type-driven release frees exactly the cells of a well-typed value, each once, unless only the container was transferred; by mutual induction over nested types. |
| `MarshalMemory.InArgumentConserved` | gi/arg.cpp:4171-4194 | Conversion with transfer NOTHING followed by the in-release: every cell allocated is freed, freed on the way, or lost to a colliding key, once. |
| `MarshalMemory.LosesNothing` | gi/arg.cpp:414-495 | However strings read as numbers, a conversion loses a cell if and only if some nested table overwrites a property whose key or value holds one. |
| `MarshalMemory.InArgumentReclaimed` | gi/arg.cpp:4171-4194 | The in-release frees exactly the cells allocated, each once, if and only if no nested table overwrites a property; keys are compared as the numbers JS reads them as, whatever those are. |
| `MarshalMemory.LostToACollision` | gi/arg.cpp:294-315 | Two property names that read as the same int32 are one key of an int32 table, and the value of the first is lost. |
| `MarshalMemory.CollidingNames` | gi/js-value-inl.h:76-80 | Such names: every name that reads as NaN is key 0, and 1.5 and 1 are both key 1. |
| `MarshalLoops.ToBasicValue` | gi/arg.cpp:1480-1681 | Strings allocate one cell, integers none, out-of-range integers and other values are refused. |
| `MarshalLoops.ToValue` | gi/arg.cpp:1949-2104 | The dispatch on the type gives the value, the cells and the failures of the specification, which Meaning.ToMeans ties to what the value means. |
| `Meaning.ToMeans` | gi/arg.cpp:1949-2104 | For every type, value and transfer mode: the conversion succeeds if and only if the value is convertible at every depth, and the C value then stands for the JS value: texts up to the first NUL, integers congruent to theirs, wide numbers as they are, elements in order, and table entries one for one for the properties that are the last of their key. |
| `Meaning.IntegerMeans` | gi/js-value-inl.h:223-314 | A value is converted to an integer if and only if it is accepted (its ToInt32 in range for 8 and 16 bits, in range itself for uint32 and 64 bits, BigInts for 64 bits only), and the integer is the one of its type congruent to it. |
| `Meaning.WideHolds` | gi/arg.cpp:404-412 | A double holds every Number as it is; so does a float, except finite ones beyond its range, which are refused; 64-bit integers hold in-range BigInts and whole Numbers exactly, and other BigInts are refused. |
| `Meaning.LastNumberHeld` | gi/arg.cpp:468-487 | In a table of wide numbers the entry under a name's key holds the number of the last property with that key. |
| `Meaning.WideMeansNumber` | gi/arg.cpp:404-412 | What stands for a Number in a double or float is just that Number; what stands for an in-range BigInt in a 64-bit integer is that integer. |
| `Meaning.InsertMeans` | gi/arg.cpp:487-488 | Inserting a property's entry keeps the table standing for the properties so far, whether its key is new or taken over. |
| `MarshalLoops.ToGList` | gi/arg.cpp:200-282 | Prepending each element and reversing at the end gives the elements in order, one link cell after each element's own cells. |
| `MarshalLoops.ToGHash` | gi/arg.cpp:1790-1873 | The table case: null, non-objects and container transfer of owned elements are decided before anything is allocated. |
| `MarshalLoops.ToTableKey` | gi/arg.cpp:319-402 | A string key allocates a cell; an integer key is the ToInt32 or ToUint32 of the name, cast to its type even when it is out of range. |
| `MarshalLoops.FillTable` | gi/arg.cpp:414-495 | The loop over properties gives the table that inserting them one after the other gives. |
| `MarshalLoops.AddEntry` | gi/arg.cpp:440-491 | One turn of that loop: key, then value, then insertion, or failure of the whole. |
| `MarshalLoops.ToArray` | gi/arg.cpp:1876-1918 | A GArray or GPtrArray is filled from a temporary C array, which is freed. |
| `MarshalLoops.ReleaseValue` | gi/arg.cpp:3780-4141 | The release frees exactly what the specification says, for every type and transfer mode, which MarshalMemory.ReleasedOutIsOwned ties to what the caller owns. |
| `MarshalLoops.ReleaseGList` | gi/arg.cpp:3506-3529 | Elements are released unless only the container was transferred, then the links. |
| `MarshalLoops.ReleaseGHash` | gi/arg.cpp:3675-3711 | Keys and values (also the separately allocated wide ones) unless only the container was transferred, then the table itself. |
| `MarshalLoops.ReleaseArray` | gi/arg.cpp:3740-3777 | Strings unless only the container was transferred, then the array. |
| `MarshalLoops.ReleaseInArg` | gi/arg.cpp:4171-4194 | Only arguments with transfer NOTHING and types that need it are released. |
| `MarshalLoops.ReleaseOutArg` | gi/arg.cpp:4146-4157 | A return value or out argument of any nesting: what the caller owns is freed, once. |
| `MarshalMemory.ReleasedOutIsOwned` | gi/arg.cpp:3780-4141 | With transfer EVERYTHING all cells of the value are freed, with CONTAINER its own links, table or storage and none of what it holds, at any depth, and with NOTHING none. |
| `MarshalMemory.ReleasedInIsOwned` | gi/arg.cpp:4171-4194 | Of an in argument all cells are freed with transfer NOTHING, and none otherwise. |
| `MarshalLoops.PassAndRelease` | gi/arg.cpp:4171-4194 | The loops together: after converting and releasing an in argument, the heap is as before plus exactly the allocated cells freed once, if and only if no nested table overwrites a property. |
| `MarshalLoops.FromValue` | gi/arg.cpp:3141-3180 | Reading a C value back gives the JS value of the specification, for strings, small integers, lists, tables and arrays, which ReadingMeans.FromMeans ties to what the value means. |
| `ReadingMeans.FromMeans` | gi/arg.cpp:3141-3499 | Whatever C value is read back, null pointers included, and in whatever order tables are visited, it stands for the JS value it is read as. |
| `ReadingMeans.TableReadMeans` | gi/arg.cpp:2917-2965 | The properties read from a table stand one for one for its entries. |
| `MarshalLoops.FromGList` | gi/arg.cpp:2292-2323 | The list loop keeps order and turns the null list into the empty array. |
| `MarshalLoops.FromArray` | gi/arg.cpp:2362-2475 | The array loop keeps order; a null array is null. |
| `MarshalLoops.FromGHash` | gi/arg.cpp:2917-2965 | The table loop defines one property after the other, in whatever order the iterator visits them. |
| `RoundTrip.Survival` | gi/arg.cpp:1684-1755 | Canonical values of nested list, table, array, string and small integer types come back as the same JS value. |
| `RoundTrip.FromIsCanonical` | gi/arg.cpp:3040-3139 | Whatever well-typed C value without null arrays is read back, the JS value has canonical form. |
| `RoundTrip.SameIsCanonical` | gi/arg.cpp:3141-3499 | Canonical form does not depend on the order of properties. |
| `RoundTrip.TableShows` | gi/arg.cpp:3085-3139 | A table read in any iteration order equals, as a map, the object it was made from. |
| `RoundTrip.RoundTrip` | gi/arg.cpp:3141-3499 | A converted value, nested lists, tables and arrays included, reads back as itself, for every table iteration order, if and only if it has canonical form. |
| `Containers.InPartition` | gi/arg-cache.cpp:847-866 | In containers: in all three transfer modes, and whether or not the call completed, what is freed and what the callee took partition the argument's cells. |
| `Containers.OutFreesHandedOver` | gi/arg-cache.cpp:883-895 | Returned and out containers: exactly the cells the callee handed over are freed. |
| `Containers.InOutAccounted` | gi/arg-cache.cpp:867-895 | Inout containers: what is freed lies within what GJS owns, cell by cell; only a value that came back in place is left over. |
| `Containers.InOutFreedOnce` | gi/arg-cache.cpp:867-895 | Inout containers: no cell is freed twice. |
| `Containers.InOutReclaimedIff` | gi/arg-cache.cpp:867-895 | Everything GJS owns of an inout container is freed if and only if it did not come back in place or nothing of it was left to GJS. |
| `Containers.InOutLeftOver` | gi/arg-cache.cpp:867-895 | A list transferred completely to a call that fails comes back in place, and its link is left over. |
| `Containers.FastRefinesGeneric` | gi/arg-cache.cpp:883-895 | For basic GList, GSList, GArray and GPtrArray returns and outs, null included, the fast release frees the same cells as the generic one in each transfer mode. |
| `Containers.FastInRefinesGeneric` | gi/arg.cpp:3642-3659 | The same for in arguments with transfer NOTHING. |
| `ContainerMarshallers.BasicTypeContainer.In` | gi/arg-cache.cpp:805-823 | in() of the four families: conversion, the out cell and its address, the saved original. |
| `ContainerMarshallers.BasicTypeContainer.Out` | gi/arg-cache.cpp:825-846 | out() frees a fully transferred value at once when it cannot be converted, and clears its cell. |
| `ContainerMarshallers.BasicTypeContainer.Release` | gi/arg-cache.cpp:847-897 | release() of the four families frees the bags used by the ownership lemmas. |
| `Invoke.InvokeFunction` | gi/function.cpp:864-1101 | The result and the log of every call of a function with up to 255 arguments, whatever its in count, with no 8-bit counter wrapping; CallCoverage.OutcomeIff, CalledIff and EventsInOrder say what these are. |
| `CallCoverage.OutcomeIff` | gi/function.cpp:864-935 | For every function and call: too many arguments, too few JS arguments, a fatal warning for surplus ones and a refused instance end the call, in this order; otherwise it fails if and only if some argument, output or release does, throws if and only if C set its error, and returns if and only if neither. |
| `CallCoverage.CalledIff` | gi/function.cpp:925-1010 | C is called, once, if and only if none of the refusals holds and every argument is converted; the instance of a method is converted, once, if and only if none of the refusals holds. |
| `CallCoverage.EventsInOrder` | gi/function.cpp:957-1155 | Conversions, the call, conversions back and releases follow one another, each in the order of the arguments with the instance and the return value first; nothing happens twice. |
| `Invoke.ConvertIn` | gi/function.cpp:957-1000 | The in loop: conversions in order up to the first failure; the processed counter is their number, plus one for an instance. |
| `Invoke.CallC` | gi/function.cpp:1010-1095 | The argument counts agree at the call, and the out loop follows even if C set its error. |
| `Invoke.ConvertOut` | gi/function.cpp:1040-1095 | The out loop: the return value, then the arguments; the assertion on the number of collected values holds. |
| `Invoke.FinishInvoke` | gi/function.cpp:1104-1185 | The release pass and the final assertion on its position; failure, GError and result are told apart. |
| `Invoke.CollectsAll` | gi/function.cpp:1082-1095 | The number of collected values is the declared out count. |
| `CallCoverage.Conversions` | gi/function.cpp:957-1000 | In every run an argument is converted once, with the JS argument of its rank, exactly if none before it failed; C is called exactly if none failed. |
| `CallCoverage.RefusedIff` | gi/function.cpp:984-1000 | The argument whose conversion fails is the first one to fail, and was given the JS argument of its rank. |
| `CallCoverage.AskedBack` | gi/function.cpp:1040-1079 | The return value and the arguments are asked to convert back once each, up to the first that cannot, unless the raw return value is wanted. |
| `CallCoverage.SavedIff` | gi/function.cpp:1117-1131 | The raw return value is saved, once, if it is wanted and not passed over. |
| `CallCoverage.Ranks` | gi/function.cpp:984-995 | Arguments supplied by JS take different JS arguments, in order, all of them among those passed. |
| `CallCoverage.EveryArgumentUsed` | gi/function.cpp:984-995 | Every declared JS argument is taken by some slot. |
| `CallCoverage.SuppliedIff` | gi/function.cpp:984-995 | Every slot has its JS argument in all calls that are let through if and only if the in count is at least the number of such slots. |
| `CallCoverage.CollectsDeclared` | gi/function.cpp:1040-1095 | A completed run gives exactly the declared number of values, those of the slots that are not skipped, the return value first; and none if the raw return value was wanted. |
| `CallCoverage.Releases` | gi/function.cpp:1104-1155 | The release pass visits the instance, the return value and precisely the converted arguments, once each; after a failure it passes over what JS did not supply. |
| `Ownership.CallConserves` | gi/function.cpp:864-1185 | Every whole call, refused, thrown, completed or with an output that cannot be converted, with or without a raw return value: every cell allocated for a list or array argument or obtained from C is freed, taken over, handed on raw, or left in an inout value that was still in place; one of these, once. After a failed out() nothing counts as taken over, and of the outputs only the one that failed is seen to. |
| `Ownership.NothingFreedTwice` | gi/function.cpp:864-1185 | In every call no cell is freed twice, values that come back from C included, if a cell is allocated once and obtained back only after it was taken; and a cell that was taken and not handed back is not freed, unless an out() failed. |
| `Ownership.InArgumentsPartition` | gi/arg-cache.cpp:847-866 | With in arguments alone, over the whole log, freed and taken over partition what was allocated; after an out() failure everything allocated is freed. |
| `OutFailures.InArgumentsOnly` | gi/arg-cache.cpp:853-866 | Restricted to in arguments, a run frees by each event what it frees by the releases of in arguments. |
| `OutFailures.PartitionIff` | gi/function.h:150-156 | In every run of any call, over its whole log, what is freed of in arguments and what the callee took of them partition what was allocated for them if and only if no out() failed or the callee took nothing of them: after an out() failure the release pass frees what the callee owns. |
| `OutFailures.AlwaysPartitionedIff` | gi/function.h:150-156 | From the signature and the values alone, for any call: that holds in every run if and only if there are no outputs, or no cells of in arguments to take, or an argument that cannot be passed. |
| `OutFailures.FreedThoughTaken` | gi/function.cpp:1104-1155 | A run in which a list link is taken over by the callee and freed by GJS. |
| `OutFailures.DiscardedIs` | gi/arg-cache.cpp:836-842 | A failed out() frees the cells of its value exactly if the value is fully transferred. |
| `OutFailures.FreedTwiceIff` | gi/arg-cache.cpp:867-881 | In a run with a failed out(), where cells are allocated once: a cell is freed twice if and only if the output that failed is fully transferred and shares the cell with an argument whose given value the release pass frees, be it an in argument or an inout argument whose cell holds something else by then. |
| `OutFailures.FreedTwice` | gi/arg-cache.cpp:867-881 | A run in which a list passed for input and output, transferred completely and back in place, is freed by out() and again by release(). |
| `OutFailures.HandedOverFreedIff` | gi/function.cpp:1104-1155 | In a run with a failed out(), a cell that C handed over, not allocated for an argument, is freed if and only if it is of the output that failed and that is fully transferred: the other outputs are not reclaimed. |
| `OutFailures.OutputLeaked` | gi/function.cpp:1104-1155 | A run in which a returned list is not reclaimed because a later output could not be converted. |
| `Ownership.GivenIsAllocated` | gi/arg-cache.cpp:805-811 | The cells of a converted list or array, with the temporary buffer, are those its conversion allocated. |
| `WholeCall.EnterAll` | gi/function.cpp:957-1000 | Converting the arguments one after the other on one heap leaves each one's cells as C is to see them, and frees the temporary buffers only. |
| `WholeCall.ShowAll` | gi/function.cpp:1040-1095 | The out loop of the container marshallers frees what the log's events are said to free, and clears the cell of a fully transferred value that could not be converted. |
| `WholeCall.ReleaseAll` | gi/function.cpp:1104-1155 | So does the release pass, which finds every cell as the earlier phases left it. |
| `WholeCall.RunWhole` | gi/function.cpp:864-1185 | A whole call run with the container marshallers on one heap, refused conversions, errors and failed outputs included: the heap frees exactly what the books say of the log of that run, and the temporary buffers. |
| `FreedOnce.AllocatedOrScratch` | gi/function.cpp:957-1000 | The cells of converted arguments and the temporary buffers are, together, those allocated, each once. |
| `FreedOnce.FreedTwiceAtIff` | gi/function.cpp:864-1185 | In every run against a callee that hands over only cells it took or cells not of this call: a cell is freed twice, temporary buffers included, if and only if an out() failed and the cell is shared in that way. |
| `FreedOnce.RunFreesOnceIff` | gi/function.cpp:864-1185 | So the heap of a whole call run against such a callee frees a cell at most once if and only if it is not shared in that way. |
| `ArgsCache.Cache.BuildReturn` | gi/arg-cache.cpp:2825-2972 | The return slot; an array return takes over its length argument and is itself set without flags. |
| `ArgsCache.Cache.BuildArg` | gi/arg-cache.cpp:3667-3825 | One argument: its slot, the slots it takes over, and whether it counts; ArgsCache.BuiltSuits and ClaimedFor say what is in them. |
| `ArgsCache.Cache.BuildArray` | gi/arg-cache.cpp:3798-3817 | An array takes over its length; it does not count if the length was counted already. |
| `ArgsCache.Function.Init` | gi/function.cpp:1289-1355 | For every callable whose positions are in range, lengths of another direction included: every slot has the marshaller its description calls for, with its own positions, the return value's and instance's too, or is taken over by an argument that names it; both counters are known exactly, in 8 bits; more than 253 slots are refused. |
| `ArgsCache.BuiltSuits` | gi/arg-cache.cpp:3667-3825 | Which marshaller an argument gets, each case if and only if: a callback's with its destroy and closure positions, an array's with its length position, the four that cannot be introspected, structures allocated by the caller, ordinary ones. |
| `ArgsCache.ClaimedFor` | gi/arg-cache.cpp:2718-2794 | A slot that is taken over is an array length that C fills in only for an array passed out or returned, and passed over only for another argument that names it. |
| `ArgsCache.LengthsPassedOut` | gi/arg-cache.cpp:2724-2794 | If lengths have the direction of their arrays, C fills in exactly the lengths that are passed out. |
| `CallbackCells.CallbackIn.In` | gi/arg-cache.cpp:1877-1943 | in() writes the function pointer, the destroy notify and the user data to the three cells named, and no other; null for a null callback; nothing if it gives up. |
| `CallbackCells.PassCallback` | gi/arg-cache.cpp:3768-3791 | A callback through the initialised plan: notify and user data land in the cells the callable names for them. |
| `ArgsCache.Function.ReadPlan` | gi/function.cpp:957-1000 | The plan a call follows, read off the slots, is the one the claims describe. |
| `ArgsCache.InitAndInvoke` | gi/function.cpp:1289-1355 | Initialisation and call composed, for every callable whose out count is exact, whatever its in count: the call has the outcome the protocol gives for that plan. |
| `ArgsCache.CountsExactIff` | gi/function.cpp:1324-1352 | The in count is the number of slots JS supplies, and the out count the number of slots that give JS a value plus the return value, if and only if as many slots were taken over after they were counted as arguments were not counted. |
| `ArgsCache.SaneEvenIff` | gi/function.cpp:1318-1352 | If lengths have the direction of their arrays, the out count is always exact, and the in count if and only if there are as many user data slots before their callback as destroy notifies without one. |
| `ArgsCache.ClaimsOrderFree` | gi/arg-cache.cpp:3768-3816 | Which slots are taken over does not depend on the order of the arguments, shared lengths included. |
| `ArgsCache.PlanConsistent` | gi/function.cpp:1289-1355 | For every well-formed callable the counters and slots are what the call protocol relies on. |
| `ArgsCache.UserDataFirst` | gi/arg-cache.cpp:3768-3791 | User data before its callback: two JS arguments are asked for, one is used. |
| `ArgsCache.LooseNotify` | gi/arg-cache.cpp:3756-3767 | A destroy notify without a callback is not counted but not skipped. |
| `ArgsCache.MixedLength` | gi/arg-cache.cpp:3798-3817 | An out length before its in array throws both counts off by one. |
| `Trampoline.StepIff` | gi/arg-cache.cpp:1877-1943 | From a state in which each count is the number of its holders, a step keeps that if and only if a call that ends finds its own closure in the shared field and an async callback that ran was still pending. |
| `TrampolineRuns.CountsExactIff` | gi/arg-cache.cpp:2468-2481 | In every run, overlapping calls and repeated callbacks included, the counts have been right all along if and only if whenever a call ended the callback passed last was its own, and no async callback ran twice. |
| `TrampolineRuns.SerialIsDisciplined` | gi/arg-cache.cpp:2468-2481 | Calls that do not overlap, or overlap passing null, end in that way. |
| `TrampolineRuns.RunTracks` | gi/function.cpp:712-729 | Which holders a trampoline has, the queue for the next collection included, follows from the history of steps: passed, invoked, returned, notified, collected, shut down. |
| `TrampolineRuns.CountsHolders` | gi/function.cpp:712-729 | In every serial run count equals holders, and a trampoline dies exactly when the last has let go. |
| `TrampolineRuns.AliveUnlessShutDown` | gi/function.cpp:712-729 | A callback that its scope still entitles C to call, judged by the history, is alive, unless it was to be kept forever, shutdown has come, and no call or invocation is in progress; and then it is dead. |
| `TrampolineRuns.DeadAfterShutdown` | gi/function.cpp:712-729 | A run in which a forever callback is dead after shutdown. |
| `TrampolineRuns.RevivedByInvoking` | gi/function.cpp:719-729 | In a disciplined run a dead trampoline gets a reference only by being invoked. |
| `TrampolineRuns.DeadStaysDead` | gi/function.cpp:719-729 | So it stays dead for good if C invokes only what its scope entitles it to; unless it was to be kept forever and shutdown has come. |
| `TrampolineRuns.CallEnds` | gi/arg-cache.cpp:2468-2481 | At the end of a call its trampoline dies exactly if nothing but the call held it. |
| `TrampolineRuns.OverlapBreaksCounts` | gi/arg-cache.cpp:2468-2481 | Two overlapping calls release the inner call's trampoline twice and the outer one's never, through the shared closure field. |
| `TrampolineRuns.FiringTwiceBreaksCounts` | gi/function.cpp:344-352 | A run from the start in which an async callback that fires twice is dropped once too often. |
| `Trampoline.Callbacks.In` | gi/arg-cache.cpp:1877-1943 | in(): one reference for the call, one each for destroy notify, async use and being kept forever; a wrong object strands the trampoline. |
| `Trampoline.Callbacks.Release` | gi/arg-cache.cpp:2468-2481 | release(): drops a reference to the remembered closure, whichever call that was passed to. |
| `Trampoline.Callbacks.InvokeCallback` | gi/function.cpp:344-352 | An invocation holds a reference; an async one that ran hands its reference to the collection queue. |
| `Trampoline.Callbacks.Sweep` | gjs/context.cpp:918-924 | A collection drops the queued references, shutdown the list of those kept forever. |
| `BoxedViews.StepKeepsValid` | gi/boxed.cpp:496-561 | Constructions, wraps of C memory, reads, writes, C's frees and collections of unreachable objects keep every view inside its parent and every parent alive. |
| `BoxedViews.NoViewDangles` | gi/boxed.cpp:496-561 | In every run a live object lies inside the memory of the live object at the end of its parent chain; that memory has been freed if and only if it was C's and C freed it. |
| `BoxedViews.FreedByCOnly` | gi/boxed.cpp:445-470 | While the root of a chain is alive, only C frees its memory. |
| `BoxedViews.WritesStayInside` | gi/boxed.cpp:657-729 | Writing a nested structure between structures that wrappers own copies from live memory into live memory. |
| `BoxedViews.SlotKeepsParent` | gi/boxed.cpp:552-557 | A collection that spares a view spares the owner of its memory. |
| `BoxedPlaces.ReadGives` | gi/boxed.cpp:523-561 | Reading a field gives the object stashed there, or a view of just that field's bytes in its parent. |
| `BoxedPlaces.WriteThenRead` | gi/boxed.cpp:657-729 | A structure with pointers written to a field is what reading the field gives, and is kept alive; writing one without leaves all objects as they were. |
| `BoxedPlaces.Provenance` | gi/boxed.cpp:523-561 | In every run each live object was made by the step that constructed, wrapped or read it, and is still where that step put it. |
| `BoxedPlaces.ViewStartsAt` | gi/boxed.cpp:545-552 | In every run a live view starts at the sum of the offsets of the fields read along its chain, and has the size of the last of them. |
| `BoxedPlaces.DisjointFields` | gi/boxed.cpp:545-552 | Views of disjoint fields of one structure do not overlap. |
| `BoxedViews.Realm.GetNested` | gi/boxed.cpp:523-561 | The stashed object if there is one, else a new view of the field's bytes that refers to its parent. |
| `BoxedViews.Realm.SetNested` | gi/boxed.cpp:717-723 | Only a structure with pointers keeps its source alive. |
| `BoxedViews.Realm.FinalizeAll` | gi/boxed.cpp:445-470 | Finalizers in any order remove exactly the collected objects and free exactly the allocations of those that own one. |
| `BoxedLife.FindConstructors` | gi/gi-utils.cpp:99-137 | Which constructor functions count as zero-argument and default constructors. |
| `BoxedLife.BoxedInstance.Construct` | gi/boxed.cpp:335-443 | Each of the constructor's cases: whether it succeeds, which memory the wrapper then has and whether it owns it, direct allocation being decided from the fields; the pointer is set at most once. |
| `BoxedLife.BoxedInstance.Init` | gi/boxed.cpp:936-967 | Wrapping a C structure by copy, reference, or sharing: which succeeds for which types, and which memory it gives; the pointer is set at most once. |
| `BoxedLife.BoxedInstance.Destroy` | gi/struct.cpp:74-79 | Whichever way the wrapper was made, what is freed is freed by the deallocator that matches its allocator, and forgotten; nothing is freed exactly if the wrapper does not own it; the assertion is hit only for memory from a constructor function of another registration. |
| `BoxedLife.MatchingDeallocator` | gi/boxed.cpp:445-470 | Owned memory is freed by the deallocator that matches its allocator; shared memory is not freed. |
| `BoxedLife.UnreachableIff` | gi/boxed.cpp:445-470 | The destructor's assertion is hit exactly for types registered as neither boxed nor variant, made by a zero-argument constructor function. |
| `BoxedLife.SafeTypes` | gi/boxed.cpp:445-470 | It is not hit for boxed, variant, unregistered or directly allocated types. |
| `BoxedLife.AssertionReachable` | gi/boxed.cpp:445-470 | A type for which it is hit. |
| `DirectAllocation.AllocatedIff` | gi/gi-utils.cpp:18-39 | A field's type can be allocated directly if and only if no opaque structure and no other interface occurs in it, at any depth. |
| `DirectAllocation.SimpleIff` | gi/gi-utils.cpp:46-60 | The same of a structure, which must have fields. |
| `DirectAllocation.PointersIff` | gi/gi-utils.cpp:63-97 | A type has pointers if and only if a typed pointer occurs in it, at any depth. |
| `FieldNames.FindUniqueJsFieldName` | gi/boxed.cpp:796-807 | The mangling loop terminates for every finite set of methods. |
| `FieldNames.MangledIsMinimal` | gi/boxed.cpp:796-807 | The result avoids all methods, and is the field's name with the fewest underscores that does. |
| `FieldNames.MangledOnce` | gi/boxed.cpp:796-807 | Mangling is idempotent. |
| `FieldNames.CreateFieldMap` | gi/boxed.cpp:166-187 | The field cache: each JS name leads to a field of that name, and the insertions' presupposition that the key is new holds if and only if the mangled names are distinct. |
| `FieldNames.LookupFindsIff` | gi/boxed.cpp:211-235 | With any such cache, a name is found if and only if some field has it in JS; lookup by C name and by JS name agree, and every field finds its own entry if and only if the mangled names are distinct. |
| `FieldNames.MangledClash` | gi/boxed.cpp:796-807 | Mangled names can clash. |
| `CallbackOutputs.CallCollects` | gi/function.cpp:1048-1090 | The outputs of a signature are what a completed call collects. |
| `CallbackOutputs.PackResult` | gi/function.cpp:1166-1184 | The JS result is one that a callback of any compatible signature with this many outputs takes apart again, each output getting its own value. |
| `CallbackOutputs.UnpackResult` | gi/function.cpp:516-613 | What a callback assigns from its JS result, for every result: the single output, the elements in order, or an exception exactly for a result that should be an array and is not. |
| `CallbackOutputs.InverseIff` | gi/function.cpp:516-613 | Packing and unpacking are inverse for all values if and only if the signature is compatible: no array lengths among the outputs, no void pointer returned, untyped pointers only beside enough other outputs. |
| `CallbackOutputs.IncompatibleLoses` | gi/function.cpp:437-457 | For an incompatible signature no result, of whatever values, is given back. |
| `CallbackOutputs.LengthLost` | gi/function.cpp:516-613 | An out array with its length: what a call shows, a callback cannot take apart. |
| `CallbackOutputs.PointerLost` | gi/function.cpp:437-457 | A void pointer returned: a call shows it, a callback does not take it. |
| `Closure.EveryLife` | gi/closure.cpp:26-161 | In every order of events: valid exactly while the callable is held and until invalidation, registered exactly if rooted and valid while the context lives, counted exactly until invalidated. |
| `Closure.InvalidIff` | gi/closure.cpp:101-161 | In every order of events the closure is invalid exactly after it was invalidated or destroyed, or its context ended while it was rooted. |
| `Closure.NothingCallsTheDead` | gi/closure.cpp:89-115 | A destroyed closure is registered exactly if it is rooted and its context had gone down before anything but invocations happened to it; never with a living context; and a context that went down calls nobody again. |
| `Closure.UnregisteredAtTheEnd` | gi/closure.cpp:89-99 | Without context finalization nothing stays registered or counted after destruction. |
| `Closure.StaleIff` | gi/closure.cpp:101-115 | After context finalization an entry stays if and only if the closure is rooted and nothing but invocations had happened to it before. |
| `Closure.StaleEntry` | gi/closure.cpp:101-115 | A run in which the entry of a destroyed closure stays. |
| `Closure.StepKeepsSound` | gi/closure.cpp:89-161 | Each event keeps these invariants, and the counter never rises. |
| `Closure.GjsClosure.constructor` | gi/closure.cpp:26-53 | Creation: counted, and registered if rooted. |
| `Closure.GjsClosure.UnsetContext` | gi/closure.cpp:89-99 | Unregisters only rooted closures that still hold their callable. |
| `Closure.GjsClosure.Reset` | gi/closure.h:98-104 | Drops the context, then the callable. |
| `Closure.GjsClosure.GInvalidate` | gi/closure.cpp:129-161 | The invalidate notifier chosen at creation runs, once. |
| `Closure.GjsClosure.GlobalContextFinalized` | gi/closure.cpp:101-115 | The callback of the context's walk does not touch the notifier set being walked. |
| `Closure.GjsClosure.Finalize` | gi/closure.h:31-44 | The last unref: invalidation, then the destructor. |
| `EnumFlags.EnumIn.constructor` | gi/arg-cache.cpp:2976-2995 | The fold over the declared values gives the least and the greatest, packed into 32 bits. |
| `EnumFlags.EnumIn.In` | gi/arg-cache.cpp:2061-2090 | A number is accepted if and only if it lies between the least and the greatest declared value, when one 32-bit type holds them all; up to the greatest minus 2^32 when none does; -1 and 0 when there are none. What is stored reads back as the number if and only if the storage type holds it, in particular if that type holds all declared values. |
| `EnumFlags.AcceptedWhen` | gi/arg-cache.cpp:2061-2090 | The three cases of acceptance, from the packed bounds. |
| `EnumFlags.AcceptsIntervalIff` | gi/arg-cache.cpp:2061-2090 | For values that are each representable in 32 bits: exactly the interval from least to greatest is accepted if and only if all fit one 32-bit type. |
| `EnumFlags.AcceptsMembers` | gi/arg.cpp:110-124 | Every declared value passes the range check. |
| `EnumFlags.MixedEnum` | gi/arg-cache.cpp:2976-2995 | The enum of -1 and 2^32 - 1 accepts only -1. |
| `EnumFlags.EmptyEnum` | gi/arg-cache.cpp:2976-2995 | An enum without values accepts -1 and 0. |
| `EnumFlags.ReadsBackIff` | gi/gi-utils.h:42-53 | A stored value reads back unchanged if and only if the storage type holds it. |
| `EnumFlags.AcceptedReadsBack` | gi/gi-utils.h:42-53 | Accepted values do, when the storage has the signedness of the values. |
| `EnumFlags.FlagsIn.constructor` | gi/arg-cache.cpp:2997-3009 | The mask is the OR of the declared values. |
| `EnumFlags.FlagsIn.In` | gi/arg-cache.cpp:2093-2112 | A number is accepted if and only if it is in [0, 2^32) and each of its bits is declared, and is stored as it is. |
| `EnumFlags.MaskBits` | gi/arg-cache.cpp:2997-3009 | A bit is in the mask exactly if some declared value has it. |
| `EnumFlags.FlagsAcceptIff` | gi/arg-cache.cpp:2093-2112 | A number is accepted if and only if it is in [0, 2^32) and each of its bits occurs in a declared value. |
| `EnumFlags.SameAsGeneric` | gi/arg.cpp:93-108 | The generic check accepts the same numbers when the class mask is that OR. |
| `ExplicitArray.LengthSurvivesIff` | gi/arg-inl.h:258-281 | An element count written to a length cell is read back unchanged if and only if it fits the length's type. |
| `ExplicitArray.BufferAllocated` | gi/arg.cpp:1024-1085 | The buffer has one item per element and holds exactly the cells allocated. |
| `ExplicitArray.BufferMeans` | gi/arg.cpp:1024-1085 | The buffer stands for the array item by item, and is made exactly for the arrays whose items can be converted. |
| `ExplicitArray.AllFreed` | gi/arg.cpp:4211-4227 | Releasing with the right length frees exactly those, each once. |
| `ExplicitArray.LengthSeen` | gi/arg-cache.cpp:1575-1589 | Wherever the length argument stands, C sees the element count if and only if it fits. |
| `ExplicitArray.SharedLength` | gi/arg-cache.cpp:1575-1589 | Arrays that share a length all see the count of the last one, as its type stores it. |
| `ExplicitArray.ArrayIn.In` | gi/arg-cache.cpp:1575-1589 | in() converts the array and writes both cells. |
| `ExplicitArray.ArrayIn.Release` | gi/arg-cache.cpp:1594-1605 | release() reads the length back and frees under transfer NOTHING or an uncompleted call; a length beyond the buffer is reported, since the source then reads past it. |
| `ExplicitArray.ReclaimedIff` | gi/arg-cache.cpp:1572-1606 | Release with any length stays inside the buffer and frees exactly what was allocated if and only if the elements are not strings, or the length is the count or falls short of null elements only. |
| `ExplicitArray.FittingServes` | gi/arg-inl.h:258-281 | A count that fits the length's type is such a length when read back. |
| `ExplicitArray.SharedReclaimedIff` | gi/arg-cache.cpp:1594-1605 | After all in() calls, the release of an array reclaims it if and only if the count of the last array with the same length argument, as read back, is such a length for it. |
| `ExplicitArray.StringsLeftBehind` | gi/arg-cache.cpp:1594-1605 | 256 strings with a uint8 length: none of the strings is freed. |
| `ExplicitArray.ReadsPastBuffer` | gi/arg-cache.cpp:1594-1605 | 128 strings with an int8 length: the release reads past the buffer. |
| `ExplicitArray.PassAndRelease` | gi/arg-cache.cpp:1572-1606 | An array and its length through a whole call that keeps nothing: exactly what was allocated is freed, if and only if the count as read back is such a length. |

## Left out

- Objects, interfaces, fundamental types, params, foreign structs, GdkAtom, GValue and GError conversion: dispatch to code
  that is not part of this model.
- JS engine, libffi, GLib and typelib internals: only the contracts the engine relies on appear, as allocation, reference
  counts, table insertion in some iteration order, and the annotations of a callable.
- Text: strings are sequences of characters; UTF-8 and filename encoding, lone surrogates and unichar are not modelled. C
  text ends at the first NUL.
- Booleans, unichar and GType as elements or keys: they behave like small integers.
- Numbers from strings: how JS reads strings other than decimal integers is a parameter of every statement. Objects count
  as NaN, so that `valueOf` is not modelled, and negative zero is zero.
- Precision of the C type float: a float in a table keeps the value of the JS Number.
- Array-like objects, typed arrays and strings passed as arrays: arrays are JS arrays.
- Zero-terminated and fixed-size C arrays, GByteArray and Uint8Array, arrays of non-basic elements, inout arrays whose
  length C changed.
- GPtrArray of integers as memory: the source copies the integers' bytes as if they were pointers; items are values here.
- Values that fail to convert halfway: the cells of the part already converted are leaked by the source and are outside
  every ledger here.
- StringIn, BasicGHashIn and ByteArrayIn in the whole-call ledger: they do not reclaim their argument after a failure.
- Running out of memory, profiler labels, error texts and debug output.
- GIArgument cells hold values, and the fast containers read them whole; clearing a cell after its release is modelled
  only where a later release looks at it (a failed out()).
- Small-buffer optimisation of the cell arrays.
- RoundTrip.RoundTrip: does not cover wide numbers in tables, which are read back as pointers by code of GLib's
  introspection library, nor byte arrays, nor integers in a GPtrArray.
- MarshalLoops.FromValue: wide numbers read back as undefined, for the same reason.
- ArgsCache.Function.Init: positions outside the argument list are excluded, since the source does not check them. What
  kind of marshaller an ordinary argument gets is not modelled, since counters and skip flags do not depend on it.
- Invoke.InvokeFunction: takes the outcome of each marshaller and of the C function as given; callables with 256 or more
  arguments, which initialisation refuses, are excluded.
- BoxedViews.WritesStayInside: memory that pointers inside a structure refer to is not modelled, only that its source is
  kept alive.
- BoxedLife.BoxedInstance.Construct: setting fields from a property bag is one yes-or-no outcome.
- WholeCall.RunWhole: marshallers other than those of basic containers leave the heap alone, and the conversion that fails
  is not run, since its cells are leaked.
- Closure.EveryLife: one closure and its context; code that other closures run while the context walks its notifiers is
  not modelled.
- ExplicitArray.ArrayIn.Release: what a read past the buffer yields is not modelled, only that it happens.
