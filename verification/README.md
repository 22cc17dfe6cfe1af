# Verified model of the hard algorithms of the LLVM front end of SVF

SVF reads LLVM bitcode, rewrites it, infers object types, builds symbol tables, a control-flow graph,
class hierarchies and an intermediate representation. This project models the parts of that front end
that are self-contained algorithms over graphs, trees and sequences, and proves what they compute.
Values, types, instructions, debug types and constants are datatypes or tables indexed by ids; objects
whose methods update fields are classes; worklists, visited sets and caches are updated in loops as the
source updates them.

| file | what it models |
|---|---|
| `CacheWalk.dfy`, `WalkInvariant.dfy`, `MemoisedQuery.dfy` | the two-phase `(value, canUpdate)` stack walk with a persistent cache, over any finite graph, cyclic ones included: what it computes, what it keeps, and what a query leaves |
| `CacheOrder.dfy`, `ClosingOrder.dfy`, `FreshQueries.dfy` | sequences of such queries: which entries are exact, what the order of closing decides, and when all answers are exact |
| `CleanGraphs.dfy`, `CacheExamples.dfy`, `AllocAnswers.dfy` | what an unclean graph does, the walk on small graphs, and the walk to allocations on programs |
| `ValueGraph.dfy`, `ObjTypeInference.dfy`, `ProgramAnswers.dfy` | the edges of the three walks of `ObjTypeInference`, its caches and the choice of the largest type, and what the walks find on a program, kind of value by kind of value |
| `ConstantExprs.dfy`, `BreakConstants.dfy`, `BreakConstantsPass.dfy` | the pass that hoists constant expressions into instructions, with a semantics of control paths |
| `Flattening.dfy`, `TypeInfo.dfy` | flattened types, and the memoised collectors that fill the type tables |
| `GepOffset.dfy`, `GlobalInit.dfy` | address offsets and global initialisers, which index the flattened types |
| `DebugTypes.dfy`, `DCHG.dfy` | equality of debug types, canonical representatives, the class hierarchy graph and its queries |
| `ControlFlow.dfy`, `ICFG.dfy` | stepping over intrinsic calls, and the builder of the interprocedural control-flow graph |
| `Symbols.dfy` | collecting the symbols of constants against using them |
| `CollectGlobals.dfy` | the nodes that global variables lead to |
| `Neighborhood.dfy`, `ExportGraph.dfy` | the neighbourhood of an object in the value-flow graph, and its export |
| `CHGMaps.dfy`, `VirtualFunctionIds.dfy` | ancestor and descendant maps, and the ids of virtual functions |
| `Brackets.dfy` | innermost angle brackets of a demangled name |
| `Options.dfy`, `Collections.dfy`, `Graphs.dfy` | a missing value, positions in sequences, sizes of sets, closed chains in finite graphs |

The main results:

- A walk over a cyclic graph answers the query it was asked exactly, although the entries it caches on
  the way may be partial. The proof carries a spanning tree of the values opened so far: a value closes
  only after everything opened after it, so the queried value collects what every other one holds. For a
  cache that earlier queries left in any state, the answer is characterised exactly too (`Answer`), every
  entry stays sound, and entries are written once.
- Later queries are not always exact. An entry is partial when its value closed before a neighbour that had
  more to give: on a cycle, or because the neighbour was on the list already and was not pushed again, which
  happens on acyclic graphs too (`SharedIsPartial`, `LaterAnswerMisses`). The order of closing decides it,
  and that order follows from the edges and the cached keys alone: a query leaves exact entries only, if
  and only if each contribution that a closed value reaches is its own or is reached by a neighbour that
  was cached or closed before it. A walk beside a cache goes the same way as the walk without it, so all
  sequences of queries are answered exactly if and only if each query alone, on an empty cache, meets this
  condition (`AnswersExactlyIffHandsOn`, for every flow).
- A condition on the edges alone suffices: the graph is clean, that is, no two distinct values reach each
  other, and no neighbour of a value is reached from another one listed after it. It is not necessary for
  the walk to allocations (`CycleIsAnswered`), where phis, casts and loads contribute nothing. But an
  allocation that is listed before another neighbour leading to it always makes some sequence inexact, and
  so do two values on a cycle that each contribute something of their own.
- On a program the three walks find exactly what a relation on its instructions leads to, the least one
  closed under a step for each kind of value or user (`FindsExactly`); the inferred type is that of a site
  the value flows to, and no other such site's counts more (`InferredOnProgram`).
- Breaking constant expressions is a sequence of conversions. Each keeps the value of every original
  instruction along every control path and lowers a weight; at the end no operand is convertible.
- The recorded offset of array element `i` is exactly `i` times the flattened size of an element, in
  32- and 64-bit arithmetic; summed offsets of index paths are positions in the flattened sequence,
  and leaf paths and positions correspond one to one, whatever arrays of length zero the type holds;
  an offset is that of the sub-object that the indices read as, a variable or out-of-range one as the first
  element; initialisers store to ascending positions of the right type, consecutive ones when written out
  in full, and to no field twice, and each constant by the edges for its kind.
- Debug-type equality is equality of keys, representatives separate exactly the classes of that equality,
  memoised child queries find exactly the nodes that reach a type when the edges that they follow close no
  cycle, and the completed graph is acyclic with void below every node.
- The control-flow graph holds the nodes of every covered instruction once and exactly the specified
  edges, each with its label (`EdgesAre`, `BranchLabels`, `SwitchLabels`, `OtherLabels`); the source's
  assertions cannot fail when no terminator is an intrinsic call, and can when one is
  (`SharedPadIsMetTwice`, `SplitBranchHasThreeWays`).
  Stepping over intrinsic calls ends exactly when control cannot go round through intrinsic calls only.
- After any sequence of collections, everything in the symbol table can be processed without a missing
  symbol at any depth.

## Model

| member | source | states |
|---|---|---|
| MemoisedQuery.Step | svf-llvm/lib/ObjTypeInference.cpp:556-654 | one turn of the stack loop keeps the walk's invariant; it handles an entry `(value, canUpdate)` once, so a query handles at most two per value |
| CacheWalk.AnswerIsSound | svf-llvm/lib/ObjTypeInference.cpp:545-656 | with sound caches, everything a query can collect is contributed by a value the queried one reaches |
| CacheWalk.AnswerIsComplete | svf-llvm/lib/ObjTypeInference.cpp:545-656 | with complete entries where the walk meets the cache, the answer has every contribution reachable from the queried value |
| CacheWalk.AnswerIsExact | svf-llvm/lib/ObjTypeInference.cpp:545-656 | from caches whose entries are exact, what the walk may collect is exactly what is reachable, cycles included |
| WalkInvariant.Opened | svf-llvm/lib/ObjTypeInference.cpp:564-642 | opening a value extends the spanning tree and keeps the whole invariant |
| WalkInvariant.Closed | svf-llvm/lib/ObjTypeInference.cpp:643-654 | closing a value writes an entry that was not there and keeps the whole invariant |
| WalkInvariant.LaterAreClosed | svf-llvm/lib/ObjTypeInference.cpp:556-654 | values close in the reverse of the order they opened in, whatever cycles join them |
| MemoisedQuery.RootHasAll | svf-llvm/lib/ObjTypeInference.cpp:545-656 | when the stack is empty the queried value's entry holds that of every opened value |
| MemoisedQuery.Concluded | svf-llvm/lib/ObjTypeInference.cpp:545-662 | an empty stack leaves the exact answer for the queried value, adds entries only, and keeps the caches sound |
| MemoisedQuery.QueryAnswered | svf-llvm/lib/ObjTypeInference.cpp:545-662 | whatever the cache held, a query leaves the characterised answer for its value, keeps old entries, and adds one for exactly the uncached values it reaches without passing a cached one |
| CacheWalk.AnsweredExactly | svf-llvm/lib/ObjTypeInference.cpp:545-662 | with exact entries beforehand the queried entry is exactly what is reachable |
| WalkInvariant.NoneWaiting | svf-llvm/lib/ObjTypeInference.cpp:556-654 | on a clean graph no neighbour of a value about to close waits below it to be closed |
| WalkInvariant.NoneLeft | svf/include/Util/WorkList.h:257-267 | nor is one further down on the list that was not pushed again |
| CacheWalk.ExtendsKeepsSound | svf-llvm/lib/ObjTypeInference.cpp:545-656 | adding the entries of any query, cyclic or not, keeps every entry sound |
| CacheOrder.CleanQueryIsComplete | svf-llvm/lib/ObjTypeInference.cpp:545-662 | a query over a clean part of the graph leaves exact entries only, if it found such |
| CacheOrder.CycleIsPartial | svf-llvm/lib/ObjTypeInference.cpp:545-662 | a query that meets two distinct uncached values that reach each other, each with a contribution that no other value makes, leaves a partial entry |
| CacheOrder.CycleIsAlwaysPartial | svf-llvm/lib/ObjTypeInference.cpp:545-662 | so it does in any sequence of queries started on empty caches |
| CleanGraphs.LaterReachesEarlier | svf/include/Util/WorkList.h:257-267 | so does a query for a value with a neighbour that makes a contribution of its own and is reached from another neighbour, listed after it |
| CleanGraphs.LaterAlwaysReachesEarlier | svf/include/Util/WorkList.h:257-267 | so it does in any sequence of queries started on empty caches |
| CleanGraphs.AnswersExactlyIffClean | svf-llvm/lib/ObjTypeInference.cpp:545-662 | for a flow in which each value makes a contribution that no other does, which no walk to allocations with a phi or a cast is: all sequences of queries are answered exactly if and only if the graph is clean everywhere |
| CleanGraphs.AnswersExactlyWhateverIffClean | svf-llvm/lib/ObjTypeInference.cpp:545-662 | clean is the weakest condition on the edges alone: only on a clean graph are all sequences of queries answered exactly whatever its values contribute |
| CacheOrder.WrittenOnce | svf-llvm/lib/ObjTypeInference.cpp:545-656 | over any sequence of queries an entry never changes once written |
| CacheOrder.AlwaysSound | svf-llvm/lib/ObjTypeInference.cpp:545-656 | over any sequence of queries every entry holds only what is reachable from its key |
| CacheOrder.AlwaysSaturated | svf-llvm/lib/ObjTypeInference.cpp:545-662 | over any sequence of queries started on empty caches whatever a cached value draws on is cached |
| CacheOrder.AlwaysExact | svf-llvm/lib/ObjTypeInference.cpp:545-662 | if a query and those before it go over clean parts of the graph, from sound and complete entries, its answer is exactly what is reachable |
| ClosingOrder.OrderCloses | svf-llvm/lib/ObjTypeInference.cpp:556-654 | the order that the worklist gives numbers the new entries, each accounted for by those before it |
| ClosingOrder.OrderByEdges | svf-llvm/lib/ObjTypeInference.cpp:556-654 | that order depends on the edges and on which values are cached, on nothing else |
| ClosingOrder.CompleteIffHandsOn | svf-llvm/lib/ObjTypeInference.cpp:643-654 | from exact entries a query leaves exact entries only, if and only if each contribution that a closed value reaches is its own or is reached by a neighbour cached or closed before it |
| ClosingOrder.QueryCompleteIff | svf-llvm/lib/ObjTypeInference.cpp:545-662 | the same in terms of the order found from the edges |
| FreshQueries.BesideRuns | svf-llvm/lib/ObjTypeInference.cpp:545-662 | a walk on caches that earlier queries left goes through the uncached values as the walk on an empty cache does, and its entries hold no less |
| FreshQueries.FreshDecides | svf-llvm/lib/ObjTypeInference.cpp:545-662 | if a query leaves exact entries only on an empty cache, it does on any exact caches of earlier queries |
| FreshQueries.PartialIsFresh | svf-llvm/lib/ObjTypeInference.cpp:545-662 | a partial entry after a sequence of queries is due to one of them that leaves a partial entry on an empty cache |
| FreshQueries.AnswersExactlyIffFresh | svf-llvm/lib/ObjTypeInference.cpp:545-662 | all sequences of queries are answered exactly if and only if each query alone leaves exact entries only |
| FreshQueries.AnswersExactlyIffHandsOn | svf-llvm/lib/ObjTypeInference.cpp:545-662 | and that is so if and only if each query, in its own order of closing, hands on to every value all that it reaches |
| CacheExamples.SharedIsPartial | svf/include/Util/WorkList.h:257-267 | an acyclic graph of three values where one query makes a later one miss the only allocation |
| CacheExamples.TwoPhisArePartial | svf-llvm/lib/ObjTypeInference.cpp:556-654 | a cycle of two values where it does |
| CacheExamples.UncleanYetExact | svf-llvm/lib/ObjTypeInference.cpp:556-654 | for a single query the condition is not necessary: a neighbour may be cached through another value first |
| CacheExamples.SilentYetExact | svf-llvm/lib/ObjTypeInference.cpp:556-654 | nor is it for sequences, where values contribute nothing of their own |
| CacheExamples.PhisYetExact | svf-llvm/lib/ObjTypeInference.cpp:556-654 | two values that join each other and an allocation: not clean, one closed before the other, its neighbour, and all sequences of queries answered exactly |
| AllocAnswers.OthersHaveNoMark | svf-llvm/lib/ObjTypeInference.cpp:564-642 | in the walk to allocations a value that is no allocation contributes nothing |
| AllocAnswers.ListedFirstIsMissed | svf-llvm/lib/ObjTypeInference.cpp:564-642 | in any program an allocation that a value lists before another neighbour leading to it makes some sequence of queries inexact |
| AllocAnswers.LaterAnswerMisses | svf-llvm/lib/ObjTypeInference.cpp:542-662 | a phi, a bitcast and a stack object: after asking for the phi, the bitcast is answered by the empty set although it is the stack object; asked for first, it is answered exactly |
| AllocAnswers.CycleIsAnswered | svf-llvm/lib/ObjTypeInference.cpp:564-642 | the program with two phis that join each other and a stack object: on a cycle, and answered exactly by all sequences of queries |
| ObjTypeInference.Inference.BwFindAllocOfVar | svf-llvm/lib/ObjTypeInference.cpp:542-662 | the result is the queried value's entry: what the values reached through bitcasts, phis, loads and stores, arguments and calls contribute, and the cached entries where it meets them; the cache is as one query leaves it, and `AnswersExactlyIffHandsOn` tells for which flows the results of all sequences of calls are exact |
| ObjTypeInference.Inference.BwFindAllocOrClsNameSources | svf-llvm/lib/ObjTypeInference.cpp:835-968 | the same for the sources of class names |
| ObjTypeInference.Inference.InferSites | svf-llvm/lib/ObjTypeInference.cpp:217-535 | the forward walk answers for the infer sites in the same way and keeps both caches over one domain |
| ObjTypeInference.Inference.FwInferObjType | svf-llvm/lib/ObjTypeInference.cpp:217-535 | a stack, global or function object has its own type; any other value gets the type selected from its sites, and no cached type changes |
| ProgramAnswers.AllocAnswer | svf-llvm/lib/ObjTypeInference.cpp:564-642 | what the walk to allocations finds from each kind of value: an object itself; for a load what the stores through its pointer write, for a formal what direct calls pass at its position (the first for a variadic function), for a call what the defined callee returns, for a phi or a bitcast what its operands have; nothing for any other value |
| ProgramAnswers.FoundIff | svf-llvm/lib/ObjTypeInference.cpp:290-512 | for each of the three walks: s is found from v exactly when it is a source of v, or is found from a value that v steps or flows to, by kind of value and of user |
| ProgramAnswers.FindsExactly | svf-llvm/lib/ObjTypeInference.cpp:217-968 | the walks find exactly what these steps lead to, in any number |
| ProgramAnswers.FreshAnswer | svf-llvm/lib/ObjTypeInference.cpp:217-968 | so a query on an empty cache returns exactly that |
| ProgramAnswers.FlowsIs | svf-llvm/lib/ObjTypeInference.cpp:307-512 | what a value flows to through a user: a bitcast or phi; the loads of the place it is stored to, also by other address computations on the same object; the direct calls of the function that returns it; the formal at its first position, or the loads of the va_arg slot |
| ProgramAnswers.BackIs | svf-llvm/lib/ObjTypeInference.cpp:591-642 | the steps of the two backward walks; the one to class names goes through address computations and on from allocations |
| ProgramAnswers.InferredOnProgram | svf-llvm/lib/ObjTypeInference.cpp:217-535 | the type inferred for a value without a declared one: that of a site it flows to, of no smaller count than any other, or bytes for a call that allocates and a pointer for anything else if it flows to none |
| ObjTypeInference.Inference.Record | svf-llvm/lib/ObjTypeInference.cpp:519-531 | the type cached with a value's sites is the one selected from their types |
| ObjTypeInference.Inference.InferPointsToType | svf-llvm/lib/ObjTypeInference.cpp:191-215 | the type belongs to one of the objects a pointer may come from (or to the pointer itself when there is none) and no object has more fields |
| ObjTypeInference.InferredIsLargest | svf-llvm/lib/ObjTypeInference.cpp:217-535 | from exact caches, and for field counts below 2^31, the inferred type has at least as many fields as every infer site reachable from the value |
| ObjTypeInference.SelectLargestSizedType | svf-llvm/lib/ObjTypeInference.cpp:721-735 | selects a type of the largest field count in the key order of the size table, which reads counts as signed |
| ObjTypeInference.SelectedIsUnique | svf-llvm/lib/ObjTypeInference.cpp:721-735 | the selection depends on the set of types only |
| ObjTypeInference.SelectedIsLargestIff | svf-llvm/lib/ObjTypeInference.cpp:721-735 | the selected type has the most fields if and only if the counts do not lie on both sides of 2^31 |
| ObjTypeInference.SmallerIsSelected | svf-llvm/lib/ObjTypeInference.cpp:721-735 | of two arrays of 1 and 2^31 elements the smaller one is selected |
| ValueGraph.NumFieldsAre | svf-llvm/lib/ObjTypeInference.cpp:738-752 | arrays and structures without a virtual table count their elements, everything else the most |
| ConstantExprs.HasConstantExprIff | svf-llvm/lib/BreakConstantExpr.cpp:29-86 | the three tests together hold exactly when an address computation or an operator is nested at some depth |
| BreakConstants.HoistedValid | svf-llvm/lib/BreakConstantExpr.cpp:88-152 | a conversion keeps the function well formed, phi entries repeated for a block included |
| BreakConstants.HoistedBody | svf-llvm/lib/BreakConstantExpr.cpp:229-282 | a block with the new instruction computes what it did, and the new instruction holds the constant's value |
| BreakConstants.StepKeepsRun | svf-llvm/lib/BreakConstantExpr.cpp:229-282 | one conversion keeps the value of every original instruction along every control path |
| BreakConstants.DerivationKeepsRun | svf-llvm/lib/BreakConstantExpr.cpp:188-286 | so does any sequence of conversions |
| BreakConstants.MeaningPreserved | svf-llvm/lib/BreakConstantExpr.cpp:188-286 | whatever the pass derives from a function computes the same values and effects along every control path |
| BreakConstantsPass.ConversionShrinks | svf-llvm/lib/BreakConstantExpr.cpp:88-152 | a conversion lowers the total weight of convertible constants, the new instruction's operands counted |
| BreakConstantsPass.ConvertEntry | svf-llvm/lib/BreakConstantExpr.cpp:229-262 | a phi entry's constant is hoisted before the end of the entry's block and replaced in every later entry of that block |
| BreakConstantsPass.ConvertOperand | svf-llvm/lib/BreakConstantExpr.cpp:263-276 | an operand's constant is hoisted before its instruction and replaced wherever it is an operand |
| BreakConstantsPass.ConvertAll | svf-llvm/lib/BreakConstantExpr.cpp:218-282 | after its turn an instruction has no convertible operand, and what is left to do is on the list |
| BreakConstantsPass.Collect | svf-llvm/lib/BreakConstantExpr.cpp:196-216 | the worklist starts with exactly the instructions that have a convertible operand |
| BreakConstantsPass.RunOnFunction | svf-llvm/lib/BreakConstantExpr.cpp:188-286 | the loop ends; no operand of any instruction, new ones included, is convertible; the function is derived from the old one, and unchanged exactly when nothing was convertible |
| BreakConstantsPass.Module.RunOnModule | svf-llvm/lib/BreakConstantExpr.cpp:188-286 | the same for every function of a module, and the result tells whether any function had something to convert |
| Flattening.ArrayRepeatsElement | svf-llvm/lib/LLVMModule.cpp:1362-1419 | nested array dimensions flatten to the element's sequence, repeated, whatever the nesting |
| Flattening.MemberAt | svf-llvm/lib/LLVMModule.cpp:1375-1476 | a member can be looked up exactly when it is the first or its array does not flatten to nothing; its recorded offset is the place of its flattened sequence in the whole |
| Flattening.MemberOrder | svf-llvm/lib/LLVMModule.cpp:1385-1476 | members occupy disjoint stretches in order |
| Flattening.MemberOf | svf-llvm/lib/LLVMModule.cpp:1375-1476 | every position lies in some member, except that of a scalar or of the dummy element of an array of length zero |
| Flattening.MemberFieldsAt | svf-llvm/lib/LLVMModule.cpp:1375-1476 | the recorded field index of a member is where its flattened fields lie; the elements of an array share the fields of one |
| Flattening.MemberFieldsOrder | svf-llvm/lib/LLVMModule.cpp:1425-1476 | the fields of the members follow one another without a gap |
| Flattening.RecordCounts | svf-llvm/lib/LLVMModule.cpp:1362-1494 | counts are lengths of sequences, and the stride of an array is the product of its dimensions |
| TypeInfo.RecordedIdxExact | svf-llvm/lib/LLVMModule.cpp:1395-1405 | the division never rounds and no product wraps: the offset of element i is i times the element's flattened size |
| TypeInfo.TypeTable.GetSVFType | svf-llvm/lib/LLVMModule.cpp:1186-1200 | a type gets its SVF type and its record, and every record in the table equals the recursive specification |
| TypeInfo.TypeTable.AddSVFTypeInfo | svf-llvm/lib/LLVMModule.cpp:1285-1360 | the element of an array, the fields of a structure, and the parameters and the result of a function type are registered with it; only the type itself is left without a record, and no record changes |
| TypeInfo.TypeTable.CollectTypeInfo | svf-llvm/lib/LLVMModule.cpp:1253-1283 | the memoised record is the specification's, for every type |
| TypeInfo.TypeTable.CollectArrayInfo | svf-llvm/lib/LLVMModule.cpp:1362-1419 | the record of an array, dimensions of length zero included; its counts are the lengths of the two sequences, so the size assertions hold |
| TypeInfo.TypeTable.CollectStructInfo | svf-llvm/lib/LLVMModule.cpp:1425-1476 | the record of a structure joins those of its fields, nested aggregates flattened, and its counts are the lengths of the two sequences |
| GepOffset.OffsetIsPosition | svf-llvm/lib/SVFIRBuilder.cpp:661-713 | along any path whose indices can be looked up, the summed offset is where the sub-object's sequence lies in the flattened type |
| GepOffset.StoredTypeIsFirstLeaf | svf-llvm/lib/SVFIRBuilder.cpp:661-713 | the type stored at that position is that of the sub-object's first leaf |
| GepOffset.LeavesAreDistinct | svf-llvm/lib/SVFIRBuilder.cpp:661-713 | distinct leaf paths have distinct positions |
| GepOffset.LeavesArePositions | svf-llvm/lib/SVFIRBuilder.cpp:661-713 | every position is that of exactly one leaf path, and there are no others |
| GepOffset.AllPathsRecorded | svf-llvm/lib/LLVMModule.cpp:1375-1419 | where no dimension is zero every path can be looked up, and its leaves are the scalars |
| GepOffset.SumIsOffset | svf-llvm/lib/SVFIRBuilder.cpp:661-713 | for any operands the sum is the position of the sub-object that they read as: a variable or out-of-range array index as element 0, nothing more behind a vector |
| GepOffset.OffsetIsSum | svf-llvm/lib/SVFIRBuilder.cpp:661-713 | and no other number is |
| GepOffset.ReadLies | svf-llvm/lib/SVFIRBuilder.cpp:661-713 | the flattened sequence of that sub-object lies there |
| GepOffset.ComputeGepOffset | svf-llvm/lib/SVFIRBuilder.cpp:646-713 | the result is the position of the sub-object that the operands read as, for every list of operands; for a path of constants that is the one the path names; the address is not constant only for a variable index on a scalar or vector |
| GlobalInit.StoresAreConsecutive | svf-llvm/lib/SVFIRBuilder.cpp:877-958 | a fully explicit initialiser at offset o stores its leaves at o, o+1, ..., each once and in order |
| GlobalInit.StoresArePlaced | svf-llvm/lib/SVFIRBuilder.cpp:877-958 | any initialiser at offset o stores scalars to ascending positions from o, inside the type, each where the flattened type has that scalar |
| GlobalInit.FieldsStoredOnce | svf-llvm/lib/SVFIRBuilder.cpp:877-958 | the store edges of any initialiser go to ascending fields, none twice; a block address is given an address instead |
| GlobalInit.StepsTell | svf-llvm/lib/SVFIRBuilder.cpp:877-958 | for each written constant exactly one store to its position unless it is a block address; its own statements right before the store or the address exactly for expressions and block addresses; an address exactly for block addresses; a copy from null right after the store exactly for plain pointers that are not null |
| GlobalInit.GlobalWriter.WriteGlobal | svf-llvm/lib/SVFIRBuilder.cpp:966-984 | the whole initialiser is written from position 0, by exactly these edges, no field stored to twice |
| GlobalInit.GlobalWriter.InitialGlobal | svf-llvm/lib/SVFIRBuilder.cpp:877-958 | the recursion writes exactly the specified constants, data and skipped aggregates included, each by the edges for its kind |
| DebugTypes.StripQualifiers | svf-llvm/lib/DCHG.cpp:765-816 | the loop removes every qualifier and typedef on top, and no more |
| DebugTypes.StripsExactly | svf-llvm/lib/DCHG.cpp:765-816 | const, atomic, volatile, restrict and typedef go, every other tag stays |
| DebugTypes.TeqIffSameKey | svf-llvm/lib/DCHG.cpp:830-940 | two types are equal exactly when they have one key, an independent description of the classes |
| DebugTypes.TeqIsEquivalence | svf-llvm/lib/DCHG.cpp:830-940 | the equality is reflexive, symmetric and transitive |
| DebugTypes.TeqStrip | svf-llvm/lib/DCHG.cpp:765-940 | qualifiers on top do not matter to the equality |
| DebugTypes.TeqBasics | svf-llvm/lib/DCHG.cpp:849-873 | basic types: one size and alignment, and both integers or booleans, both floating, or both characters |
| DebugTypes.TeqReferences | svf-llvm/lib/DCHG.cpp:875-911 | pointers, references, members and arrays of any kinds: equal when what they refer to is |
| DebugTypes.TeqComposites | svf-llvm/lib/DCHG.cpp:913-938 | classes by mangled name, structures and unions by place of definition, enumerations always |
| DebugTypes.TeqSorts | svf-llvm/lib/DCHG.cpp:830-940 | types of different sorts are not equal |
| DCHG.Graph.GetCanonicalType | svf-llvm/lib/DCHG.cpp:724-763 | representatives are stripped, pairwise unequal and equal to what they stand for; no assignment changes |
| DCHG.Graph.RepresentativesAgree | svf-llvm/lib/DCHG.cpp:724-763 | representatives of two types are the same object exactly when the types are equal |
| DCHG.Graph.CanonicalTypes | svf-llvm/lib/DCHG.cpp:724-763 | over any sequence of calls, answers agree exactly on equal types and are their own answers |
| DCHG.Graph.GetOrCreateNode | svf-llvm/lib/DCHG.cpp:408-433 | equal types share one node; at most one node is new |
| DCHG.Graph.AddEdge | svf-llvm/lib/DCHG.cpp:435-469 | the edge between the types' nodes is there afterwards, and no other is new |
| DCHG.Graph.Cha | svf-llvm/lib/DCHG.cpp:225-268 | when the edges that the query follows close no cycle, the memoised recursion ends with exactly the nodes that reach the type over them |
| DCHG.Graph.IsBase | svf-llvm/lib/DCHG.cpp:677-686 | the answer is whether the second type reaches the first over permitted edges |
| DCHG.RankedIffAcyclic | svf-llvm/lib/DCHG.cpp:225-268 | the ranking that the queries ask for exists exactly when the edges they follow close no cycle |
| DCHG.RecursionEndsIff | svf-llvm/lib/DCHG.cpp:225-268 | the recursion over children ends, wherever it starts, if and only if there is such a ranking |
| DCHG.CycleNeverEnds | svf-llvm/lib/DCHG.cpp:225-268 | on two classes that derive from each other no depth of calls suffices |
| DCHG.DerivesSelf | svf-llvm/lib/DCHG.cpp:677-686 | the base relation is reflexive |
| DCHG.DerivesTrans | svf-llvm/lib/DCHG.cpp:677-686 | the base relation is transitive |
| DCHG.StepIs | svf-llvm/lib/DCHG.cpp:244-258 | a query goes up inheritance and standard edges, first-field edges if asked to, and no others |
| DCHG.Graph.CompleteVoidChar | svf-llvm/lib/DCHG.cpp:526-541 | the completion keeps the graph acyclic and makes void a base of every node when first-field edges count |
| DCHG.CompletedRanked | svf-llvm/lib/DCHG.cpp:526-541 | lowering void and char below everything ranks the completed graph |
| DCHG.UnderVoid | svf-llvm/lib/DCHG.cpp:526-541 | in a completed acyclic graph every node leads to void |
| ControlFlow.NextInsts | svf-llvm/lib/LLVMUtil.cpp:619-643 | the instructions control comes to next are never intrinsic and lie in the same function |
| ControlFlow.InNextInsts | svf-llvm/lib/LLVMUtil.cpp:619-643 | they are what entering at each immediate successor leads to |
| ControlFlow.NextInOrder | svf-llvm/lib/LLVMUtil.cpp:619-643 | at the end of a block they are those of its successors, in the order of the successors |
| ControlFlow.GetNextInsts | svf-llvm/lib/LLVMUtil.cpp:619-643 | the recursion appends them in order, and ends when no cycle runs through intrinsic instructions only |
| ControlFlow.DrainsIff | svf-llvm/lib/LLVMUtil.cpp:619-643 | the recursion ends everywhere if and only if control cannot go round through intrinsic instructions only |
| ControlFlow.SelfInvokeNeverEnds | svf-llvm/lib/LLVMUtil.cpp:619-643 | a block whose only instruction is an intrinsic invoke leading back to it: no bound on the depth suffices |
| ControlFlow.BlockIsSeen | svf-llvm/lib/ICFGBuilder.cpp:176-236 | a closed set of instructions that enters a block holds all of it, intrinsic ones apart |
| ControlFlow.PathIsSeen | svf-llvm/lib/ICFGBuilder.cpp:131-152 | and so for every block that some path from the entry block enters |
| ControlFlow.FunctionIsSeen | svf-llvm/lib/ICFGBuilder.cpp:131-236 | a closed set with the entry instructions and the fronts of unreachable blocks holds every covered instruction |
| ControlFlow.PlainIsAccepted | svf-llvm/lib/ICFGBuilder.cpp:131-218 | when no terminator is an intrinsic call, following intrinsic calls ends, enters a function at one instruction, and a branch keeps its two ways |
| ControlFlow.SharedPadIsMetTwice | svf-llvm/lib/ICFGBuilder.cpp:131-152 | two intrinsic invokes in a row that unwind to one block: the entry leads to that block twice, so its node would be made twice |
| ControlFlow.SplitBranchHasThreeWays | svf-llvm/lib/ICFGBuilder.cpp:205-220 | a branch to an intrinsic invoke has three ways, against the asserted two |
| ICFG.FlowIsSpecified | svf-llvm/lib/ICFGBuilder.cpp:190-235 | the edge for each way out of an instruction is one the graph is to hold; the first way gives the label |
| ICFG.EdgesAre | svf-llvm/lib/ICFGBuilder.cpp:73-367 | the edges of a built graph, node by node: from the global node to program entries, from an entry to the instructions control lands on, from a call by its callee, from an exit to the calls that enter the function, from an instruction to those that come next and from a return to the exit |
| ICFG.BranchLabels | svf-llvm/lib/ICFGBuilder.cpp:214-220 | the first way of a conditional branch is labelled 1 and the second 0; if both lead to one instruction the edge has 1 |
| ICFG.SwitchLabels | svf-llvm/lib/ICFGBuilder.cpp:221-230 | a switch edge has the value of the case that leads to its block, or -1 |
| ICFG.OtherLabels | svf-llvm/lib/ICFGBuilder.cpp:131-367 | no other edge has a label |
| ICFG.ICFGBuilder.AddICFGInterEdges | svf-llvm/lib/ICFGBuilder.cpp:305-345 | a call joins its callee's entry and exit, or its own return node when the callee is external or unknown; an external one may also start a thread |
| ICFG.ICFGBuilder.AddBlockICFGNode | svf-llvm/lib/ICFGBuilder.cpp:267-303 | an instruction without a node gets its own: a call node and a return node for a call site |
| ICFG.ICFGBuilder.ProcessFunEntry | svf-llvm/lib/ICFGBuilder.cpp:131-152 | the entry node leads to every instruction control lands on first, none of them visited before |
| ICFG.ICFGBuilder.ProcessUnreachableFromEntry | svf-llvm/lib/ICFGBuilder.cpp:157-171 | the first instruction of every unreachable block is visited |
| ICFG.ICFGBuilder.ProcessInst | svf-llvm/lib/ICFGBuilder.cpp:181-236 | one turn links an instruction to all its successors, visiting the new ones |
| ICFG.ICFGBuilder.ProcessFunBody | svf-llvm/lib/ICFGBuilder.cpp:176-238 | the loop ends, and every visited instruction is linked to exactly what follows it |
| ICFG.ICFGBuilder.ProcessFunExit | svf-llvm/lib/ICFGBuilder.cpp:244-258 | adds nothing: the body has linked every return already |
| ICFG.ICFGBuilder.CheckICFGNodesVisited | svf-llvm/lib/ICFGBuilder.cpp:115-127 | the final assertions hold for every instruction that is not intrinsic |
| ICFG.ICFGBuilder.ConnectGlobalToProgEntry | svf-llvm/lib/ICFGBuilder.cpp:350-367 | the global node leads to each program entry, once |
| ICFG.ICFGBuilder.Build | svf-llvm/lib/ICFGBuilder.cpp:73-113 | the nodes of every covered instruction exist once, the edges are exactly the specified ones (successors leave calls from the return node), each with its label |
| Symbols.SymbolTableBuilder.CollectVal | svf-llvm/lib/SymbolTableBuilder.cpp:301-323 | the value has a symbol unless it is null or undefined; a new global is settled with its users and initialiser; ids never change and stay distinct |
| Symbols.SymbolTableBuilder.HandleCE | svf-llvm/lib/SymbolTableBuilder.cpp:391-480 | afterwards a supported constant can be processed without a missing symbol at any depth |
| Symbols.SymbolTableBuilder.HandleGlobalCE | svf-llvm/lib/SymbolTableBuilder.cpp:485-519 | the constants that use an array or structure are handled, and the mutual recursion ends: globals not yet collected, then expression size |
| Symbols.SymbolTableBuilder.HandleGlobalInitializerCE | svf-llvm/lib/SymbolTableBuilder.cpp:524-577 | every leaf of the initialiser can be processed |
| Symbols.SymbolTableBuilder.CollectSym | svf-llvm/lib/SymbolTableBuilder.cpp:272-296 | a collected constant can be processed, and everything collected before still can |
| Symbols.SymbolTableBuilder.CollectSyms | svf-llvm/lib/SymbolTableBuilder.cpp:272-323 | after any sequence of collections every constant in the table can be processed, and so can every collected global's initialiser |
| Symbols.ProcessableGrows | svf-llvm/lib/LLVMModule.cpp:1069-1081 | more symbols never break a lookup |
| Symbols.UncollectedShrinks | svf-llvm/lib/SymbolTableBuilder.cpp:301-323 | the measure of the mutual recursion: collecting a global leaves fewer uncollected ones |
| Symbols.StatementsDefineFirst | svf-llvm/lib/SVFIRBuilder.cpp:719-844 | every value a statement takes is defined by an earlier one when it needs a statement, and the constant itself is defined |
| Symbols.StatementsAre | svf-llvm/lib/SVFIRBuilder.cpp:719-844 | there is a statement for each value taken on the way to a constant and for no other, of the kind of that value and with its operands: a select takes both of its values and its condition |
| Symbols.SVFIRBuilder.ProcessCE | svf-llvm/lib/SVFIRBuilder.cpp:719-844 | no lookup fails; the statements of the operands come first; the current location is as before |
| CollectGlobals.StepIsIdle | svf-llvm/tools/GraphReader/GraphReaderSVFGBuilder.cpp:71-84 | a marked id still on the stack has its pointees marked or above it |
| CollectGlobals.TopIsIdle | svf-llvm/tools/GraphReader/GraphReaderSVFGBuilder.cpp:71-84 | so scanning a marked id again pushes nothing, whatever duplicates the stack holds |
| CollectGlobals.SeedsAre | svf-llvm/tools/GraphReader/GraphReaderSVFGBuilder.cpp:53-69 | the seeds are the value nodes of globals and the object nodes of global objects and their parts, dummies apart |
| CollectGlobals.GlobalCollector.CollectGlobals | svf-llvm/tools/GraphReader/GraphReaderSVFGBuilder.cpp:47-85 | the loop ends with the least set that holds the seeds and is closed under points-to |
| Neighborhood.NearGrows | svf-llvm/tools/ActiveLearningExport/ActiveLearningExport.cpp:189-221 | a larger depth keeps every node |
| Neighborhood.AllSelected | svf-llvm/tools/ActiveLearningExport/ActiveLearningExport.cpp:189-221 | a finished search has selected every node within the depth, at a level no higher than its distance |
| Neighborhood.CollectNeighborhood | svf-llvm/tools/ActiveLearningExport/ActiveLearningExport.cpp:189-221 | for every depth, the result is exactly the nodes within that undirected distance of an anchor |
| ExportGraph.NoBits | svf-llvm/tools/ActiveLearningExport/ActiveLearningExport.cpp:276-285 | the pattern is zero, and written as 7, exactly for a node without induced edges |
| ExportGraph.BitsMore | svf-llvm/tools/ActiveLearningExport/ActiveLearningExport.cpp:256-260 | one more edge ors its bit into the patterns of its two ends only |
| ExportGraph.RowTellsKind | svf-llvm/tools/ActiveLearningExport/ActiveLearningExport.cpp:101-124 | the number in an edge row is the place of its kind among the seven, 0 for any other |
| ExportGraph.NodeRowTells | svf-llvm/tools/ActiveLearningExport/ActiveLearningExport.cpp:276-287 | a node row column by column: number, the three bits by the kinds of edges that stand for them, type, level 0, in-degree |
| ExportGraph.WriteGraph | svf-llvm/tools/ActiveLearningExport/ActiveLearningExport.cpp:223-293 | nodes are numbered 1 to n; every induced edge has one row; a node's row holds its induced in-degree and the or of its edges' bits; an object without nodes gets one row |
| CHGMaps.AllFound | svf-llvm/lib/CHGBuilder.cpp:267-298 | a finished walk has found whatever one or more inheritance edges lead to |
| CHGMaps.CHGraph.WalkUp | svf-llvm/lib/CHGBuilder.cpp:274-296 | one class's entry is exactly its ancestors, cycles included; other entries stay |
| CHGMaps.CHGraph.BuildClassNameToAncestorsDescendantsMap | svf-llvm/lib/CHGBuilder.cpp:267-298 | the ancestors map holds exactly the pairs joined by inheritance edges, and the descendants map is its inverse |
| VirtualFunctionIds.Numbering.FindGroup | svf-llvm/lib/CHGBuilder.cpp:577-606 | a group is the least set of classes closed under edges in both directions, apart from all earlier groups |
| VirtualFunctionIds.RunAdded | svf-llvm/lib/CHGBuilder.cpp:648-652 | numbering a group keeps ids distinct, and moves the functions it shares with earlier groups |
| VirtualFunctionIds.Consecutive | svf-llvm/lib/CHGBuilder.cpp:632-652 | functions of a group with one name that no later group has are numbered without a gap |
| VirtualFunctionIds.Numbering.BuildVirtualFunctionToIDMap | svf-llvm/lib/CHGBuilder.cpp:558-654 | every class is in one group, groups are connected components, each is numbered once, and ids are pairwise distinct |
| Brackets.NoCrossing | svf-llvm/lib/CppUtil.cpp:734-778 | matched pairs do not cross, and an opening bracket has one partner |
| Brackets.TopIsMatched | svf-llvm/lib/CppUtil.cpp:745-752 | a closing bracket is matched with the top of the stack and with nothing else |
| Brackets.MarksTell | svf-llvm/lib/CppUtil.cpp:754-763 | scanning the marks between the ends tells exactly whether the pair is innermost |
| Brackets.InnermostIsPlain | svf-llvm/lib/CppUtil.cpp:734-778 | no opening bracket lies inside an innermost pair |
| Brackets.InnermostDisjoint | svf-llvm/lib/CppUtil.cpp:734-778 | innermost pairs are disjoint |
| Brackets.AnswerLies | svf-llvm/lib/CppUtil.cpp:771-776 | each content is all that lies between the two brackets, character by character |
| Brackets.FindInnermostBrackets | svf-llvm/lib/CppUtil.cpp:734-778 | the answer is exactly the contents of the innermost matched pairs, in closing order, `->` not counting |

## Left out

- ObjTypeInference.Inference.BwFindAllocOfVar: the walk is one shared step for the three queries of the source, and demangled names and user lists are given tables. For the walk to allocations being clean is sufficient, not necessary, and no exact condition on the edges alone is given: what an entry misses depends on which allocations its neighbours lead to, so the exact condition (`AnswersExactlyIffHandsOn`) speaks of these as well as of the order of closing.
- ObjTypeInference.Inference.FwInferObjType: the extra pass of `inferObjType` over memory-copy sources is not modelled.
- BreakConstants.MeaningPreserved: evaluating a constant expression is a total function. With LLVM 21, which `build.openeluer.sh` builds against, no constant expression divides, so none traps; one that traps, as with an old LLVM, and is hoisted out of a phi to a block with another successor would not be told apart.
- GepOffset.ComputeGepOffset: asks, as the source asserts, that an index in bounds has a recorded offset, which only an index above 0 into an array that flattens to nothing lacks; sizes are bounded so that 32-bit products do not wrap, which is what the source relies on.
- GlobalInit.GlobalWriter.InitialGlobal: asks the same of the members it writes. That a global is a virtual table is given by a flag, and the statements of a constant expression are named, not listed: `Symbols.Statements` has them.
- DCHG.Graph.CompleteVoidChar: asks that void's and char's nodes have no parents and that no edge is a template-instance edge, which no code of the builder adds.
- DCHG `flatten`: it stores fields under the canonical type and reads nested ones under the raw field type, so a flattening theorem needs an assumption the code does not establish.
- ControlFlow.GetNextInsts: asks that no cycle of control runs through intrinsic calls only, where the recursion of the source would not end; an intrinsic call that ends a block is otherwise allowed.
- ICFG.ICFGBuilder.Build: asks, as the source asserts, that a function is entered at distinct instructions and that a branch leads to two instructions at most. A switch's case value per block is given, and its signed 64-bit width is not modelled.
- ICFG.ICFGBuilder.AddBlockICFGNode: basic-block node lists, call attributes and virtual-call data are not recorded.
- Symbols.SymbolTableBuilder.CollectVal: object symbols and their type information are not modelled; only constants are collected, since instructions and arguments add nothing but their own symbol.
- Symbols.SymbolTableBuilder.CollectSym: the type of the value is not registered here, and values that are not constants are not collected.
- Symbols.SVFIRBuilder.ProcessCE: the access path of an address edge and the basic block of the current location are left to the offset model. The condition of a select is looked up but, as in the source, its own statements are not added.
- ExportGraph.WriteGraph: patterns are kept as three bits; anchors, node types and the files' text are given or omitted.
- VirtualFunctionIds.Numbering.BuildVirtualFunctionToIDMap: names are compared by their rank, and functions of one name are taken in any order.
- Iteration over hash maps and sets is in an arbitrary order; the first-in first-out and last-in first-out worklists are sequences that do not take an element twice.
- Label agreement of branches and switches between the control-flow graph and the statements, `functionDoesNotRet` and `getFunReachableBBs`: plain reachability or a case split, no harder than what is proved.
- Interval analysis, grammar normalisation and CFL solving: declared in headers, with bodies that are not part of this model.
- Module loading, cloning, printing, statistics, options, demangling and the command-line tools: plumbing around the algorithms above.
