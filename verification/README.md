# Verified models of Contiki applications and tools

Seven parts of Contiki, each modelled as the code works and proved to do, or exactly when it does, what
it is for.

- **Antelope queries.** The WHERE compiler emits prefix bytecode by moving code right in its buffer and
  patching an operator in front; a small machine runs it; a second pass derives a range per variable
  (`MachineWords`, `LogicVm`, `AqlCompiler`, `AqlClauses`, `AqlMeaning`, `AqlLimits`,
  `RangeDerivation`, `RangeExact`; in place: `LogicMachine`, `AqlParser`). Selection through the inline
  index and the resumable join build on them (`IndexSelect`, `QuerySelect`, `Join`; in place:
  `SelectHandle`, `JoinHandle`).
- **The MaxHeap index**, an implicit tree of hash ranges with buckets and a cache of one bucket
  (`MaxHeap`, `MaxHeapMap`, `MaxHeapLookup`, `MaxHeapRuns`; in place: `MaxHeapIndex`).
- **Deluge**, the dissemination of versioned page images over a lossy network (`Deluge`, `DelugeRuns`,
  `DelugeUpgrade`, `DelugeOverlap`, `DelugeDamage`, `DelugeService`, `DelugeProgress`, `DelugeRounds`;
  in place: `DelugeNode`).
- **Erbium CoAP**: the message codec with its in-place merging of options (`CoapOptions`, `CoapMessage`,
  `CoapWire`; in place: `CoapSender`, `CoapReceiver`), the retransmission of transactions
  (`CoapTransactions`, `CoapEvents`; in place: `CoapTransactionTable`) and the block-wise transfer of
  the resource list (`LinkFormat`, `LinkDocument`; in place: `LinkFormatHandler`, `BlockEngine`).
- **Tunslip**: the Internet checksum and its incremental update (`TunChecksum`; in place: `TunBridge`),
  and SLIP framing with partial writes (`Slip`; in place: `SlipLine`).
- **JSON**: the tree printer and the pull parser (`JsonTree`, `JsonNumbers`, `JsonParse`; in place:
  `JsonPrinter`, `JsonReader`).

A specification module has the data model, functions that say what each operation does, and the
theorems. The modules named as working in place have classes with the fields, arrays, indices and loops
of the original; each method is proved to leave exactly the state that the specification function gives,
so that the theorems are about what the methods do.

Words are those of a 32-bit little-endian host: `int`, `long` and pointers have 32 bits, and arithmetic
of the query machine wraps around. A read or write outside a buffer is an outcome of its own wherever
the code can come to one, but for the late request timer named under "Left out".

## Where the obvious claim fails

Each of these is a theorem with the exact condition.

- A comparison is decided as written exactly when it has at most one operator on each level of each
  side; `0 + 0 + 1 = 1` is decided as false. A balanced parenthesised sub-clause is rejected; with a
  doubled parenthesis it is accepted and nested the wrong way. A later comparison that does not parse
  ends the clause as accepted, with the connective in front of one argument.
- Range derivation ignores the order of operands, and keeps a range that only one branch of an OR gave; a
  bound of a branch that nothing satisfies can widen the range of an OR.
- The index search leaves the relation when a bound is below the first value, and so does a join.
- A clause that fills the code buffer exactly is compiled or not, depending on whether its last side has an
  operator.
- A pair of two zeros marks an empty slot, so a bucket that has it is recounted wrongly after a restart.
- An insertion into the bucket that is cached leaves a stale slot, and the next lookup of its key misses
  it, unless the slot has the pair by chance.
- Deluge is safe for one upgrade and unsafe as soon as three versions are about. A damaged packet that is
  the last one stored in its slot is kept in the completed page. No page from 128 on is ever sent.
- The options of a message are written before their length is compared, so a long path runs over the
  buffer of its transaction. A received option number from 64 on sets a bit outside the bitmap.
- The rewrite of the identification is caught by the second check for a header length field of 2, and in
  some packets of less than twelve bytes.
- A packet is lost to the line echo of tunslip6 when a printable line is in front of it.
- A leading separator of a path is lost, and so is a single trailing one; the second of two adjacent
  separators stays inside a piece; a block size that is no power of two is rounded down.
- A client that asks for blocks of another size than the server's does not get a document of more than
  one block.
- The callback field of a transaction buffer is not cleared, so a callback can be called twice.
- An empty object or array at the end of a pair's value is printed and then rejected by the parser.

## Where code and documentation disagree

- `COAP_MAX_HEADER_SIZE` is 62 by its own formula; the comment beside it says 65.
- Section 4.2 of RFC 7252 lets the last retransmission time out before giving up; the code gives up
  directly after sending it.
- tunslip tests the don't-fragment flag without converting the byte order, so on a little-endian host it
  looks at another bit; the model looks at that bit.
- The comment on the MaxHeap index says that a split copies the entries into the new buckets and deletes
  the old one; the code copies none and keeps the old one.
- The comment on the last test in the loop of the resource list describes a break that never happens.

## Model

| member | source | states |
|---|---|---|
| `LogicVm.RunsExpression` | contiki/apps/antelope/lvm.c:166-219 | the prefix bytecode of an expression, wherever it lies in the buffer, evaluates to the 32-bit value of the expression and fails exactly when strict evaluation does; the instruction pointer ends behind it |
| `LogicVm.RunsConditionCode` | contiki/apps/antelope/lvm.c:222-298 | the bytecode of a nested condition decides its truth under every assignment, both arguments of every connective being run |
| `LogicVm.EvaluationFails` | contiki/apps/antelope/lvm.c:166-219 | strict evaluation has no value exactly when some quotient anywhere in the expression has a zero divisor, and is the total value otherwise |
| `LogicVm.TruthFails` | contiki/apps/antelope/lvm.c:222-298 | a condition has no truth value exactly when some quotient anywhere in it has a zero divisor, even under a connective that is already decided |
| `LogicVm.ExecutesCondition` | contiki/apps/antelope/lvm.c:380-404 | running a complete program, with unused words behind it, gives TRUE, FALSE or MATH_ERROR as the condition says under the assignment that the slots hold |
| `LogicVm.BadStartIsError` | contiki/apps/antelope/lvm.c:380-404 | a program that does not begin with a comparison or connective, as a cleared buffer does not, is an execution error |
| `LogicVm.ArithmeticIsExact` | contiki/apps/antelope/lvm.c:166-219 | sums, differences and products have the low 32 bits of the exact ones, and a quotient leaves a remainder smaller than the divisor with the sign of the dividend, but for the one quotient that has no room |
| `MachineWords.DivisionTruncates` | contiki/apps/antelope/lvm.c:198-212 | the quotient of C for operands of any sign, by what it leaves |
| `AqlCompiler.PlaceInserts` | contiki/apps/antelope/lvm.c:315-370 | making room for two words, moving the code right and restoring the end leaves the operator in front of exactly the code that was there, and nothing else changed |
| `AqlCompiler.ParsesSide` | contiki/apps/antelope/aql-parser.c:290-348 | parsing one side of a comparison appends its code: the first operator in front of the first operand, every later one in front of its own right operand |
| `AqlCompiler.ParsesOperators` | contiki/apps/antelope/aql-parser.c:305-348 | the operators behind a first operand, each placed after its right operand was parsed |
| `AqlCompiler.ParsesComparison` | contiki/apps/antelope/aql-parser.c:350-400 | a comparison appends its relational operator and both sides, with the gap in front of the left side filled afterwards |
| `AqlCompiler.ParsesClauseFrom` | contiki/apps/antelope/aql-parser.c:402-447 | a chain of comparisons joined by AND and OR, emitted at any place of the program, is appended as right-nested prefix code |
| `AqlClauses.SlotsSuffice` | contiki/apps/antelope/lvm.c:442-460 | every variable of a clause gets a slot exactly when the clause has no more than LVM_MAX_VARIABLE_ID different names |
| `AqlClauses.CompilesClause` | contiki/apps/antelope/aql-parser.c:402-447 | the token-level parser accepts every flat clause that fits and leaves exactly its code and its names |
| `AqlClauses.CompiledClauseDecides` | contiki/apps/antelope/aql-parser.c:267-447 | compiler correctness: for every flat chain of comparisons with at most one operator on each level, the bytecode left by the in-place shifts makes the machine return the truth value of the right-nested clause under every assignment, and MATH_ERROR exactly when some quotient has a zero divisor |
| `AqlClauses.CompiledComparisonDecides` | contiki/apps/antelope/aql-parser.c:290-400 | what a comparison with any number of operators on each side decides: the first operation of the left side is compared with the later left operators folded onto the first operation of the right side |
| `AqlClauses.SumOfThreeIsMiscompiled` | contiki/apps/antelope/aql-parser.c:305-345 | the concrete clause 0 + 0 + 1 = 1 is accepted and decided as false |
| `AqlMeaning.MeaningKept` | contiki/apps/antelope/aql-parser.c:290-400 | for every comparison of pairwise different variables that get slots, nested groups included: the compiled code and the written meaning, each operator applied to everything on its left, agree under every assignment, MATH_ERROR included, if and only if there is no more than one operator on each level of each side |
| `AqlMeaning.OperatorCountDecides` | contiki/apps/antelope/aql-parser.c:290-400 | the same with numbers as operands: for any operators on both sides, the comparison is decided as written whatever its numbers are if and only if each side has at most one operator |
| `AqlClauses.AcceptedByFirstComparison` | contiki/apps/antelope/aql-parser.c:402-447 | without groups, a clause is accepted if and only if its first comparison is well formed, whatever follows the connectives |
| `AqlClauses.LoneOperandAccepted` | contiki/apps/antelope/aql-parser.c:430-447 | a comparison, a connective and a lone operand are accepted, and leave the connective with one argument |
| `AqlLimits.TooLongIsMarked` | contiki/apps/antelope/lvm.c:315-439 | for every flat clause whose variables get slots, compilation sets the error flag or writes outside the code buffer if and only if the code is longer than the buffer, or fills it and its last side has an operator |
| `AqlLimits.StringHasNoCode` | contiki/apps/antelope/aql-parser.c:267-288 | a comparison with a string or a float on its right is accepted and leaves the relation with one argument |
| `AqlClauses.ParsesGroup` | contiki/apps/antelope/aql-parser.c:402-447 | a parenthesised sub-clause with balanced parentheses is rejected; with a doubled closing parenthesis it is accepted, and its inner connective is placed in front of the whole program |
| `AqlClauses.AcceptedGroupDecides` | contiki/apps/antelope/aql-parser.c:402-447 | c1 k1 ( c2 k2 c3 ) as accepted is decided as ( c1 k1 c2 ) k2 c3 |
| `AqlClauses.GroupMeaningKept` | contiki/apps/antelope/aql-parser.c:402-447 | the mis-nested group keeps its truth value exactly unless the connectives differ and the outer comparisons disagree in the way the inner connective lets through |
| `RangeDerivation.DerivesRanges` | contiki/apps/antelope/lvm.c:583-690 | the second pass over the bytecode of any condition succeeds exactly when the condition is of the accepted shape, and then computes the ranges that its structure gives |
| `RangeDerivation.ReliableIsSound` | contiki/apps/antelope/lvm.c:497-690 | for variable-first comparisons with constants away from the ends and OR branches on the same variables, every satisfying assignment lies in every derived range, and exactly the variables of the condition are constrained |
| `RangeExact.ConjunctionIsExact` | contiki/apps/antelope/lvm.c:497-537 | for every reliable condition without OR, a value lies in the range derived for a variable if and only if it satisfies every comparison on that variable, comparisons at the ends of the value range excepted, which derive everything |
| `RangeExact.AndIsIntersection` | contiki/apps/antelope/lvm.c:497-537 | the range that an AND of any two accepted conditions derives holds exactly the values that are in the ranges of both |
| `RangeExact.OrIsLeast` | contiki/apps/antelope/lvm.c:540-580 | an OR derives the least range around the ranges of its branches if and only if no bound of an empty branch range sticks out; so whenever both hold a value |
| `RangeExact.EmptyBranchWidens` | contiki/apps/antelope/lvm.c:540-580 | a branch that nothing satisfies, x >= 6 AND x <= 3, widens the range of an OR with x >= 10 |
| `RangeDerivation.ConstantFirstIsSound` | contiki/apps/antelope/lvm.c:637-684 | a constant-first comparison derives a sound range if and only if it is an equality or its constant is at the end of the value range that makes the derived range harmless |
| `RangeDerivation.ConstantPairIsSound` | contiki/apps/antelope/lvm.c:637-684 | a comparison of two constants, which derives a range for the slot numbered by the low byte of the second, is sound if and only if it is false or derives the full range |
| `RangeDerivation.OneSidedUnionIsSound` | contiki/apps/antelope/lvm.c:540-580 | for any two reliable branches, an OR derives sound ranges if and only if neither branch can be satisfied while a variable that only the other constrains has a range that excludes a value |
| `RangeDerivation.TruthNeedsConstrained` | contiki/apps/antelope/lvm.c:583-684 | the truth of a reliable condition depends on the variables it has derived ranges for and on no other |
| `RangeDerivation.ComparisonIsSatisfiable` | contiki/apps/antelope/lvm.c:222-298 | a comparison of a variable with a constant can be satisfied unless it asks for more than the greatest or less than the least value |
| `LogicMachine.Machine.Store` | contiki/apps/antelope/lvm.c:423-439 | writes words at the end of the program and moves the end, within the buffer |
| `LogicMachine.Machine.JumpToOperand` | contiki/apps/antelope/lvm.c:315-327 | leaves a gap of two words at the end and reports where the operand begins |
| `LogicMachine.Machine.ShiftForOperator` | contiki/apps/antelope/lvm.c:330-348 | moves the code from a place to the end two words right in the buffer and reports the old end |
| `LogicMachine.Machine.SetEnd` | contiki/apps/antelope/lvm.c:351-370 | exchanges the end for a saved one |
| `LogicMachine.Machine.SetVariable` | contiki/apps/antelope/lvm.c:442-488 | registers a name in the first free slot, or finds it, and emits a reference |
| `LogicMachine.Machine.GetWord` | contiki/apps/antelope/lvm.c:120-145 | the word at the instruction pointer, which moves on |
| `LogicMachine.Machine.GetOperand` | contiki/apps/antelope/lvm.c:130-134 | the operand at the instruction pointer, which moves behind it |
| `LogicMachine.Machine.EvalTerm` | contiki/apps/antelope/lvm.c:166-219 | one argument of an arithmetic operator, as the specification function of the machine |
| `LogicMachine.Machine.EvalExpr` | contiki/apps/antelope/lvm.c:166-219 | an arithmetic operation over the buffer, as the specification function of the machine |
| `LogicMachine.Machine.EvalLogic` | contiki/apps/antelope/lvm.c:222-298 | a connective or relation over the buffer, as the specification function of the machine |
| `LogicMachine.Machine.EvalCondition` | contiki/apps/antelope/lvm.c:222-298 | a condition with its leading node, as the specification function of the machine |
| `LogicMachine.Machine.Execute` | contiki/apps/antelope/lvm.c:380-404 | runs the program from its start, as the specification function of the machine |
| `LogicMachine.Machine.SetVariableValue` | contiki/apps/antelope/lvm.c:463-473 | gives a registered variable a value and leaves the other slots |
| `LogicMachine.Machine.DeriveRelation` | contiki/apps/antelope/lvm.c:583-684 | derives the ranges of the relation at the instruction pointer, as the specification function of derivation |
| `LogicMachine.Machine.DeriveComparison` | contiki/apps/antelope/lvm.c:637-684 | derives the range of one comparison, in either order of operands |
| `LogicMachine.Machine.CreateIntersection` | contiki/apps/antelope/lvm.c:497-537 | slot by slot, the intersection of what was derived on both sides, or what one side derived |
| `LogicMachine.Machine.CreateUnion` | contiki/apps/antelope/lvm.c:540-580 | slot by slot, the hull of what was derived on both sides, or what one side derived |
| `LogicMachine.Machine.DeriveRanges` | contiki/apps/antelope/lvm.c:687-690 | derivation of the whole program |
| `LogicMachine.Machine.GetDerivedRange` | contiki/apps/antelope/lvm.c:693-709 | the range derived for a name, or that there is none |
| `AqlParser.Parser.Operand` | contiki/apps/antelope/aql-parser.c:267-288 | parses one operand in place and leaves the program and position of the specification parser |
| `AqlParser.Parser.PlaceOperator` | contiki/apps/antelope/aql-parser.c:305-345 | shifts and patches an operator in front of the code from a saved place |
| `AqlParser.Parser.Expr` | contiki/apps/antelope/aql-parser.c:290-348 | parses one side in place, as the specification parser |
| `AqlParser.Parser.Comparison` | contiki/apps/antelope/aql-parser.c:350-400 | parses a comparison in place, as the specification parser |
| `AqlParser.Parser.Group` | contiki/apps/antelope/aql-parser.c:402-447 | parses a sub-clause behind its opening parenthesis, with a saved end of its own, as the specification parser |
| `AqlParser.Parser.Connected` | contiki/apps/antelope/aql-parser.c:415-440 | places a connective and parses what stands behind it, as the specification parser |
| `AqlParser.Parser.Where` | contiki/apps/antelope/aql-parser.c:402-447 | parses a clause in place, with the saved end updated in its loop, as the specification parser; a later comparison that fails ends it as accepted |
| `IndexSelect.SearchResult` | contiki/apps/antelope/index-inline.c:104-151 | on a strictly increasing column the search leaves the relation exactly when the target is below the first value; otherwise it ends at the target or beside its place, and an exact search fails exactly when the target is absent |
| `IndexSelect.RangeCovers` | contiki/apps/antelope/index-inline.c:154-227 | every row outside the cached rows of a range is rejected by a condition for which the range is sound |
| `IndexSelect.ScanYields` | contiki/apps/antelope/relation.c:735-870 | a selection without an index yields the accepted rows in order and then finishes |
| `IndexSelect.IndexIsTransparent` | contiki/apps/antelope/relation.c:735-870 | index transparency: over a strictly increasing column, a selection through the index is undefined exactly when the relation is empty or a bound is below the first value, and in every other case yields the rows of the full scan in order; it ends with an index error if and only if the two bounds are one value that is absent |
| `IndexSelect.EqualityYieldsOneRow` | contiki/apps/antelope/index-inline.c:154-227 | with equal values in the column, a search for one value yields at most one row and so differs from the scan |
| `QuerySelect.CheckIsTruth` | contiki/apps/antelope/relation.c:735-870 | the re-check of a row by the machine is the truth of the condition on the values of the row |
| `QuerySelect.RangeIsSound` | contiki/apps/antelope/relation.c:631-672 | the range taken for the chosen index contains the indexed value of every matching row |
| `QuerySelect.IndexIsChosen` | contiki/apps/antelope/relation.c:631-672 | a query with a reliable condition uses an index if and only if some indexed attribute is constrained; it is the last such attribute, and without OR the values searched are exactly those that satisfy every comparison on it |
| `QuerySelect.QueryIsTransparent` | contiki/apps/antelope/relation.c:631-870 | end to end: for a reliable condition, a query without an index yields exactly the matching rows in order and finishes; one through an index on a strictly increasing column is undefined when a derived bound is below its first value or there are no rows, and otherwise yields the same rows and ends with an index error exactly when it asks for one absent value |
| `QuerySelect.ClauseQueryIsTransparent` | contiki/apps/antelope/relation.c:873-959 | the same from the tokens of the clause on, through compiler, derivation, choice of index, search and re-check |
| `SelectHandle.Handle.GetValue` | contiki/apps/antelope/index-inline.c:86-101 | reads the indexed value of a row |
| `SelectHandle.Handle.BinarySearch` | contiki/apps/antelope/index-inline.c:104-151 | the loop over min, max and center comes to the specified place, error or read outside the relation |
| `SelectHandle.Handle.RangeSearch` | contiki/apps/antelope/index-inline.c:154-181 | searches both ends of a range |
| `SelectHandle.Handle.GetNext` | contiki/apps/antelope/index-inline.c:202-227 | the next row of the iteration, with the two cached rows |
| `SelectHandle.Handle.ProcessSelect` | contiki/apps/antelope/relation.c:735-870 | one call of the selection: the next accepted row or how it ends |
| `SelectHandle.Handle.SelectIndex` | contiki/apps/antelope/relation.c:631-672 | chooses the last indexed attribute that has a range |
| `Join.JoinIsComplete` | contiki/apps/antelope/relation.c:963-1056 | for every index: repeated calls on a fresh handle yield exactly the nested scan of both relations, in left-major order, and then DB_FINISHED, if and only if the iterator of every left value delivers the right rows that have the value |
| `Join.ScanIsEquiJoin` | contiki/apps/antelope/relation.c:963-1056 | the nested scan lists exactly the pairs of rows with equal values, each once, in left-major order |
| `Join.RestartsAfterFinish` | contiki/apps/antelope/relation.c:963-1056 | a call after DB_FINISHED starts the join again, for every index |
| `Join.InlineIndexEnumerates` | contiki/apps/antelope/index-inline.c:154-227 | on a strictly increasing column the iterator of the inline index delivers the rows of a value if and only if the value is not below the first one |
| `Join.InlineJoinIsComplete` | contiki/apps/antelope/relation.c:963-1056 | the join through the inline index on a strictly increasing right column is the equi-join if and only if no left value is below the first right value |
| `JoinHandle.Handle.ProcessJoin` | contiki/apps/antelope/relation.c:963-1056 | one call of the resumable loop, which re-enters the inner loop where the last call left it and asks the iterator of the inline index for one row at a time |
| `MaxHeap.IntervalIsDyadic` | contiki/apps/antelope/index-maxheap.c:416-445 | node i of level d belongs to the (i - (2^d - 1))-th range of width 2^(16 - d) |
| `MaxHeap.Reaches` | contiki/apps/antelope/index-maxheap.c:226-260 | inserting a range inside an existing node passes from the root to the children of that node |
| `MaxHeap.SplitsInHalves` | contiki/apps/antelope/index-maxheap.c:417-445 | splitting an existing node without children puts its two halves at its two children, and keeps the tree dyadic with its children in pairs |
| `MaxHeap.SplitsOnce` | contiki/apps/antelope/index-maxheap.c:417-445 | splitting a node of the last searched level a second time fails and changes nothing |
| `MaxHeap.PathIsDescent` | contiki/apps/antelope/index-maxheap.c:263-292 | repeated calls of heap_find deliver the descent from the root to the node of the key, one child of each level |
| `MaxHeap.OnPath` | contiki/apps/antelope/index-maxheap.c:263-292 | every existing searchable node whose range has the hash is on that path |
| `MaxHeapMap.ReachableIsDyadic` | contiki/apps/antelope/index-maxheap.c:417-492 | in every heap reached from a fresh one, an existing node holds exactly its dyadic range, its parent and sibling exist, and the bucket of its parent is full; such a range is never the (0, 0) of a missing node |
| `MaxHeapMap.FreshInvariant` | contiki/apps/antelope/index-maxheap.c:495-560 | a created heap satisfies the invariant and holds nothing |
| `MaxHeapMap.SearchPathIsFull` | contiki/apps/antelope/index-maxheap.c:263-292 | a search path has at most eight buckets, one per level, all but the last full |
| `MaxHeapMap.InsertionEffect` | contiki/apps/antelope/index-maxheap.c:395-492 | an insertion keeps the invariant, adds exactly its pair when it succeeds and nothing when it fails, and fails exactly when the eight buckets on the path of the hash hold 128 pairs each |
| `MaxHeapMap.ExhaustionNeedsManyPairs` | contiki/apps/antelope/index-maxheap.c:448-492 | an exhausted path holds 1024 pairs by itself |
| `MaxHeapMap.InsertAllAdds` | contiki/apps/antelope/index-maxheap.c:448-492 | after any insertions the index holds, with multiplicity, what it held and the pairs whose insertion succeeded; as long as there are at most 1024 in all, every insertion succeeds |
| `MaxHeapLookup.LoadIsCoherent` | contiki/apps/antelope/index-maxheap.c:331-392 | loading a bucket leaves the slot counters as they were and the used part of the cached bucket as it is stored |
| `MaxHeapLookup.RecountsStored` | contiki/apps/antelope/index-maxheap.c:331-392 | when no slot of a bucket is known to be used, as after an index was opened again, loading reads all of it and finds the number of pairs stored in front of the empty slots if and only if none of them is the pair that marks an empty slot |
| `MaxHeapLookup.PathHoldsKey` | contiki/apps/antelope/index-maxheap.c:669-738 | the pairs that a search can meet are all the held pairs with the key |
| `MaxHeapLookup.GetNextAnswers` | contiki/apps/antelope/index-maxheap.c:669-750 | the first get_next of an iteration answers with a value held under the least key of the range that has one, and with none exactly when no key has, and leaves a coherent cache |
| `MaxHeapLookup.IndexAgreesWithMap` | contiki/apps/antelope/index-maxheap.c:448-750 | after any insertions into a fresh index, every following lookup agrees with the pairs whose insertion succeeded, which are all of them up to 1024 |
| `MaxHeapLookup.AppendKeepsCoherence` | contiki/apps/antelope/index-maxheap.c:395-414 | an append leaves the cache coherent if and only if it goes to another bucket than the cached one or the buffer happens to have the pair in that slot |
| `MaxHeapLookup.StaleCacheMisses` | contiki/apps/antelope/index-maxheap.c:352-414 | insert, look up, insert, look up: the pair inserted last is held in the root bucket and its key is not found |
| `MaxHeapRuns.InsertStores` | contiki/apps/antelope/index-maxheap.c:395-492 | a successful insertion, split included, writes its pair into the target of the key and into no other slot; a failed one writes nothing |
| `MaxHeapRuns.TargetIsLast` | contiki/apps/antelope/index-maxheap.c:395-492 | the target of a successful insertion is where the next search for the key begins |
| `MaxHeapRuns.NextLookupAgrees` | contiki/apps/antelope/index-maxheap.c:395-750 | for any heap with the invariant and any coherent cache: after a successful insertion of a new key the next lookup of that key agrees with the map, and the cache is still coherent, if and only if the bucket that took the pair is not the cached one or the cached slot already has the pair |
| `MaxHeapRuns.RunAnswers` | contiki/apps/antelope/index-maxheap.c:448-750 | over every run of insertions of new keys and lookups in any order: all lookups that could be made at any time agree with the pairs held if and only if no insertion goes to the cached bucket and finds another pair in its cached slot |
| `MaxHeapRuns.FreshRunAnswers` | contiki/apps/antelope/index-maxheap.c:448-750 | the same from a fresh index on |
| `MaxHeapIndex.Index.constructor` | contiki/apps/antelope/index-maxheap.c:495-560 | a zero-filled heap with the root range and a free cache |
| `MaxHeapIndex.Index.HeapInsertRange` | contiki/apps/antelope/index-maxheap.c:226-260 | the walk over the nodes writes the range into the specified node, or reports -1 |
| `MaxHeapIndex.Index.HeapFind` | contiki/apps/antelope/index-maxheap.c:263-292 | the walk finds the specified node and moves the iterator to its children |
| `MaxHeapIndex.Index.BucketSplit` | contiki/apps/antelope/index-maxheap.c:417-445 | inserts both halves, as the specification |
| `MaxHeapIndex.Index.BucketAppend` | contiki/apps/antelope/index-maxheap.c:395-414 | writes the pair into the next free slot and counts it, or refuses |
| `MaxHeapIndex.Index.FindLast` | contiki/apps/antelope/index-maxheap.c:448-465 | the search loop ends with the last bucket that can be found |
| `MaxHeapIndex.Index.InsertPair` | contiki/apps/antelope/index-maxheap.c:448-492 | a whole insertion, as the specification |
| `MaxHeapIndex.Index.ReadBucket` | contiki/apps/antelope/index-maxheap.c:331-349 | reads the used slots over the cache buffer |
| `MaxHeapIndex.Index.BucketLoad` | contiki/apps/antelope/index-maxheap.c:352-392 | loads a bucket and recounts an unused one, as the specification |
| `MaxHeapIndex.Index.Visit` | contiki/apps/antelope/index-maxheap.c:694-706 | the nodes on the way down, of which NODE_DEPTH are always enough |
| `MaxHeapIndex.Index.ScanCached` | contiki/apps/antelope/index-maxheap.c:725-737 | the first used slot with the key |
| `MaxHeapIndex.Index.SearchVisited` | contiki/apps/antelope/index-maxheap.c:715-738 | the buckets of the path from the deepest up |
| `MaxHeapIndex.Index.GetFirst` | contiki/apps/antelope/index-maxheap.c:669-750 | the first get_next of an iteration over a range of keys, as the specification |
| `MaxHeapIndex.PathFits` | contiki/apps/antelope/index-maxheap.c:694-706 | in any tree whatsoever a path has at most NODE_DEPTH nodes, so the array of visited buckets is never overrun |
| `Deluge.ObjectStartsInvariant` | contiki/apps/deluge/deluge.c:191-223 | an initialised object satisfies the node invariant |
| `Deluge.ReceiveKeepsInvariant` | contiki/apps/deluge/deluge.c:291-579 | no message breaks the node invariant: all pages below the one being received are complete, a page is complete exactly when its packet set is full, and a node whose version is its update version has every page complete |
| `Deluge.TimersKeepInvariant` | contiki/apps/deluge/deluge.c:240-395 | no timer breaks the node invariant |
| `Deluge.TakeKeepsWellFormed` | contiki/apps/deluge/deluge.c:291-579 | every step of the network keeps all nodes in the invariant |
| `DelugeUpgrade.RunKeepsUpgrade` | contiki/apps/deluge/deluge.c:346-579 | over every run of one upgrade with loss, duplication and reordering, nodes and messages in the air carry only the two images under their versions |
| `DelugeUpgrade.UpgradeIsSafe` | contiki/apps/deluge/deluge.c:346-579 | network safety of one upgrade: in every run every page that any node marks complete in the new version holds exactly the page of the source, and a node that reports the new version holds the whole image |
| `DelugeOverlap.OverlapIsUnsafe` | contiki/apps/deluge/deluge.c:398-579 | whenever nodes are complete at three different versions there is a run, with no damaged packet, after which the oldest node marks a page complete in the newest version that it does not have |
| `DelugeOverlap.SafeExactlyForOneUpgrade` | contiki/apps/deluge/deluge.c:291-579 | the newest image spreads safely in every run if and only if all other nodes start in one and the same older version |
| `DelugeProgress.ImageCanSpread` | contiki/apps/deluge/deluge.c:240-579 | from any mixture of older versions and a source of an image of at most 128 pages, some run gives every node the whole newest image |
| `DelugeProgress.SpreadsUpTo128Pages` | contiki/apps/deluge/deluge.c:376-428 | such a run exists if and only if the image has at most 128 pages or there is no older node |
| `DelugeProgress.ObjectsAreMixed` | contiki/apps/deluge/deluge.c:191-223 | initialised objects of older versions and one of the newest are such a network |
| `DelugeService.RequestsArePending` | contiki/apps/deluge/deluge.c:398-428 | over any run in which nothing makes the node forget, what is to be sent of a page is what was pending and what its served requests asked for; while the node stays in its state of transmission the timer runs |
| `DelugeService.AskedIsSent` | contiki/apps/deluge/deluge.c:347-428 | the service law: the transmit timer then puts exactly the packets that some request asked for into the air, with the version of the page and the contents of the file, and leaves nothing pending |
| `DelugeRounds.RoundRemembers` | contiki/apps/deluge/deluge.c:291-310 | until the next round a node remembers exactly whether a message differed, how many summaries agreed and whether one was older |
| `DelugeRounds.NextRound` | contiki/apps/deluge/deluge.c:662-688 | a round after an inconsistency has the shortest interval and any other one twice the last, up to the longest |
| `DelugeRounds.SummaryUnlessHeard` | contiki/apps/deluge/deluge.c:269-288 | the summary timer sends the number of leading complete pages, unless a summary that agreed was heard in the round |
| `DelugeRounds.ProfileWhenOlderHeard` | contiki/apps/deluge/deluge.c:500-521 | the profile timer sends the version of each page if and only if an older summary was heard since the last profile and none that agreed |
| `DelugeRounds.AsksForMissing` | contiki/apps/deluge/deluge.c:240-266 | the request timer asks for exactly the packets that are missing of the page being received, and stops after CONST_LAMBDA requests |
| `DelugeRounds.RunFits` | contiki/apps/deluge/deluge.c:103-121 | over every run the transmit timer runs in the state of transmission only, and the request timer always in that of reception |
| `DelugeRounds.LeavingStopsTimers` | contiki/apps/deluge/deluge.c:103-121 | in every step, leaving a state stops its timers, and a node that stays in its state keeps the timers of its advertisements |
| `DelugeRounds.LeavingSilences` | contiki/apps/deluge/deluge.c:103-121 | a node that leaves the state of maintenance sends no summary and no profile before its next round |
| `DelugeRounds.ProfileIsTakenUp` | contiki/apps/deluge/deluge.c:524-579 | a newer profile makes a node want exactly the pages that it lists in a newer version, and keep all others; any other profile changes nothing |
| `DelugeRounds.IdleTransmit` | contiki/apps/deluge/deluge.c:376-395 | a transmit timer with nothing to send only stops |
| `DelugeRounds.ObjectStartsIdle` | contiki/apps/deluge/deluge.c:191-223 | an initialised object is complete and idle |
| `DelugeDamage.LastPacketsAreKept` | contiki/apps/deluge/deluge.c:430-497 | over a run in which packets complete a page, the page holds for each number the payload of the last packet with it, damaged or not |
| `DelugeDamage.CompletedPageIsRight` | contiki/apps/deluge/deluge.c:430-497 | a page completed by such a run holds the page of the image if and only if the last packet stored in each slot carries the payload of the image |
| `DelugeDamage.DamagedCopyIsKept` | contiki/apps/deluge/deluge.c:430-497 | four intact packets of a page and one damaged copy behind the first complete the page with the damaged payload in it |
| `DelugeNode.CurrentObject.constructor` | contiki/apps/deluge/deluge.c:191-223 | an object with every page complete at its version |
| `DelugeNode.CurrentObject.HighestAvailablePage` | contiki/apps/deluge/deluge.c:226-237 | the number of leading complete pages |
| `DelugeNode.CurrentObject.HandleSummary` | contiki/apps/deluge/deluge.c:291-344 | the state of the specification after a summary |
| `DelugeNode.CurrentObject.HandleRequest` | contiki/apps/deluge/deluge.c:398-428 | the state of the specification after a request; a page number from 128 on is read as negative and asks for nothing |
| `DelugeNode.CurrentObject.HandlePacket` | contiki/apps/deluge/deluge.c:431-497 | the state of the specification after a packet, which is stored before it is checked |
| `DelugeNode.CurrentObject.StorePacket` | contiki/apps/deluge/deluge.c:444-460 | writes the buffer slot and marks it when the packet is intact |
| `DelugeNode.CurrentObject.CompletePage` | contiki/apps/deluge/deluge.c:462-497 | writes a full buffer to the file and goes on to the next page |
| `DelugeNode.CurrentObject.HandleProfile` | contiki/apps/deluge/deluge.c:524-579 | the state of the specification after a profile |
| `DelugeNode.CurrentObject.Transition` | contiki/apps/deluge/deluge.c:103-121 | leaving a state stops its timers |
| `DelugeNode.CurrentObject.BeginReceive` | contiki/apps/deluge/deluge.c:335-342 | enters the state of reception with the request timer running |
| `DelugeNode.CurrentObject.NoteSummary` | contiki/apps/deluge/deluge.c:301-311 | what a summary tells of the neighbourhood |
| `DelugeNode.CurrentObject.ServeRequest` | contiki/apps/deluge/deluge.c:412-426 | adds the packets asked for to those to be sent of the same page, and starts the timer |
| `DelugeNode.CurrentObject.AdvertiseSummary` | contiki/apps/deluge/deluge.c:269-288 | the summary that is sent, unless one that agreed was heard |
| `DelugeNode.CurrentObject.NewRound` | contiki/apps/deluge/deluge.c:662-688 | one pass of the loop of the process |
| `DelugeNode.CurrentObject.OutdatePages` | contiki/apps/deluge/deluge.c:559-565 | marks the pages that have a newer version as missing |
| `DelugeNode.CurrentObject.SendRequest` | contiki/apps/deluge/deluge.c:240-266 | the request that is sent, and the state |
| `DelugeNode.CurrentObject.SendPage` | contiki/apps/deluge/deluge.c:347-373 | the packets that are sent for a page |
| `DelugeNode.CurrentObject.TxCallback` | contiki/apps/deluge/deluge.c:376-395 | sends what was asked for and clears the request |
| `DelugeNode.CurrentObject.SendProfile` | contiki/apps/deluge/deluge.c:500-521 | the profile that is sent |
| `CoapOptions.HeaderIsNoMarker` | contiki/apps/er-coap/er-coap.c:98-133 | no option header, whatever its delta and length, can be taken for the payload marker |
| `CoapOptions.ExtensionReads` | contiki/apps/er-coap/er-coap.c:98-133 | every delta and length up to 65804 is read back from its nibble and extension |
| `CoapOptions.IntRoundTrip` | contiki/apps/er-coap/er-coap.c:85-171 | every 32-bit integer is read back from the bytes written for it, of which the first is not zero |
| `CoapOptions.BlockRoundTrip` | contiki/apps/er-coap/er-coap.h:163-173 | a block value is read back if and only if its size is a power of two; number and more-flag always are |
| `CoapOptions.StringRoundTrip` | contiki/apps/er-coap/er-coap.c:174-239 | a string cut at its separators and merged again comes out as it was if and only if it begins with no separator and ends with none or an even number of them, whatever lies in memory behind it |
| `CoapOptions.LeadingSeparator` | contiki/apps/er-coap/er-coap.c:174-239 | a leading separator is always lost |
| `CoapMessage.ParsesOption` | contiki/apps/er-coap/er-coap.c:487-530 | one encoded option is read back as its number and value, whatever follows |
| `CoapMessage.ParsesOptions` | contiki/apps/er-coap/er-coap.c:487-689 | any ascending list of options is read back as it was written, whatever follows |
| `CoapMessage.MarkerIsUnique` | contiki/apps/er-coap/er-coap.c:110-133 | no option of a serialized message, at any place of its list, begins like the payload marker |
| `CoapMessage.OptionsAscend` | contiki/apps/er-coap/er-coap.c:349-389 | the options of a packet are written in ascending order of their numbers |
| `CoapMessage.StraysExactly` | contiki/apps/er-coap/er-coap.h:79-80 | the parser sets a bit outside the option bitmap if and only if the options have a number of 64 or more and none before it is refused |
| `CoapWire.FieldsOnTheWire` | contiki/apps/er-coap/er-coap.c:349-389 | a serialized packet is its first bytes, its token, ascending options and the payload, and each field is sent as its number demands: a mergeable path or query as pieces that joined by / or & give the string, and have no separator in them if and only if no two separators are adjacent in the string; integers in the fewest bytes |
| `CoapWire.StringIsCut` | contiki/apps/er-coap/er-coap.c:174-218 | the pieces of any mergeable string at any separator |
| `CoapWire.DoubledSeparatorStays` | contiki/apps/er-coap/er-coap.c:187-205 | the path a//b is cut into a and /b |
| `CoapWire.ReceivedFields` | contiki/apps/er-coap/er-coap.c:443-693 | whatever acceptable options are received, each field is what its number makes of the values under it: the pieces of a path are joined by / and those of a query by &, empty ones in front being left out; of any other option the last value counts |
| `CoapWire.RejectedByFirst` | contiki/apps/er-coap/er-coap.c:530-684 | other options are refused by the first that is not acceptable, with 5.05, with 4.02, or by a bit outside the bitmap |
| `CoapMessage.FieldsSurvive` | contiki/apps/er-coap/er-coap.c:349-389 | the option fields come out as they went in if and only if each string is mergeable and each block size a power of two |
| `CoapMessage.MessageRoundTrip` | contiki/apps/er-coap/er-coap.c:311-693 | a packet with a code whose header fits is parsed to itself (header, token, exactly the set options with their values, payload) if and only if its fields survive and its payload fits a chunk |
| `CoapMessage.EmptyMessageRoundTrip` | contiki/apps/er-coap/er-coap.c:337-341 | a packet without a code is parsed to itself if and only if it has no token, options or payload |
| `CoapSender.FloorLog2` | contiki/apps/er-coap/er-coap.c:72-82 | the loop computes the position of the highest bit |
| `CoapSender.ParseInt` | contiki/apps/er-coap/er-coap.c:85-95 | the loop computes the big-endian value in 32 bits |
| `CoapSender.Sender.PutHeader` | contiki/apps/er-coap/er-coap.c:110-133 | writes the header bytes at a place of the buffer and nothing else |
| `CoapSender.Sender.PutOption` | contiki/apps/er-coap/er-coap.c:136-171 | writes an option behind its header, and nothing else |
| `CoapSender.Sender.PutParts` | contiki/apps/er-coap/er-coap.c:174-218 | the loop with its skipped bytes writes exactly the encoded segments |
| `CoapSender.Sender.PutField` | contiki/apps/er-coap/er-coap.c:136-218 | writes one field as its encoded option values |
| `CoapSender.Sender.PutOptions` | contiki/apps/er-coap/er-coap.c:349-389 | writes the options of a packet in order |
| `CoapSender.Sender.PutHead` | contiki/apps/er-coap/er-coap.c:311-347 | writes the four first bytes and the token |
| `CoapSender.Sender.PutPayload` | contiki/apps/er-coap/er-coap.c:393-399 | writes the marker and the payload, or nothing |
| `CoapSender.Sender.PutOptionsBehind` | contiki/apps/er-coap/er-coap.c:349-389 | the options behind the first bytes and the token complete the header |
| `CoapSender.Sender.PutPayloadBehind` | contiki/apps/er-coap/er-coap.c:393-399 | marker and payload behind the header |
| `CoapSender.Sender.SerializeMessage` | contiki/apps/er-coap/er-coap.c:311-423 | writes behind the end of its buffer if and only if the header, with the payload when the header is accepted, is longer than the buffer; otherwise leaves the serialized message and returns its length, or zero when the header is too long |
| `CoapSender.StaysInTransaction` | contiki/apps/er-coap/er-coap.c:349-409 | serialization of a packet, whose payload fits a chunk, stays in the buffer of a transaction if and only if its header does; a header that is in the buffer and over COAP_MAX_HEADER_SIZE is found too long |
| `CoapSender.LongStringOverruns` | contiki/apps/er-coap/er-coap.c:349-409 | a string option as long as the buffer of a transaction, or less by first bytes and token, runs over it before its length is compared |
| `CoapSender.LongPathOverruns` | contiki/apps/er-coap/er-coap.c:349-409 | a request for a path of 150 bytes does |
| `CoapReceiver.MovedHolds` | contiki/apps/er-coap/er-coap.c:221-239 | moving a value behind the string of its option merges it, leaves every string of another option as it was, and touches nothing behind the value |
| `CoapReceiver.Receiver.Extended` | contiki/apps/er-coap/er-coap.c:505-527 | reads an extended nibble, or finds it cut off |
| `CoapReceiver.Receiver.Merge` | contiki/apps/er-coap/er-coap.c:221-239 | merges a value in the buffer: the field holds the merged string, every other field is unchanged, and so is all that is behind the value |
| `CoapReceiver.Receiver.Note` | contiki/apps/er-coap/er-coap.c:530-684 | the option switch on a value in the buffer, as the pure specification, which ends at a number without a bit in the bitmap |
| `CoapReceiver.Receiver.ParseOne` | contiki/apps/er-coap/er-coap.c:496-689 | one pass of the loop: the rest of the data, the option number and the fields are those of the pure parse |
| `CoapReceiver.Receiver.ParseRest` | contiki/apps/er-coap/er-coap.c:495-689 | the option loop in the receive buffer comes to what the pure parse of a copy of the data comes to |
| `CoapReceiver.Receiver.FindPayload` | contiki/apps/er-coap/er-coap.c:497-510 | the payload is a slice cut to a chunk, and its terminator touches no string |
| `CoapReceiver.Receiver.ParseMessage` | contiki/apps/er-coap/er-coap.c:443-693 | in-place parsing refines the pure parse: same rejection or same packet, with every string field read from the rewritten buffer |
| `LinkFormat.AnswerIsWindow` | contiki/apps/er-coap/er-coap-engine.c:157-195 | an answer has the window of the text at its offset, which is computed in 32 bits and is the block number times the block size up to the block number 0xFFFFF that RFC 7959 allows; it says that more follow exactly when the text does not end in the window; it has content unless the offset is beyond the text |
| `LinkFormat.SmallBlocksTile` | contiki/apps/er-coap/er-coap-engine.c:390-432 | blocks no larger than the blocks of the server make up the rest of the text |
| `LinkFormat.LargeBlocksSkip` | contiki/apps/er-coap/er-coap-engine.c:390-432 | blocks larger than the blocks of the server leave gaps |
| `LinkFormat.TransferIsComplete` | contiki/apps/er-coap/er-coap-engine.c:370-435 | what the client collects is the document if and only if it asks for blocks of the size of the server, or the document fits the first block |
| `LinkDocument.DocumentReads` | contiki/apps/er-coap/er-coap-res-well-known-core.c:80-182 | a reader of the link format gets back the path and attributes of every resource, in order, if and only if no path has a closing bracket and no attributes a comma |
| `LinkFormatHandler.Handler.AddChar` | contiki/apps/er-coap/er-coap-res-well-known-core.c:54-58 | a character is put into the buffer when it is in the window, and counted in any case |
| `LinkFormatHandler.Handler.AddString` | contiki/apps/er-coap/er-coap-res-well-known-core.c:60-75 | a string is put into the rest of the buffer, and the walk breaks off exactly when the buffer is full and more may follow |
| `LinkFormatHandler.Handler.Print` | contiki/apps/er-coap/er-coap-res-well-known-core.c:63-68 | writes what fits and counts what would have been written |
| `LinkFormatHandler.Handler.AddTarget` | contiki/apps/er-coap/er-coap-res-well-known-core.c:148-153 | comma, brackets and target of a link |
| `LinkFormatHandler.Handler.AddResource` | contiki/apps/er-coap/er-coap-res-well-known-core.c:148-182 | one link: complete in the window so far, or broken off with a full window and more text behind it |
| `LinkFormatHandler.Handler.Get` | contiki/apps/er-coap/er-coap-res-well-known-core.c:80-204 | for any resources the buffer has the window of the document at the offset, and the offset left is -1 exactly when the document ends there |
| `BlockEngine.Handle` | contiki/apps/er-coap/er-coap-res-well-known-core.c:186-204 | the payload, or the error text, that the handler sets |
| `BlockEngine.Serve` | contiki/apps/er-coap/er-coap-engine.c:106-199 | the server answers as specified to a request with or without a block, with its offset in 32 bits |
| `BlockEngine.BlockingRequest` | contiki/apps/er-coap/er-coap-engine.c:370-435 | the loop of the client collects the document if and only if the block sizes agree or one block is enough |
| `CoapTransactions.TakeKeeps` | contiki/apps/er-coap/er-coap-transactions.c:71-178 | every step keeps the invariant of pool, list, counters, intervals and callbacks |
| `CoapTransactions.RunKeeps` | contiki/apps/er-coap/er-coap-transactions.c:71-178 | so does every run |
| `CoapTransactions.PoolIsConserved` | contiki/apps/er-coap/er-coap-transactions.c:71-151 | over all runs, used plus free buffers are constant, and every transaction ever opened is in use or over, never both and never twice |
| `CoapTransactions.RetransmissionSchedule` | contiki/apps/er-coap/er-coap-transactions.c:90-178 | a transaction that timed out was sent COAP_MAX_RETRANSMIT + 1 times, an answered one at most COAP_MAX_RETRANSMIT times, an unreliable one once, and the k-th resend comes no earlier than 2^k - 1 first intervals after the first message |
| `CoapTransactions.UnansweredTimesOut` | contiki/apps/er-coap/er-coap-transactions.c:167-178 | without replies, after as many long enough waits as there are timeouts left, every transaction is over and every one of them timed out |
| `CoapTransactions.CheckProgresses` | contiki/apps/er-coap/er-coap-transactions.c:167-178 | a check in which some timer has expired uses up a timeout, although the walk ends at the first transaction it clears |
| `CoapEvents.AnswerEndsFirst` | contiki/apps/er-coap/er-coap-engine.c:243-254 | an answer ends the first transaction in use with its identifier, however often that was sent, with the callback of its buffer, which is then free, and leaves all others; with an unknown identifier it changes nothing |
| `CoapEvents.AnsweredStaysSilent` | contiki/apps/er-coap/er-coap-transactions.c:90-164 | over every later run an answered transaction is never sent again |
| `CoapEvents.OpeningSends` | contiki/apps/er-coap/er-coap-transactions.c:71-139 | an opening takes the first free buffer and sends at once: a confirmable transaction is then in use behind all others, due after the first interval given, any other is over; without a free buffer nothing happens |
| `CoapEvents.CheckSendsAgain` | contiki/apps/er-coap/er-coap-transactions.c:90-178 | a check sends every expired transaction again, with its interval doubled, up to the first that is given up: that one is sent a last time and times out, with the callback of its buffer, which is then free, and the walk ends there |
| `CoapEvents.TimesOutAtLast` | contiki/apps/er-coap/er-coap-transactions.c:167-178 | from every reachable state there are waits after which, without replies, nothing is in use and all that was has timed out |
| `CoapTransactions.CallsOwnCallback` | contiki/apps/er-coap/er-coap-transactions.c:117-136 | of a confirmable transaction that is over, the callback called is the one set by its creator and no other, if and only if its creator set one or its buffer held none |
| `CoapTransactions.CallbacksCalledOnce` | contiki/apps/er-coap/er-coap-transactions.c:117-136 | when every transaction had a callback of its own or a buffer without one, no callback is called twice |
| `CoapTransactions.StaleCallbackCalledTwice` | contiki/apps/er-coap/er-coap-transactions.c:71-87 | a transaction without a callback calls a second time the callback that its buffer was last used with |
| `CoapTransactionTable.Table.Alloc` | contiki/apps/er-coap/er-coap-transactions.c:71-75 | the first free buffer, or none |
| `CoapTransactionTable.Table.OpenTransaction` | contiki/apps/er-coap/er-coap-transactions.c:71-139 | a new transaction with its first message, exactly when there is a free buffer |
| `CoapTransactionTable.Table.Send` | contiki/apps/er-coap/er-coap-transactions.c:90-139 | sends, and restarts the timer with the first or doubled interval, or ends the transaction |
| `CoapTransactionTable.Table.Clear` | contiki/apps/er-coap/er-coap-transactions.c:142-151 | frees the buffer and takes the transaction off the list |
| `CoapTransactionTable.Table.FindByMid` | contiki/apps/er-coap/er-coap-transactions.c:153-164 | the first transaction with the identifier |
| `CoapTransactionTable.Table.Receive` | contiki/apps/er-coap/er-coap-engine.c:243-254 | ends the first transaction with the identifier of a message that is no request |
| `CoapTransactionTable.Table.Check` | contiki/apps/er-coap/er-coap-transactions.c:167-178 | the walk over the list, which ends where a transaction is cleared |
| `TunChecksum.SumOfWords` | contiki/tools/tunslip.c:343-361 | the carry-around sum of a range is the sum of its words less 2^16 - 1 for each carry, and is zero only when every word is |
| `TunChecksum.AcceptedSum` | contiki/tools/tunslip.c:343-412 | a range is accepted exactly when its words sum to a multiple of 2^16 - 1 |
| `TunChecksum.CheckMeans` | contiki/tools/tunslip.c:364-412 | the code of check_ip by plain sums of big-endian words: version, length, a header and a segment with pseudo-header that sum to multiples of 2^16 - 1, by protocol number, an absent UDP checksum being allowed |
| `TunChecksum.NumberedWhen` | contiki/tools/tunslip.c:642 | a packet is numbered when its identification is zero and bit 14 of its fragment word, read as little-endian, is set |
| `TunChecksum.ComplementCancels` | contiki/tools/tunslip.c:642-647 | what the byte-swapped identification adds to a big-endian sum, the updated checksum takes away |
| `TunChecksum.NumberedPacketAccepted` | contiki/tools/tunslip.c:627-655 | a packet of any length that check_ip accepts is still accepted after the identification rewrite if and only if its header length field is not 2 or the identification is 0 or 0xffff, and, when it has less than twelve bytes, what the rewrite adds to a transport checksum that is looked at is a multiple of 2^16 - 1 |
| `TunChecksum.FullHeaderAccepted` | contiki/tools/tunslip.c:627-655 | a packet with a header of at least 20 bytes that check_ip accepts is always accepted after the rewrite |
| `TunChecksum.FilledSum` | contiki/tools/tunslip.c:320-327 | a range with a zero word is accepted once the word is the complement of its sum, or all ones when the sum is |
| `TunChecksum.RelayedPacketAccepted` | contiki/tools/tunslip.c:301-329 | a DHCP reply whose two checksums were filled in is accepted by check_ip |
| `TunBridge.Bridge.SumOf` | contiki/tools/tunslip.c:343-361 | the loop over a moving pointer computes the sum of the range |
| `TunBridge.Bridge.Check` | contiki/tools/tunslip.c:364-412 | the code of the first check that fails |
| `TunBridge.Bridge.CheckRest` | contiki/tools/tunslip.c:379-411 | the code of the transport checks |
| `TunBridge.Bridge.NumberPacket` | contiki/tools/tunslip.c:642-649 | rewrites identification and checksum in the buffer and advances the counter |
| `TunBridge.Bridge.WriteToSerial` | contiki/tools/tunslip.c:627-680 | drops a packet exactly when it fails the first check, or was numbered with a header length field of 2 and a number that is no zero; sends any other as its frame |
| `Slip.ReadsOn` | contiki/tools/tunslip6.c:165-315 | reading on from where a call stopped, with the escape character put back, is reading everything at once |
| `Slip.ChunksAreJoined` | contiki/tools/tunslip6.c:165-315 | however the stream is cut into chunks, the same frames come out and the same packet is left over |
| `Slip.RoundTrip` | contiki/tools/tunslip6.c:165-479 | a packet framed alone comes out as it went in if and only if it has 1 to 1999 bytes and, when lines are echoed, no printable line in front |
| `Slip.TextIsLost` | contiki/tools/tunslip6.c:147-338 | in lengths and characters: a packet of 1 to 1999 bytes comes out as it went in unless lines are echoed and it is text from its second character to the end of some line |
| `Slip.FrameOnLine` | contiki/tools/tunslip6.c:344-375 | a frame is, byte for byte, what RFC 1055 and the escapes for flow control put on the line |
| `Slip.EchoLosesPacket` | contiki/tools/tunslip6.c:316-325 | with echo on, a two-byte packet that ends in a newline is lost |
| `Slip.SendAllQueues` | contiki/tools/tunslip6.c:378-385 | bytes are queued behind the pending ones exactly when there is room behind the last, even if the front of the buffer was written |
| `Slip.RunWritesFrames` | contiki/tools/tunslip6.c:378-479 | over any packets and partial writes, what was written and what is pending are the frames of the packets in order |
| `Slip.StreamRoundTrip` | contiki/tools/tunslip6.c:165-479 | end to end: over any partial writes and any chunks of what was written, the frames that come out are the first packets that went in, and all of them once nothing is pending |
| `Slip.StreamIsClean` | contiki/tools/tunslip6.c:344-375 | with flow control no raw XON or XOFF is ever written |
| `Slip.EscapedIsClean` | contiki/tools/tunslip6.c:344-375 | an escaped packet has no terminator inside, and with flow control no XON or XOFF |
| `SlipLine.Output.Send` | contiki/tools/tunslip6.c:378-385 | puts a byte behind the last, or ends the program |
| `SlipLine.Output.FlushBuf` | contiki/tools/tunslip6.c:394-414 | writes part of what is pending and starts over when all is written |
| `SlipLine.Output.SendEscaped` | contiki/tools/tunslip6.c:344-375 | queues the escapes of a byte |
| `SlipLine.Output.WriteToSerial` | contiki/tools/tunslip6.c:417-479 | queues the frame of a packet |
| `SlipLine.Input.IsSensible` | contiki/tools/tunslip6.c:147-158 | whether all but the first byte can be printed |
| `SlipLine.Input.Store` | contiki/tools/tunslip6.c:312-327 | stores a byte, and forgets a printable line that is echoed |
| `SlipLine.Input.SerialToTun` | contiki/tools/tunslip6.c:165-338 | one call on what has arrived: the finished frames, the packet left over and the character put back; the buffer is never overrun |
| `JsonTree.StepPrintsRest` | contiki/apps/json/jsontree.c:131-213 | what a step prints, followed by what is then left to print, is what was left before it |
| `JsonTree.StepMeasures` | contiki/apps/json/jsontree.c:131-213 | every step brings the end one step nearer, and goes beyond the stack only when what is left is deeper than the stack |
| `JsonTree.PrintsTree` | contiki/apps/json/jsontree.c:131-213 | stepping through a tree comes to an end after as many steps as the tree has, and prints exactly its recursive rendering, if and only if the tree is no deeper than the stack |
| `JsonNumbers.IntegerIsPrinted` | contiki/apps/json/jsontree.c:82-101 | what is printed for an integer has its decimal value, a minus in front only for a negative one, and no leading zero |
| `JsonNumbers.EscapedStandsFor` | contiki/apps/json/jsontree.c:67-79 | what is printed of a string without backslashes stands for the string and has no quote that would end it |
| `JsonParse.StringReads` | contiki/apps/json/jsonparse.c:60-75 | the text up to the end that the parser finds of a printed string is the string if and only if it has no quote and no backslash that passes over its end |
| `JsonParse.ValueReports` | contiki/apps/json/jsonparse.c:112-186 | a rendered value in its place is reported as its tokens and leaves the stack as it was, and the rest is then reported, if and only if the value is in the fragment of the parser there |
| `JsonParse.FromReports` | contiki/apps/json/jsonparse.c:112-186 | the same of a container from any child on, with the colon of the pair before still open |
| `JsonParse.TreeRoundTrip` | contiki/apps/json/jsonparse.c:112-186 | the rendering of a tree is reported as its tokens in order, without an error and ending at depth zero, if and only if its root is an object, its strings are plain, its integers not negative, its nesting within the stack, and every value of a pair ends with an atom; the tokens then say what the tree says, each integer by its decimal value |
| `JsonParse.PrintedThenParsed` | contiki/apps/json/jsonparse.c:112-186 | the same of the text that stepping through the tree has printed |
| `JsonParse.EmptyObjectRejected` | contiki/apps/json/jsonparse.c:125-139 | a pair with an empty object as its value is printed and not parsed |
| `JsonParse.RejectsExactly` | contiki/apps/json/jsonparse.c:112-186 | for every text and everything that may be open: an error is reported if and only if a closing bracket does not fit what is open, a comma is neither in an array nor behind the value of a pair, or a string or array is outside of everything |
| `JsonParse.ClosingLeavesRest` | contiki/apps/json/jsonparse.c:125-160 | a closing bracket leaves everything that was open around its own |
| `JsonParse.NumberIsWhole` | contiki/apps/json/jsonparse.c:76-85 | a number is reported with all its digits and dots |
| `JsonParse.ReportsPastSpace` | contiki/apps/json/jsonparse.c:90-98 | any white space in front of more text makes no difference |
| `JsonParse.OthersArePassed` | contiki/apps/json/jsonparse.c:112-186 | a character of another kind is passed over |
| `JsonPrinter.Context.WriteString` | contiki/apps/json/jsontree.c:67-79 | puts out the string with its quotes escaped |
| `JsonPrinter.Context.WriteInt` | contiki/apps/json/jsontree.c:82-101 | puts out a numeral whose decimal value is the integer, which always fits the buffer of ten |
| `JsonPrinter.Context.FillDigits` | contiki/apps/json/jsontree.c:90-95 | the numeral of a value at the end of the buffer |
| `JsonPrinter.Context.Step` | contiki/apps/json/jsontree.c:131-213 | one step on the stack, as the specification |
| `JsonPrinter.Context.Enter` | contiki/apps/json/jsontree.c:136-173 | the bracket, the separator and the label, and the step down |
| `JsonPrinter.Context.Leave` | contiki/apps/json/jsontree.c:206-212 | backs up one level |
| `JsonPrinter.Context.PrintTree` | contiki/apps/json/jsontree.c:131-213 | stepping until nothing is left puts out the rendering, exactly when the tree is no deeper than the stack |
| `JsonReader.Parser.SkipWhite` | contiki/apps/json/jsonparse.c:90-98 | moves past spaces and newlines |
| `JsonReader.Parser.GetType` | contiki/apps/json/jsonparse.c:244-250 | the top of the stack, or zero |
| `JsonReader.Parser.PushChar` | contiki/apps/json/jsonparse.c:38-44 | opens a bracket or colon and clears the value type |
| `JsonReader.Parser.PopChar` | contiki/apps/json/jsonparse.c:47-54 | closes the top |
| `JsonReader.Parser.ReadString` | contiki/apps/json/jsonparse.c:60-75 | marks a string and moves behind its closing quote |
| `JsonReader.Parser.ReadNumber` | contiki/apps/json/jsonparse.c:76-85 | marks a number and stops behind it |
| `JsonReader.Parser.CloseBrace` | contiki/apps/json/jsonparse.c:125-139 | closes an object, and the pair that is still open |
| `JsonReader.Parser.Mark` | contiki/apps/json/jsonparse.c:121-172 | a bracket, colon or comma |
| `JsonReader.Parser.NextToken` | contiki/apps/json/jsonparse.c:112-186 | one call, as the specification |
| `JsonReader.Parser.ReadAll` | contiki/apps/json/jsonparse.c:112-186 | calling until nothing is left reports exactly the expected tokens, or not |
| `JsonReader.ReadTree` | contiki/apps/json/jsonparse.c:112-186 | reading a rendered tree succeeds if and only if it is an object in the fragment of the parser |

## Left out

- Antelope REMOVE, aggregates, floats, string predicates (a string operand is parsed and emits nothing), relation catalog files and index reload.
- The query lexer: the compiler model starts from tokens. Names are whole strings; the original cuts them to its buffer.
- Variable and derivation arrays have LVM_MAX_VARIABLE_ID slots, the bound of every loop over them.
- MaxHeap `load`, and any get_next after the first of an iteration. Keys and tuple identifiers are 16-bit values, and `transform_key` is an arbitrary function of them.
- How long the timers of Deluge run: a timer may expire at any time while it runs. The page count is fixed, and a profile has an entry per page. A request timer that is still running when all pages are complete does nothing here; the original reads behind its pages then.
- Deluge versions and page counts are single bytes in the original and naturals here; nothing is computed with them, so that the model holds for the values that fit. The page to send is a signed byte, which is modelled. The runs of an upgrade have no damaged packets; `DelugeDamage` has them.
- CoAP observe lists, separate responses, duplicate suppression and proxy options (always rejected). The wire is left out of the block-wise transfer: every request is answered, and a document has less than 2^31 characters.
- CoAP: reading beyond the received data, which the original does on malformed options, and setting a bit outside the option bitmap end the model as outcomes of their own.
- CoAP: the payload given to the serializer is a value; that it may lie in the transaction buffer already, and is then moved, is not modelled.
- Link-format filtering, which is compiled out.
- CoapTransactions.RetransmissionSchedule: first intervals are given by whoever opens a transaction, because random numbers and the clock rate are parameters; the clock does not wrap around.
- The handling of tunslip6 frames that begin with `!` or `?`, which the bridge acts on itself; the model reports every finished frame.
- tunslip: option parsing of DHCP messages, and device set-up.
- JSON callbacks, and the smallest 32-bit integer, whose negation is undefined in C. Characters behind the text of the parser are taken as terminators.
- All user-interface programs, process scheduling, the network stack and the file system.
