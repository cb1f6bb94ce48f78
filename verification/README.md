# Verified models of the Sugar cores

Dafny models of the algorithms everything else in the repository rests on, and
proofs of what each is for. `dafny verify dfyconfig.toml` checks all of it.

**BLAKE3** (`Bits`, `Blake3Tree`, `Blake3Chunk`, `Blake3Wide`, `Blake3Stack`,
`Blake3Hasher`, `JavaBlake3`, `Blake3Compress`). `Blake3Tree` holds the hash as the
BLAKE3 paper defines it: chunks and a left-balanced tree (section 2.1) under an
extendable root output (section 2.6). The compression function is a parameter, so
the theorems hold for any. The C hasher is a class over its chunk buffer and its
stack of chaining values (section 5.1.2); the SIMD degree is any power of two. A
ghost field says which bytes it has seen, and every operation is proved against
it; `HashPieces` is the conclusion, independence from how the input is split. The
Java version builds the tree bottom-up and is proved against the same tree.
`Blake3Compress` proves the portable C compression and the Java one equal, word for
word: one reads the message through a schedule table, the other permutes it.

**The wp calculus** (`Ir`, `Semantics`, `Substitution`, `SubstPlain`, `SubstLemma`,
`SubstFree`, `WpEvaluator`, `WpSound`, `WpValueOp`, `WpErrors`, `WpOrder`, `WpBinder`,
`WpStrict`, `Transport`, `TransportOps`, `Compose`, `ComposePre`, `ComposeExact`). Terms
and formulas are read over an arbitrary interpretation: values, constants, constructors, predicates, a lambda
through its graph, choice and divergence through uninterpreted functions. On that
rest the substitution lemma, the refinement of a semantic predicate transformer by
`wp`, transport between languages, and the soundness of composed contract chains.

**Desugaring** (`Desugar`, `DesugarMatch`, `DesugarMeaning`, `DesugarTermination`,
`DesugarGraph`, `DesugarCertify`, `DesugarOverlap`, `DesugarConfluence`, `DesugarInstances`,
`DesugarRuns`, `DesugarCongruence`). The innermost rewriter, what its steps are and
preserve, and what its two static certificates see and buy: a bound on every innermost
run of whatever strategy, and one normal form reached in one number of steps.

**Effect propagation** (`Effects`, `EffectsNearest`), the **canonical JSON encoder**
(`Jcs`, `JcsReader`, `JcsEncoder`) and the **mint order** (`MintOrder`) are the loops of
their files, proved against a least fixpoint and its distances, a reader of the texts,
and a dependency order.

`Text`, `Sequences` and `Wrappers` are small shared helpers.

## Readings and conditions

Where the code does less than its comments say, the code is modelled and the
theorem carries the condition it needs; the lemma named with each shows an input
without it.

- **Let** (`implementations/rust/libsugar/src/wp.rs:980-1019`). The comment calls the
  renames capture-free by construction. The fresh name does avoid the replacement's
  free names, the variable, the binder's own name and the names of earlier
  bindings, but not later binders nor names free in what follows, and a name
  bound twice in one group accumulates two renames. `SafeTerm` is the condition
  that nothing still used is caught that way; terms without let satisfy it.
  `LetCapturesLaterBinder`, `LetRepeatedBinder`.
- **Formals** are substituted one after the other
  (`implementations/rust/libsugar/src/wp.rs:495-498`). `InOrder`, part of `Clean`, asks that
  no later formal be free in an earlier argument value unless it stands for itself;
  `InOrderExactly` proves the condition necessary. `SequentialFormals`.
- **Rule binders.** A part of a rule without schema nodes is read as the formula it
  is, and needs no condition. A binder around the placeholder or a slot's
  transformer is read as letting the program variable it names take any value, as
  the loop rule of `protocol/specs/2026-05-13-wp-as-formula.md:109-114` intends.
  `Clean` asks that it be `Untouched`: no value substituted under it has its name
  free, or the code renames the binder away from the variable
  (`implementations/rust/libsugar/src/wp.rs:876-907`). `BinderExactly` proves that
  necessary. `LoopBinderRenamed`.
- **Nested preconditions.** An operation in value position contributes its value
  and not its precondition (`implementations/rust/libsugar/src/wp.rs:579-590`).
  `Transformer` has a strict reading that demands it. wp is the lenient one always,
  and the strict one where no operation in value position has a precondition;
  `StrictExactly` says when it is strict where one has.
  `NestedPreIsDropped`.
- **Interpreted values.** In `Transport` every operation in value position has a
  value expression or keeps its name; the fallback builds a constructor from the
  operation's own name. `UninterpretedExactly`, `RenamedConstructor`.
- **Chains.** The composed precondition is taken for every value of its result
  name. Later results must be found directly, their right sides free of the
  result; `JoinExactly` proves the second half necessary. `ResultLoses`,
  `NamespacedGuess`.
- **The termination certificate** keys its graph by root, and looks rules up by
  name (`implementations/rust/libsugar/src/desugar.rs:485-498`), so a later rule can
  hide the edges of an earlier one, and a unit right side has no edge at all.
  `Covers` asks that no edge be missing. `OverwrittenEdgesLoop`, `SharedNameLoops`,
  `UnitLoops`.
- **The confluence certificate** compares names by an aliasing that is not
  transitive, and never unifies unit with an operation of that name. `Comparable`
  is the exact condition for linear patterns; unqualified names other than
  `unit` satisfy it. It also lets left sides overlap under one right side;
  `SameRightsApart` excludes that. `QualifiedNamesMissed`, `UnitSpellingMissed`,
  `SameRightSideMissed`.
- **Effects.** Each function is decided once. `Consistent` is the exact condition
  under which nothing is missed; a single effect satisfies it. `FirstEffectDecides`.
- **Java.** The chunk count is computed in `int`: from `2^31 - 1023` bytes on the
  sum wraps and the allocation throws, which the model returns as `None`.

## Model

| member | source | states |
|---|---|---|
| `Bits.PopCntLoop` | tools/blake3-vendored/blake3_impl.h:132-144 | the fallback loop that clears one bit a turn returns the number of one bits |
| `Bits.ClearLowestBit` | tools/blake3-vendored/blake3_impl.h:138-142 | `x & (x - 1)` has exactly one bit fewer, and is smaller |
| `Bits.MaskIsAlignment` | tools/blake3-vendored/blake3.c:542-544 | the mask test of the update loop is zero exactly if the power of two divides the count |
| `Bits.DecomposeLength` | tools/blake3-vendored/blake3.c:425-436 | a number is a sum of decreasing powers of two, as many as it has one bits |
| `Bits.PopCntAdd` | tools/blake3-vendored/blake3.c:425-474 | adding a power of two that divides a number raises the population count by at most one |
| `Bits.DecomposeSnoc` | tools/blake3-vendored/blake3.c:425-474 | adding a power of two below the alignment of a number appends it to the decomposition |
| `Bits.DecomposeDominates` | tools/blake3-vendored/blake3.c:627-645 | each part of a decomposition is larger than all that follow it together, up to the alignment |
| `Blake3Tree.LeftLenUnique` | tools/blake3-vendored/blake3.c:162-171 | the split is the only power of two of chunks that is less than the input and at least half of it |
| `Blake3Tree.NodeFlags` | tools/blake3-vendored/blake3_impl.h:17-27 | below any mode the low four flag bits are 2 for the end of a chunk, 3 where it has one block, 4 for a parent, and 8 more for the root: no two kinds of node share theirs |
| `Blake3Tree.StreamExactly` | tools/blake3-vendored/blake3.c:90-117 | byte j of block k of the output is byte j of the root compressed with counter k under the root flag |
| `Blake3Tree.CondenseMerkle` | tools/blake3-vendored/blake3.c:217-266 | pairing neighbours and promoting an odd one does not change the root over a row of chaining values |
| `Blake3Tree.CondenseTopPair` | tools/blake3-vendored/blake3.c:363-378 | nor does it change the two children of the root, as long as more than two values are left |
| `Blake3Tree.TreeIsMerkle` | tools/blake3-vendored/blake3.c:269-347 | the tree over bytes is the left-balanced tree over the chaining values of its chunks |
| `Blake3Tree.TreeIsTopPair` | tools/blake3-vendored/blake3.c:349-381 | the root node over bytes has the two children that the row of chunk values has |
| `Blake3Chunk.BlocksCvAppend` | tools/blake3-vendored/blake3.c:119-145 | one more whole block compresses once on top of the blocks before it |
| `Blake3Chunk.ChunkState.constructor` | tools/blake3-vendored/blake3.c:11-19 | a new chunk state is empty, numbered zero |
| `Blake3Chunk.ChunkState.Reset` | tools/blake3-vendored/blake3.c:21-28 | a reset chunk state is empty under its new key and number |
| `Blake3Chunk.ChunkState.FillBuf` | tools/blake3-vendored/blake3.c:35-45 | as much input as fits is copied behind the buffered bytes, and the chaining value still covers the rest of the chunk |
| `Blake3Chunk.ChunkState.CompressBlock` | tools/blake3-vendored/blake3.c:123-128 | a block compressed in place extends the chaining value by that block, with the start flag on the first block only |
| `Blake3Chunk.ChunkState.FlushBuf` | tools/blake3-vendored/blake3.c:121-131 | flushing a full buffer changes what is compressed and what is buffered, not the bytes the chunk stands for |
| `Blake3Chunk.ChunkState.Update` | tools/blake3-vendored/blake3.c:119-145 | the chunk stands for its old bytes followed by the input, the last block still held back |
| `Blake3Chunk.ChunkState.ChunkOutput` | tools/blake3-vendored/blake3.c:147-152 | the pending output is that of the chunk over all its bytes |
| `Blake3Compress.ScheduleIsPermuted` | tools/blake3-vendored/blake3_impl.h:90-98 | row n of the schedule table selects the message words as n applications of the one permutation do |
| `Blake3Compress.MixC` | tools/blake3-vendored/blake3_portable.c:8-18 | the in-place quarter round changes the four words to the specified ones, and no other |
| `Blake3Compress.RoundFn` | tools/blake3-vendored/blake3_portable.c:20-35 | a round through the schedule table is the specified round on the permuted message |
| `Blake3Compress.CompressInPlace` | tools/blake3-vendored/blake3_portable.c:84-98 | the new chaining value is the first half of the sixteen specified words |
| `Blake3Compress.CompressXof` | tools/blake3-vendored/blake3_portable.c:100-123 | the extended output is the sixteen specified words |
| `Blake3Compress.CompressJava` | implementations/java/sugar-lift-java-tests/src/JavaJunitWitnessRpc.java:661-692 | the Java compression, which permutes the message after each round, returns the same sixteen words |
| `Blake3Wide.HashOne` | tools/blake3-vendored/blake3_portable.c:125-143 | the chaining value of the whole blocks in order, the first carrying the start flag and the last the end flag |
| `Blake3Wide.HashedChunk` | tools/blake3-vendored/blake3_portable.c:125-143 | under the chunk flags that is the chaining value of the chunk |
| `Blake3Wide.HashMany` | tools/blake3-vendored/blake3_portable.c:145-160 | each input is hashed so into its slot, the counter advancing only if asked; no other slot changes |
| `Blake3Wide.CompressChunksParallel` | tools/blake3-vendored/blake3.c:173-215 | the slots hold the chaining values of the chunks of the input in order, the last one possibly partial |
| `Blake3Wide.CompressParentsParallel` | tools/blake3-vendored/blake3.c:217-266 | the slots hold the row condensed once: pairs merged, an odd one promoted |
| `Blake3Wide.RowsJoin` | tools/blake3-vendored/blake3.c:309-335 | a left row of a power of two of values and a right row no longer stand, side by side, for the whole input |
| `Blake3Wide.CompressSubtreeWide` | tools/blake3-vendored/blake3.c:269-347 | between 1 and max(degree, 2) values (2 or more beyond one chunk) that stand for the subtree: same root, same two children of the root; a whole subtree fills its row exactly; no other slot changes |
| `Blake3Wide.CompressSubtreeToParentNode` | tools/blake3-vendored/blake3.c:349-381 | condensing down to two values yields the chaining values of the two children of the root of the input |
| `Blake3Stack.Push` | tools/blake3-vendored/blake3.c:468-474 | pushing the value of the next subtree keeps the stack faithful to the input |
| `Blake3Stack.MergeTop` | tools/blake3-vendored/blake3.c:425-436 | merging the two topmost siblings gives the value of the subtree they form |
| `Blake3Stack.TopIsSibling` | tools/blake3-vendored/blake3.c:425-474 | while the stack is longer than the population count allows, its two topmost entries are siblings |
| `Blake3Stack.ShortIsMerged` | tools/blake3-vendored/blake3.c:425-436 | a stack as long as the population count is fully merged |
| `Blake3Stack.DepthBound` | tools/blake3-vendored/blake3.c:438-474 | no more than 55 entries are ever needed for fewer than 2^64 bytes |
| `Blake3Stack.FoldEntry` | tools/blake3-vendored/blake3.c:627-645 | one turn of the final roll-up joins an entry with everything after it into the node over both |
| `Blake3Stack.PairOutput` | tools/blake3-vendored/blake3.c:615-630 | the two newest entries of an unmerged stack are the children of the subtree that ends there |
| `Blake3Hasher.InitialWords` | tools/blake3-vendored/blake3_impl.h:86-88 | the initial bytes are the initial words of the compression function, least byte first |
| `Blake3Hasher.XofMany` | tools/blake3-vendored/blake3_dispatch.c:227-248 | the blocks of the root output from one counter on are written in order, nothing else |
| `Blake3Hasher.OutputRootBytes` | tools/blake3-vendored/blake3.c:90-117 | any seek and any length read exactly that slice of the stream of root blocks, across the unaligned head, the whole blocks and the tail |
| `Blake3Hasher.Hasher.constructor` | tools/blake3-vendored/blake3.c:383-388 | a new hasher is empty |
| `Blake3Hasher.Hasher.MergeCvStack` | tools/blake3-vendored/blake3.c:425-436 | afterwards the stack holds the binary decomposition of the chunk count, with the same meaning |
| `Blake3Hasher.Hasher.PushCv` | tools/blake3-vendored/blake3.c:468-474 | the stack stands for the subtrees so far followed by the new one, merged lazily |
| `Blake3Hasher.Hasher.SubtreeLen` | tools/blake3-vendored/blake3.c:524-544 | the next subtree is the largest power of two of chunks that divides the chunk count so far and fits the input |
| `Blake3Hasher.Hasher.TakeSubtree` | tools/blake3-vendored/blake3.c:545-570 | hashing a subtree straight from the input extends what the stack stands for by it |
| `Blake3Hasher.Hasher.FinishChunk` | tools/blake3-vendored/blake3.c:489-510 | a full chunk moves from the chunk state to the stack, the content staying the same |
| `Blake3Hasher.Hasher.Update` | tools/blake3-vendored/blake3.c:476-583 | from any state, the hasher stands for its old content followed by the input, whatever the SIMD degree |
| `Blake3Hasher.Hasher.RootOutput` | tools/blake3-vendored/blake3.c:604-646 | the output rolled up from the stack and the pending chunk is the root node of the tree over the whole content |
| `Blake3Hasher.Hasher.FinalizeSeek` | tools/blake3-vendored/blake3.c:604-646 | byte i written is byte seek + i of the output stream of the plain tree hash of the content; the hasher does not change |
| `Blake3Hasher.Hasher.Finalize` | tools/blake3-vendored/blake3.c:599-602 | the first bytes of that stream |
| `Blake3Hasher.Hasher.Reset` | tools/blake3-vendored/blake3.c:648-651 | the hasher is empty again, key and flags kept |
| `Blake3Hasher.InitDeriveKeyRaw` | tools/blake3-vendored/blake3.c:399-409 | the context key is the tree hash of the context under its own flag |
| `Blake3Hasher.HashPieces` | tools/blake3-vendored/blake3.c:476-646 | for every way of splitting an input into pieces the output is the plain tree hash of their concatenation |
| `JavaBlake3.ReadBlock` | implementations/java/sugar-lift-java-tests/src/JavaJunitWitnessRpc.java:695-707 | up to 64 bytes, padded with zeros |
| `JavaBlake3.ProcessChunk` | implementations/java/sugar-lift-java-tests/src/JavaJunitWitnessRpc.java:710-730 | a chunk processed block by block has the chaining value of that chunk |
| `JavaBlake3.SingleChunkRoot` | implementations/java/sugar-lift-java-tests/src/JavaJunitWitnessRpc.java:736-758 | an input of at most one chunk, the empty one too, yields the first root block of its chunk |
| `JavaBlake3.MergeLevel` | implementations/java/sugar-lift-java-tests/src/JavaJunitWitnessRpc.java:780-798 | one level: pairs merged, an odd one promoted, ROOT only where two values are left |
| `JavaBlake3.MergeAll` | implementations/java/sugar-lift-java-tests/src/JavaJunitWitnessRpc.java:780-798 | the levels end in the root block over the two children of the root |
| `JavaBlake3.Blake3Xof64` | implementations/java/sugar-lift-java-tests/src/JavaJunitWitnessRpc.java:764-811 | the bottom-up construction returns the first root block of the recursively split tree exactly if the length plus 1023 is a Java int, and throws otherwise |
| `Text.DecimalInjective` | implementations/rust/libsugar/src/wp.rs:1157-1166 | different counters give different suffixes |
| `Text.DecimalExactly` | implementations/rust/sugar-canonicalizer/src/jcs.rs:33-38 | the numeral of a number is the one string of decimal digits without a leading zero whose place value is the number |
| `Substitution.FreshName` | implementations/rust/libsugar/src/wp.rs:1157-1166 | the name is not taken; the search ends |
| `Substitution.FreshNameExactly` | implementations/rust/libsugar/src/wp.rs:1157-1169 | the base itself where it is free, else the free `base_m` of the least m from 1 on |
| `Substitution.FreshNameLoop` | implementations/rust/libsugar/src/wp.rs:1157-1166 | the counting loop returns that name |
| `Substitution.SubstTerm` | implementations/rust/libsugar/src/wp.rs:912-1045 | substituting a variable keeps the size, which is why renaming before descending terminates |
| `Substitution.ApplyRenames` | implementations/rust/libsugar/src/wp.rs:973-1045 | the pending renames, then the substitution unless a binder shadows it |
| `Substitution.SubstituteLet` | implementations/rust/libsugar/src/wp.rs:973-1045 | the loop over the bindings, with its growing vectors of renames and names, computes the let arm |
| `Substitution.FreeVarsInto` | implementations/rust/libsugar/src/wp.rs:1060-1104 | the accumulating walk adds exactly the free variables |
| `SubstPlain.SubstPlainly` | implementations/rust/libsugar/src/wp.rs:912-1045 | where no binder of the term is free in the replacement nothing is renamed: the free occurrences are replaced and the rest stands |
| `SubstPlain.SubstFormulaPlainly` | implementations/rust/libsugar/src/wp.rs:797-905 | the same for formulas, schema nodes too |
| `Semantics.EvalAgree` | implementations/rust/libsugar/src/wp.rs:1054-1104 | the value of a term depends only on its free variables |
| `Semantics.HoldsAgree` | implementations/rust/libsugar/src/wp.rs:1106-1153 | so does the truth of a formula |
| `SubstLemma.SubstEval` | implementations/rust/libsugar/src/wp.rs:912-1045 | substituting a term for a variable means evaluating with the variable rebound to its value, through lambdas and, where its renamings are safe, let groups |
| `SubstLemma.SubstEvalLet` | implementations/rust/libsugar/src/wp.rs:973-1045 | the let arm from any binding on, under any pending renames, keeps the value |
| `SubstLemma.SubstHolds` | implementations/rust/libsugar/src/wp.rs:797-905 | the same for formulas, through every binder |
| `SubstLemma.LetFreeSafe` | implementations/rust/libsugar/src/wp.rs:912-972 | without let every substitution is safe, and stays without let |
| `SubstLemma.PlainSafe` | implementations/rust/libsugar/src/wp.rs:797-905 | so is every substitution into a formula without let and schema nodes |
| `SubstLemma.LetCapturesLaterBinder` | implementations/rust/libsugar/src/wp.rs:1004-1019 | where the fresh name is bound later in the group, the value changes |
| `SubstLemma.LetRepeatedBinder` | implementations/rust/libsugar/src/wp.rs:1004-1019 | where a name is bound twice in the group and used after the second binding, the value changes |
| `SubstFree.SubstTermFree` | implementations/rust/libsugar/src/wp.rs:912-1045 | the free variables are the old ones minus the variable, plus those of the replacement if the variable was free |
| `SubstFree.SubstLetFree` | implementations/rust/libsugar/src/wp.rs:973-1045 | the same through the let arm |
| `SubstFree.SubstFormulaFree` | implementations/rust/libsugar/src/wp.rs:797-905 | the same for formulas |
| `WpEvaluator.BindSlots` | implementations/rust/libsugar/src/wp.rs:452-499 | the loop over the slots collects the value of each value slot in order and stops at the first that has none |
| `WpEvaluator.WpSchemaFree` | implementations/rust/libsugar/src/wp.rs:389-737 | for a schema-free postcondition every success is free of substitution nodes, applications and the placeholder, whatever the rules are |
| `WpSound.WpMeaning` | implementations/rust/libsugar/src/wp.rs:389-737 | where wp returns a formula, it holds exactly where the semantic predicate transformer of the term, applied to the meaning of the postcondition, does; an operation without a rule is read there as its precondition, unless literally true, and an assignment of its value, and not through the synthesized rule; the strict transformer, too, if no operation in value position has a precondition |
| `WpSound.OpIsRule` | implementations/rust/libsugar/src/wp.rs:283-308 | that reading of an operation without a rule is the reading of the rule synthesized for it |
| `WpValueOp.ValueOpWp` | implementations/rust/libsugar/src/wp.rs:283-301 | wp of an operation without a rule holds exactly where its precondition does, whatever its shape, with the formals bound to the values of the arguments, and the postcondition does with the result variable assigned the value |
| `WpValueOp.ValueOpText` | implementations/rust/libsugar/src/wp.rs:430-510 | as a formula: the conjunction of the instantiated precondition and the postcondition with the instantiated value put in, or the latter alone for no precondition or literal true; the only errors are those of the arguments |
| `WpValueOp.EquationExactly` | implementations/rust/libsugar/src/wp.rs:746-766 | the value found is the other side of the first conjunct, in reading order, that equates the name with anything; none is found only if there is none |
| `WpValueOp.StmtArgExactly` | implementations/rust/libsugar/src/wp.rs:694-700 | a slot transformer stands for the argument in the first statement slot of its name, if there is one |
| `WpValueOp.TransformerNamed` | implementations/rust/libsugar/src/wp.rs:117-126 | transformers are named `wp_` and the name of the slot |
| `WpErrors.WpBlames` | implementations/rust/libsugar/src/wp.rs:389-737 | every error names an operation of the term that is at fault as the error says: unresolved, behind an opaque loop, of another arity, without a rule or result equation, or with a rule that applies no transformer of a statement slot; so a term without such an operation has a weakest precondition |
| `WpErrors.FaultyFails` | implementations/rust/libsugar/src/wp.rs:437-468 | an operation at fault in one of the first four ways has no weakest precondition |
| `WpSound.RuleMeaning` | implementations/rust/libsugar/src/wp.rs:610-724 | reducing an instantiated rule yields the rule read as a predicate transformer, the placeholder standing for the postcondition and `wp_<slot>` for the argument |
| `WpSound.InstantiateHolds` | implementations/rust/libsugar/src/wp.rs:876-907 | in a part of a rule without schema nodes, substituting the argument values means binding all formals at once, through every quantifier |
| `WpSound.InstantiateEval` | implementations/rust/libsugar/src/wp.rs:495-498 | substituting the argument values one after the other means binding all formals at once, if no later formal is free in an earlier value but as its own value |
| `WpOrder.InOrderExactly` | implementations/rust/libsugar/src/wp.rs:495-498 | for distinct formals in-order substitution gives every formal its value exactly under that condition |
| `WpSound.SlotsSound` | implementations/rust/libsugar/src/wp.rs:478-487 | the substitutions collected from the value slots bind every formal to the value of its argument |
| `WpSound.ValueSound` | implementations/rust/libsugar/src/wp.rs:512-593 | the value expression of a term has the value of the term |
| `WpSound.WpExtensional` | implementations/rust/libsugar/src/wp.rs:389-398 | postconditions with one meaning have weakest preconditions with one meaning |
| `WpSound.SequentialFormals` | implementations/rust/libsugar/src/wp.rs:495-498 | a later formal that is free in an earlier argument value is substituted by mistake |
| `WpBinder.BinderExactly` | implementations/rust/libsugar/src/wp.rs:876-907 | where a rule binds a program variable around the postcondition, wp is that reading exactly if the binder is not renamed: every value whose formal is not bound there is free of the variable |
| `WpBinder.LoopBinderRenamed` | implementations/rust/libsugar/src/wp.rs:876-907 | a loop rule whose condition reads the bound variable: the binder is renamed, and wp asks too much |
| `WpSound.NestedPreIsDropped` | implementations/rust/libsugar/src/wp.rs:579-590 | the precondition of an operation in value position is not demanded |
| `WpStrict.StrictAgrees` | implementations/rust/libsugar/src/wp.rs:512-593 | reading preconditions in value position strictly changes nothing where no operation there has one but literal `true` |
| `WpStrict.StrictExactly` | implementations/rust/libsugar/src/wp.rs:579-590 | for an operation that only computes a value, wp is strict for every postcondition exactly if the preconditions inside its arguments hold in every state |
| `WpStrict.StrictIfDemanded` | implementations/rust/libsugar/src/wp.rs:430-500 | the same for any operation, by definition of the strict reading: exactly if wp never holds where a value argument is outside a precondition |
| `Transport.WpPreserved` | implementations/rust/libsugar/src/transport.rs:64-97 | wp of the transported term and wp of the source term both fail or both succeed with one formula |
| `Transport.ValuePreserved` | implementations/rust/libsugar/src/transport.rs:64-97 | so do their value expressions |
| `TransportOps.TransportExactly` | implementations/rust/libsugar/src/transport.rs:64-97 | transport succeeds exactly if every operation has a row for its very CID; then each has the name and CID of its target, in its place and with its arguments, and nothing else changes; otherwise the first without one is blamed, missing or with both CIDs |
| `TransportOps.PreOrderUnique` | implementations/rust/libsugar/src/transport.rs:64-97 | the operations and leaves in reading order, with their arities, determine the term |
| `Transport.UninterpretedExactly` | implementations/rust/libsugar/src/wp.rs:586-589 | an operation without a value expression keeps its value exactly if it keeps its name and its arguments their values |
| `Transport.RenamedConstructor` | implementations/rust/libsugar/src/transport.rs:64-97 | a faithful row that renames such an operation changes wp |
| `Compose.EquationHolds` | implementations/rust/libsugar/src/compose.rs:1343-1363 | where a postcondition holds, the result equation found in it does |
| `Compose.ComposeChain` | implementations/rust/libsugar/src/compose.rs:1034-1085 | the composition of all steps, its components the CIDs from the last step to the first; or an error with its cause: too few steps, the first impure one, the first step whose formal is out of range, or the first without a result equation, everything before it composing |
| `Compose.JoinSound` | implementations/rust/libsugar/src/compose.rs:723-775 | one join: the joined precondition makes the outer step run within its own, and its postcondition is the joined one |
| `ComposePre.JoinMeans` | implementations/rust/libsugar/src/compose.rs:740-760 | a join says: the inner precondition, and where the inner postcondition holds the outer precondition of the value; its postcondition is the outer one of the value |
| `ComposePre.FirstPreExactly` | implementations/rust/libsugar/src/compose.rs:723-759 | at a result r the first composed precondition holds exactly if the inner one does and, if the inner postcondition allows r, the outer one holds with r in its formal |
| `ComposePre.StepPreExactly` | implementations/rust/libsugar/src/compose.rs:891-921 | so does every later one, for what is composed before it |
| `Compose.ChainSound` | implementations/rust/libsugar/src/compose.rs:723-949 | if the composed precondition holds for every value of its result variable and each step honours its contract, every step runs within its own precondition and the composed postcondition holds of the last result |
| `ComposePre.ChainPreExactly` | implementations/rust/libsugar/src/compose.rs:1034-1085 | the precondition of a chain holds for every value of its result names exactly if the first step's does and each later step's covers every result that the postcondition composed before it allows |
| `ComposeExact.ResultFreeKeeps` | implementations/rust/libsugar/src/compose.rs:891-949 | behind `result = value`, with a value that does not mention the result, a join keeps the runs of every interpretation and outer contract that are within the two postconditions |
| `ComposeExact.JoinExactly` | implementations/rust/libsugar/src/compose.rs:891-949 | and it keeps them all only then |
| `ComposeExact.ResultLoses` | implementations/rust/libsugar/src/compose.rs:891-949 | for every value that mentions the result an honest run is lost |
| `ComposeExact.NamespacedGuess` | implementations/rust/libsugar/src/compose.rs:903-906 | so it is where the value comes from the equation of an earlier result |
| `ComposeExact.NamespacedExactly` | implementations/rust/libsugar/src/compose.rs:1323-1338 | the fallback finds the first equation on any name with the result prefix |
| `Desugar.UnitAliases` | implementations/rust/libsugar/src/desugar.rs:453-456 | a term the unit pattern matches is an alias of `unit` |
| `DesugarMatch.UnitExactly` | implementations/rust/libsugar/src/desugar.rs:453-456 | the names the unit pattern takes are the aliases of `unit` |
| `DesugarMatch.UnqualifiedExactly` | implementations/rust/libsugar/src/desugar.rs:883-886 | a qualified name is its qualifier, a colon and the unqualified name |
| `DesugarMatch.MatchExactly` | implementations/rust/libsugar/src/desugar.rs:421-469 | a pattern matches exactly the terms that are, at every position of it, what it asks for up to aliases under some substitution, and the bindings are the least such substitution |
| `DesugarMatch.InstantiateExactly` | implementations/rust/libsugar/src/desugar.rs:704-733 | an instantiated right side is the one term that is, at every position, what the pattern says, names unchanged, if there is such a term |
| `DesugarMatch.FirstDecides` | implementations/rust/libsugar/src/desugar.rs:359-370 | the first rule that matches decides, even if its right side cannot be built |
| `DesugarMatch.InnermostExactly` | implementations/rust/libsugar/src/desugar.rs:332-419 | a step is taken at the first redex in post-order and replaces it and nothing else; none is taken only if there is none |
| `Desugar.MatchPattern` | implementations/rust/libsugar/src/desugar.rs:430-469 | the matcher with its mutable bindings succeeds exactly if the pattern matches, with the bindings of the match |
| `Desugar.RewriteOnceInnermost` | implementations/rust/libsugar/src/desugar.rs:332-419 | arguments and bindings left to right, then the rules in order: the innermost step |
| `DesugarMeaning.UnchangedIsNormal` | implementations/rust/libsugar/src/desugar.rs:332-419 | no step is reported exactly for a term that has no redex anywhere |
| `DesugarMeaning.MatchEval` | implementations/rust/libsugar/src/desugar.rs:430-469 | a matched term has the value of its pattern under the bindings, in every interpretation where aliases are one operation |
| `DesugarMeaning.StepEval` | implementations/rust/libsugar/src/desugar.rs:332-419 | a step keeps the value of the term wherever the rules hold as equations, and fires a rule of the set |
| `DesugarTermination.InstantiateCost` | implementations/rust/libsugar/src/desugar.rs:704-733 | an instantiated right side costs at most one unit per operation in it, however often it copies its variables |
| `DesugarTermination.ContractionDecreases` | implementations/rust/libsugar/src/desugar.rs:332-419 | contracting an innermost redex uses up potential |
| `DesugarTermination.StepDecreases` | implementations/rust/libsugar/src/desugar.rs:332-419 | so does every innermost step, wherever it happens and whichever redex it picks |
| `DesugarTermination.InnerRunBound` | implementations/rust/libsugar/src/desugar.rs:287-316 | no innermost run is longer than the potential it starts with |
| `DesugarTermination.RewriteIsInner` | implementations/rust/libsugar/src/desugar.rs:332-419 | the step of the rewriter is an innermost step |
| `DesugarGraph.HasCycle` | implementations/rust/libsugar/src/desugar.rs:520-540 | a search that reports a cycle has one in reach of its start; one that does not extends a topological order by the node and everything below it |
| `DesugarGraph.GraphReaches` | implementations/rust/libsugar/src/desugar.rs:542-557 | the search with a stack finds the target exactly if a path leads to it |
| `DesugarCertify.CertifyTermination` | implementations/rust/libsugar/src/desugar.rs:471-518 | certified exactly if every left root is an operation and the dependency graph has no cycle; otherwise the first rule whose root is none, or a root a cycle is in reach of and the names of the rules whose roots reach it |
| `DesugarCertify.GraphExactly` | implementations/rust/libsugar/src/desugar.rs:484-498 | one root leads to another in the graph exactly if the last rule with the one, taken for the first rule of its name, has an operation on its right that is an alias of the other, a root |
| `DesugarInstances.OpNamesExactly` | implementations/rust/libsugar/src/desugar.rs:742-755 | the names of a pattern are those of its operations at whatever position |
| `DesugarGraph.TopologicalNoCycle` | implementations/rust/libsugar/src/desugar.rs:507-515 | a graph with a topological order has no cycle |
| `DesugarCertify.RankedExactly` | implementations/rust/libsugar/src/desugar.rs:484-498 | an order of the roots ranks every right side below its left root exactly if it is a topological order of everything the rules lead to |
| `DesugarCertify.CertifiedIsRanked` | implementations/rust/libsugar/src/desugar.rs:484-498 | a topological order of the graph does, if the graph has an edge for everything each rule leads to |
| `DesugarCertify.SeparateCovers` | implementations/rust/libsugar/src/desugar.rs:484-498 | it has, for rules told apart by root and by name, no root an alias of `unit` |
| `DesugarCertify.CertifiedTerminates` | implementations/rust/libsugar/src/desugar.rs:471-518 | every innermost run of such a certified set is finite, with the potential as its bound |
| `DesugarCertify.LoopsAreUncovered` | implementations/rust/libsugar/src/desugar.rs:471-518 | a certified set that loops lacks such an edge |
| `DesugarCertify.OverwrittenEdgesLoop` | implementations/rust/libsugar/src/desugar.rs:497-497 | two rules with one root: certified, and looping |
| `DesugarCertify.SharedNameLoops` | implementations/rust/libsugar/src/desugar.rs:487-491 | two rules with one name: certified, and looping |
| `DesugarCertify.UnitLoops` | implementations/rust/libsugar/src/desugar.rs:748-755 | a unit right side under the root `unit`: certified, and looping |
| `DesugarOverlap.CertifyConfluence` | implementations/rust/libsugar/src/desugar.rs:559-588 | certified exactly if no two left sides agree at every position they share, their right sides different, or one agrees so with a subpattern, no variable, strictly inside the other; otherwise the first such pair, and how they overlap |
| `DesugarOverlap.UnifyExactly` | implementations/rust/libsugar/src/desugar.rs:590-623 | two patterns unify exactly if their roots agree at every position both have: a variable, one constant, or aliases of one arity |
| `DesugarOverlap.ContainsExactly` | implementations/rust/libsugar/src/desugar.rs:757-764 | a pattern contains one that unifies exactly if some non-empty index path leads to it, no variable |
| `DesugarInstances.AgreeInstances` | implementations/rust/libsugar/src/desugar.rs:590-623 | comparable patterns with a common instance unify, and linear patterns that unify have one |
| `DesugarInstances.InsideInstances` | implementations/rust/libsugar/src/desugar.rs:757-764 | for linear comparable patterns exactly if some instance of the one holds an instance of the other strictly inside, at no variable |
| `DesugarInstances.ConfluentExactly` | implementations/rust/libsugar/src/desugar.rs:559-588 | for linear comparable left sides the certificate is given exactly if no term is rewritten by two rules at its root with different right sides, or by one at the root and the other inside its left side |
| `DesugarConfluence.CommonAlias` | implementations/rust/libsugar/src/desugar.rs:877-885 | two names have a common alias exactly if they agree after the last colon |
| `DesugarConfluence.BothMatchShare` | implementations/rust/libsugar/src/desugar.rs:590-623 | patterns with a common instance agree but for qualifiers and the spelling of unit |
| `DesugarConfluence.MissesNothing` | implementations/rust/libsugar/src/desugar.rs:590-623 | the overlap check misses no common instance of comparable patterns, and for linear patterns of no others |
| `DesugarConfluence.PlainIsComparable` | implementations/rust/libsugar/src/desugar.rs:590-623 | patterns of unqualified operations other than `unit` are comparable |
| `DesugarConfluence.ExclusiveExactly` | implementations/rust/libsugar/src/desugar.rs:380-392 | no term is matched by two rules if no two left sides share their shape, and for linear left sides of different rules only then |
| `DesugarConfluence.ConfluentIsExclusive` | implementations/rust/libsugar/src/desugar.rs:559-588 | in a certified set with comparable left sides that leaves only the rules under one right side to keep apart |
| `DesugarConfluence.RewriteAnyOrder` | implementations/rust/libsugar/src/desugar.rs:380-392 | then the order of the rules does not matter |
| `DesugarConfluence.QualifiedNamesMissed` | implementations/rust/libsugar/src/desugar.rs:877-885 | two qualified names: certified, and both rules match |
| `DesugarConfluence.UnitSpellingMissed` | implementations/rust/libsugar/src/desugar.rs:590-623 | unit and the operation `unit`: certified, and both rules match |
| `DesugarConfluence.SameRightSideMissed` | implementations/rust/libsugar/src/desugar.rs:562-562 | one right side for two left sides: certified, and the order of the rules decides the result |
| `DesugarRuns.DesugarTerm` | implementations/rust/libsugar/src/desugar.rs:287-316 | success is a normal form, with one rule name and one obligation per step in order; the step limit is reported exactly after 10000 steps; a refusal names the rule at fault |
| `DesugarRuns.TraceEval` | implementations/rust/libsugar/src/desugar.rs:287-316 | the output has the value of the input in every interpretation of the equations |
| `DesugarRuns.RankedWithinLimit` | implementations/rust/libsugar/src/desugar.rs:287-316 | a ranked set never meets the step limit from a term of smaller potential |
| `DesugarRuns.OneOutcome` | implementations/rust/libsugar/src/desugar.rs:287-316 | rules and term determine the outcome |
| `DesugarRuns.RankedSucceeds` | implementations/rust/libsugar/src/desugar.rs:287-316 | such a set whose right sides bring no variables of their own always succeeds from such a term |
| `DesugarRuns.RefusalBlames` | implementations/rust/libsugar/src/desugar.rs:704-712 | an unbound-variable refusal names a rule whose right side has a variable its left side has not |
| `DesugarRuns.Diamond` | implementations/rust/libsugar/src/desugar.rs:559-588 | two different innermost steps from one term are closed by one more step each |
| `DesugarRuns.StrategiesAgree` | implementations/rust/libsugar/src/desugar.rs:559-588 | all innermost strategies reach one normal form in one number of steps |
| `DesugarRuns.ApartUnique` | implementations/rust/libsugar/src/desugar.rs:287-316 | so where no two left sides share their shape no innermost strategy does better or otherwise than the rewriter |
| `DesugarRuns.CertifiedUnique` | implementations/rust/libsugar/src/desugar.rs:559-588 | under the certificate it is enough that rules with one right side share none |
| `DesugarCongruence.StepCongruent` | implementations/rust/libsugar/src/desugar.rs:332-419 | every innermost step relates terms that are equal in every congruence, so in the least, that has the rules as equations and aliases as one operation |
| `DesugarCongruence.TraceCongruent` | implementations/rust/libsugar/src/desugar.rs:287-316 | so is the output equal to the input |
| `Effects.CallersByCallee` | implementations/rust/libsugar/src/effect_propagation.rs:112-120 | the map lists, for each name, the callsites that call it in order |
| `Effects.PropagateEffects` | implementations/rust/libsugar/src/effect_propagation.rs:111-197 | each decision is for an effect that comes to the function from a change: halt exactly if the function admits it, refuse with the contract and the callsite if it forbids and does not admit it, else widen; every changed callsite and every caller of a widened function is decided; an error names what is missing at a callsite reached |
| `Effects.RunSound` | implementations/rust/libsugar/src/effect_propagation.rs:111-197 | every decision is the one for an effect that reaches the function, every error is about a callsite an effect reaches, for any number of effects |
| `Effects.RunComplete` | implementations/rust/libsugar/src/effect_propagation.rs:133-194 | nothing a widened function leads to is left undecided |
| `EffectsNearest.DecidedNearest` | implementations/rust/libsugar/src/effect_propagation.rs:122-194 | for consistent effects every function is decided from a callsite the change comes to in the fewest steps |
| `Effects.PropagationExact` | implementations/rust/libsugar/src/effect_propagation.rs:111-197 | a plan settles everything reached exactly if no two effects reaching a function put it in different classes; then it fails exactly if something unknown is reached |
| `Effects.OneEffectConsistent` | implementations/rust/libsugar/src/effect_propagation.rs:142-144 | one effect never does |
| `Effects.OrderIrrelevant` | implementations/rust/libsugar/src/effect_propagation.rs:122-132 | for such effects which functions are decided and in which class depends neither on the order of the changes nor of the callsites |
| `Effects.FirstEffectDecides` | implementations/rust/libsugar/src/effect_propagation.rs:142-144 | two effects: the first decides, and what the second would reach is missed |
| `Jcs.KeyLeqExactly` | implementations/rust/sugar-canonicalizer/src/jcs.rs:53-54 | one key is before another exactly if it begins it or has the lesser character where they first differ |
| `JcsEncoder.EncodeString` | implementations/rust/sugar-canonicalizer/src/jcs.rs:69-94 | the characters are pushed one by one, quoted and escaped |
| `JcsEncoder.EncodeValue` | implementations/rust/sugar-canonicalizer/src/jcs.rs:28-67 | the output grows by the text of the value with every object sorted |
| `JcsEncoder.EncodeJcs` | implementations/rust/sugar-canonicalizer/src/jcs.rs:22-26 | the one text that a strict JSON reader reads as a rearrangement of the value with the keys of every object in code point order; exactly the values that are equal after sorting share it |
| `JcsReader.ReadsBack` | implementations/rust/sugar-canonicalizer/src/jcs.rs:28-94 | a strict reader, digits by place value and escapes by character, reads a written value back and stops at the delimiter behind it |
| `JcsReader.ReadIsText` | implementations/rust/sugar-canonicalizer/src/jcs.rs:28-94 | and reads nothing that was not written so |
| `JcsReader.EncodeExactly` | implementations/rust/sugar-canonicalizer/src/jcs.rs:22-94 | so the encoding is the one text read as the value, rearranged with the keys of every object in order |
| `Jcs.SortIsStable` | implementations/rust/sugar-canonicalizer/src/jcs.rs:53-54 | the sorted entries have their keys in code point order, and for each key the same entries in the same order |
| `Jcs.SortIsUnique` | implementations/rust/sugar-canonicalizer/src/jcs.rs:53-54 | which determines them |
| `Jcs.CanonicalSort` | implementations/rust/sugar-canonicalizer/src/jcs.rs:50-65 | sorting before or after the values are made canonical is the same |
| `JcsReader.WriteUnique` | implementations/rust/sugar-canonicalizer/src/jcs.rs:28-67 | no text of a value, up to a delimiter, is the beginning of the text of another |
| `JcsReader.QuotedUnique` | implementations/rust/sugar-canonicalizer/src/jcs.rs:69-94 | nor is that of a string |
| `JcsReader.NumeralUnique` | implementations/rust/sugar-canonicalizer/src/jcs.rs:33-38 | nor, up to a delimiter, that of an integer |
| `JcsReader.EncodeUnique` | implementations/rust/sugar-canonicalizer/src/jcs.rs:22-94 | two values have one encoding exactly if they are equal after stably sorting the entries of every object by key |
| `Jcs.InsertionOrderIgnored` | implementations/rust/sugar-canonicalizer/src/jcs.rs:50-65 | entries with different keys may be inserted in any order |
| `Jcs.CanonicalEncodedAlike` | implementations/rust/sugar-canonicalizer/src/jcs.rs:50-65 | a value and its canonical form have one encoding |
| `MintOrder.Search.Visit` | tools/mint-package/mint_corpus.py:80-88 | a visit lists the member and only members it requires, and keeps every listed dependency that is on no cycle before its dependent |
| `MintOrder.TopoOrder` | tools/mint-package/mint_corpus.py:43-92 | every member once; each dependency before its dependent for every edge on no cycle; for every edge exactly if there is no cycle; and for each k the order begins with just what the first k starting members require |
| `MintOrder.OrderedIsAcyclic` | tools/mint-package/mint_corpus.py:47-48 | only an acyclic world has an order with every dependency first |

## Left out

- WpMeaning: argument values, rules and postconditions are taken without let; sequential substitution through let groups would need the condition of `SafeTerm` at every step. The strict reading evaluates value arguments once, on entry to the operation.
- SubstEval: for let groups the condition is sufficient and not necessary; a capture that no interpretation can observe is excluded too.
- CertifiedTerminates: one direction only; rule sets the certificate refuses, or whose missing edges are harmless, may terminate, and no static check decides that. What is exact is when an order ranks the rules.
- MissesNothing, ExclusiveExactly: exact for linear patterns only; for repeated variables it is proved that nothing is missed, not that everything reported is real.
- CertifiedUnique: for innermost strategies, the only kind the rewriter uses; a rule may overlap itself below its root, which the certificate does not look for.
- StrictIfDemanded: statement arguments are taken without guarded operations in value position of their own.
- Blake3Xof64: the conversion of the sixteen words to bytes is part of the compression parameter.
- Compressed: little-endian loads and stores of words are left out, and the two counter words are parameters; the tree modules take 32-byte and 64-byte values instead of words.
- HashMany: the chaining values of a row are array elements instead of 32-byte slices of one buffer.
- Hasher.Update: the thread-pool variant of the wide routine and the vector back ends compute the same slots in another order; the model is the portable order. Content stays below 2^64 bytes.
- FreshName: the counter is unbounded; the original counts in 32 bits.
- ValueExprs: the argument loop of the value expression is a recursion; the loop over the slots of a statement is a method.
- Semantics: the four connectives are read at every arity; one operand of a negation and two of an implication are the ones the IR uses.
- BinderExactly: for a rule that is one quantifier around the placeholder; for other rules the condition is sufficient.
- ChainSound: the steps of a chain see one environment but for the formal that is fed, so equally named formals of two steps are one variable, as they are in the composed formulas, which rename nothing.
- ComposeChain: memento bytes, CIDs, evidence and the order of effects in them.
- Aliasing and opacity checks of composition, and the set of effects with its insertion: lookups only.
- `wp_compound` and its evidence discharge: a conjunction over external evidence.
- Messages of all errors.
- CertifyTermination: rules are taken in the order the constructor sorts them into; `RewriteAnyOrder` says when the order matters.
- Jcs: conformance to RFC 8785. The encoder sorts by code point, where section 3.2.3 sorts by UTF-16 code unit, and always writes `\u00xx`, where section 3.2.2.2 has short escapes; strings are sequences of Unicode scalar values.
- PropagateEffects: the reason texts of decisions, which are constants.
- TopoOrder: the order of what one starting member requires is fixed only by dependency; reading requirements from an installed environment; the dependencies are a parameter, and so is the sorted listing of the members.
- Rule loading, JSON parsing, normal-form bytes and CIDs of desugaring.
- Signatures, servers, lifters, generated compilers and examples: foreign calls, I/O or easy members.
