# Verification model of the rule learner

A Dafny model of the parts of the AArch64 / x86-64 translation-rule learner that decide what is true: which registers a
window reads and writes, when two rules are the same, when one rule makes another redundant, which register binding is
correct, whether a kernel schema lowers to the LLVM function it describes, and whether two fragments used memory alike.
The solver, the disassembler and the symbolic executor stay outside: they appear as parameters whose promised behaviour
is written down as a predicate (`Runs.Respects`, `Cegis.SeparateSolver`, `Cegis.ExactSolver`, `Cegis.Faithful`,
`MemoryChecks.Exact`).

`dafny verify dfyconfig.toml` checks the whole project.

## How it is organized

- **Liveness.** `Liveness` is the backward dataflow of `extraction/liveness.py` as a loop over two maps, with the paths
  its least solution stands for; `OperandText` is the number the analysis takes for a branch target. `Runs` states
  what the result promises about every run of every machine that respects the recorded reads and writes, `WindowSlice`
  is the per-window backward slice, and `WindowRuns` runs a window on a machine whose memory its instructions store to
  and load from, and says when the slice determines the result. The ABI exit set (section 6.1.1 of AAPCS64, section
  3.2.1 of the System V AMD64 psABI), register families and mnemonic classes are parameters.
- **Rules.** `RuleAst` is the syntax tree, `Fingerprint` the nested tuples and the canonical numbering as functions with
  the proof that equal fingerprints mean alpha-equality, `FingerprintBuilder` (module `FingerprintBuilding`) the builder
  object with its four maps and counters, and the deduplicator. `Semantics` is the bit-vector evaluator; `OperatorLaws`,
  `EvaluationLaws` and `InstructionLaws` say what it computes with residues, bits and signed values; `AlphaSemantics` is
  its invariance under renaming, `Substitution` and `SubstSemantics` reserved-literal substitution, `Consolidation` the
  removal of subsumed rules. `Derivation` rewrites host-only immediates, `DerivationRules` says when, and
  `DerivedImmediates` what the verifier makes of the result. `ImmText` and `SequenceText` print and parse.
- **Register binding.** `Permutations` enumerates orderings, `RegisterBinding` holds eligibility, the option lists and the
  exhaustive search, `Cegis` the selector encoding and the counterexample-guided loop.
- **Kernels.** `Closure` is the dependency worklist, `KernelSchema` the validator, `KernelRules` the rules it enforces,
  `KernelLowering` direct evaluation, LLVM execution and the lowering, `KernelArithmetic` what the operations compute,
  `KernelCorrectness` the theorems that connect evaluation and lowering.
- **Memory.** `AliasRoots` is union-find over a mutable parent map, `MemoryLayout` slot placement, `MemoryWitness` the
  choice of register values, `FrameWitness` which addresses those values reach, `MemoryInitializer` placement and choice
  together; `MemoryReplay` replays accesses on a byte memory, `MemoryChecks` matches recorded events, `MemoryOrder` says
  when a match by slot may hide a difference in memory, `StackOperands` collects and reorders stack operands.
- `Sorting`, `Numerals` and `Wrappers` are shared helpers.

Results that turned out not to hold as one would hope are stated with the input that shows it:

- A kernel schema that uses `q`, `qN`, `idx_plus` or `idx_plusN` as a value name passes validation and lowers to a function
  that assigns a local twice (`AcceptedSchemaCanClash`); the lowering is well-formed exactly when no such name is used.
- Consolidation does not preserve verdicts in general. Replacing an immediate by a zero literal makes a passing rule
  unsupported exactly when the evaluator reads `log2` of it (`LogarithmIsLost`) or a slice of it wider than the 32 bits of
  the literal (`SliceIsLost`); otherwise the rule still passes (`SubstPassesIff`). Once the survivors pass, all input rules
  pass exactly when no subsumption reads the replaced immediate so (`RemovedRulesPassIff`). Both need that the immediate
  is no first source that sets the width of an operation (`FirstSourcesKeep`): no instruction of the two architectures is
  written so, but the syntax and the evaluator take it, and then a 64-bit operation can narrow to 32 bits
  (`WidthIsLost`).
- A window that stores a register and loads it back does not need that register according to its slice
  (`StoredValueEscapes`). The slice is enough on every machine exactly when everything stored before a load that the
  slice takes comes from families the inputs determine (`SliceIsSufficientIff`).
- A window with a call needs the argument registers the call reads implicitly, and its inputs do not list them
  (`CallArgumentsAreMissed`); they list the whole slice exactly when those arguments are covered (`SliceIsListedIff`).
- Of two frame pairs that share a guest base, the one that does not set it misses its slots on the guest side
  (`SharedGuestFrameMisses`), and its host base can stay without a value although initialization succeeds
  (`SharedGuestFrameIsMissed`). An address is its slot's base exactly when some binding demands that value of the base
  register (`AddressReachedIff`, `FramesReachSlots`).
- Passing memory checks do not always mean equal final memory: the overlap test does not see ranges that cross the end of
  the address space. They do exactly when no stores share a byte modulo 2^64, or nothing is written, or all widths differ
  so that no store can be exchanged unnoticed (`PassMeansSameBehaviourIff`, `OrderTells`).
- The stack reordering test ignores index registers (`IndexedReorderDiffers`); an accepted reordering keeps memory and
  reads for all values exactly when it reads, or moves no last store to a byte before another
  (`ReorderKeepsBehaviourIff`).
- The liveness analysis takes the first number in the operand text for the branch target, which may be that of a register
  (`RegisterHidesTarget`); a printed target is found exactly when no number, or the same one, precedes it
  (`TargetFoundIff`).
- Selectors evaluated one at a time are sure to form a satisfying assignment exactly when only one exists
  (`SeparateAnswersIff`).

## Model

| member | source | states |
|---|---|---|
| Liveness.Analyze | src/angr_rule_learning/extraction/liveness.py:123-193 | the analysis terminates for distinct addresses with the least solution of the live-in / live-out equations, which holds exactly what is live on some path: read there, or seen by a caller at a return, with no write before |
| Liveness.LeastIsPaths | src/angr_rule_learning/extraction/liveness.py:153-181 | any least solution of the equations is what the paths make live |
| Liveness.SuccessorsAreFlow | src/angr_rule_learning/extraction/liveness.py:196-226 | the successor map lists exactly where control may go: a return nowhere, a conditional branch to its target or on, a jump to its target, anything else on |
| Liveness.EffectsAreNamed | src/angr_rule_learning/extraction/liveness.py:130-151 | the recorded effects are the families of the register operands, without the zero register, and what a call reads and returns implicitly |
| Liveness.TargetFoundIff | src/angr_rule_learning/extraction/liveness.py:229-234 | a branch target printed last is found exactly when no number precedes it in the operand text, or the same one does |
| Liveness.RegisterHidesTarget | src/angr_rule_learning/extraction/liveness.py:229-234 | for `cbz x1, #0x8` the number of the register hides the target, and what the target reads is not live |
| OperandText.FirstIsRead | src/angr_rule_learning/extraction/liveness.py:230-233 | the first number in a text is read, decimal or hexadecimal, wherever it stands |
| OperandText.PrintedIsReadIff | src/angr_rule_learning/extraction/liveness.py:230-233 | the number printed last is the one read exactly when no digit precedes it or the number that does is the same |
| Liveness.Sweep | src/angr_rule_learning/extraction/liveness.py:162-181 | one pass either strictly shrinks the distance to the bound or changes nothing and leaves every equation settled |
| Runs.LivenessIsSound | src/angr_rule_learning/extraction/liveness.py:153-193 | for every machine that respects the recorded effects and goes only where the instructions' texts say, and every number of steps, two states agreeing on live-in follow the same addresses and memory, and agree on the ABI exit set at every return |
| Runs.StepKeepsLockstep | src/angr_rule_learning/extraction/liveness.py:164-181 | one step of any such machine keeps two runs in lockstep on the live families |
| WindowSlice.OrderedFamilyRegisters | src/angr_rule_learning/extraction/liveness.py:382-395 | lists each nonzero register family once, with the first register that names it, in the order of first mention |
| WindowSlice.OrderedInputRegisters | src/angr_rule_learning/extraction/liveness.py:398-419 | lists each needed family that some read operand names once, with the register of its first read; families some write operand names come first, and each group is in the order of first reads, by instruction and operand |
| WindowSlice.BackwardSlice | src/angr_rule_learning/extraction/liveness.py:340-347 | the loop computes the backward need of the window from its seed |
| WindowSlice.Infer | src/angr_rule_learning/extraction/liveness.py:311-379 | which skip reason applies when, and exactly what an emitted surface lists, by operand positions: inputs and outputs with the register of the first read or write and in that order, the dead writes in order, and the kind |
| WindowSlice.DeadWrites | src/angr_rule_learning/extraction/liveness.py:361-369 | lists, in order of instruction and operand, exactly the written registers whose family is no output and no condition code |
| WindowRuns.SliceIsSufficient | src/angr_rule_learning/extraction/liveness.py:332-347 | when its stores are covered, entry states agreeing on the slice and on memory give the same seeded outputs and the same terminal-branch decision, with memory threaded through the window |
| WindowRuns.SliceIsSufficientIff | src/angr_rule_learning/extraction/liveness.py:340-347 | the slice is enough on every machine that respects the recorded effects exactly when everything stored before a load the slice takes comes from families its inputs determine |
| WindowRuns.StoredValueEscapes | src/angr_rule_learning/extraction/liveness.py:340-347 | for a store followed by a load of the one live output, the slice is the load's reads only, and two states agreeing on them end differently on some machine |
| WindowSlice.SliceIsListed | src/angr_rule_learning/extraction/liveness.py:332-352 | in a call-free window the listed inputs are all of the slice |
| WindowSlice.SliceIsListedIff | src/angr_rule_learning/extraction/liveness.py:332-352 | for any window, they are exactly when every argument family of a call the slice takes is written before it or named by an operand |
| WindowSlice.CallArgumentsAreMissed | src/angr_rule_learning/extraction/liveness.py:139-151 | with a call, needed argument families are not listed |
| WindowRuns.SurfaceSummarizesWindow | src/angr_rule_learning/extraction/liveness.py:311-379 | when its stores are covered, agreeing on the inferred inputs, on untouched live families and on memory is enough to agree on everything live after the window, and to branch alike |
| Fingerprint.FingerprintIffAlphaEqual | src/angr_rule_learning/rules/_fingerprint.py:97-121 | equal fingerprints exactly when an injective renaming of registers, temporaries, immediates and labels, shared by both sides, turns one rule into the other |
| Fingerprint.RuleDecodes | src/angr_rule_learning/rules/_fingerprint.py:214-367 | the flattened tuples determine the rule body |
| Fingerprint.OpDecodes | src/angr_rule_learning/rules/_fingerprint.py:214-290 | an operand is recovered from any sequence its flattened tuple starts, so concatenation is unambiguous |
| Fingerprint.ExprDecodes | src/angr_rule_learning/rules/_fingerprint.py:292-325 | an immediate expression is recovered from its tuple |
| Fingerprint.AddressDecodes | src/angr_rule_learning/rules/_fingerprint.py:327-339 | an address with any subset of its parts is recovered from its tuple |
| Fingerprint.InstDecodes | src/angr_rule_learning/rules/_fingerprint.py:345-361 | mnemonic, operands and both annotation blocks are recovered from an instruction's tuple |
| Fingerprint.CanonicalIsInvariant | src/angr_rule_learning/rules/_fingerprint.py:97-121 | first-occurrence numbering gives renamed rules one canonical form |
| FingerprintBuilding.FingerprintBuilder.CidReg | src/angr_rule_learning/rules/_fingerprint.py:97-101 | updates the register map and counter as one visit of the numbering, and returns the number of the key |
| FingerprintBuilding.FingerprintBuilder.CidImm | src/angr_rule_learning/rules/_fingerprint.py:109-113 | the same for immediates |
| FingerprintBuilding.FingerprintBuilder.FingerprintOp | src/angr_rule_learning/rules/_fingerprint.py:214-290 | walking an operand leaves the numbering of its placeholders and returns the tuple of the renumbered operand |
| FingerprintBuilding.FingerprintBuilder.FingerprintAddress | src/angr_rule_learning/rules/_fingerprint.py:327-339 | the same for an address |
| FingerprintBuilding.FingerprintBuilder.FingerprintInst | src/angr_rule_learning/rules/_fingerprint.py:345-361 | the same for an instruction with its annotation blocks |
| FingerprintBuilding.FingerprintBuilder.FingerprintRule | src/angr_rule_learning/rules/_fingerprint.py:363-367 | a fresh builder returns the fingerprint of the whole rule |
| FingerprintBuilding.RuleDeduplicator.Accept | src/angr_rule_learning/rules/generalization/deduplicate.py:15-20 | accepts a rule exactly when it is alpha-equal to no rule accepted before, and remembers it |
| Consolidation.RuleAlphaEqual | src/angr_rule_learning/rules/ast.py:576-587 | the comparison decides alpha-equality |
| Fingerprint.AlphaTransitive | src/angr_rule_learning/rules/ast.py:576-587 | alpha-equality is transitive |
| Semantics.EvaluateInstructions | src/angr_rule_learning/param_verify/semantics.py:66-83 | the loop threads registers and immediate symbols through the instructions and stops at the first unsupported one |
| OperatorLaws.BinaryMeansIff | src/angr_rule_learning/param_verify/semantics.py:207-225 | the operator table computes, for each mnemonic, exactly the residue of the sum, difference or product, the bitwise combination, the product with a power of two, or the quotient of the unsigned or signed value by one |
| EvaluationLaws.LogYieldsIff | src/angr_rule_learning/param_verify/semantics.py:411-424 | the chain over the domain gives the rounded-down logarithm of the first domain value equal to the immediate, or of the last one |
| EvaluationLaws.ExprYieldsIff | src/angr_rule_learning/param_verify/semantics.py:378-408 | a derived immediate evaluates exactly to what its parts yield, and fixes the width of symbols at their first use |
| EvaluationLaws.YieldsIff | src/angr_rule_learning/param_verify/semantics.py:294-370 | an operand is supported exactly when it yields a value, and evaluates to it: residues of registers, literals, slices and narrow views, wide views over an exposed high half, extensions that keep the value or the signed value |
| InstructionLaws.LocatesIff | src/angr_rule_learning/param_verify/semantics.py:427-488 | an address is supported exactly when its parts are, and is base plus index times scale, or times two to the shift, plus displacement, modulo two to the width; a post-index displacement is not a part |
| InstructionLaws.ExecutesIff | src/angr_rule_learning/param_verify/semantics.py:86-154 | an instruction leads from one state to another exactly when what it computes lands in its destination, at the destination's width, and every other register stays |
| InstructionLaws.RunsIff | src/angr_rule_learning/param_verify/semantics.py:66-83 | the loop ends in a state exactly when the instructions, one after the other, lead there |
| InstructionLaws.PassesIff | src/angr_rule_learning/param_verify/checker.py:17-47 | a rule passes exactly when for all registers and all values of the immediates both sides run from fresh registers and agree on every register both assign, of which there is one |
| AlphaSemantics.PassesAlpha | src/angr_rule_learning/param_verify/checker.py:17-47 | a rule and its renaming get the same verdict, both ways, over all register values and all immediates, each ranging over the domain given for it |
| AlphaSemantics.InstAlpha | src/angr_rule_learning/param_verify/semantics.py:86-154 | renaming commutes with evaluating one instruction |
| AlphaSemantics.OpAlpha | src/angr_rule_learning/param_verify/semantics.py:294-408 | renaming commutes with evaluating an operand |
| AlphaSemantics.AddressAlpha | src/angr_rule_learning/param_verify/semantics.py:427-488 | renaming commutes with evaluating a structured address |
| Substitution.SubstRemovesOne | src/angr_rule_learning/rules/ast_transform.py:26-114 | substituting a literal removes exactly that immediate id and no other |
| Substitution.PlaceholderSpelled | src/angr_rule_learning/rules/ast_transform.py:69-79 | a plain placeholder becomes a literal that spells zero with the placeholder's hash sign, and as the reserved literal unless a sign is dropped |
| Substitution.SubstKeepsRest | src/angr_rule_learning/rules/ast_transform.py:44-114 | operands without the placeholder, mnemonics and annotation kinds stay as they are |
| SubstSemantics.RuleSubst | src/angr_rule_learning/rules/ast_transform.py:44-114 | a rule that reads an immediate cleanly, with it replaced by a zero literal, evaluates like the rule with that immediate set to zero |
| SubstSemantics.RuleLost | src/angr_rule_learning/param_verify/semantics.py:294-408 | a rule that reads `log2` of an immediate or a 33 to 64 bit slice of it cannot be evaluated once it is replaced, whatever the symbols |
| SubstSemantics.SubstPassesIff | src/angr_rule_learning/rules/ast_transform.py:44-114 | so a passing rule still passes after the substitution exactly when every operand the evaluator reads is clean |
| Consolidation.MarkPair | src/angr_rule_learning/rules/generalize.py:1431-1447 | trying every immediate with every reserved literal decides whether one rule subsumes another |
| Consolidation.MarkAgainstAll | src/angr_rule_learning/rules/generalize.py:1431-1447 | a rule is marked exactly when another rule of the list subsumes it |
| Consolidation.Consolidate | src/angr_rule_learning/rules/generalize.py:1405-1452 | the marked ids are exactly the subsumed ones and the rest is kept in order |
| Consolidation.SurvivesIff | src/angr_rule_learning/rules/generalize.py:1431-1452 | with distinct ids a rule survives exactly when no other input rule subsumes it |
| Consolidation.SubsumesOneMore | src/angr_rule_learning/rules/generalize.py:1431-1447 | the subsuming rule has exactly one immediate more, so subsumption has no cycle |
| Consolidation.SurvivorCovers | src/angr_rule_learning/rules/generalize.py:1431-1452 | every input rule is alpha-equal to some survivor after finitely many reserved-literal substitutions |
| Consolidation.InstancePassesIff | src/angr_rule_learning/rules/generalize.py:1431-1447 | a rule subsumed by a passing one passes exactly when the replaced immediate is read cleanly, each rule being checked with its own domains |
| Consolidation.InstanceNeverPasses | src/angr_rule_learning/rules/generalize.py:1431-1447 | whatever the first sources, a rule subsumed under an immediate that is not read cleanly never passes |
| Consolidation.RemovedRulesPassIff | src/angr_rule_learning/rules/generalize.py:1431-1452 | once all survivors pass, all input rules pass exactly when every subsumption of the list is clean |
| Consolidation.LogarithmIsLost | src/angr_rule_learning/param_verify/semantics.py:378-408 | a passing rule whose substituted instance is unsupported, because of `log2` |
| Consolidation.SliceIsLost | src/angr_rule_learning/param_verify/semantics.py:294-370 | a passing rule whose substituted instance is unsupported, because of a slice wider than the literal |
| Consolidation.WidthIsLost | src/angr_rule_learning/param_verify/semantics.py:157-225 | a passing rule that reads its immediate cleanly but whose substituted instance fails, because the first source sets the width; no instruction of the two architectures has this shape |
| Derivation.DeriveTbzMask | src/angr_rule_learning/rules/derivation.py:187-227 | finds an expression worth the mask exactly when some guest bit test has that mask |
| Derivation.DeriveMovkConstant | src/angr_rule_learning/rules/derivation.py:230-302 | finds an expression worth the constant exactly when a guest mov and movk of one register build it |
| Derivation.DeriveIndexScale | src/angr_rule_learning/rules/derivation.py:305-368 | finds an expression worth the scale exactly when a guest index shift gives it |
| Derivation.DeriveReverseIndexScale | src/angr_rule_learning/rules/derivation.py:371-432 | finds a logarithm worth the shift exactly when a guest scale is that power of two |
| Derivation.TryStrategies | src/angr_rule_learning/rules/derivation.py:167-181 | succeeds exactly when a strategy of the architecture pair applies at that place |
| DerivationRules.DerivableIff | src/angr_rule_learning/rules/derivation.py:187-432 | the strategies apply exactly when the guest tests the one bit of the mask, moves and move-keeps the constant together bit by bit, shifts its index by the logarithm of the scale, or scales it by two to the shift |
| DerivationRules.SpelledIff | src/angr_rule_learning/rules/derivation.py:201-212 | mnemonics are compared without surrounding white space and case |
| DerivedImmediates.DerivedEvaluates | src/angr_rule_learning/param_verify/semantics.py:378-424 | when shift counts fit and a logarithm's argument is told apart in its domain, the verifier evaluates a derived expression to the integer derivation takes it to be worth, modulo two to the width |
| DerivedImmediates.RewrittenEvaluates | src/angr_rule_learning/rules/derivation.py:84-100 | so a rewritten host immediate evaluates like the constant it replaces |
| Derivation.DeriveOperand | src/angr_rule_learning/rules/derivation.py:84-155 | rewrites exactly the derivable host-only immediates of an operand, each worth what it was |
| Derivation.DeriveHostExpressions | src/angr_rule_learning/rules/derivation.py:63-164 | keeps the concrete meaning of the whole host side and brings in guest immediates only |
| ImmText.RoundTripIffPrintable | src/angr_rule_learning/rules/ast_immediates.py:10-133 | parsing a printed expression gives it back exactly for nonnegative integers, no bar or negation left of a bar, and no shift inside a shift's right side |
| ImmText.ParsedIsPrintable | src/angr_rule_learning/rules/ast_immediates.py:96-133 | every expression the parser produces from text without a dollar sign is in that fragment |
| ImmText.WrappedReadsBack | src/angr_rule_learning/rules/ast_immediates.py:96-99 | the dollar-brace form reads back as well |
| ImmText.BarFound | src/angr_rule_learning/rules/ast_immediates.py:124-133 | the depth scan finds the bar between two printed expressions, whatever parentheses the left one has |
| SequenceText.ParseInstructionSequence | src/angr_rule_learning/rules/ast_parser.py:198-233 | the loop attaches saves to the next and restores to the previous instruction, and fails on dangling ones |
| SequenceText.SequenceRoundTripIff | src/angr_rule_learning/rules/ast_parser.py:198-233 | printed sequences read back exactly when annotations before are saves, those after are restores, and no mnemonic is either |
| SequenceText.ParsedIff | src/angr_rule_learning/rules/ast_parser.py:198-233 | the parser returns instructions exactly when these print as the lines, but for the case of the two keywords; it fails exactly on lines that no instructions print as |
| SequenceText.DanglingFails | src/angr_rule_learning/rules/ast_parser.py:209-232 | in particular lines that begin with a restore or end with a save |
| RegisterBinding.BindingOptions | src/angr_rule_learning/extraction/register_cegis.py:326-353 | lists exactly the width-preserving bijections, and is empty exactly when the sorted widths differ |
| RegisterBinding.OptionsListedOnce | src/angr_rule_learning/extraction/register_cegis.py:339-353 | with distinct register names no option repeats |
| RegisterBinding.WidthDomainsIffBijection | src/angr_rule_learning/extraction/register_cegis.py:399-403 | sorted widths are equal exactly when a width-preserving bijection exists |
| RegisterBinding.RespectsFixedPairs | src/angr_rule_learning/extraction/register_cegis.py:356-366 | decides, for any pairs, that the last pair naming a fixed register names its partner |
| RegisterBinding.OncePaired | src/angr_rule_learning/extraction/register_cegis.py:356-366 | when no register is paired twice, that is: no pair relates a fixed register to anything but its partner |
| RegisterBinding.EligibilityDetail | src/angr_rule_learning/extraction/register_cegis.py:253-309 | gives no reason exactly for eligible problems, and otherwise the first requirement that is missed |
| RegisterBinding.SolveWithVerifier | src/angr_rule_learning/extraction/register_cegis.py:183-222 | accepts only verified admissible bindings, answers unsat only when every admissible binding was rejected, and finds the option list empty exactly for unequal widths |
| Permutations.InOrderings | src/angr_rule_learning/extraction/register_cegis.py:340-340 | the enumeration lists exactly the orderings |
| Permutations.OrderingsDistinct | src/angr_rule_learning/extraction/register_cegis.py:340-340 | and none of them twice |
| Cegis.SelectorsForWidths | src/angr_rule_learning/extraction/register_cegis.py:434-459 | the domain of a host place is the guest indices of its width, and fails exactly when one is empty |
| Cegis.IndexFits | src/angr_rule_learning/extraction/register_cegis.py:439-439 | the selector width represents every guest index (and no narrower one does: `NoBitToSpare`) |
| Cegis.SelectsChoice | src/angr_rule_learning/extraction/register_cegis.py:520-528 | the if-then-else chain selects the chosen value for every choice of its domain |
| Cegis.ConstraintsMean | src/angr_rule_learning/extraction/register_cegis.py:462-517 | an assignment satisfies the selector and sample constraints exactly when it is a width-preserving bijection that agrees on every sample |
| Cegis.Synthesize | src/angr_rule_learning/extraction/register_cegis.py:44-103 | with selectors evaluated one by one, no answer exactly when no bijection is consistent with all samples, and otherwise each selector has its value in some consistent bijection; with one model for all selectors the answer is consistent itself |
| Cegis.SeparateAnswersIff | src/angr_rule_learning/extraction/register_cegis.py:83-103 | evaluating each selector by itself is sure to give a satisfying assignment exactly when there is only one |
| Cegis.ProgressNeverRepeats | src/angr_rule_learning/extraction/register_cegis.py:146-181 | with one model for all selectors, no counterexample and no proposal repeats |
| Cegis.Learn | src/angr_rule_learning/extraction/register_cegis.py:146-181 | starting from the zero input, with selectors evaluated one by one: accepts only equal transfers, answers unsat only when no width-preserving bijection makes them equal, never retries a sample, ends as the verdict on the last proposal says, and gives up on a repeated counterexample only after a proposal that mixed several satisfying assignments; with one model for all selectors the accepted binding is a bijection and no counterexample repeats |
| Cegis.CounterexampleIff | src/angr_rule_learning/extraction/register_cegis.py:406-431 | the sample read off a report is what its first failed check with a counterexample says about every guest input, modulo two to the width, and there is none exactly when it leaves one out |
| Cegis.ProposalsBounded | src/angr_rule_learning/extraction/register_cegis.py:146-181 | and the number of proposals never exceeds the number of width-preserving bindings |
| Cegis.Solve | src/angr_rule_learning/extraction/register_cegis.py:124-181 | ties eligibility, exhaustive search and learning together; an eligible problem never finds its option list empty |
| Closure.TransitiveDependencies | src/angr_rule_learning/kernel/schema.py:573-585 | the worklist terminates with exactly the names a dependency path connects to a root |
| KernelSchema.CheckOperations | src/angr_rule_learning/kernel/schema.py:211-237 | the single pass succeeds exactly for typed single-assignment operations, and gathers environment, dependencies, roots and used objects |
| KernelSchema.CheckLive | src/angr_rule_learning/kernel/schema.py:246-271 | succeeds exactly when every result and every input lies on a dependency path to a root |
| KernelSchema.Validate | src/angr_rule_learning/kernel/schema.py:182-277 | accepts exactly the schemas whose shape, operations, objects, return value and liveness are right |
| KernelRules.AcceptedIff | src/angr_rule_learning/kernel/schema.py:182-277 | and these are exactly the schemas that keep the rules said about values, instructions and objects directly: references to known names of one type, new result names, whole-element addresses, used objects, the declared output, and no value for nothing |
| KernelRules.CastFitsIff | src/angr_rule_learning/kernel/schema.py:468-476 | the width test of a cast holds exactly when a truncation loses values, or an extension keeps every value or signed value and makes room for more |
| KernelCorrectness.AcceptedNeverStuck | src/angr_rule_learning/kernel/schema.py:211-271 | an accepted schema never gets stuck on any input or memory and returns a value of its declared type |
| KernelLowering.Materialize | src/angr_rule_learning/kernel/schema.py:280-352 | the emission loop produces the lowering, numbering memory accesses in order |
| KernelCorrectness.AddressLowered | src/angr_rule_learning/kernel/schema.py:511-535 | the emitted address instructions compute base + index * scale + displacement modulo 2^64 and define only the made-up names |
| KernelCorrectness.LoweringPreservesMeaning | src/angr_rule_learning/kernel/schema.py:280-352 | without a name clash the LLVM function returns the same value and leaves the same memory as the schema, for every input, and is undefined exactly when the schema is |
| KernelCorrectness.LoweringIsSingleAssignmentIff | src/angr_rule_learning/kernel/schema.py:511-535 | the lowering assigns every local once exactly when no schema value has a made-up name |
| KernelCorrectness.AcceptedSchemaCanClash | src/angr_rule_learning/kernel/schema.py:211-233 | validation accepts a schema whose lowering assigns a local twice |
| AliasRoots.DisjointSets.Find | src/angr_rule_learning/verification/memory.py:288-292 | the recursive search terminates, returns the root and changes no group while it compresses the path |
| AliasRoots.DisjointSets.Union | src/angr_rule_learning/verification/memory.py:294-295 | the right group joins the left group's root, every other slot keeps its root |
| AliasRoots.MustAliasRoots | src/angr_rule_learning/verification/memory.py:285-304 | two slots have one root exactly when a chain of must-alias declarations connects them |
| MemoryLayout.PlaceSlots | src/angr_rule_learning/verification/memory.py:180-198 | one base per root, a stride apart, with memory as large as the largest slot of the root |
| MemoryLayout.PlacedFollowAliases | src/angr_rule_learning/verification/memory.py:185-197 | slots share a base exactly when connected; unconnected ones that fit in a stride lie apart |
| MemoryLayout.CollectFrameGroups | src/angr_rule_learning/verification/memory.py:307-322 | groups the frame bindings by register pair, in order, losing none |
| MemoryLayout.AllocateFrameGroup | src/angr_rule_learning/verification/memory.py:325-386 | succeeds exactly when one host frame fits every slot of the group, and places the slots around the guest frame |
| MemoryLayout.WitnessTellsScales | src/angr_rule_learning/verification/memory.py:56-56 | with the witness in the index, different scales give different addresses, even modulo 2^64 |
| MemoryWitness.AssignsIffConsistent | src/angr_rule_learning/verification/memory.py:72-76 | a list of assignments succeeds exactly when no register is asked to hold two values |
| MemoryWitness.GuestPartnerIff | src/angr_rule_learning/verification/memory.py:85-89 | the partner of a register is the one the last pair naming it gives |
| MemoryWitness.AssignBinding | src/angr_rule_learning/verification/memory.py:96-135 | one binding assigns its demands, or fails on a conflict |
| MemoryWitness.InitializeRegisters | src/angr_rule_learning/verification/memory.py:79-135 | succeeds exactly when the bindings can all be assigned one after another, and otherwise stops at the first conflict |
| MemoryWitness.PlainReached | src/angr_rule_learning/verification/memory.py:121-135 | on success every non-frame guest address is its slot's base; the host address is, when its base is unpaired, and for a paired base exactly when both add the same offset |
| MemoryWitness.PlainSucceedsIff | src/angr_rule_learning/verification/memory.py:79-135 | without frame bindings the assignment succeeds exactly when the demands are consistent |
| FrameWitness.AddressReachedIff | src/angr_rule_learning/verification/memory.py:79-135 | on success an address is its slot's base exactly when some binding demands of its base register the value that takes |
| FrameWitness.PairReachedIff | src/angr_rule_learning/verification/memory.py:106-119 | on success each side of a frame pair's bindings reaches its slots exactly when its base register is demanded with the pair's frame |
| FrameWitness.FrameReached | src/angr_rule_learning/verification/memory.py:106-119 | both sides of a frame binding reach its slot when nothing else sets the pair's registers |
| MemoryInitializer.Initialize | src/angr_rule_learning/verification/memory.py:164-229 | fails on frames exactly when some group fits no host frame; otherwise bases follow aliases and frames, slots outside the frame lie a stride below every frame, the slots of one frame pair end below the frame of the next, and all bindings were assigned or one conflicts |
| MemoryInitializer.AddressesReachSlots | src/angr_rule_learning/verification/memory.py:164-229 | after a successful initialization every non-frame guest address is its slot's base, and every address of any binding is exactly when some binding demands of its base register the value that takes |
| MemoryInitializer.FramesReachSlots | src/angr_rule_learning/verification/memory.py:164-229 | after a successful initialization each side of a frame binding reaches its slot exactly when its base is demanded with the frame its group was placed at, as when a binding of the pair sets the pair |
| MemoryInitializer.SharedGuestFrameMisses | src/angr_rule_learning/verification/memory.py:106-119 | distinct pairs are placed at distinct guest frames, so of two pairs sharing a guest base the one that does not set it misses its slots on the guest side |
| MemoryInitializer.SharedGuestFrameIsMissed | src/angr_rule_learning/verification/memory.py:106-119 | initialization succeeds on such a candidate, with a guest address that is another slot's base and a host base without a value |
| MemoryReplay.OrderIrrelevant | src/angr_rule_learning/verification/memory_checks.py:162-167 | accesses of one kind that do not overlap may be made in any order: same final memory, same reads, from every memory |
| MemoryChecks.CheckOrdered | src/angr_rule_learning/verification/memory_checks.py:47-153 | falls back exactly when a well-shaped access is misplaced among several, and otherwise passes exactly when all accesses agree in order |
| MemoryChecks.MatchSide | src/angr_rule_learning/verification/memory_checks.py:200-222 | finds the slot-to-event bijection exactly when there is one, by counting, so the later lookups cannot fail |
| MemoryChecks.CheckRanges | src/angr_rule_learning/verification/memory_checks.py:190-197 | the scan of the sorted ranges passes exactly when no two ranges overlap |
| MemoryChecks.CheckBySlot | src/angr_rule_learning/verification/memory_checks.py:156-315 | passes exactly when the guards hold and matched events agree slot by slot |
| MemoryChecks.CheckMemoryEvents | src/angr_rule_learning/verification/memory_checks.py:10-44 | all checks pass exactly when the ordered or, if misplaced, the slot-based verdict holds |
| MemoryChecks.MatchedEventsAgree | src/angr_rule_learning/verification/memory_checks.py:10-44 | when all checks pass, matched events of the two sides have one kind, address, width and value under every model |
| MemoryOrder.PassMeansSameBehaviour | src/angr_rule_learning/verification/memory_checks.py:10-44 | when all checks pass and order cannot tell, for every starting memory both sides leave the same memory, read consistently together, and matched reads saw equal values |
| MemoryOrder.PassMeansSameBehaviourIff | src/angr_rule_learning/verification/memory_checks.py:10-44 | passing guarantees that for given expectations and bases exactly when the guards fail, a base is no address, nothing is written, no two stores share a byte modulo 2^64, or all widths differ |
| MemoryOrder.DistinctWidthsStayPut | src/angr_rule_learning/verification/memory_checks.py:84-97 | with pairwise different widths a match by slot is always in order, so the ordered check would have been used |
| MemoryOrder.OrderTells | src/angr_rule_learning/verification/memory_checks.py:190-197 | in every other case there is a passing context with those expectations whose two sides leave different memory |
| StackOperands.Collect | src/angr_rule_learning/extraction/memory_surfaces.py:266-298 | collects every operand in order, displaced by the stack movement before its instruction |
| StackOperands.WrittenAt | src/angr_rule_learning/extraction/memory_surfaces.py:290-298 | every operand is collected at its place, after those of earlier instructions and those before it in its own |
| StackOperands.CollectedFromEntry | src/angr_rule_learning/extraction/memory_surfaces.py:266-298 | with true deltas, collected stack displacements are relative to the stack pointer at entry, in every run |
| StackOperands.CanReorder | src/angr_rule_learning/extraction/memory_surfaces.py:229-250 | accepts exactly operands of one kind whose displacement ranges do not overlap |
| StackOperands.ReorderStackOperands | src/angr_rule_learning/extraction/memory_surfaces.py:202-263 | when the order is kept, when it is sorted and when it is a conflict |
| StackOperands.ReorderKeepsBehaviour | src/angr_rule_learning/extraction/memory_surfaces.py:253-263 | an accepted order is an address-sorted permutation, with the same final memory and the same reads unless it moves the last store to a byte |
| StackOperands.ReorderKeepsBehaviourIff | src/angr_rule_learning/extraction/memory_surfaces.py:229-263 | with any registers, it keeps memory and reads for all values exactly when it reads, or the last operand to touch a byte is never sorted before an earlier one |
| StackOperands.PlainStays | src/angr_rule_learning/extraction/memory_surfaces.py:242-250 | without an index, accepted operands within one turn of the address space never move so |
| StackOperands.IndexedReorderDiffers | src/angr_rule_learning/extraction/memory_surfaces.py:229-250 | with an index register an accepted reordering can change memory |
| Sorting.AdjacentIffPairwise | src/angr_rule_learning/extraction/memory_surfaces.py:242-250 | once sorted, comparing neighbours decides whether any two ranges overlap |

## Left out

- Fingerprint.FingerprintIffAlphaEqual: placeholders embedded in literal or register texts (`_canon_text`) are not part of this model; texts compare as they are.
- Fingerprint.RuleDecodes: texts are encoded as they are, without splitting off embedded placeholders.
- Fingerprint.OpDecodes: literal and register texts with embedded placeholders count as plain text.
- Fingerprint.ExprDecodes: a raw expression text with embedded placeholders counts as plain text.
- FingerprintBuilding.FingerprintBuilder.FingerprintOp: text operands are kept verbatim, embedded placeholders included.
- Semantics.EvaluateInstructions: symbols are values of a valuation instead of a shared dictionary; the record of reads before writes is not modelled (the verdict does not use it), an address given as bracketed text and an operand list too short for its mnemonic count as unsupported, and reading a literal's text as a number is a parameter.
- AlphaSemantics.OpAlpha: a register text is unsupported and a literal's text is read by a parameter, so placeholders inside texts are not followed.
- AlphaSemantics.AddressAlpha: the structured form of an address only; addresses given as bracketed text are not part of this model.
- SubstSemantics.SubstPassesIff: an immediate that is the first source of an operation is covered only where the result is zero anyway (`and`, multiplications, shifts) and the second source names no other immediate; elsewhere only that unclean rules never pass (`LostNeverPasses`).
- Consolidation.RemovedRulesPassIff: the same restriction on first sources; the domains each rule is checked with follow the renamings of the subsumptions, as they do when all immediates share one domain (`UniformKept`).
- Consolidation.Consolidate: immediate ids are taken to be positive, as the constructors and the parser enforce; the diagnostics counter is not modelled.
- Derivation.DeriveMovkConstant: a shift written as operand text (`lsl #immN`) is left out, as are all placeholders inside texts; no shift count that is evaluated is negative, where Python raises.
- Derivation.DeriveTbzMask: guest bit positions are not negative, where Python raises; other values may be.
- Derivation.DeriveIndexScale: index shifts written inside operand texts are left out; guest index shifts are not negative, where Python raises.
- Derivation.DeriveReverseIndexScale: scales written inside operand texts are left out; a host index shift is not negative, where Python raises.
- Derivation.DeriveOperand: placeholders inside literal and register texts are not rewritten.
- Derivation.DeriveHostExpressions: rewriting placeholders inside operand texts is not modelled.
- ImmText.RoundTripIffPrintable: text is ASCII; white space is the ten ASCII characters Python strips, and newlines, which the pattern's dot would not match, do not occur inside a text.
- SequenceText.ParseInstructionSequence: reading one line into a mnemonic and operands is taken as given.
- SequenceText.SequenceRoundTripIff: reading one line into a mnemonic and operands is taken as given.
- Liveness.TargetFoundIff: a decimal number with a leading zero, where Python raises, is read as decimal.
- EvaluationLaws.LogYieldsIff: over an empty domain, where Python raises, the logarithm is zero.
- Cegis.ProposalsBounded: the bound is for one model for all selectors; otherwise proposals are different bindings of the right widths.
- Cegis.Solve: what the fallback solver answers, and the extraction of the transfers, are outside the model.
- KernelLowering.Materialize: the target is a list of structured instructions; LLVM text and the access metadata are not produced, and names are taken as already stripped.
- WindowRuns.SliceIsSufficientIff: memory is one value an instruction reads or changes as a whole, instruction addresses are distinct, and the memory a window leaves is not summarized.
- MemoryOrder.PassMeansSameBehaviour: events are taken as little-endian, as on both architectures.
- MemoryInitializer.AddressesReachSlots: writing the chosen values into the two machine states is not modelled.
- Mnemonic tables, stack-pointer recognizers, register families and the assembly syntax of memory operands (`arch/*/rule_memory.py`, `arch/*/memory.py`): parameters here.
- Overlap between slots outside the frame and frame slots with negative offsets, and contradictory alias declarations (only directly declared pairs are compared).
- Window enumeration and pruning, rule generalization from assembly text, fixed-role tracing, reports, JSON and command-line handling.
- Compilation, disassembly, symbolic execution and SMT solving.
