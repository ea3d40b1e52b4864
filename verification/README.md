# Reading and printing LLVM IR: a verified model

The program reads LLVM's textual IR into tables of numbered things and prints them back.
Nothing is optimised; the hard part is that reading and printing agree. This project models
the algorithms that agreement rests on and proves what each is for. A claim that turned out
not to hold of the code is kept as a result: a concrete input, and where it could be found
the exact condition under which the claim does hold.

`dafny verify dfyconfig.toml` checks everything.

## How it is laid out

| part | files | what is proved |
|---|---|---|
| Depth-first search | `Dfs.dfy` | one walk used by metadata numbering and the type finder: it records exactly what is reachable, once, in preorder |
| Metadata uniquing | `Metadata.dfy`, `Uniquing.dfy`, `UniquingScan.dfy`, `UniquingEnds.dfy`, `UniquingCycles.dfy`, `Identifiers.dfy` | the loop that rewrites its own map while it reads it computes the least congruence when it stops, and when that is |
| Metadata numbering | `Numbering.dfy`, `MetadataRoots.dfy`, `MetadataText.dfy`, `MetadataSlots.dfy`, `Reprinting.dfy`, `PlainReprinting.dfy`, `ReprintingFailures.dfy` | the numbering is exact and closed, and exactly when printing is canonical |
| Function bodies | `LocalNames.dfy`, `BodyParser.dfy`, `BodyRoundTrip.dfy`, `BodyPrinter.dfy`, `BodyReader.dfy` | what is printed reads back as the same body, forward references included |
| Constants | `Interning.dfy`, `ConstantValues.dfy`, `ConstantFolding.dfy`, `ConstantMeaning.dfy`, `ConstantBits.dfy`, `Folding*.dfy`, `ConstantReading.dfy`, `ConstantStability.dfy` | every fold keeps the type and refines the meaning; reading is idempotent |
| Layout | `Layout.dfy` | struct layout is sound and the tightest there is |
| Floats | `Shifts.dfy`, `FloatNarrowing.dfy`, `FloatWidening.dfy`, `FloatText.dfy` | narrowing is exact and complete, and undoes the printer's widening; hexadecimal text reads back |
| Module passes | `Remangling.dfy`, `UseLists.dfy`, `TypeFinder.dfy`, `MemoryEffects.dfy` | renaming keeps calls right by name; use-list checks mean "a permutation"; the type finder is exact; a complete normal form |
| Text | `Tokens.dfy`, `Lexer.dfy`, `NamePrinting.dfy` | the lexer that goes back does what a pure reading does and never misreports a place; it undoes the printer |

Code that works step by step is modelled by classes and loops, each proved equal to a
function of its inputs or of the state before it: the uniquing scan, the two numberings,
the body reader, the struct layout loop, the in-place renaming, the type finder's walk, the
lexer, the interner. The properties are proved of those functions.

## What did not hold

* **The uniquing loop need not stop.** On `!0 = !{!1, !5}`, `!1 = !{null, !0, !3}`,
  `!2 = !{!5, !3}`, `!3 = !{null, !4, !5}`, `!4 = !{!1, !3}`, `!5 = !{null, !4, !5}` every
  scan changes an entry, for ever (`UniquingCycles.NeverExits`). Three of these nodes look
  one way and three another, and that is as few as can do it: a bound on how many nodes may
  be the same but for what they refer to makes the loop stop, whatever refers to what, if
  and only if the bound is at most two (`UniquingCycles.TwoAlikeIsTheMost`). It also stops
  wherever third and later members of a group can be ranked (`UniquingEnds.RankedGroupsEnd`),
  and within height + 2 scans where references are acyclic (`UniquingScan.LastScan`). What
  the loop computes is proved of any exit, cycles or none.
* **Printing metadata is not always canonical.** Read back, printed nodes should merge
  nothing, number themselves as they stand and print as the same text. Three inputs where
  they do not (`ReprintingFailures`): a size or an offset of nought is held and not written,
  so `!DIBasicType()` and `!DIBasicType(size: 0)` are two nodes of one text
  (`SizesOfNoughtMerge`); so are a tuple that holds an expression and one that names it by
  number (`UsesByNumberMerge`); and an identifier carried under two tags belongs to the node
  read first, which need not be the one printed first (`IdentifierChangesHands`). Printing is
  canonical if and only if the printed nodes stand apart, which the text decides
  (`Reprinting.PrintingIsCanonicalExactly`); it always is where every field is written, every
  reference is to a node with a line of its own, no identifier has two tags, and no two
  nodes that lost an identifier look alike (`PlainReprinting.PrintingIsCanonical`).
* **Reading the finished map one step at a time can stop short of a root** when two nodes
  that lost an identifier to a third also look alike; it is exact for every node if and
  only if there are no two such nodes (`UniquingScan.OneStepIsEnough`,
  `Identifiers.OneStepFallsShort`).
* **Dropping `ptrtoint (inttoptr x)`, or the reverse, counts on sixty-four bits whatever the
  target's pointers are.** On narrower ones `ptrtoint (inttoptr undef)` at `i64` is read as
  `undef`, which it does not denote; on wider ones so is `inttoptr (ptrtoint undef)` through
  `i64` (`ConstantReading.NarrowPointersAreMisread`, `ConstantReading.WidePointersAreMisread`).
  Reading refines every constant that loses no lanes if and only if pointers are sixty-four
  bits wide (`ConstantReading.ReadingIsRightExactly`).
* **A `getelementptr` that goes nowhere, from a scalar base to a scalable vector, folds to
  the scalar**, which is of another type: `ConstantReading.LostWalkIsMisread` has one. That
  is the only way a folded walk, or any constant, loses its type
  (`FoldingWalks.WalkKeepsTypeExactly`, `ConstantReading.TypesAreKeptExactly`).
* **A block whose name prints bare and opens with three dots does not read back as a
  label**, the ellipsis being taken first (`NamePrinting.LabelReadsBackExactly`).
* **A metadata name that opens with a hyphen does not read back**; every other non-empty one
  does (`NamePrinting.MetadataNameReadsBackExactly`).
* A comment in the source says that indices after a walk has lost its type are left as they
  were written; the code still widens them to the lanes of the answer, and so does the model.

## How constants are given a meaning

A constant denotes a set of values, `undef` being any value each time it is read. A value is
a scalar of some bits, a poisoned scalar, or the parts of an aggregate. One constant refines
another when each of its values is one of the other's, or stands where the other's is
poison. Bitcasts between vectors are given by the bits of the lanes in memory order, for
either endianness; arithmetic that breaks `nuw` or `nsw` is poison (LLVM Language Reference
Manual, "Poison Values"). An address is a number as wide as the target's pointers. A walk
(`getelementptr`) is computed lane by lane from `Layout`; when its flags' promises are
broken is left to the target, as are casts the reader never folds and the addresses of
symbols.

## Model

| member | source | states |
|---|---|---|
| DepthFirst.DfsExact | crates/llvm-ir-print/src/md_slots.rs:128-155 | a walk with a record of what it has met records each reachable node once and nothing else, on any graph |
| DepthFirst.DfsIsPreorder | crates/llvm-ir-print/src/md_slots.rs:128-155 | the record is the preorder: each node is the first new successor of the latest node that has one, or the first new root |
| DepthFirst.DfsRenamed | crates/llvm-ir-print/src/md_slots.rs:128-155 | renaming a graph's nodes renames the record |
| Uniquing.ResolveInLoop | crates/llvm-ir-print/src/md_slots.rs:282-294 | following entries to a root ends without its guard on a map that points down, and finds the root |
| Uniquing.CongruentIsEquivalence | crates/llvm-ir-print/src/md_slots.rs:165-169 | the congruence nodes are merged by is an equivalence |
| Uniquing.CongruentClosed | crates/llvm-ir-print/src/md_slots.rs:165-169 | nodes that look alike up to the congruence are congruent: it is closed as well as least |
| Uniquing.KeysMeanAlike | crates/llvm-ir-print/src/md_slots.rs:296-345 | equal keys, even worked out from two states of the map, mean the nodes look alike up to the congruence |
| UniquingScan.ScansAreSound | crates/llvm-ir-print/src/md_slots.rs:251-279 | every entry, stale or not, overwritten or not, joins congruent nodes and points down, after any number of scans |
| UniquingScan.ExitDecidesCongruence | crates/llvm-ir-print/src/md_slots.rs:251-294 | at exit two nodes have one root exactly when they are congruent |
| UniquingScan.RootIsLowest | crates/llvm-ir-print/src/md_slots.rs:266-274 | the root is the lowest-numbered node of its group |
| UniquingScan.HeadsAreNotMerged | crates/llvm-ir-print/src/md_slots.rs:251-279 | at exit no stale entry is left on a node that heads its group |
| UniquingScan.ChainMeansCollision | crates/llvm-ir-print/src/md_slots.rs:65-67 | where one step of the finished map is not the root, an identifier loser looks like another node |
| UniquingScan.CollisionMeansChain | crates/llvm-ir-print/src/md_slots.rs:65-67 | and such a pair always leaves a chain |
| UniquingScan.OneStepIsEnough | crates/llvm-ir-print/src/md_slots.rs:65-67 | one step is the root for every node if and only if no identifier loser looks like another node |
| UniquingScan.ScanStabilizes | crates/llvm-ir-print/src/md_slots.rs:251-279 | with acyclic references each scan settles the entries of one more height for good |
| UniquingScan.LastScan | crates/llvm-ir-print/src/md_slots.rs:251-279 | with acyclic references, after height + 1 scans the next changes nothing |
| UniquingScan.UnchangedExits | crates/llvm-ir-print/src/md_slots.rs:276-278 | a scan that reports no change left the map as it was, however it got there |
| UniquingScan.ScanOnce | crates/llvm-ir-print/src/md_slots.rs:252-275 | the loop that rewrites the map while it reads it is the fold of its step |
| UniquingScan.UniqueNodes | crates/llvm-ir-print/src/md_slots.rs:251-280 | the loop stops at the first scan that changes nothing, if there is one, and its map then decides congruence |
| UniquingEnds.SecondMovesOnce | crates/llvm-ir-print/src/md_slots.rs:251-279 | the head of a group is never merged and the second node only with the head, for good |
| UniquingEnds.CalmSettles | crates/llvm-ir-print/src/md_slots.rs:251-279 | while no second node moves, one rank of later nodes after another comes to rest, whatever cycles run through heads and seconds |
| UniquingEnds.RankedGroupsEnd | crates/llvm-ir-print/src/md_slots.rs:251-279 | so the loop stops, height + 2 scans after the last merge of a second at the latest |
| UniquingEnds.FewLookAlikesEnd | crates/llvm-ir-print/src/md_slots.rs:251-279 | the loop stops on every module in which no three nodes are the same but for what they refer to |
| UniquingCycles.NeverExits | crates/llvm-ir-print/src/md_slots.rs:251-279 | on six cyclic nodes every scan changes an entry, for ever |
| UniquingCycles.TwoAlikeIsTheMost | crates/llvm-ir-print/src/md_slots.rs:251-279 | bounding how many nodes look alike makes the loop stop on every module exactly when the bound is at most two |
| Identifiers.ClaimsHold | crates/llvm-ir-print/src/md_slots.rs:186-208 | the first of an identifier and tag claims it, later ones point at it, a clashing tag gets nothing |
| Identifiers.StartIsValid | crates/llvm-ir-print/src/md_slots.rs:186-249 | what the identifier phases merge is a valid start: one step, downward, onto nodes the scans skip |
| Identifiers.WithoutIdentifiers | crates/llvm-ir-print/src/md_slots.rs:186-249 | with no identifiers the scans start from an empty map |
| Identifiers.MergeByIdentifier | crates/llvm-ir-print/src/md_slots.rs:186-249 | the two phases' loops compute that start |
| Identifiers.Unique | crates/llvm-ir-print/src/md_slots.rs:170-280 | all three phases: the map decides congruence over what the identifiers merged |
| Identifiers.OneStepFallsShort | crates/llvm-ir-print/src/md_slots.rs:65-67 | three definitions of one type leave a chain one step does not follow |
| Numbering.StableSortIsStable | crates/llvm-ir-print/src/md_slots.rs:461-482 | ordering fields by rank keeps the order of fields of one rank |
| Numbering.OrderPermutes | crates/llvm-ir-print/src/md_slots.rs:461-482 | reordering a node's fields keeps each as often as it was |
| MetadataRoots.PrintOrderIsKept | crates/llvm-ir-print/src/md_slots.rs:73-77 | attachments written in print order are in print order when read |
| MetadataRoots.WrittenModuleRoots | crates/llvm-ir-print/src/md_slots.rs:81-119 | a written module names, in the order it is walked, what the module named, renumbered |
| MetadataText.TrimPointsAtTheSame | crates/llvm-ir-print/src/metadata.rs:58-70 | fields left out of the text do not change what a node points at, or in which order |
| MetadataText.WrittenPointsAt | crates/llvm-ir-print/src/metadata.rs:29-147 | a written node points at what the node did, by number, in the same order |
| MetadataText.WritingKeepsIdentifier | crates/llvm-ir-print/src/metadata.rs:58-70 | and carries the identifier it did |
| MetadataSlots.Slots.AssignNumbers | crates/llvm-ir-print/src/md_slots.rs:81-119 | from globals, aliases, ifuncs, named lists and functions, attachments in print order and an instruction's operands before its own, the order is the depth-first record and the numbers are its positions |
| MetadataSlots.Slots.Visit | crates/llvm-ir-print/src/md_slots.rs:128-145 | a visit extends the record as the walk does, passing through nodes printed in place; it ends on cyclic graphs |
| MetadataSlots.Slots.VisitOperands | crates/llvm-ir-print/src/md_slots.rs:147-155 | references first, then those of nodes held in place |
| Reprinting.NumberingIsExact | crates/llvm-ir-print/src/md_slots.rs:81-155 | the numbered nodes are exactly those reached, once each, in preorder |
| Reprinting.NumberingIsClosed | crates/llvm-ir-print/src/md_slots.rs:128-155 | what a numbered node points at is numbered, in place or undefined |
| Reprinting.DefinitionPointsAt | crates/llvm-ir-print/src/metadata.rs:29-147 | a written definition points at what the node did, less what prints in place, by number |
| Reprinting.MergesNothingExactly | crates/llvm-ir-print/src/md_slots.rs:170-280 | nodes merge nothing exactly when none loses an identifier or a membership and no two of the others are the same |
| Reprinting.PrintingIsCanonicalExactly | crates/llvm-ir-print/src/printer.rs:254-279 | the printed metadata, read back, merges nothing, gains no `distinct` and numbers node k as k, exactly when its nodes stand apart |
| Reprinting.ModulePrintsCanonically | crates/llvm-ir-print/src/md_slots.rs:81-119 | the same of a module, from the attachments and operands it is written with |
| Reprinting.PrintingAgainIsTheSame | crates/llvm-ir-print/src/printer.rs:254-279 | and printed once more it is the same text, definitions and uses |
| PlainReprinting.WrittenClaims | crates/llvm-ir-print/src/md_slots.rs:186-208 | read back, exactly the printed nodes that took an identifier take it again |
| PlainReprinting.ScopeIsTheSame | crates/llvm-ir-print/src/md_slots.rs:210-249 | a member's scope, as merged while members are, is what the finished map says wherever it took an identifier |
| PlainReprinting.WrittenStart | crates/llvm-ir-print/src/md_slots.rs:186-249 | the printed nodes start from nothing merged, with the same nodes held out of the scans |
| PlainReprinting.PrintingIsCanonical | crates/llvm-ir-print/src/md_slots.rs:38-155 | printing is canonical, and the same text again, wherever fields and references are written as they are held, identifiers have one tag and no losers collide |
| ReprintingFailures.SizesOfNoughtMerge | crates/llvm-ir-print/src/metadata.rs:61-70 | two basic types, one with a size of nought, merge once written and read back |
| ReprintingFailures.UsesByNumberMerge | crates/llvm-ir-print/src/metadata.rs:216-226 | so do a node that holds an expression and one that names it by number |
| ReprintingFailures.IdentifierChangesHands | crates/llvm-ir-print/src/md_slots.rs:186-208 | with two tags the node printed first takes the identifier from the node that had it |
| Identifiers.MembersArePlaced | crates/llvm-ir-print/src/md_slots.rs:210-249 | a node is a member exactly when its scope took an identifier, and is then first with its key or merged |
| LocalNames.NameIsUnique | crates/llvm-ir-print/src/slots.rs:93-135 | no two items of one kind share a name, given or numbered |
| BodyRoundTrip.ItemSimulates | crates/llvm-ir-parse/src/body.rs:246-427 | reading one printed item keeps the reader in step: its next number is the printer's counter, its maps name the items read |
| BodyRoundTrip.OperandHolds | crates/llvm-ir-parse/src/body.rs:397-427 | a use, of something read or not yet read, finds or reserves the slot of the item it names |
| BodyRoundTrip.SlotIsEmpty | crates/llvm-ir-parse/src/body.rs:499-597 | a slot is empty when its definition is read: each is defined once |
| BodyRoundTrip.EverythingIsRead | crates/llvm-ir-parse/src/body.rs:246-367 | at the end no slot or block is left reserved |
| BodyRoundTrip.ReadingUndoesWriting | crates/llvm-ir-parse/src/body.rs:246-367 | every printed body reads back as that body |
| BodyPrinter.FunctionSlots.Compute | crates/llvm-ir-print/src/slots.rs:93-135 | the walk over the arena computes the numbering |
| BodyPrinter.SlotsAreCounts | crates/llvm-ir-print/src/slots.rs:93-135 | what an item is numbered is how many unnamed items come before it, whatever order the arena has |
| BodyPrinter.PrintBlock | crates/llvm-ir-print/src/symbols.rs:354-400 | a label, unless the entry has none, and the instructions |
| BodyPrinter.PrintsTheBody | crates/llvm-ir-print/src/symbols.rs:354-410 | the text depends on the body alone and not on ids |
| BodyPrinter.PrintedReadsBack | crates/llvm-ir-parse/src/body.rs:246-427 | printing a function and reading it gives the same body, nothing pending |
| BodyReaders.BodyReader.TakeParam | crates/llvm-ir-parse/src/body.rs:49-88 | a parameter takes its name or the next number |
| BodyReaders.BodyReader.FindBlock | crates/llvm-ir-parse/src/body.rs:369-395 | a block is found by name or reserved, in place |
| BodyReaders.BodyReader.FindValue | crates/llvm-ir-parse/src/body.rs:397-427 | a value is found by name or reserved, in place |
| BodyReaders.BodyReader.TakeInstruction | crates/llvm-ir-parse/src/body.rs:499-597 | a result's slot is found before the operands', an unnamed value takes the next number, and the slot is filled |
| BodyReaders.BodyReader.ReadFunction | crates/llvm-ir-parse/src/body.rs:246-367 | the reader that fills a function in place reads what its specification does |
| BodyReaders.PrintAndReadBack | crates/llvm-ir-parse/src/body.rs:246-367 | printer and reader run one after the other give back the same body |
| Interning.SameNumberSameTree | crates/llvm-ir/src/context.rs:203-215 | two interned things are the same, written out in full, exactly when their numbers are |
| Interning.Context.Intern | crates/llvm-ir/src/context.rs:203-211 | a thing interned already is found, and nothing interned changes |
| Interning.Context.InternTree | crates/llvm-ir/src/context.rs:50-58 | interning part by part gives a number that stands for the whole |
| ConstantMeaning.MeaningIsTyped | crates/llvm-ir-parse/src/constants.rs:875-1018 | every value of a well-typed constant is of its type |
| ConstantMeaning.HasMeaning | crates/llvm-ir-parse/src/constants.rs:875-1018 | a well-typed constant may be something |
| ConstantMeaning.ExpressionRefines | crates/llvm-ir-parse/src/constants.rs:875-1018 | refining the operands of any operation refines it |
| ConstantBits.CutBack | crates/llvm-ir-parse/src/constants.rs:1182-1238 | cutting the bits of lanes again and back gives the lanes, for either endianness, so a bitcast reaches every value |
| ConstantBits.RecutUniform | crates/llvm-ir-parse/src/constants.rs:1205-1231 | all-zero, all-one and poison read the same however the lanes fall |
| FoldingAggregates.AggregateFoldKeepsMeaning | crates/llvm-ir-parse/src/constants.rs:384-444 | folding an array or a vector keeps its type and exactly its values |
| FoldingAggregates.StructFoldKeepsMeaning | crates/llvm-ir-parse/src/constants.rs:700-713 | so does folding a struct |
| FoldingAggregates.BuiltSplatRefines | crates/llvm-ir-parse/src/constants.rs:282-308 | a value inserted in the first lane and shuffled across refines the splat, however long the scalable vector is |
| FoldingAggregates.SplatFoldRefines | crates/llvm-ir-parse/src/constants.rs:564-601 | a splat read in any of its three ways refines it |
| FoldingAggregates.LanesRefine | crates/llvm-ir-parse/src/constants.rs:1107-1126 | folds that refine an operation on each lane refine it on the vectors |
| FoldingArithmetic.ComputedReplaces | crates/llvm-ir-parse/src/constants.rs:1100-1143 | arithmetic worked out by the reader, vectors included, refines what was written whatever overflow flags it had |
| FoldingArithmetic.IdentityReplaces | crates/llvm-ir-parse/src/constants.rs:1078-1096 | the operand kept when the other is nought refines the expression |
| FoldingArithmetic.BinaryFoldRefines | crates/llvm-ir-parse/src/constants.rs:1057-1066 | so does whatever the reader answers for an arithmetic expression |
| FoldingCasts.UndefCast | crates/llvm-ir-parse/src/constants.rs:1212-1214 | a bitcast of undef may be any value, so undef refines it |
| FoldingCasts.UndoneCast | crates/llvm-ir-parse/src/constants.rs:1153-1180 | a cast and the one it undoes may be dropped where the middle is wide enough |
| FoldingCasts.CastFoldTyped | crates/llvm-ir-parse/src/constants.rs:1148-1338 | every cast fold keeps the type, on any target |
| FoldingCasts.CastFoldReplaces | crates/llvm-ir-parse/src/constants.rs:1148-1338 | and refines the cast, with pointers of sixty-four bits |
| FoldingWalks.WideningKeepsOperand | crates/llvm-ir-parse/src/constants.rs:356-374 | an index or base written out in every lane says what it said |
| FoldingWalks.NarrowingKeepsOperand | crates/llvm-ir-parse/src/constants.rs:313-333 | a struct field named in every lane is the field named once |
| FoldingWalks.IndicesKeepOperands | crates/llvm-ir-parse/src/constants.rs:237-277 | rewriting a walk's indices leaves every lane's indices as they were |
| ConstantFolding.WidenGepIndices | crates/llvm-ir-parse/src/constants.rs:237-277 | the loop over indices computes that rewriting |
| FoldingWalks.SameOperandsSameWalk | crates/llvm-ir-parse/src/constants.rs:898-915 | so every lane of the walk keeps its address |
| FoldingWalks.NoughtGoesNowhere | crates/llvm-ir-parse/src/constants.rs:1020-1038 | a list of noughts moves by nothing, through arrays, vectors and structs |
| FoldingWalks.NoughtWalkRefines | crates/llvm-ir-parse/src/constants.rs:1020-1038 | a walk by noughts folds to its base, in every lane |
| FoldingWalks.UndefWalkRefines | crates/llvm-ir-parse/src/constants.rs:1040-1047 | a walk from undef may arrive anywhere |
| FoldingWalks.PoisonWalkRefines | crates/llvm-ir-parse/src/constants.rs:1048-1052 | a walk from poison is poison |
| FoldingWalks.WalkFoldRefines | crates/llvm-ir-parse/src/constants.rs:1020-1053 | whatever a walk folds to is of its type and refines it, exactly unless a walk by noughts goes from a scalar to a scalable vector |
| FoldingWalks.WalkKeepsTypeExactly | crates/llvm-ir-parse/src/constants.rs:1024-1038 | a folded walk keeps its type exactly when it does not go nowhere from a scalar to a scalable vector |
| ConstantReading.ReadingRefines | crates/llvm-ir-parse/src/constants.rs:475-1071 | a whole constant, every part folded innermost first, keeps its type and refines what was written, with pointers of sixty-four bits |
| ConstantReading.TypesAreKeptExactly | crates/llvm-ir-parse/src/constants.rs:475-1071 | every part of a constant is read as something of its type exactly when no walk in it loses lanes |
| ConstantReading.UndoingIsRightExactly | crates/llvm-ir-parse/src/constants.rs:1153-1180 | two casts through an address or a number may be dropped for every operand exactly when the middle is no narrower |
| ConstantReading.NarrowPointersAreMisread | crates/llvm-ir-parse/src/constants.rs:1153-1180 | with pointers narrower than sixty-four bits a number sent through one is read as if nothing were lost |
| ConstantReading.WidePointersAreMisread | crates/llvm-ir-parse/src/constants.rs:1153-1180 | with wider ones an address sent through sixty-four bits is |
| ConstantReading.ReadingIsRightExactly | crates/llvm-ir-parse/src/constants.rs:1153-1180 | reading keeps type and meaning of every constant that loses no lanes exactly when pointers are sixty-four bits wide |
| ConstantReading.LostWalkIsMisread | crates/llvm-ir-parse/src/constants.rs:1024-1038 | a walk by a scalable vector of noughts is read as its scalar base |
| ConstantStability.ReadingTwiceIsReadingOnce | crates/llvm-ir-parse/src/constants.rs:475-1071 | what a constant is read as is read as itself, on any target |
| Layout.AlignUpIsLeast | crates/llvm-support/src/lib.rs:73-76 | aligning up gives the least multiple at or above |
| Layout.LayOutStruct | crates/llvm-ir/src/layout.rs:197-227 | the loop places fields as specified, and stops at the first field with no size or alignment |
| Layout.LayoutIsSound | crates/llvm-ir/src/layout.rs:197-227 | fields are aligned, ordered and disjoint; the size is a multiple of the struct's alignment and of every field's |
| Layout.LayoutIsTightest | crates/llvm-ir/src/layout.rs:197-227 | no other such placing has a lower field or a smaller size |
| Layout.AlignmentAgrees | crates/llvm-ir/src/layout.rs:170-180 | the alignment worked out on its own is the layout's |
| Layout.AllocIsAligned | crates/llvm-ir/src/layout.rs:71-79 | what a type takes is a multiple of its alignment |
| Layout.ArrayIsItsElements | crates/llvm-ir/src/layout.rs:36-79 | an array takes exactly count times its element |
| Layout.StructIsItsLayout | crates/llvm-ir/src/layout.rs:71-79 | a struct's size needs no further rounding |
| Layout.LookupRule | crates/llvm-support/src/data_layout.rs:442-453 | a lookup gives the first row of the width, else the first narrowest wider one, else the last widest, and there is one such row |
| FloatNarrowing.SplitJoin | crates/llvm-support/src/apfloat.rs:492-513 | taking apart what was put together gives the fields |
| FloatNarrowing.JoinSplit | crates/llvm-support/src/apfloat.rs:492-513 | and putting together what was taken apart gives the pattern |
| FloatNarrowing.NarrowingIsExact | crates/llvm-support/src/apfloat.rs:492-556 | a finite double narrows to a pattern exactly when that pattern names the same number with the same sign |
| FloatNarrowing.InfinityNarrowingIsExact | crates/llvm-support/src/apfloat.rs:502-514 | an infinity narrows to the infinity of its sign |
| FloatNarrowing.WideningIsExact | crates/llvm-support/src/apfloat.rs:456-476 | every finite narrow pattern has a double for its number |
| FloatNarrowing.NarrowingUndoesWidening | crates/llvm-support/src/apfloat.rs:456-490 | narrowing that double gives the pattern back, zeros and subnormals included |
| FloatWidening.SameNumberIsSameValue | crates/llvm-support/src/apfloat.rs:492-556 | naming the same number is having the same real value |
| FloatWidening.HalfWidensExactly | crates/llvm-support/src/apfloat.rs:456-471 | what the printer computes for a half is the value of the pattern |
| FloatWidening.HalfReadsBack | crates/llvm-support/src/apfloat.rs:456-490 | a double narrows to a half exactly when it is, with its sign, what the printer computes for it |
| FloatWidening.HalfIsADouble | crates/llvm-support/src/apfloat.rs:456-490 | and there is such a double for every finite half |
| FloatWidening.BFloatIsASingle | crates/llvm-support/src/apfloat.rs:473-476 | a bfloat over sixteen noughts is the binary32 of the same number |
| FloatWidening.BFloatReadsBack | crates/llvm-support/src/apfloat.rs:473-490 | a double narrows to a bfloat exactly when it is of the number of that binary32 |
| FloatNarrowing.NanNarrowingIsExact | crates/llvm-support/src/apfloat.rs:564-582 | a NaN double narrows exactly to the NaN it is the widening of, payload and all |
| FloatNarrowing.NanRoundTrip | crates/llvm-support/src/apfloat.rs:587-595 | the printer's widening of a NaN is undone by the reader's narrowing |
| FloatText.ParseHexDigits | crates/llvm-support/src/apfloat.rs:422-432 | digits accumulate in sixty-four bits that wrap, and a bad digit is refused |
| FloatText.HexTextReadsBack | crates/llvm-support/src/apfloat.rs:272-314 | the text of any pattern of the five hexadecimal forms reads back as the pattern, word splits included |
| Remangling.Module.Rename | crates/llvm-ir-parse/src/toplevel.rs:874-921 | names after renaming and swapping, and exactly which declarations are to be merged or print last |
| Remangling.Module.MergeDeclaration | crates/llvm-ir-parse/src/toplevel.rs:1184-1225 | one declaration's calls go to the first declaration with the name |
| Remangling.TargetIsSettled | crates/llvm-ir-parse/src/toplevel.rs:922-924 | calls are never sent to a declaration whose own calls are still to be sent on |
| Remangling.MergeStep | crates/llvm-ir-parse/src/toplevel.rs:922-924 | a merge moves its own calls and none already moved |
| Remangling.SomeoneStays | crates/llvm-ir-parse/src/toplevel.rs:899-912 | every name wanted or kept is borne by a declaration that stays |
| Remangling.StayingNamesDiffer | crates/llvm-ir-parse/src/toplevel.rs:899-912 | two declarations that stay are known by different names |
| Remangling.CallsKeepTheirNames | crates/llvm-ir-parse/src/toplevel.rs:874-946 | each call names a function bearing the canonical name of the one it named, and exactly one printed declaration has that name |
| Remangling.Module.RemangleIntrinsics | crates/llvm-ir-parse/src/toplevel.rs:874-946 | the whole pass in place: names, calls, and an order that prints each declaration that stays once |
| UseLists.ReadingFindsRepeats | crates/llvm-ir-parse/src/toplevel.rs:537-542 | sorting and dropping repeats keeps the count exactly when there are none |
| UseLists.DistinctInRangeCovers | crates/llvm-ir-parse/src/toplevel.rs:25-39 | as many distinct positions as uses are all of them |
| UseLists.AcceptedExactly | crates/llvm-ir-parse/src/toplevel.rs:527-546 | a directive on n uses is accepted exactly when n is at least two and the indexes are a permutation that changes the order |
| TypeFinder.Walk.Ty | crates/llvm-ir-print/src/type_finder.rs:117-148 | a type extends the record as the walk over types, constants and tuples does |
| TypeFinder.Walk.Constant | crates/llvm-ir-print/src/type_finder.rs:150-179 | so does a constant, its type first |
| TypeFinder.Walk.MdOperand | crates/llvm-ir-print/src/type_finder.rs:213-225 | so does a metadata operand, nodes written inline included |
| TypeFinder.Walk.Block | crates/llvm-ir-print/src/type_finder.rs:79-97 | a debug record is walked after the instruction below it |
| TypeFinder.ReachableNamedStructs | crates/llvm-ir-print/src/type_finder.rs:23-106 | what is found is the structs of the depth-first record of the module |
| TypeFinder.FindsExactlyTheNeeded | crates/llvm-ir-print/src/type_finder.rs:23-106 | that is exactly the structs the module leads to, each once, in the order first met |
| MemoryEffects.CanonicalMemory | crates/llvm-ir-parse/src/attributes.rs:547-581 | the loops compute the canonical list |
| MemoryEffects.FormKeepsMeaning | crates/llvm-ir-parse/src/attributes.rs:547-581 | the canonical list allows what was written, at every known location and elsewhere |
| MemoryEffects.SameFormExactly | crates/llvm-ir-parse/src/attributes.rs:547-581 | two lists have the same canonical form exactly when they allow the same |
| MemoryEffects.FormIsItsOwn | crates/llvm-ir-parse/src/attributes.rs:547-581 | and a canonical list is its own canonical form |
| Lexing.Lexer.Bump | crates/llvm-ir-parse/src/lexer.rs:216-224 | one byte is taken and the line kept |
| Lexing.Lexer.RewindTo | crates/llvm-ir-parse/src/lexer.rs:211-214 | going back within a run of name bytes needs no line undone |
| Lexing.Lexer.SkipTrivia | crates/llvm-ir-parse/src/lexer.rs:247-290 | blanks and comments of both kinds are passed, an unclosed one refused |
| Lexing.Lexer.QuotedBytes | crates/llvm-ir-parse/src/lexer.rs:577-615 | a string is read as specified, a backslash that begins no escape kept |
| Lexing.Lexer.TakeEscapedName | crates/llvm-ir-parse/src/lexer.rs:520-546 | so is a metadata name |
| Lexing.Lexer.TakeLabelAhead | crates/llvm-ir-parse/src/lexer.rs:484-500 | a run a colon does not close is given back whole |
| Lexing.Lexer.TakePrefixedName | crates/llvm-ir-parse/src/lexer.rs:443-473 | what follows a sigil |
| Lexing.Lexer.TakeNumeric | crates/llvm-ir-parse/src/lexer.rs:619-715 | signs, hexadecimal forms, fractions, exponents, numbered labels |
| Lexing.Lexer.TakeWordOrLabel | crates/llvm-ir-parse/src/lexer.rs:717-759 | a run with hyphens is a label or is given back to its first hyphen |
| Lexing.Lexer.NextToken | crates/llvm-ir-parse/src/lexer.rs:292-439 | the token is the one specified at its place, and its line and column are that place's |
| Lexing.LineStartsAfterNewline | crates/llvm-ir-parse/src/lexer.rs:194-199 | a column is counted from the last newline before it |
| Lexing.Tokenize | crates/llvm-ir-parse/src/lexer.rs:233-245 | the tokens are those read one after another from the start, each with its place, to the end or to the first error |
| Lexing.TokensArePlaced | crates/llvm-ir-parse/src/lexer.rs:233-245 | each starts past the blanks after the one before, only the last is the end of the input, no place is misreported |
| NamePrinting.EscapeBytes | crates/llvm-ir-print/src/printer.rs:431-444 | the escaping loop computes the escaped text |
| NamePrinting.ReadingUndoesEscaping | crates/llvm-ir-parse/src/lexer.rs:577-615 | reading a string undoes escaping it, for all bytes, and leaves any suffix unread |
| NamePrinting.PrefixedNameReadsBack | crates/llvm-ir-print/src/printer.rs:451-457 | a printed name after a sigil names what was printed, or is refused for the NUL it holds |
| NamePrinting.NameReadsBack | crates/llvm-ir-parse/src/lexer.rs:300-319 | a sigil and a printed name are one token |
| NamePrinting.LabelReadsBackExactly | crates/llvm-ir-print/src/symbols.rs:362-372 | a printed name and a colon are that label, exactly unless it holds a NUL or prints bare and opens with three dots |
| NamePrinting.PrintMetadataName | crates/llvm-ir-print/src/printer.rs:470-488 | the loop computes the metadata name's text |
| NamePrinting.MetadataNameReadsBackExactly | crates/llvm-ir-parse/src/lexer.rs:321-331 | a printed metadata name reads back exactly when it is not empty and does not open with a hyphen |

## Left out

- UniquingScan.UniqueNodes: asks for a scan that changes nothing, without which the source's loop runs for ever; when there is one is settled for acyclic references, for groups whose third and later members can be ranked, and for modules in which no three nodes look alike, and not in general.
- Identifiers.Unique: asks for the same.
- Reprinting.PrintingIsCanonicalExactly: every reference names a defined node, what prints in place holds no reference, and nothing outside a node names by number what prints in place. A reference to an undefined node is an error the verifier reports.
- PlainReprinting.PrintingIsCanonical: one way; the exact condition is the one on the text.
- MetadataText.WriteNode: words written for numbers, flags and expression elements are read back by tables, which are left out. Numbers in fields are unsigned.
- MetadataSlots.Slots.AssignNumbers: which of an instruction's operands are metadata, and what it is attached, are given. Nodes that print in place are taken not to be cyclic.
- Numbering.StableSortIsStable: the table of field ranks is a given function.
- BodyRoundTrip.ReadingUndoesWriting: an instruction is its name, whether it gives a value, its operands and whether it ends a block; the grammar of each opcode is left out. Names of one kind are distinct, blocks are not empty and end in their one terminator.
- BodyPrinter.PrintBlock: the comment that lists predecessors, debug records and use-list directives inside a body are left out.
- ConstantReading.ReadingRefines: pointers of sixty-four bits, and no walk by noughts from a scalar base to a scalable vector; both conditions are shown to be needed, and exact. Constants are built from the kinds the folds look at, with `Symbol` for the rest; strings, signed pointers, block addresses and metadata constants are left out.
- ConstantValues.Target: when a walk breaks the promises of its flags, what casts that are never folded do, and where symbols are, are parameters.
- ConstantFolding.Read: tokens and the error messages for ill-typed constants are left out; lane counts fit the machine.
- Layout.LayoutIsSound: sizes and offsets do not overflow; a named struct that holds itself by value is not a type of the model, and an opaque one is an error. The 32-bit clamp on vector widths and preferred alignments are left out.
- FloatNarrowing.NarrowingIsExact: for formats of 2 to 10 exponent bits and 1 to 51 mantissa bits, which half, bfloat and single are. Single narrows through the machine's conversion for finite values in the source, which this is not about. Shifts and masks are modelled on the fields they select.
- FloatWidening.HalfWidensExactly: the printer's steps are taken to be those of the reals, each being exact in binary64, and binary32 to binary64 likewise. A half NaN widens to a canonical NaN in the source, which is why NaNs are stated apart.
- FloatText.HexTextReadsBack: decimal text is left out; it rests on the library's conversions.
- Remangling.Module.RemangleIntrinsics: the canonical names are given, one for each declaration; working them out from types is left out. Calls are one list of callees.
- UseLists.AcceptedExactly: counting uses is left out, and constant data, which has no use list, is not checked by the source at all.
- TypeFinder.ReachableNamedStructs: what an instruction mentions, and in which order, is a list.
- MemoryEffects.SameFormExactly: the arguments come split at their commas and colons; an unknown location is dropped by the source and has no access of its own here.
- Lexing.Lexer.NextToken: names are bytes, with a given test for which are UTF-8; messages and places of errors, and the module identifier in the first comment, are left out. Numbers of thirty-two bits are checked where the source parses them.
- Remapping of symbols before parsing, the parser's grammar outside constants, the verifier, intrinsic and target tables, summary index and command line are lookups, plumbing or I/O.
- Ids and lines do not overflow thirty-two bits.
