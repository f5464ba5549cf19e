# f1x: the search and synthesis engine, and the JSON algorithms below it

f1x repairs a C program by trying candidate expressions at suspicious locations. One test run of one
candidate also decides about others: the generated "partition function" evaluates every candidate of
the location on the arguments of each call and keeps, in a shared array, those that agree with the
executed one; the search engine credits the verdict to all that are left. This project models that
engine, the synthesis of the candidates, and the RapidJSON algorithms f1x exchanges its files with,
and proves what each promises over all inputs and all runs.

## How it is organised

The repair tool, values and identifiers first:

- `Core`, `Expressions`: patch identifiers, expressions, operators and their texts.
- `Typing`: type correction. `Synthesis`, `Edits`: the enumeration of edits against an independent
  definition of "one edit", and what every edit keeps. `EnumerationOrder`: in which order edits are listed.
- `Dispatch`, `SearchSpace`, `Generation`, `Completeness`: the worklist that fills holes, the numbering of
  the candidates, the decoding of an identifier back to its expression, and what the search space
  offers, without its numbering. `SpaceOrder`: its order, which decides between patches of equal cost.
- `Semantics`, `Correction`, `Staging`, `Evaluation`: what expressions and operators mean, before and after correction,
  the C text that is emitted for them and what C makes of that text, and the two-switch evaluation
  against the concrete patch.
- `ArgumentLayout`, `LayoutAgreement`, `Loading`: the order of the arguments as computed by the tool
  that rewrites the program and by the tool that generates the runtime; reading the application file.
- `Partition`: one call of the partition function as a step machine over the array, and the three
  operations on the array as methods that refine it. `TestEquivalence`: whole test runs of a
  deterministic program that calls the partition function.
- `SearchEngine`: the caching search with its fields. `Prioritization`, `Repair`: costs, stable sort,
  and the main loop. `EndToEnd`: from the applications to delivered patches; `MissedRepair`: a repair
  that cannot be found.
- `Profiler`: which tests matter at which location. `WholeSuite`: what they say about all tests.

The JSON library:

- `JsonGrammar`, `JsonParsers`, `JsonReader`: both parsers as functions and as methods over a cursor, an
  event list, an error field and a stack, and their agreement. `JsonDocument`, `JsonRoundTrip`,
  `JsonAcceptance`: the writer, the document builder, the round trip, and the accepted language.
  `JsonErrors`, `JsonScanErrors`: what an error says about the tokens and bytes where it is reported.
- `JsonStrings`, `JsonEscapes`, `JsonLiterals`: string literals byte by byte, what `\u` escapes mean, and
  the literals against the grammar of section 2.5 of RFC 4627. `JsonNumbers`, `JsonLexing`,
  `JsonCharacters`: numbers against section 2.4, documents as bytes, and the two parsers on them.
  `JsonAscii`: the bytes of all of these as characters. `Encodings`, `JsonPointers`: UTF-8 and UTF-16
  (RFC 3629, RFC 2781) and JSON Pointers (RFC 6901).
- `BigNumbers`, `BigSubtraction`, `BigInteger`: numbers as digits, subtraction and shifts as coded, and
  the digit array, updated in place. `PoolAllocator`: the bump allocator.

## What the proofs found about the code

- Type correction into a Boolean context compares integers with zero by `==` (repair/Util.cpp:333), so it
  inverts their truth value: `Semantics.BooleanContextKeepsTruthIff` says exactly when it does, and
  `Correction.CorrectionMeans` what every corrected expression means.
- The output types of the two implicit casts are exchanged (repair/Typing.cpp:71-74); the `type` field of a
  cast node is used instead, as the rest of the code does. Two bitvectors have no common subtype
  (repair/Typing.cpp:152): `Typing.CorrectionIsTyped` gives the exact condition for success. A bitvector
  and any other type have one although the comment above (lines 147-151) does not place bitvectors: it is
  the other type (`Typing.CommonSubtypeIsGreatest`).
- The expression for the Boolean hole is evaluated before it is known to be needed, so the runtime can
  panic where the patched program would not: `Evaluation.StagedIsConcrete` is the exact condition. A
  plausible patch therefore always repairs the program (`EndToEnd.PlausibleIsReal`), and a patch that
  does is plausible exactly if that evaluation never crashes (`EndToEnd.PlausibleIff`); what is delivered
  is precisely those repairs (`EndToEnd.DeliveredAreUsable`). `MissedRepair.RepairIsMissed` is a repair
  that is not found.
- A test that is killed inside the second or a later call leaves a set of candidates that may be too
  large: `Partition.TornCallIsExactIff` and `TestEquivalence.TornRunIsExactIff` are the exact conditions
  for each step at which it may be killed, and `TestEquivalence.TornRunMayDiscreditPassing` is a killed
  run that credits a passing candidate with a timeout. `SearchEngine.SearchEngine.FindNext` still finds
  only plausible candidates, and the first one exactly if no killed test discredited it.
- When the failing tests since the last fresh start share no location any more, the next failing test
  starts the intersection afresh (repair/Profiler.cpp:178): `Profiler.KeptIsSharedIff` is the exact
  condition for the profile to be the shared locations, and `Profiler.SeededAgain` a sequence for which
  it is not. A patch at a location that is kept without being shared never passes the whole suite
  (`WholeSuite.PassesSuiteIff`).
- The result of the validation is not used when a single patch is generated (repair/Repair.cpp:327-330),
  and a negative limit on the number of patches is converted to a very large one; both are modelled as
  they are.
- Recursive and iterative parser differ in two cases only: in the error code for an input that starts
  with a token no value starts with, and in where they report a bracket that the handler refuses
  (`JsonParsers.ParsersAgreeIff`, `JsonParsers.OffsetsDiffer`).
- A string literal may not contain a leading surrogate without a trailing one, which the grammar allows
  (`JsonLiterals.LiteralIsExact`); a trailing one on its own is accepted, and then bytes that are no
  UTF-8 are delivered even with validation (`JsonEscapes.LoneTrail`, `JsonLiterals.MeaningIsUtf8Iff`).
- The difference of big integers loses a borrow that meets a digit with all bits set
  (thirdparty/rapidjson/internal/biginteger.h:199), and a shift by a multiple of the digit size moves the
  wrong digits (line 136): `BigSubtraction.DifferenceIsExactIff` and `BigSubtraction.TopMovedIsExactIff`
  are the exact conditions, `BorrowLost` and `DigitLost` inputs that show it. Nothing keeps the result of
  a difference from being one of the operands; `BigSubtraction.OutcomeIsExactIff` says when it is right
  then, `BigSubtraction.OperandReused` that it need not be.
- The capacity of a big integer is the number of its bits divided by the size of a digit in bytes (line
  280), eight times what that many bits need. The assertion of the shift (line 133) does not keep it
  inside the array: it admits one digit too many for a shift by bits, and for a shift by whole digits
  moves that end up to 414 digits past the last. `BigInteger.ShiftStaysInsideIff` is the exact condition,
  `BigInteger.ShiftOverruns` an input for either.

## Conventions

- Integers are mathematical, except where width is the point: words of big integers are taken modulo
  2^64, code units and bytes are bounded, and the limit on the number of patches is a signed 32-bit value
  compared as an unsigned 64-bit one. Disjoint bit fields that the code joins with `|` are added.
- The program under test is deterministic: what it does next is a function of the values it was handed.
  The contents of shared memory survive a killed test; one array entry is written at once.
- Which tests are killed, in which call and at which step, is a parameter of the search, and the results
  about it hold whatever is killed: only plausible patches and real repairs are delivered, in stable cost
  order, and a plausible patch is lost only if a killed test discredited it.
- The place of an error is the number of tokens before it; a bracket is one byte and white space is
  skipped before a token is looked at, so that places differ by as many bytes as tokens where they differ.
- An aborted run, by a panic or by reaching the limit on calls, never passes its test: `PlausibleIsReal`
  and what is built on it assume this of the test scripts (`EndToEnd.AbortsFail`).
- The related tests are any valid profile, except in `WholeSuite`, where they are those the profiler
  keeps.
- A hash map may deliver its entries in any order: `SetPartition` returns the order it chose as a ghost
  result, and nothing depends on which one it was.
- An assertion or exception of the code is `None`, an error value, or a precondition if it is a demand on
  the caller.

## Model

| member | source | states |
|---|---|---|
| Expressions.DecimalRoundTrip | repair/Util.cpp:250-257 | The text of a constant reads back as its number and has no leading zero, so different numbers have different texts |
| Expressions.BinaryTextRoundTrip | repair/Util.cpp:110-157 | The text of a binary operator, with whether its result is a pointer, determines the operator |
| Expressions.PrefixTextRoundTrip | repair/Util.cpp:159-235 | The text before an operand determines the unary operator or cast |
| Typing.TopNodeIsTyped | repair/Typing.cpp:166-209 | Correcting a well-typed node gives a well-typed node whose type is the one the context asks for, or its own in the context ANY |
| Typing.CorrectionIsTyped | repair/Typing.cpp:211-249 | Correction succeeds exactly if no comparison for equality has two bitvectors and pointer arithmetic is on pointers; then the whole result is well typed and has the type the context asks for |
| Typing.OperandContextExists | repair/Typing.cpp:152-164 | The operands of a comparison or homogeneous operator have a common context unless two bitvectors are compared for equality, and that context is never ANY |
| Typing.CommonSubtypeIsGreatest | repair/Typing.cpp:147-164 | There is a common subtype except of two bitvectors; it is below both types in an order defined on its own, pointer below Boolean below integer below any, and every type below both is below it |
| Typing.OperandsAreOfType | repair/Typing.cpp:90-164 | After correction the operands of each operator have the type of its family; those of a comparison for equality are pointers exactly if one of them was, and otherwise Booleans exactly if one was |
| Typing.ReaderResultTypes | repair/Typing.cpp:23-88 | The type of an operator node as read: Boolean, integer, bitvector or pointer for precisely the operators of that family |
| Typing.PointerCastsAreWritten | repair/Typing.cpp:166-209 | A conversion that correction inserts is printed as a cast exactly if it is from or to a pointer, and prints nothing otherwise |
| Correction.CorrectionKeepsMeaning | repair/Typing.cpp:211-249 | In particular, where no comparison with zero is inserted the corrected expression has the value of the original, or its truth value for a pointer used as a condition, and crashes exactly when the original does |
| Correction.CorrectionMeans | repair/Typing.cpp:211-249 | Whatever the expression and context, the corrected expression has the value, and the crash, of the original read with every integer condition inverted and every pointer condition as its truth, at every node |
| Correction.TopNodeMeans | repair/Typing.cpp:166-209 | For one corrected node: casts between types of the same width and comparisons with NULL do not change what the node means |
| Semantics.BooleanContextKeepsTruthIff | repair/Util.cpp:325-335 | An expression corrected for a Boolean context keeps its truth value exactly if no comparison with zero is inserted |
| Semantics.ComparisonMeans | repair/Util.cpp:172-185 | A comparison holds for just those outcomes, less, greater or equal, that its text names, and `!=` for all but equal |
| Semantics.OperatorText | repair/Util.cpp:186-203 | Each text of an arithmetic or logical operator belongs to that operator alone, or to the arithmetic, the pointer and the unary one |
| Semantics.DivisionMeans | repair/Synthesis.cpp:667-677 | Quotient and remainder of two integers are the only pair that truncates toward zero |
| Semantics.ConnectivesMean | repair/Synthesis.cpp:693-695 | Exactly when a conjunction is true, false or crashes, given its operands, and that disjunction and negation are its dual |
| Semantics.CrashHasCause | repair/Synthesis.cpp:657-690 | An expression crashes only because of a node in it: a member of NULL, a division by zero, a hole whose expression crashed, or a node without meaning |
| Synthesis.EnumerationIsExact | repair/Synthesis.cpp:275-376 | On a well-typed expression the enumeration succeeds, and lists precisely the expressions that differ from it by one admissible edit at one place, the base of pointer arithmetic excepted, each with the rule and the distance of that edit |
| Synthesis.DepthIsHeaviestPath | repair/Synthesis.cpp:158-194 | The depth of an expression is the weight of its heaviest path from the root to a leaf: a leaf counts 1, a hole 2, a cast nothing and any other operator 1 |
| EnumerationOrder.EnumeratedInOrder | repair/Synthesis.cpp:275-376 | Edits are listed by a key read off their place and sort, in the order of dictionaries, each key that has an edit once: the hole, the replacements of a leaf by component, the other operators, edits of the left and then the right operand, casts, and operands in the place of the whole |
| EnumerationOrder.ModificationsInOrder | repair/Synthesis.cpp:378-413 | The same for the modifications of every schema: loosening and then tightening come behind all edits, the other constant before the hole |
| EnumerationOrder.OrderIsUnique | repair/Synthesis.cpp:378-413 | Only one list is in that order and has a modification for each key |
| Synthesis.OperatorsAreInterchangeable | repair/Synthesis.cpp:87-156 | The operators tried for a node are precisely the others of its family (comparisons, logical, arithmetic without division, bitwise, shifts; equality or offsets on pointers) |
| Synthesis.LeafListed | repair/Synthesis.cpp:283-317 | A leaf is replaced by precisely the components of its type and, for pointers, of its pointee type, and by the parameter or NULL, with the rule that names the change |
| Edits.EditIsTyped | repair/Synthesis.cpp:275-376 | Every edit of a well-typed expression is well typed and has the type of the original, so pointers and integers are never confused |
| Edits.EditHasOneHole | repair/Synthesis.cpp:275-376 | Every edit of a concrete expression has at most one hole |
| Edits.EditIsCompilable | repair/Synthesis.cpp:275-376 | Every edit of an expression the runtime can evaluate can be evaluated: its names are components, its offsets are on complete types |
| Edits.Bool2IsExact | repair/Synthesis.cpp:232-269 | The expressions for the Boolean hole are precisely the comparisons of a component with NULL, the parameter, or a component of its sort |
| SpaceOrder.Bool2InOrder | repair/Synthesis.cpp:232-269 | They are listed by left component, then by right operand, NULL or the parameter before the components, then by operator, each once |
| Edits.Bool2IsWellFormed | repair/Synthesis.cpp:232-269 | Each of them is a well-typed Boolean expression the runtime can evaluate, whose only possible hole is the parameter |
| Dispatch.SubstituteNodeOfKind | repair/Synthesis.cpp:639-652 | The in-place substitution changes the first node of the kind in preorder and no other, and reports whether there was one |
| Dispatch.SubstituteFinds | repair/Synthesis.cpp:627-652 | A substitution takes place exactly if there is a node of the kind |
| Dispatch.FillCounts | repair/Synthesis.cpp:639-652 | A substitution trades exactly one hole for the holes of what it puts in |
| Dispatch.DeliverPushed | repair/Synthesis.cpp:757-782 | Whatever is on the stack below, popping a candidate delivers precisely its instances before the rest |
| Dispatch.PushBool2 | repair/Synthesis.cpp:763-770 | Pushes one candidate for each Boolean expression, in order, on top of what is there |
| Dispatch.FillParameter | repair/Synthesis.cpp:771-778 | Delivers one instance for each parameter from 0 up to and including the bound |
| Dispatch.FillHoles | repair/Synthesis.cpp:757-782 | The worklist terminates, and delivers the instances of a base modification that the recursive definition lists, in that order |
| SearchSpace.BasesAreWellFormed | repair/Synthesis.cpp:378-413 | For a corrected application neither enumeration throws, and every base modification is evaluable with at most one hole |
| SearchSpace.CandidateDispatch | repair/Synthesis.cpp:709-788 | One application gets consecutive base numbers, its patches, and for both switches one case per expression holding the code emitted for it |
| SearchSpace.FillBases | repair/Synthesis.cpp:745-785 | The patches of all base modifications follow each other, each modification under its own base number |
| SearchSpace.EmissionSucceeds | repair/Synthesis.cpp:654-700 | Code is emitted for every evaluable expression whatever the layout |
| SearchSpace.FilledBool2 | repair/Synthesis.cpp:763-770 | Filling the Boolean hole leaves no Boolean hole, and no hole at all but the parameter of what was filled in |
| SearchSpace.InstancesDecode | repair/Synthesis.cpp:757-782 | The instances of a base modification are precisely the pairs of an identifier and the expression it decodes to, and no identifier occurs twice |
| Generation.PatchesDecode | repair/Synthesis.cpp:709-788 | The patches of an application are precisely what identifiers decode to, each once |
| Generation.SpaceDecodes | repair/Synthesis.cpp:790-883 | Over all applications: a patch is in the search space exactly if its identifier decodes to it; identifiers are pairwise distinct and their base is never 0 |
| SpaceOrder.SpaceInOrder | repair/Synthesis.cpp:709-788 | The search space is listed by modification, then from the last Boolean expression to the first, then from the smallest parameter up; this decides between patches of equal cost |
| SpaceOrder.BasesAreConsecutive | repair/Synthesis.cpp:745-785 | The modifications of all applications are numbered from 1 without gaps, each once |
| Generation.SpaceIsWellNumbered | repair/Synthesis.cpp:806-849 | Identifiers are unique across applications and none is a terminator, as the search needs it |
| Generation.GenerateSearchSpace | repair/Synthesis.cpp:888-925 | The generated list is that search space, and every application gets the switches for it |
| Completeness.ModificationsAreExact | repair/Synthesis.cpp:378-413 | For every schema the base modifications are precisely the edits, extensions or guards that it stands for |
| Completeness.PatchesAreCandidates | repair/Synthesis.cpp:709-788 | The patches of an application are, up to their numbers, precisely its modifications with every Boolean and every parameter hole filled in every way |
| Completeness.SpaceIsExact | repair/Synthesis.cpp:888-925 | The search space offers an expression for an application at a rule and distance exactly if it is such a filled modification of a listed application |
| Completeness.ConstantIsOffered | repair/Synthesis.cpp:717-722 | For a modification with a parameter hole a constant is offered exactly if it is at most the bound for conditions, in a condition, or the bound for expressions, elsewhere |
| Staging.EmittedCodeIsFaithful | repair/Synthesis.cpp:423-433 | The text emitted for an expression, read as C, panics exactly if the expression divides by zero or dereferences NULL where it is evaluated, and otherwise has its value |
| Staging.InfixMatches | repair/Synthesis.cpp:693-695 | A panic in an operand is not lost when execution goes on with 0 in its place, unless C does not evaluate that operand |
| Staging.DivisionIsFaithful | repair/Synthesis.cpp:667-677 | A guarded division panics exactly if its denominator is zero or an operand panics |
| Staging.OffsetIsFaithful | repair/Synthesis.cpp:657-666 | The offset computed on integers is the pointer arithmetic of the expression |
| Evaluation.FillIsFilling | repair/Synthesis.cpp:639-652 | Substituting for the only hole and then evaluating is evaluating with that hole holding the value of the substitute |
| Evaluation.ModifiedMeansFilled | repair/Synthesis.cpp:744-782 | A concrete patch has the value of its base modification with the holes filled as its identifier says |
| Evaluation.Bool2SwitchIsFaithful | repair/Synthesis.cpp:726-738 | The first switch computes the chosen Boolean expression, panicking exactly if that crashes, and leaves the register alone if none is chosen |
| Evaluation.StagedIsConcrete | repair/Synthesis.cpp:709-788 | For every generated identifier the two switches panic exactly if the concrete patch crashes or the Boolean expression chosen for it does, and otherwise yield the value of the concrete patch, whatever the registers held before |
| Evaluation.PatchIsConcrete | repair/Synthesis.cpp:709-788 | No abstract node is left in a patch, it is evaluable, and one of the expression schema is well typed with the type of the original |
| ArgumentLayout.CollectComponents | transform/TransformUtil.cpp:813-846 | The components are, in order, those at the places of expression and visible components where a text appears for the first time; the expression comes first |
| ArgumentLayout.FirstOccurrences | transform/TransformUtil.cpp:823-843 | De-duplication keeps every text, keeps it once, and invents no component |
| ArgumentLayout.FirstOccurrencesAreInOrder | transform/TransformUtil.cpp:823-843 | What is kept stands at increasing places, and these are exactly the places of first appearance of a text |
| ArgumentLayout.NamesAreSorted | transform/TransformUtil.cpp:894-898 | The lists of types and names are in the order of dictionaries |
| ArgumentLayout.LeIsLexicographic | transform/TransformUtil.cpp:894-898 | In that order the first difference decides, and a prefix comes first |
| ArgumentLayout.ScanAll | transform/TransformUtil.cpp:856-892 | After the scan each list and map holds what its definition selects from the components |
| ArgumentLayout.ListsSelect | transform/TransformUtil.cpp:856-892 | A type gets an array exactly if a component that is no pointer has it, a size exactly if a pointer to it is complete, and a text gets a flag exactly if a dereference has it |
| ArgumentLayout.ArraysSelect | transform/TransformUtil.cpp:856-892 | The array of pointers, and that of each type, holds precisely the components it is for, in their order |
| ArgumentLayout.BaseIsFirst | transform/TransformUtil.cpp:856-892 | The base of a dereference is that of the first component with its text |
| ArgumentLayout.MakeArgumentList | transform/TransformUtil.cpp:853-979 | The arrays written are, in order: one per integer type, pointers and sizes, null flags |
| LayoutAgreement.SlotTextIsInjective | repair/Synthesis.cpp:567-578 | The text of an array access determines the array and the index |
| LayoutAgreement.SameArity | repair/Synthesis.cpp:487-535 | The generated function has as many parameters as the call has arguments |
| LayoutAgreement.SameLists | repair/Synthesis.cpp:538-565 | From the components it read, the repair tool computes the same types, values, pointers and dereferences, in the same order, as the transformation tool |
| LayoutAgreement.RenamingIsCorrect | repair/Synthesis.cpp:538-581 | The renaming sends every component to the array of its type and to its own position in it |
| LayoutAgreement.SlotsAreDistinct | repair/Synthesis.cpp:567-578 | No two components share a slot |
| LayoutAgreement.SlotValue | transform/TransformUtil.cpp:899-945 | The slot of a component holds its value, or 0 for a dereference whose base is NULL |
| LayoutAgreement.SizeValue | repair/Synthesis.cpp:583-591 | The size slot of a complete pointee type holds the size of that type |
| LayoutAgreement.FlagValue | repair/Synthesis.cpp:593-612 | The flag looked up for a dereference is set exactly if its base is NULL |
| LayoutAgreement.LayoutsAgree | repair/Synthesis.cpp:487-612 | Whatever the components, every name, size and flag the emitted code uses is where the call put it |
| Loading.ConvertedIsFromReader | repair/Util.cpp:400-436 | What is read has the shape type correction expects, and prints as it was written |
| Loading.WrittenIsRead | repair/Util.cpp:400-436 | A component written by one tool is read as the same component by the other |
| Loading.ExpressionIsRead | repair/Util.cpp:400-436 | Every expression as the other tool writes it, with the words for its kinds, is read back as it was |
| Loading.LoadComponents | repair/Util.cpp:470-485 | Components are read in order, with the sorted list of the complete types they point to, as the other tool computes it |
| Loading.CorrectionKeepsReady | repair/Repair.cpp:237-245 | Correction introduces no hole and nothing the runtime could not evaluate |
| Loading.LoadedIsWellFormed | repair/Repair.cpp:234-245 | An application that was read and whose correction succeeds meets everything the generation needs; a condition has become Boolean, any other expression has kept its type |
| Partition.RunKeepsInvariant | repair/Synthesis.cpp:845-872 | At every step of a call: the output part holds the agreeing candidates among those compared, in order; entries not yet read are untouched |
| Partition.CallStaysInBounds | repair/Synthesis.cpp:851-867 | At every step both cursors are inside the array, the output cursor never overtakes the input cursor, and unread entries are as before the call |
| Partition.CallReturns | repair/Synthesis.cpp:845-872 | Every call returns within two steps per entry and two more |
| Partition.TornCall | repair/Synthesis.cpp:851-872 | Killed at any step: reading back gives the agreeing set after the return; before it, the empty set in the first call, and in a later one a set between those that still agree and those that agreed before |
| Partition.CallProgress | repair/Synthesis.cpp:851-872 | After any number of steps, which entry is being read and whether the call has returned: it returns with step two per entry and two more, no earlier |
| Partition.TornCallReadsBack | repair/Runtime.cpp:64-80 | What is read back from a later call killed after any number of steps: the agreeing candidates and, before the return, every entry not yet overwritten |
| Partition.TornCallIsExactIff | repair/Synthesis.cpp:851-872 | A later call killed after any number of steps, before it returns, leaves precisely the agreeing candidates exactly if all entries it had not overwritten at that step agree |
| Partition.Runtime.SetPartition | repair/Runtime.cpp:54-62 | Each candidate is laid out once, in some order, with the input terminator behind them; the rest of the array is unchanged |
| Partition.Runtime.GetPartition | repair/Runtime.cpp:64-80 | Delivers the candidates before the output terminator, or none if the input terminator comes first |
| Partition.Runtime.PartitionFunction | repair/Synthesis.cpp:834-880 | Returns the outcome of the executed candidate; the array then lists the agreeing candidates in their old order behind an output terminator, nothing beyond is changed, and it is what the step machine ends with |
| Partition.Runtime.PartitionFunctionUntil | repair/Synthesis.cpp:845-872 | Cut off after any number of steps, the in-place code leaves the array of the step machine after that many steps |
| Partition.ReadBackOf | repair/Runtime.cpp:64-80 | What is read back from an array that lists candidates depends on which terminator closes it |
| TestEquivalence.TestEquivalenceIsExact | repair/Synthesis.cpp:841-880 | Two candidates agree on the arguments of every call one of them makes exactly if their whole runs are the same: the same calls, values, panics and verdict |
| TestEquivalence.SurvivorsAreCredited | repair/Synthesis.cpp:851-872 | What is left in the array after a run that reached the location is precisely the candidates whose run is the same |
| TestEquivalence.ExecutedIsCredited | repair/SearchEngine.cpp:170-176 | The executed candidate is among them exactly if its location was run |
| TestEquivalence.CreditIsSound | repair/SearchEngine.cpp:190-197 | Every credited candidate would have earned the same verdict with the same calls |
| TestEquivalence.TornRunIsBetween | repair/SearchEngine.cpp:143-170 | A test killed at any step of any call leaves a set between the survivors of the calls up to and including that one and those of the calls before it, or nothing if that was its first call |
| TestEquivalence.TornRunLeaves | repair/SearchEngine.cpp:143-170 | A candidate is left by a killed test exactly if it agrees on all earlier calls and also agrees on the torn one or was not overwritten in it, unless the first call had not returned |
| TestEquivalence.TornRunIsExactIff | repair/SearchEngine.cpp:143-170 | A test killed in a later call leaves precisely the survivors of that call exactly if the entries not overwritten at that step agree on it |
| TestEquivalence.ReadBackIsLearnt | repair/Runtime.cpp:64-80 | What is read back after a test, complete or killed at any step of any call, is the set those results describe |
| TestEquivalence.TornRunMayDiscreditPassing | repair/SearchEngine.cpp:194-197 | There is a program such that a test killed at any step inside its second call is observed as a timeout and leaves, to be credited with it, a candidate that passes the test |
| TestEquivalence.ExecuteTest | repair/SearchEngine.cpp:143 | Running the program, killed at a given step of a given call or not at all, yields the timeout or the verdict of the run, and leaves in the array the candidates that agree on all complete calls, or what the torn call made of them |
| TestEquivalence.ExecutePartitioned | repair/SearchEngine.cpp:134-170 | Laying out, running and reading back yields that verdict and precisely the set described, for whatever kill and order of the layout |
| TestEquivalence.ReadBackIsCredited | repair/Runtime.cpp:64-80 | What is read back after a complete run is the credited set |
| SearchEngine.GetPartitionable | repair/Repair.cpp:66-77 | Every application is mapped to precisely the identifiers of its candidates |
| SearchEngine.SearchEngine.constructor | repair/SearchEngine.cpp:42-71 | An engine starts with empty caches, which are sound |
| SearchEngine.SearchEngine.PrioritizeTest | repair/SearchEngine.cpp:93-98 | The chosen test moves to the front, the others keep their order, and no test is lost or added |
| SearchEngine.SearchEngine.Execute | repair/SearchEngine.cpp:130-170 | The verdict is that of the candidate's own run, or a timeout if the test was killed, the set read back is what that run leaves, and the execution is counted once, as a timeout or not |
| SearchEngine.SearchEngine.ExecuteAndCredit | repair/SearchEngine.cpp:130-198 | One execution is added, it passes exactly if the candidate does and was not killed, and it is entered into the caches, which stay sound and free of repetition |
| SearchEngine.SearchEngine.PassKeepsCaches | repair/SearchEngine.cpp:190-192 | Crediting a passed test to the whole class keeps every cached verdict one the candidate would earn |
| SearchEngine.SearchEngine.FailKeepsCaches | repair/SearchEngine.cpp:194-197 | Crediting a failure to the whole class keeps every candidate marked as failing one that fails a related test, or that a killed test discredited |
| SearchEngine.SearchEngine.CreditKeepsClasses | repair/SearchEngine.cpp:190-197 | An execution outside the caches is of a candidate that no execution on that test was credited to, killed or not |
| SearchEngine.SearchEngine.CreditedVerdicts | repair/SearchEngine.cpp:170-197 | All members of the class credited by a test that was not killed belong to the application and have the verdict of the executed one |
| SearchEngine.SearchEngine.PassesTest | repair/SearchEngine.cpp:130-198 | Cached or executed, a pass is one the candidate earns itself; a failure is its own, or that of a killed test |
| SearchEngine.SearchEngine.RunUntilFailure | repair/SearchEngine.cpp:127-206 | Delivers the position of the first test that the candidate fails, or of one that was killed |
| SearchEngine.SearchEngine.TryPatch | repair/SearchEngine.cpp:123-210 | Whatever the test order has become, yes means that the candidate passes all its related tests; no, that it does not, or that a killed test discredited it; with the option for it the test that failed now stands first and the others keep their order, and otherwise no order changes |
| SearchEngine.SearchEngine.FindNext | repair/SearchEngine.cpp:101-214 | Whatever tests are killed, the index found is plausible, and every candidate passed over is implausible or discredited by a killed test; it is that of the naive search exactly if the first plausible candidate was not discredited, so always if none was killed; with caching no candidate is executed twice on one test |
| SearchEngine.SearchEngine.SearchedIsFirst | repair/SearchEngine.cpp:101-214 | A search that returns a plausible candidate and passes over none but implausible or discredited ones finds the first plausible one exactly if that is not discredited |
| SearchEngine.FirstPlausible | repair/SearchEngine.cpp:101-214 | The naive search: a plausible candidate, or the size, with none plausible before it |
| SearchEngine.MoveToFront | repair/SearchEngine.cpp:93-98 | Erasing an element and inserting it at the front is a permutation |
| Prioritization.CostIsLexicographic | repair/Prioritization.cpp:22-61 | Costs compare as pairs: the distance decides, and for equal distances the tier of the rule |
| Prioritization.ComputeCosts | repair/Repair.cpp:275-278 | The table, keyed by identifier, gives every patch its own cost |
| Prioritization.Prioritize | repair/Repair.cpp:56-63 | The result lists every patch once, by cost, patches of equal cost in the order they were generated |
| Prioritization.StableSortIsUnique | repair/Repair.cpp:56-63 | Being a stable sort by cost determines the resulting list |
| Repair.Record | repair/Repair.cpp:331-342 | The sets of locations with one and with more than one fix are those of the patches collected |
| Repair.NextPlausible | repair/Repair.cpp:301-311 | Whatever tests are killed, one round finds the next plausible patch to record, and passes over none but those that a killed test discredited |
| Repair.CollectPlausible | repair/Repair.cpp:294-346 | Whatever tests are killed, the loop collects the first, or up to the limit the first ones, of the plausible patches that are not lost, in order; the limit is given as a number, with 2^64 less for a negative one and none for 0; only patches that a killed test discredited are lost, so none if no test is killed |
| Repair.RecordedIsCollected | repair/Repair.cpp:294-346 | What was recorded is what a naive search collects that passes over a set of lost patches, each of which a killed test discredited |
| Repair.SortedIsWellNumbered | repair/Repair.cpp:281-292 | Sorting keeps the patches, their numbering and the candidates of every application |
| Repair.RepairProgram | repair/Repair.cpp:275-370 | From the generated space and whatever tests are killed: the stably sorted space, precisely what is to be delivered of the plausible patches that are not lost, only patches lost that a killed test discredited, and success exactly if something is delivered |
| Repair.CollectedIsRanked | repair/Repair.cpp:275-346 | What is collected from the sorted space is, in the generated one, the wanted patches by cost and among equals as generated, none left out before one that is not, and as many as the mode and the limit ask for |
| Repair.DeliveredIsRanked | repair/Repair.cpp:294-370 | What is delivered is such a list, filtered by validation only when all patches are generated |
| Repair.SinglePatchIsOptimal | repair/Repair.cpp:326-333 | In single-patch mode nothing is delivered exactly if no patch is wanted; otherwise one wanted patch of least cost, the earliest generated among those |
| Repair.AllPatchesAreExact | repair/Repair.cpp:298-346 | In all-patches mode the wanted patches are delivered in stable cost order, each once: as many as the smaller of their number and the limit for a positive limit, all for 0, and for a negative one all as long as they are fewer than 2^64 less its absolute value; none left out comes before a delivered one |
| Repair.ValidatedKeepsOrder | repair/Repair.cpp:348-357 | Validation of all patches drops those that are not valid and nothing else, and keeps the order |
| Repair.FirstAreCheapest | repair/Repair.cpp:306-309 | Stopping early leaves out only patches that come later in the stable order |
| EndToEnd.OutcomesRelate | repair/Synthesis.cpp:709-880 | One evaluation: if the partition function does not panic its value is that of the patched program; it panics exactly if the patched program crashes there or the eager Boolean expression does |
| EndToEnd.RunsRelate | repair/Synthesis.cpp:841-880 | A whole run that passes under the generated runtime is the run of the patched program |
| EndToEnd.SameRunWithoutEagerCrash | repair/Synthesis.cpp:724-780 | Where the eager expression never crashes, both runs are the same, passing or not |
| EndToEnd.StagedPassesIff | repair/Synthesis.cpp:709-880 | A run under the generated runtime passes exactly if the run of the patched program does and on none of its calls the chosen Boolean expression crashes |
| EndToEnd.PlausibleIsReal | repair/Repair.cpp:300-346 | A patch that is plausible under the generated runtime passes all related tests when applied to the program |
| EndToEnd.PlausibleIff | repair/Repair.cpp:300-346 | A patch is plausible under the generated runtime exactly if it passes its related tests when applied to the program and its chosen Boolean expression crashes on none of their calls |
| EndToEnd.DeliveredAreUsable | repair/Repair.cpp:275-370 | What is delivered is precisely such patches of the generated space, but for the lost ones, by cost and among equals as generated: the first, all, or as many as the limit asks for |
| MissedRepair.RepairIsMissed | repair/Synthesis.cpp:726-738 | A program, a runtime generated for it, and a patch in its search space that repairs the program but is not plausible, because the comparison reads p->x where p is NULL |
| EndToEnd.GenerateAndRepair | repair/Repair.cpp:247-370 | Generation, sorting and search together deliver, whatever tests are killed, only patches of the search space that repair the program: precisely the repairs that never crash eagerly and are not lost, in stable cost order, one, all or up to the limit; only patches that a killed test discredited are lost, so none if no test is killed |
| Profiler.LocToStringIsInjective | repair/Profiler.cpp:39-47 | Two locations have the same text exactly if they are the same |
| Profiler.Profiler.constructor | repair/Profiler.cpp:149-199 | A profiler that has merged nothing |
| Profiler.Profiler.MergeTrace | repair/Profiler.cpp:149-199 | The two fields, updated and erased in place, hold what the traces merged so far determine |
| Profiler.Profiler.RecordTrace | repair/Profiler.cpp:155-172 | Each line adds the test to the list of its location once, failing tests in front, passing ones behind |
| Profiler.Profiler.GetProfile | repair/Profiler.cpp:201-220 | The profile is the locations of interest, and only their lists are kept |
| Profiler.Intersect | repair/Profiler.cpp:181-196 | The locations of interest that the test covers too |
| Profiler.Erase | repair/Profiler.cpp:188-195 | Erasing by text erases precisely the locations not listed |
| Profiler.ListAt | repair/Profiler.cpp:155-171 | While all failing tests cover a location its list is the failing tests, latest first, then the passing tests that cover it, in order |
| Profiler.ProfileIsExact | repair/Profiler.cpp:149-220 | If the failing tests share a location, precisely the shared locations are kept, each with that list, in which no test occurs twice |
| Profiler.SinceCut | repair/Profiler.cpp:177-196 | From where no location is of interest, and while later failing tests share one, the locations of interest are those that later failing tests share |
| Profiler.CutEmpties | repair/Profiler.cpp:177-196 | At the end of a stretch whose failing tests cease to share a location, none is of interest and none is shared by all |
| Profiler.LastCut | repair/Profiler.cpp:177-196 | Every sequence of traces falls into such stretches and a rest whose failing tests share a location |
| Profiler.KeptIsSharedIff | repair/Profiler.cpp:177-196 | The kept locations are those that all failing tests share, except exactly if the traces begin with one or more stretches, each ending where its failing tests cease to share a location, and all failing tests of the rest share one |
| Profiler.SeededAgain | repair/Profiler.cpp:178-179 | Three failing tests on three lines keep the third line though no two share one |
| Profiler.InterestingIsRelated | repair/Profiler.cpp:188-213 | A location of interest still has its list, whatever was erased on the way |
| Profiler.NothingOfInterestIff | repair/Profiler.cpp:177-179 | No location is of interest exactly if no test has failed since some end of such a stretch |
| Profiler.ForgottenIsLast | repair/Profiler.cpp:187-195 | What is forgotten at a location ends with the last failing test that does not cover it and comes when something was of interest |
| Profiler.ListSince | repair/Profiler.cpp:155-195 | At every location, whatever was erased or seeded again, the list is the tests that cover it among those not forgotten: failing ones, the latest first, then passing ones in order |
| Profiler.KeptListIsExact | repair/Profiler.cpp:149-220 | Seeded again or not, every kept location lists just those tests, each once |
| WholeSuite.PassesSuiteIff | repair/SearchEngine.cpp:125-127 | With the profile of the traces, a patch at a kept location passes the whole test suite exactly if it passes its related tests and all failing tests share the location |
| JsonGrammar.TransitKeeps | thirdparty/rapidjson/reader.h:1649-1798 | Every successful transition consumes one token and leaves a stack that fits its state |
| JsonParsers.ParsersAgreeIff | thirdparty/rapidjson/reader.h:1822-1854 | For all tokens, flags and handlers both parsers deliver the same events, counts, error and place of the error, except exactly when the first token starts no value, then they deliver no event and differ in the error, or when the handler refuses a bracket that closes behind no comma, or an opening one, then only the place differs: before the bracket and behind it |
| JsonParsers.OffsetsDiffer | thirdparty/rapidjson/reader.h:1673-1676 | A handler that refuses the opening bracket of an array: one parser reports it behind the bracket, the other before it |
| JsonParsers.ValueRuns | thirdparty/rapidjson/reader.h:1482-1798 | From a state that expects a value, the pushdown run consumes what the recursive parser consumes, with its events, and goes on in the state behind the value with the stack as before |
| JsonParsers.ObjectRuns | thirdparty/rapidjson/reader.h:589-654 | For an object the pushdown run pushes and pops one frame, sends the events of the recursive parser, and counts the members that one counts |
| JsonParsers.ArrayRuns | thirdparty/rapidjson/reader.h:657-702 | For an array the pushdown run pushes and pops one frame, sends the events of the recursive parser, and counts the elements that one counts |
| JsonParsers.TrailingCommaRuns | thirdparty/rapidjson/reader.h:644-651 | Where trailing commas are allowed the iterative parser closes after one as the recursive parser does |
| JsonReader.Reader.ParseValue | thirdparty/rapidjson/reader.h:1389-1404 | Cursor, events and error afterwards are those of the grammar function for a value |
| JsonReader.Reader.ParseObject | thirdparty/rapidjson/reader.h:588-653 | Cursor, events and error after an object are those of the grammar function for an object |
| JsonReader.Reader.ParseMembers | thirdparty/rapidjson/reader.h:605-653 | The loop over members refines the recursive definition, with its count |
| JsonReader.Reader.ParseArray | thirdparty/rapidjson/reader.h:656-702 | Cursor, events and error after an array are those of the grammar function for an array |
| JsonReader.Reader.ParseElements | thirdparty/rapidjson/reader.h:673-701 | The loop over elements refines the recursive definition, with its count |
| JsonReader.Reader.ParseRecursively | thirdparty/rapidjson/reader.h:485-516 | The recursive parser delivers the events and the error of its specification |
| JsonReader.Reader.Transit | thirdparty/rapidjson/reader.h:1649-1798 | State, stack, cursor, events and error afterwards are those of one step of the machine |
| JsonReader.Reader.Open | thirdparty/rapidjson/reader.h:1656-1681 | Opening pushes a count and the state to return to |
| JsonReader.Reader.Close | thirdparty/rapidjson/reader.h:1718-1776 | Closing pops both, with the last member or element counted |
| JsonReader.Reader.HandleError | thirdparty/rapidjson/reader.h:1800-1819 | An error set before is kept, otherwise the state decides |
| JsonReader.Reader.ParseIteratively | thirdparty/rapidjson/reader.h:1822-1854 | The iterative parser delivers the events and the error of its specification |
| JsonReader.ParseDocument | thirdparty/rapidjson/reader.h:485-516 | The flag chooses between the two; events, error and its place are those of the chosen one |
| JsonAcceptance.ParsedIsText | thirdparty/rapidjson/reader.h:588-702 | What parses as a value is a text of a value, with trailing commas only where they are allowed and something precedes them, and sends the events of that value |
| JsonAcceptance.AcceptedIffText | thirdparty/rapidjson/reader.h:485-516 | On tokens, with and without trailing commas, each parser accepts precisely the texts of JSON values (section 2 of RFC 4627) that the flag allows, and a text belongs to one value only |
| JsonErrors.ErrorsAreExplained | thirdparty/rapidjson/reader.h:588-702 | Every error of the recursive parser names what is missing where it is reported, given the innermost open bracket and the tokens on either side, or the scalar there cannot be read, or the handler has refused the event that the token there sent |
| JsonAcceptance.StrictTextIsPrinted | thirdparty/rapidjson/reader.h:485-516 | Without trailing commas an accepted text is what the writer prints for its value |
| JsonAcceptance.EventsDetermine | thirdparty/rapidjson/document.h:1768-1805 | Different values send different events |
| JsonDocument.Writer.Prefix | thirdparty/rapidjson/writer.h:437-463 | A comma or colon is written as the number of values on the level decides, and the level counts one more |
| JsonDocument.Writer.Handle | thirdparty/rapidjson/writer.h:172-237 | Output, level stack and root flag after an event are those of the specification |
| JsonDocument.ValueWrites | thirdparty/rapidjson/writer.h:172-237 | The events of a value never violate an assertion of the writer, and append the text of the value, closing every level they open |
| JsonDocument.AcceptBy | thirdparty/rapidjson/document.h:1768-1805 | Traversing a value drives the writer through precisely its events |
| JsonDocument.Document.Handle | thirdparty/rapidjson/document.h:2333-2374 | One event changes the value stack as specified: a closing event replaces the values it counts by one container |
| JsonDocument.ValueBuilds | thirdparty/rapidjson/document.h:2333-2374 | The events of a value push precisely that value, whatever is below it on the stack |
| JsonRoundTrip.TextParses | thirdparty/rapidjson/reader.h:588-702 | Where a text of a value stands, with trailing commas as the flag allows, the parser consumes it, no more, and sends the events of the value |
| JsonRoundTrip.TextIsAccepted | thirdparty/rapidjson/reader.h:485-516 | Both parsers accept every text that the flags allow, with the events of its value |
| JsonRoundTrip.PlainIsPrinted | thirdparty/rapidjson/writer.h:172-237 | What the writer prints for a value is a text of that value under either flag |
| JsonRoundTrip.WriteThenRead | thirdparty/rapidjson/document.h:1768-1805 | Writing a value, parsing the text with either parser and building a document gives the value back |
| JsonStrings.WriteString | thirdparty/rapidjson/writer.h:345-417 | The bytes put are the literal the byte-by-byte definition describes |
| JsonStrings.ParseHex4 | thirdparty/rapidjson/reader.h:754-774 | Four digits give their value, below 65536; fewer give an error |
| JsonEscapes.UnicodeIsExact | thirdparty/rapidjson/reader.h:867-882 | An escape is accepted, and delivers text and position, exactly if it and what follows are the UTF-16 escapes of that scalar value, whose UTF-8 is delivered, or a trailing surrogate on its own; otherwise the error is a missing digit exactly if a digit is missing, else a broken pair |
| JsonEscapes.ScalarEscapes | thirdparty/rapidjson/reader.h:754-882 | The escapes of the UTF-16 units of any scalar value deliver its UTF-8 and end behind the last digit |
| JsonEscapes.LoneTrail | thirdparty/rapidjson/reader.h:867-882 | A trailing surrogate that follows no leading one is accepted and delivers three bytes that are no UTF-8 |
| JsonStrings.ParseStringToStream | thirdparty/rapidjson/reader.h:839-905 | The loop delivers the bytes and the position, or the error, of the round-by-round definition |
| JsonStrings.BodyIsRead | thirdparty/rapidjson/reader.h:839-905 | For any bytes, NUL and control bytes included, what is written is read back as the same bytes, up to the closing quote |
| JsonStrings.ValidatedIsRead | thirdparty/rapidjson/reader.h:897-903 | With validation the same bytes are read back exactly if they are UTF-8, otherwise the encoding error is reported |
| JsonStrings.LiteralRoundTrip | thirdparty/rapidjson/writer.h:345-417 | Whatever follows a written literal, reading it gives the bytes back and stops behind it, or reports invalid UTF-8 if that is checked |
| JsonAscii.WrittenBytesAreAscii | thirdparty/rapidjson/writer.h:345-417 | Which bytes are escaped, by which letter, and the digits of those without one, as characters |
| JsonAscii.LettersAreAscii | thirdparty/rapidjson/reader.h:840-866 | The eight letters behind a backslash and what each stands for, as characters |
| JsonAscii.DigitsAreAscii | thirdparty/rapidjson/reader.h:754-774 | A byte has a value as a hexadecimal digit exactly if it is that digit in lower or upper case |
| JsonLiterals.LiteralIsExact | thirdparty/rapidjson/reader.h:839-905 | A literal is accepted, and delivers text and position, exactly if it is one of the grammar of section 2.5 of RFC 4627 whose characters stand for that text, and every leading surrogate in it is followed by a trailing one |
| JsonScanErrors.LiteralFails | thirdparty/rapidjson/reader.h:839-905 | A literal that is refused is one of the grammar up to a place where no character stands, and the error says why none does |
| JsonLiterals.CharsAreRead | thirdparty/rapidjson/reader.h:839-905 | Every such literal is read up to its closing quote and delivers what its characters stand for |
| JsonLiterals.ParsedIsLiteral | thirdparty/rapidjson/reader.h:839-905 | Whatever is read without error is such a literal |
| JsonLiterals.MeaningIsUtf8Iff | thirdparty/rapidjson/reader.h:867-903 | With validation what a literal delivers is UTF-8 exactly if no trailing surrogate stands alone |
| JsonNumbers.ParseNumber | thirdparty/rapidjson/reader.h:1133-1386 | The loops over digits deliver the text and the place, or the error, of the definition by parts |
| JsonNumbers.ScannedIsNumber | thirdparty/rapidjson/reader.h:1133-1386 | What is read as a number is one of the grammar of section 2.4 of RFC 4627 that is not too big |
| JsonNumbers.NumberSpelled | thirdparty/rapidjson/reader.h:1133-1386 | Every such number is read as a whole if what follows does not continue it |
| JsonScanErrors.NumberFails | thirdparty/rapidjson/reader.h:1133-1386 | A number that is refused lacks the digits the error names behind a well-formed beginning, or such a beginning is too big |
| JsonLexing.SkipWhitespace | thirdparty/rapidjson/reader.h:264-271 | The loop stops at the first byte that is no white space |
| JsonLexing.LexedIsWritten | thirdparty/rapidjson/reader.h:1388-1404 | If no token of a document is malformed, the document writes its tokens, with white space before, between and behind them |
| JsonLexing.WrittenIsLexed | thirdparty/rapidjson/reader.h:1388-1404 | A document that writes tokens so, with only marks behind numbers, has just those tokens |
| JsonCharacters.DocumentIsExact | thirdparty/rapidjson/reader.h:485-516 | Byte by byte, each parser accepts precisely the documents that write a JSON text the flag allows, with white space where it may stand, and delivers the events of its value; no document writes two values |
| JsonCharacters.LiteralIsText | thirdparty/rapidjson/writer.h:345-417 | What is written for bytes, which must be UTF-8 if that is checked, is a literal of the grammar that stands for them |
| JsonCharacters.PrintedIsRead | thirdparty/rapidjson/writer.h:172-237 | The bytes printed for a value of writable scalars have its tokens again, and both parsers accept them with the events of the value |
| Encodings.Utf8DecodeAcceptsIff | thirdparty/rapidjson/encodings.h:146-220 | The decoder accepts precisely the characters of section 4 of RFC 3629, and never takes more than four bytes |
| Encodings.Utf8DecodeInverts | thirdparty/rapidjson/encodings.h:146-176 | What it accepts is the encoding of the scalar value it delivers |
| Encodings.Utf8EncodeInverts | thirdparty/rapidjson/encodings.h:102-122 | Every scalar value is encoded as a well-formed character that decodes to it, whatever follows |
| Encodings.Utf16DecodeInverts | thirdparty/rapidjson/encodings.h:307-322 | The UTF-16 decoder accepts precisely single units and surrogate pairs, and what it accepts is the encoding of what it delivers |
| Encodings.Utf16EncodeInverts | thirdparty/rapidjson/encodings.h:276-288 | Every scalar value is encoded in UTF-16 so that it decodes to itself (section 2 of RFC 2781) |
| Encodings.Masks | thirdparty/rapidjson/encodings.h:204-220 | The table of byte classes, masked as the decoder masks it, selects the ranges of continuation bytes |
| Encodings.DecodeAll8Exact | thirdparty/rapidjson/encodings.h:146-176 | A whole string decodes exactly if it is well-formed, to the scalar values whose encoding it is |
| Encodings.DecodeAll16Exact | thirdparty/rapidjson/encodings.h:307-322 | A whole UTF-16 string decodes exactly if it is well-formed, to the scalar values whose encoding it is |
| Encodings.TranscodeTo16 | thirdparty/rapidjson/encodings.h:661-667 | Transcoding succeeds exactly on well-formed UTF-8 and delivers the same scalar values |
| Encodings.TranscodeTo8 | thirdparty/rapidjson/encodings.h:661-667 | Transcoding succeeds exactly on well-formed UTF-16 and delivers the same scalar values in UTF-8 |
| Encodings.ThereAndBack | thirdparty/rapidjson/encodings.h:656-667 | There and back is the identity on well-formed strings, from either side, and fails on all others |
| JsonPointers.Pointer.constructor | thirdparty/rapidjson/pointer.h:802-932 | Tokens and error are those of the specification, and all names lie with their terminators in a buffer as long as the source |
| JsonPointers.Pointer.ParseToken | thirdparty/rapidjson/pointer.h:833-919 | One more name is added behind the others, which keep their bytes |
| JsonPointers.Pointer.ParseOneName | thirdparty/rapidjson/pointer.h:840-894 | A name is put where the buffer is free, never further than the source was read |
| JsonPointers.StepFits | thirdparty/rapidjson/pointer.h:840-894 | No step of a name puts more than it takes |
| JsonPointers.NameIsRead | thirdparty/rapidjson/pointer.h:941-972 | What is printed for a name, in string or in URI-fragment form, is read back as that name |
| JsonPointers.EncodedCharacter | thirdparty/rapidjson/pointer.h:974-1037 | The percent encoding of a UTF-8 character is decoded to its bytes |
| JsonPointers.PrintedParses | thirdparty/rapidjson/pointer.h:802-972 | Parsing what is printed gives the same names, for any names that can be printed |
| JsonPointers.PrintableIff | thirdparty/rapidjson/pointer.h:941-972 | Every list of names can be printed in string form, and in URI-fragment form exactly if the names are UTF-8 |
| JsonPointers.PrintedIsFragment | thirdparty/rapidjson/pointer.h:941-972 | Behind its `#` a printed URI fragment holds solidi, unreserved bytes and percent triplets with upper-case digits, and nothing else |
| JsonPointers.RawByteIsRefusedIff | thirdparty/rapidjson/pointer.h:785-792 | A raw byte in a fragment is refused exactly if it is reserved and starts no triplet; outside a fragment none is |
| JsonPointers.PercentIsRefusedIff | thirdparty/rapidjson/pointer.h:845-865 | A percent sign is refused exactly if the triplets that start there encode no character of UTF-8 |
| JsonPointers.EscapesMean | thirdparty/rapidjson/pointer.h:873-890 | `~0` is a tilde and `~1` a solidus in both forms, and no other tilde is accepted |
| BigNumbers.Mul64 | thirdparty/rapidjson/internal/biginteger.h:249-277 | High and low word together are the product of two words, though computed from halves modulo 2^64 |
| BigNumbers.MulAdd64 | thirdparty/rapidjson/internal/biginteger.h:249-277 | High and low word are a product of two words plus a carry, and the high word fits a word |
| BigNumbers.DigitsBound | thirdparty/rapidjson/internal/biginteger.h:279-284 | A number in normal form has no more digits than its size requires |
| BigNumbers.LeadingDecides | thirdparty/rapidjson/internal/biginteger.h:208-219 | Between numbers of equal length the highest digit that differs decides |
| BigNumbers.ValIsInjective | thirdparty/rapidjson/internal/biginteger.h:154-156 | Digit sequences of equal length with equal value are equal |
| BigInteger.BigInteger.constructor | thirdparty/rapidjson/internal/biginteger.h:36-38 | A number in normal form, zero |
| BigInteger.BigInteger.Set | thirdparty/rapidjson/internal/biginteger.h:64-68 | The number becomes the word |
| BigInteger.BigInteger.Add | thirdparty/rapidjson/internal/biginteger.h:70-85 | The value grows by the word, whatever carries it takes, and stays in normal form |
| BigInteger.BigInteger.Multiply | thirdparty/rapidjson/internal/biginteger.h:87-103 | The value is multiplied by the word and stays in normal form |
| BigInteger.BigInteger.MultiplySmall | thirdparty/rapidjson/internal/biginteger.h:105-126 | The value is multiplied by half a word, computed in 32-bit parts, and stays in normal form |
| BigInteger.BigInteger.ShiftLeft | thirdparty/rapidjson/internal/biginteger.h:128-152 | For a shift whose accesses stay in the array: the result is in normal form, and is the value times the power of two exactly if the shift is not a positive multiple of the digit size, or the number is zero, or the digits that stay in place happen to be the ones that should move there (always so for one digit) |
| BigInteger.ShiftStaysInsideIff | thirdparty/rapidjson/internal/biginteger.h:128-152 | Where the assertion holds, all accesses are in the array exactly if twice the digits and the offset, less one, fit it for a shift by whole digits, and one more digit than asserted fits it for any other |
| BigInteger.ShiftOverruns | thirdparty/rapidjson/internal/biginteger.h:133 | Two shifts that meet the assertion and leave the array, one by whole digits, 414 digits past its last, and one by a bit |
| BigInteger.BigInteger.MoveTop | thirdparty/rapidjson/internal/biginteger.h:135-137 | A shift by whole digits moves the top digit and what lies above it in the array; the lower digits stay or become zero |
| BigSubtraction.TopMovedIsExactIff | thirdparty/rapidjson/internal/biginteger.h:135-149 | What is left after that is the shifted number exactly if the digits that stayed equal those that should have moved |
| BigSubtraction.DigitLost | thirdparty/rapidjson/internal/biginteger.h:135-149 | Two digits shifted by one digit: the value is wrong |
| BigInteger.BigInteger.Difference | thirdparty/rapidjson/internal/biginteger.h:186-206 | Says which number is smaller, wherever the result is put, and puts a number in normal form; it is the absolute difference exactly if: put elsewhere (then never below it), no digit of the smaller number with all bits set lies above lower digits that exceed those of the larger one; put into the larger operand, what lies above the lowest digit that differs is only what that digit borrows; put into the smaller one, that has no digit above it |
| BigSubtraction.OutcomeIsExactIff | thirdparty/rapidjson/internal/biginteger.h:186-206 | For each place of the result, what the loop computes is the difference under precisely that condition |
| BigSubtraction.OneDigitDifference | thirdparty/rapidjson/internal/biginteger.h:195-203 | If the result is the larger operand the loop ends at the lowest digit that differs, and that digit alone is the difference exactly if the digits above exceed those of the other number by its borrow |
| BigSubtraction.OperandReused | thirdparty/rapidjson/internal/biginteger.h:195-203 | Numbers whose difference comes out wrong in the larger and in the smaller operand, and right elsewhere |
| BigSubtraction.PartialDifference | thirdparty/rapidjson/internal/biginteger.h:194-203 | After any number of digits the result is too large by the pending borrow and by every borrow that was lost |
| BigSubtraction.BorrowIsTrue | thirdparty/rapidjson/internal/biginteger.h:199 | While none was lost, a digit is borrowed from exactly if the lower digits of the minuend are the smaller number |
| BigSubtraction.DifferenceIsExactIff | thirdparty/rapidjson/internal/biginteger.h:194-203 | The digits computed into a third number stand for the difference exactly if no borrow meets a digit with all bits set |
| BigSubtraction.BorrowLost | thirdparty/rapidjson/internal/biginteger.h:194-203 | Two numbers of three and two digits whose difference comes out too large |
| BigInteger.BigInteger.MoveWords | thirdparty/rapidjson/internal/biginteger.h:140-146 | Moving digits up in place, from the top down, loses none |
| BigInteger.BigInteger.MultiplyPow5 | thirdparty/rapidjson/internal/biginteger.h:162-182 | The value is multiplied by the power of five |
| BigInteger.BigInteger.AppendDecimal64 | thirdparty/rapidjson/internal/biginteger.h:224-232 | Appending digits multiplies by that power of ten and adds their value |
| BigInteger.BigInteger.SetDecimals | thirdparty/rapidjson/internal/biginteger.h:40-53 | The number is the value of the decimal string, in normal form, with at most one digit per 19 decimal digits begun; all that is asked is that the number before the last append leaves room for its product by a power of five and one digit |
| BigInteger.ShortDecimalsFit | thirdparty/rapidjson/internal/biginteger.h:40-53 | Up to 19 decimal digits for each digit but one that the array holds always leave that room |
| BigInteger.DecimalsOverrun | thirdparty/rapidjson/internal/biginteger.h:128-152 | Where there is no such room, the product, if it is in the array at all, fills it, and the shift behind it leaves the array |
| BigInteger.BigInteger.Compare | thirdparty/rapidjson/internal/biginteger.h:208-219 | The sign is that of the difference of the values |
| BigInteger.BigInteger.Equals | thirdparty/rapidjson/internal/biginteger.h:154-156 | Equal digits exactly if equal values |
| BigInteger.ParseUint64 | thirdparty/rapidjson/internal/biginteger.h:239-246 | Up to 19 decimal digits are read without overflow |
| BigInteger.ShiftedValue | thirdparty/rapidjson/internal/biginteger.h:140-146 | Digits joined from the lower part of one and the upper part of the next have the shifted value |
| BigInteger.PowersOfFive | thirdparty/rapidjson/internal/biginteger.h:163-176 | The table of factors holds the powers of five |
| BigInteger.DecimalDigits | thirdparty/rapidjson/internal/biginteger.h:40-53 | The number of digits of a decimal string in normal form |
| PoolAllocator.MemoryPoolAllocator.constructor | thirdparty/rapidjson/allocators.h:110-113 | A new allocator has handed out nothing and owns no memory |
| PoolAllocator.MemoryPoolAllocator.WithBuffer | thirdparty/rapidjson/allocators.h:125-136 | The buffer of the caller is the first chunk |
| PoolAllocator.MemoryPoolAllocator.Capacity | thirdparty/rapidjson/allocators.h:158-163 | The loop delivers the capacity of all chunks |
| PoolAllocator.MemoryPoolAllocator.Size | thirdparty/rapidjson/allocators.h:168-173 | The bytes in use, never more than the capacity |
| PoolAllocator.MemoryPoolAllocator.Clear | thirdparty/rapidjson/allocators.h:145-153 | All blocks and all chunks but the buffer of the caller are gone, and nothing is in use |
| PoolAllocator.MemoryPoolAllocator.AddChunk | thirdparty/rapidjson/allocators.h:237-249 | A new empty chunk becomes the current one, or nothing changes |
| PoolAllocator.MemoryPoolAllocator.Malloc | thirdparty/rapidjson/allocators.h:176-188 | The new block is disjoint from all others, inside the current chunk, behind what was in use there and at an offset that is a multiple of 8; a chunk is added only if there is no room, as large as chunks are or as the block if that is larger; it fails exactly for size 0 or without room and memory |
| PoolAllocator.MemoryPoolAllocator.GrowInPlace | thirdparty/rapidjson/allocators.h:205-211 | The last block grows where it is and stays disjoint from the others |
| PoolAllocator.MemoryPoolAllocator.CopyBlock | thirdparty/rapidjson/allocators.h:216-217 | The copy has the old bytes, and no other byte changes |
| PoolAllocator.MemoryPoolAllocator.Realloc | thirdparty/rapidjson/allocators.h:191-221 | The block stays, grows in place exactly if it is last and there is room, or is copied to a new one at a multiple of 8; its old contents are at the front either way, and no block handed out before changes its bytes |

## Left out

- Shell commands, builds, processes, shared memory set-up, files and directories: input and output only; what remains of them is the shared array and the program under test as a transition system.
- The Clang matchers and rewriting in the transformation tool and the collection of visible variables: they depend on a library that is not part of this model; the collected components are a parameter.
- The text of the emitted runtime around the two switches, and of the argument list: code and arguments are modelled as trees of the C constructs that are printed, and the loop of the partition function as its meaning.
- Command-line front ends, the benchmark tool, logging, time statistics, coverage collection, semantic-difference ordering and suspiciousness scores: they carry no property of the search.
- C integer promotion, overflow, conversion to the type of the patched expression and pointer-size scaling: integers are mathematical; what bit operations and explicit casts compute is a parameter.
- Programs that are not deterministic, and tests whose array is written by several processes at once.
- A candidate identifier written in parts when a test is killed: an entry of the array is written at once.
- Correction.CorrectionKeepsMeaning: a sufficient condition for an unchanged value; an expression with an inverted comparison may keep its value by chance, as `x && !x` does, and `Correction.CorrectionMeans` gives the value in every case.
- Patch validation itself: which patches survive it is a parameter.
- `operator=` and the copy constructor of big integers, the conversion of numbers to double, and the vectorised white-space and string scans: alternatives of what is modelled, or easy.
- The array index of a JSON Pointer token: its overflow test is not exact; the names of tokens are modelled.
- Resolving, creating and erasing values by JSON Pointer, the schema validator, iterators, the pretty writer, insitu parsing, the other encodings.
- Comments and NaN or Infinity in documents as bytes: on tokens a malformed comment is a token of its own, and well-formed comments are skipped between tokens; `JsonLexing` reads documents without the flags for either.
- That the parsers read tokens on demand: a document is lexed first, up to the first malformed token, which is where any parser that gets there stops.
- A dereference whose base dereferences in turn, as `p->q->r`, where computing the base may crash: the environment decides whether the base of a component is NULL, and the text of the base is not evaluated.
- The numbers of a document are their text; which are too big for a double is a parameter.
- The wrap-around of member and element counts at 2^32 and of allocator sizes.
- JsonAcceptance.AcceptedIffText: stated on tokens; `JsonCharacters.DocumentIsExact` states it on bytes, for parses that do not stop when the value is complete.
- BigInteger.BigInteger.SetDecimals: asks for room in the array, as the source leaves it to its callers that the number fits; `BigInteger.DecimalsOverrun` says what happens without.
- BigInteger.BigInteger.ShiftLeft: stated for shifts whose accesses are inside the array; the assertion of the source admits more, see `BigInteger.ShiftStaysInsideIff`, and what those overwrite lies outside the object.
- LayoutAgreement.LayoutsAgree: stated for components with different texts, as their collection delivers them, and for type names that stay different when blanks become underscores, hold no bracket, and are not `ptr` beside a pointer component, without which the generated function does not compile.
- JsonPointers.Pointer.constructor: bytes that a refused percent sequence puts into the buffer before it is refused are not modelled; the names are discarded then.
- TestEquivalence.TestEquivalenceIsExact: a program makes a bounded number of calls before it ends or is aborted, as a timeout enforces.
