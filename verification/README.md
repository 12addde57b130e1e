# libHSC: a verified model

libHSC is a symbolic model checker. A set of states is a *diagram*: a node over a
binary shape, whose arcs partition the head and give each part the set of tails that
follow it. An event is an operation *term*; a closure of events is computed by a
hierarchical schedule. Around this engine stand an expression language, a CTL front
end, tests that prove transitions dead or states unreachable on an
over-approximation, and a certified abstraction (CEGAR) for safety properties, whose
proofs an independent checker re-validates.

This project models that logic in Dafny and proves what it is for. Every statement
below is a theorem about the model.

## How the files fit together

| part | files |
|---|---|
| CEGAR: words, leaves, classifiers, learner, teacher, model and monitor, abstraction, refinement loop, certificates | `Words`, `Lts`, `Explore`, `Classifier`, `Teacher`, `Learner`, `Model`, `MonitorBuild`, `Abstraction`, `Loop`, `Run`, `Certcheck`, `Emission` |
| expressions | `Expr`, `Arith`, `Subst`, `Shrink`, `Positions`, `Exact` |
| diagrams and their algebra | `Diagram`, `Algebra`, `Query`, `Counting` |
| terms, application, events, saturation, inversion | `Closure`, `Terms`, `Sorts`, `Event`, `Apply`, `Saturation`, `Inversion` |
| CTL | `Ctl`, `Forward` |
| impossibility tests | `Impossible`, `Backward` |
| shared facts about finite sets | `Finite` |

## Modelling decisions

- Integers are unbounded; overflow exceptions are not modelled. Bit operations act on the two's complement of unbounded width; division truncates toward zero.
- Interning is structural equality: codes are equal exactly when the values are. So a node's arcs, which the source sorts by prime code, form a set; n-ary operands, which the source sorts by code, keep the order they came in. Loops over arcs or map entries run in an arbitrary order.
- A word is a tree laid out along the shape; `Diagrams.FrontierInjective` ties it to the tuple of integers along the frontier.
- A transition table is a sequence of rows instead of one flat array, and a pair id `q * k + c` is a pair. One generic breadth-first search (`Exploration.Explore`) stands for the several worklist loops of the CEGAR code.
- Whether a run may be stopped is an input, `mayStop`. If it may, a stop request is seen at any round of a closure and a poll interrupts anywhere else, by a non-deterministic choice; a closure of a composite sort that is stopped returns what it has, marked partial. If it may not, every result is whole.
- Where a closure must terminate, the model asks for a finite set that the closure does not leave; a shrinking measure takes the place of wall-clock limits.
- The `die(...)` checks of the CEGAR code are proved unreachable, except "no progress in refinement round" (src/cegar/loop.cc:373-375), which is a separate outcome, `RunNoProgress`: the published index is not proved to grow, and the outcome is given only when a round corrected some classifier and the index did not.
- The CTL set operators have the meaning that include/hsc/ctl/algorithm.md gives them: a deadlock ends its path, untils are fixpoints.

## Where the code does not do what one would expect

- A certificate whose `use` alias names a leaf with another transition table can pass although the model has a violation: only alphabet sizes are compared (`Emission.WrongAliasPasses`). With matching aliases a passing certificate is a proof (`Certcheck.PassesSound`), and the emitted ones always match.
- The converse of a closure relative to a potential that is not closed under it misses pairs (`Inversion.OpenPotentialLosesPairs`); with a closed potential it misses none (`Inversion.LfpConverse`).
- The normalising constructors are monotone in the information order, and not always exact: a product with a zero factor is zero even if another factor is undefined (`Exactness.ZeroFactor`), a comparison of an expression with itself is decided even where it is undefined (`Exactness.SameSides`). So an event guarded by `x * a[i] = 0` fires where `x` is zero and `i` is out of bounds (`Events.ZeroFactorFires`). An expression is *safe* in an environment when no product has an undefined factor beside a zero one and every comparison has a defined side (`Exactness.Safe`); there substitution and re-rooting are exact (`Exactness.SubstSafe`, `Exactness.ShiftSafe`). The boolean n-ary form and `push_negations` are always exact.
- An array element written to itself is dropped before its index is known: the identity, which is right exactly where the index is in bounds (`Application.SelfWriteOutOfBounds`).
- An access whose cells and index are all one position is not resolved before it reaches that leaf, where it has no value: the event loses its image exactly where the index is in bounds (`Application.OneCellArray`, `Application.OneCellLosesImage`). Arrays are asked to be *loose* (`Substitutions.Loose`), so that none reaches a leaf (`Application.LooseEvaluates`).
- `Sorts.Determined` says where an event does what it says: the guard has a value or is safe, and where it is true every assignment is defined or safe, with distinct targets. It holds at every word for events whose text has no partial operator under a product or on both sides of a comparison and copies no cell of an array to that array (`Events.PlainDetermined`). It is sufficient; whether an unsafe expression happens to stay undefined depends on the order in which positions are resolved.
- At the unit sort the weigher answers 1, which is the count exactly when the diagram is not empty (`Counting.Weigher.Count`).

## Model

| member | source | states |
|---|---|---|
| `Classifiers.Group` | src/cegar/classifier.cc:60-82 | groups states by signature: two states share a block exactly when their signatures agree |
| `Classifiers.Refine` | src/cegar/classifier.cc:53-91 | the partition loop ends on the coarsest stable partition: two states share a block exactly when no word tells them apart |
| `Classifiers.NumberBlocks` | src/cegar/classifier.cc:93-120 | numbers the reachable blocks breadth first: every word leads to a numbered block whose representative is no later than it in shortlex order |
| `Classifiers.Canonicalize` | src/cegar/classifier.cc:49-136 | the result is canonical and accepts a word iff every prefix of it is live in the raw table |
| `Classifiers.AliveIsEveryPrefix` | src/cegar/classifier.cc:51-58 | dead closure: a word is alive iff every prefix is classified live |
| `Classifiers.CanonicalUnique` | src/cegar/classifier.cc:49-136 | two canonical classifiers with one language are identical |
| `Classifiers.CanonicalizeCanonical` | src/cegar/classifier.cc:49-136 | raw tables with the same dead-closed language give identical classifiers |
| `Classifiers.CanonicalizeIdempotent` | src/cegar/classifier.cc:49-136 | canonicalising a canonical classifier gives it back |
| `Classifiers.Classify` | src/cegar/classifier.cc:12-22 | walking the table gives the class of the word |
| `Classifiers.IndexBound` | src/cegar/classifier.cc:49-136 | a canonical classifier has no more classes than any raw table with its language |
| `Classifiers.ChaosAcceptsAll` | src/cegar/classifier.cc:39-47 | chaos is canonical and accepts every word |
| `Exploration.Explore` | src/cegar/loop.cc:102-164 | breadth-first search: a found trail leads to a bad state; an exhausted search lists, once each, exactly the reachable states, none but the root bad, and no more of them than the cap allows; a capped one has reached more good states than the cap |
| `Teacher.Certify` | src/cegar/certify.cc:12-52 | certifies iff every trace of the leaf is accepted, else gives a trace that is not |
| `Teacher.ReverseGap` | src/cegar/loop.cc:206-239 | no gap iff every accepted word is a trace, else an accepted word that is none |
| `Learning.RowBound` | src/cegar/learner.cc:46-68 | pairwise distinct rows never exceed the number of leaf states plus one |
| `Learning.WrongIsRefuted` | src/cegar/learner.cc:104-126 | a word the published classifier gets wrong is wrong on some prefix in the raw table, or the learner is unexposed |
| `Learning.CounterexampleSplits` | src/cegar/learner.cc:127-154 | the suffix after the flip is a new experiment and tells apart two rows that agreed |
| `Learning.PublishedUnique` | src/cegar/learner.cc:96-102 | what is published depends on the table alone |
| `Learning.PublishedIndex` | src/cegar/learner.cc:96-102 | the published classifier has at most one class more than the leaf has states |
| `Learning.Learner.Member` | src/cegar/learner.cc:33-37 | the memoised membership answer is whether the leaf fires the word |
| `Learning.Learner.Close` | src/cegar/learner.cc:46-68 | ends with a closed table, keeps distinct rows, only appends to S |
| `Learning.Learner.Table` | src/cegar/learner.cc:70-94 | "table not closed" is never reported: the raw table of a closed observation table |
| `Learning.Learner.Published` | src/cegar/learner.cc:96-102 | the published classifier is chaos before exposure, else the canonical classifier of the table |
| `Learning.Learner.SplitPoint` | src/cegar/learner.cc:131-142 | "no flip in counterexample" is never reported, and the binary search ends on a real flip |
| `Learning.Learner.AddCounterexample` | src/cegar/learner.cc:104-154 | for any misclassified word none of the four checks fires, and the potential strictly falls |
| `Leaves.Lts.Fire` | src/cegar/model.cc:15-22 | firing a word: the state it leads to, none when some step is undefined |
| `Models.ProjectOnto` | src/cegar/model.cc:44-49 | the projection of an event word onto a leaf |
| `Models.ProductPath` | src/cegar/model.cc:67-127 | a word has a path in the product exactly when monitor and components all follow it |
| `Models.WalkProduct` | src/cegar/loop.cc:102-164 | a found witness is enabled and ends bad; an exhausted walk gives an inductive set of reached states that fits the cap, and there are no more; a capped one means that more than `cap` product states that are not bad can be reached |
| `Models.InductiveSafe` | src/surface_certcheck.cc:281-319 | an inductive set proves the product safe |
| `Models.Refire` | src/cegar/model.cc:129-141 | true iff the word fires on every leaf and ends in a bad monitor state |
| `Models.CrowdedBound` | src/cegar/model.cc:67-127 | no more states can be reached than the monitor and the components have together |
| `Models.Mono` | src/cegar/model.cc:67-127 | `holds` means no violation exists, `violation` comes with one, and the cap is hit only when more than `cap` good states can be reached; without a violation it is hit whenever more than max(cap, 1) states can be reached, and never when it is at least the size of the state space |
| `MonitorBuild.SubProductExact` | src/surface_cegar.cc:307-372 | the monitor follows a word iff every property leaf does, and stands at their states |
| `MonitorBuild.BuildModel` | src/surface_cegar.cc:307-372 | a valid model with an exact monitor whose bad states are those where the property says so; none when the property is undefined on a reachable tuple; every tuple is the joint state of some word |
| `Abstraction.AbstractionSound` | src/cegar/loop.cc:102-164 | a safe product of certified classifiers proves the model safe |
| `Abstraction.Replay` | src/cegar/loop.cc:166-177 | the culprits are exactly the leaves that cannot fire their part; "property-leaf projection failed" is never reported |
| `Abstraction.CulpritAccepts` | src/cegar/loop.cc:166-177 | the classifier of a culprit accepts what its leaf cannot fire |
| `Loop.CertifyLearner` | src/cegar/loop.cc:181-201 | certification of what is published, or a counterexample processed |
| `Loop.RefineUntilResolved` | src/cegar/loop.cc:181-201 | ends with a certified classifier that rejects the word, the potential spent, the per-leaf budget check unreachable |
| `Loop.DriveExact` | src/cegar/loop.cc:241-254 | ends with a classifier that accepts exactly the traces of the leaf |
| `Runs.BuildProfile` | src/cegar/loop.cc:46-73 | one entry per non-property leaf, one per distinct table when interning |
| `Runs.ChooseCulprits` | src/cegar/loop.cc:349-357 | the policy: all, the first, or one with the fewest classes |
| `Runs.RefineRound` | src/cegar/loop.cc:358-371 | the entry of every culprit rejects the part of the witness that its first culprit reads, certified, and is exact under `jump_exact`; the other entries are unchanged; the total potential strictly falls; "refined witness still accepted" is never reported |
| `Runs.FirstPartOf` | src/cegar/loop.cc:358-371 | of several culprits that share an entry the first gives the word to refine |
| `Runs.CexWithinBudget` | src/cegar/loop.cc:376-376 | the counterexamples of a run never exceed the budget |
| `Runs.CapWithin` | src/cegar/loop.cc:102-164 | a cap verdict means that the cap is below the product of the monitor and (number of states + 1) over the leaves |
| `Runs.Verify` | src/cegar/loop.cc:303-377 | every verdict is justified: `holds` rules out every violation and lists at most max(cap, 1) states, all reached; `violation` refires and ends bad; refinements and counterexamples stay within the sum of (number of states + 1) over the distinct leaves; `cap` means that more than `cap` good abstract states can be reached, and is excluded by a cap that holds them all. What was published starts with chaos, every counted refinement corrects some classifier, the indices together grow with every round but the one that ends without progress, and the verdict rests on the last classifiers |
| `Runs.CrossCheck` | src/cegar/loop.cc:303-377 | the run and the monolithic oracle never contradict each other |
| `Certcheck.ParseTable` | src/surface_certcheck.cc:113-152 | a table is read iff its form spells one: header, ranges, completeness |
| `Certcheck.FilledIs` | src/surface_certcheck.cc:127-146 | a table is filled iff every action is in range; of several actions for one entry the last counts, and an entry without one stays empty |
| `Certcheck.ParseTables` | src/surface_certcheck.cc:102-152 | all tables are read iff there is no duplicate, unknown leaf or malformed table |
| `Certcheck.Resolve` | src/surface_certcheck.cc:154-180 | resolves iff every alias and every non-property leaf has a table of its alphabet |
| `Certcheck.LastUseIs` | src/surface_certcheck.cc:69-76 | a later alias of an instance replaces an earlier one |
| `Certcheck.EffectiveIs` | src/surface_certcheck.cc:154-180 | a leaf uses its own table, else the one at its last alias, else none |
| `Certcheck.CheckInclusions` | src/surface_certcheck.cc:182-217 | obligation (L): every declared table accepts every trace of its leaf |
| `Certcheck.DecodedIs` | src/surface_certcheck.cc:219-279 | an `inv` entry spells a state iff every leaf it names is known, the monitor state is the last that shows the property values, and every class is in range; the last value given to a leaf counts |
| `Certcheck.CheckInvariant` | src/surface_certcheck.cc:281-319 | obligations (G1)-(G3) hold iff the listed states are inductive |
| `Certcheck.Check` | src/surface_certcheck.cc:99-326 | reports no failure iff the certificate meets every obligation |
| `Certcheck.PassesSound` | src/surface_certcheck.cc:154-326 | a passing certificate whose aliases match proves that no run violates |
| `Emission.EmitCertificate` | src/cegar/loop.cc:259-299 | the certificate emitted on `holds` passes, and its aliases match |
| `Emission.VerifyAndCheck` | src/cegar/loop.cc:303-333 | the checker passes exactly on the runs that hold |
| `Emission.WrongAliasPasses` | src/surface_certcheck.cc:163-169 | without matching aliases: a certificate that passes on a model with a violation |
| `Expressions.MakeNary` | src/lia_int.cc:114-157 | the gathering loop computes the n-ary normal form, which keeps every defined value |
| `Expressions.NaryOfRefines` | src/lia_int.cc:114-157 | the normal form of a sum or product has the value of the original wherever that is defined |
| `Expressions.BinaryOf` | src/lia_int.cc:214-223 | folding keeps every defined value |
| `Arithmetic.NaryLaw` | src/lia_int.cc:114-157 | the sum and the product of two numbers, and of none |
| `Arithmetic.MinusLaw` | src/lia_int.cc:179-179 | the difference and the subtrahend add up to the minuend |
| `Arithmetic.DivModLaw` | src/lia_int.cc:180-185 | quotient and remainder, undefined by zero only: dividend = quotient * divisor + remainder, the remainder smaller than the divisor and zero or of the sign of the dividend |
| `Arithmetic.DividesUnique` | src/lia_int.cc:180-185 | these conditions determine quotient and remainder |
| `Arithmetic.PowLaw` | src/lia_int.cc:186-195 | undefined for negative exponents only; b^0 = 1 and b^(n+1) = b * b^n |
| `Arithmetic.ShiftLaw` | src/lia_int.cc:199-209 | defined for 0 to 31 places: the product by, and the floor of the quotient by, the power of two |
| `Arithmetic.BitwiseLaw` | src/lia_int.cc:196-198 | every bit of the result is the connective of the bits of the operands |
| `Arithmetic.BitsDetermine` | src/lia_int.cc:196-198 | a number is determined by its bits |
| `Arithmetic.CompareLaw` | src/lia_bool.cc:19-29 | each comparison by the sign of the difference |
| `Expressions.BitCompOf` | src/lia_int.cc:245-250 | folding keeps every defined value |
| `Arithmetic.BitCompLaw` | src/lia_int.cc:245-250 | a number and its bit complement add up to -1 |
| `Expressions.ArrayOf` | src/lia_int.cc:254-270 | resolving a constant index keeps every defined value |
| `Expressions.WrapOf` | src/lia_int.cc:272-278 | wrapping keeps every defined value |
| `Expressions.CompareOf` | src/lia_bool.cc:52-70 | deciding constants and equal sides keeps every defined truth value |
| `Expressions.Neg` | src/lia_bool.cc:124-136 | negation keeps every defined truth value |
| `Expressions.MakeNaryBool` | src/lia_bool.cc:74-105 | the splicing loop computes the boolean normal form, exact in all three truth values |
| `Expressions.NaryBoolOfExact` | src/lia_bool.cc:74-105 | the boolean normal form is exact: strong Kleene |
| `Substitutions.SubstRefines` | src/lia_int.cc:282-344 | wherever the original has a value and the replacement stands for the subexpression, the result has that value |
| `Substitutions.SubstBoolRefines` | src/lia_bool.cc:158-184 | the same for truth values |
| `Substitutions.ShiftRefines` | src/lia_int.cc:473-505 | re-rooting keeps every defined value in the rest of the environment |
| `Substitutions.ShiftBoolRefines` | src/lia_bool.cc:274-286 | the same for truth values |
| `Substitutions.GroundIsConst` | src/lia_int.cc:282-312 | a normal expression that reads nothing is a constant or undefined |
| `Substitutions.SubstNormal` | src/lia_int.cc:314-344 | substitution keeps the normal form |
| `Substitutions.PushExact` | src/lia_bool.cc:138-154 | exact in all three truth values, and no negation is left |
| `Positions.ValueLocal` | src/lia_int.cc:403-435 | the value depends on the supported positions only |
| `Shrinking.SubstShrinks` | src/lia_int.cc:314-344 | a value in the place of a subexpression makes the expression smaller |
| `Exactness.NaryOfSafe` | src/lia_int.cc:114-157 | on safe operands the n-ary form is exact: undefined stays undefined |
| `Exactness.SubstSafe` | src/lia_int.cc:282-344 | where the expression is safe, substitution is exact and its result safe |
| `Exactness.SubstBoolSafe` | src/lia_bool.cc:158-184 | the same for truth values |
| `Exactness.ShiftSafe` | src/lia_int.cc:473-505 | where the expression is safe, re-rooting is exact and its result safe |
| `Exactness.ShiftBoolSafe` | src/lia_bool.cc:274-286 | the same for truth values |
| `Exactness.PlainSafe` | src/lia_int.cc:114-157 | an expression with total factors and a total side in every comparison is safe in every environment |
| `Exactness.ZeroFactor` | src/lia_int.cc:144-157 | a product substituted at a zero factor is zero, which is its value iff the other factor has one |
| `Exactness.SameSides` | src/lia_bool.cc:52-70 | a comparison with itself is decided, rightly iff the expression has a value |
| `Diagrams.FrontierInjective` | src/diagram.cc:1-10 | words of one shape are the tuples along its frontier |
| `Diagrams.Canonical` | src/diagram.cc:54-60 | diagrams in normal form with the same words are equal |
| `Diagrams.SameWordsSameDiagram` | src/diagram.cc:141-154 | in normal form, set equality is code equality, both directions |
| `Algebra.Accumulator.Add` | src/diagram.cc:74-107 | adds a rectangle with a clear prime: words added exactly, disjoint primes and distinct subs kept |
| `Algebra.SieveArc` | src/diagram.cc:170-200 | carves the entries by one arc: nothing lost, nothing added, primes stay disjoint, through every early exit |
| `Algebra.Sieve` | src/diagram.cc:163-203 | an operand with disjoint primes is joined exactly, the invariant kept |
| `Algebra.Finish` | src/diagram.cc:147-154 | dropping dead entries gives a node in normal form with the same words |
| `Algebra.Canonize` | src/diagram.cc:205-210 | any bag of rectangles: the normal form of exactly their words |
| `Algebra.Join` | src/diagram.cc:236-241 | exactly the union, in normal form |
| `Algebra.JoinNodes` | src/diagram.cc:561-569 | the union of two nodes, in normal form |
| `Algebra.Meet` | src/diagram.cc:243-247 | exactly the intersection, in normal form |
| `Algebra.MeetNodes` | src/diagram.cc:571-589 | the intersection of two nodes, in normal form |
| `Algebra.Minus` | src/diagram.cc:249-253 | exactly the difference, in normal form |
| `Algebra.MinusNodes` | src/diagram.cc:591-612 | the difference of two nodes, in normal form |
| `Application.ApplyAct` | src/int_set.cc:493-561 | exactly the image of the values that pass the guard, for every leaf action |
| `Arithmetic.WrappedLaw` | src/int_set.cc:541-543 | with a modulo the result lies in 0..modulo, a multiple of it away from the value; without one it is the value |
| `Application.InjectiveMaps` | src/int_set.cc:619-624 | guards and shifts are one-to-one |
| `Application.ApplyApart` | src/diagram.cc:523-545 | the identity-head and injective-head shortcuts: exactly the image, in normal form |
| `Application.ApplyAll` | src/diagram.cc:547-559 | the full construction: exactly the image, in normal form |
| `Application.ImageUnique` | src/diagram.cc:523-559 | full results are unique, so every shortcut gives the node of the full construction |
| `Application.ApplyLfp` | src/diagram.cc:426-446 | without a stop the closure of the argument; stopped, a set between the argument and its closure |
| `Application.Round` | src/diagram.cc:492-504 | one round of the schedule adds only words that runs of its parts reach; not stopped, it holds the results of all parts |
| `Application.ApplySaturate` | src/diagram.cc:475-506 | without a stop the closure under all parts; stopped at any poll, a set between the argument and it |
| `Application.Apply` | src/diagram.cc:415-559 | every term: without a stop exactly the image; a part of it only when some closure was stopped |
| `Saturation.Split` | src/operation.cc:170-190 | the one pass over the summands computes the three lists |
| `Saturation.SaturateMeaning` | src/operation.cc:149-210 | at every shape and for every event list the rewritten term denotes the reflexive-transitive closure of the events |
| `Saturation.SaturateSorted` | src/operation.cc:149-210 | the rewritten term is well sorted and keeps its argument |
| `Saturation.SaturateBounded` | src/operation.cc:149-210 | if the events stay in a finite set, so does every closure of the rewritten term |
| `Saturation.LeafLfpMaps` | src/int_set.cc:448-461 | the folded leaf closure is the closure of the relation |
| `Saturation.SumAtMeaning` | src/operation.cc:103-147 | the folded sum does what some event does |
| `Saturation.Closure` | src/operation.cc:149-210 | without a stop exactly the least set that holds the argument and is closed under every event; stopped, a set between |
| `Saturation.ScheduleIsNaiveFixpoint` | src/diagram.cc:426-506 | schedule and naive fixpoint of the sum give the same diagram |
| `Inversion.InvertAct` | src/int_set.cc:176-234 | the converse of every leaf action from the passing domain values, exactly |
| `Inversion.InvertTransform` | src/int_set.cc:204-225 | one choice per image value: exactly the reversed pairs |
| `Inversion.Projections` | src/operation.cc:277-288 | the projections of the potential are the heads and the tails of its words |
| `Inversion.Invert` | src/operation.cc:255-332 | only true converse pairs, and all whose source lies in the potential, for nodes, sums, compositions, selectors and leaf actions, and for closures with a closed potential; every term without a schedule or an assigning event has a converse, and one that meets such a part has none |
| `Inversion.LfpConverse` | src/operation.cc:308-310 | the converse of a closure: complete when the potential is closed under it |
| `Inversion.OpenPotentialLosesPairs` | src/operation.cc:308-310 | a closure and a potential not closed under it: a pair is lost |
| `Events.KeptAssigns` | src/event.cc:120-132 | dropping writes of a position to itself changes no update where the event is determined |
| `Events.ApplyIfMaps` | src/int_set.cc:111-144 | the folded leaf forms do what the guarded assignment does, for array-free expressions |
| `Events.HeadMaps` | src/event.cc:173-177 | an event of the head moves the head and keeps the tail |
| `Events.TailMaps` | src/event.cc:178-190 | an event of the tail, re-rooted, moves the tail and keeps the head |
| `Events.MakeEventDoes` | src/event.cc:114-203 | the built term is the guarded simultaneous assignment, at every shape |
| `Events.MakeEventFine` | src/event.cc:114-203 | the built term is well sorted and no heavier than the event |
| `Events.MakeEventClosureFree` | src/event.cc:114-203 | no closure is built, so applying an event is never cut short |
| `Events.PlainDetermined` | src/event.cc:114-311 | a plain event with distinct targets is determined at every word, whatever is out of bounds |
| `Events.ChosenSplits` | src/event.cc:42-95 | the chosen assertion is a subexpression of the event, array-free, on one side of the cut |
| `Events.CurryShrinks` | src/event.cc:258-274 | currying terminates: the residual event is smaller |
| `Events.CurryMaps` | src/event.cc:258-279 | on the words where the assertion has the marker, the residual does what the event does |
| `Events.GroundPairMaps` | src/event.cc:284-311 | a ground event writes its two sides |
| `Application.ApplyClass` | src/event.cc:258-279 | one class: exactly the image of the class under the event |
| `Application.ApplyEvent` | src/event.cc:205-311 | exactly the image of the diagram under the event |
| `Application.Fire` | src/event.cc:114-311 | without a stop always done: exactly the simultaneous-update images of the words whose guard is true, out-of-bounds accesses contributing nothing, where the event is determined |
| `Application.SelfWriteOutOfBounds` | src/event.cc:127-129 | an array element written to itself is the identity: right iff the index is in bounds |
| `Application.OneCellArray` | src/lia_int.cc:382-384 | an access of the leaf by the leaf itself has no image there: right iff the index is out of bounds |
| `Application.OneCellLosesImage` | src/event.cc:136-150 | `x := a[x]` over one cell, in bounds at 0, loses its image |
| `Application.LooseEvaluates` | src/lia_int.cc:348-402 | the leaf evaluator is right on every normal expression whose accesses are loose |
| `Events.ZeroFactorFires` | src/event.cc:250-279 | split by `x`, the guard `x * a[i] = 0` is true on the class of zero where `i` is out of bounds and the guard has no value |
| `Queries.Descend` | src/query.cc:47-65 | exactly the words whose value at the position passes |
| `Queries.SplitLeaf` | src/int_set.cc:563-590 | the values of a leaf grouped by the value of the expression |
| `Queries.SplitPosition` | src/query.cc:78-113 | disjoint non-empty pieces, one per value, that make up the diagram |
| `Queries.Select` | src/query.cc:115-163 | exactly the words with w[x] op w[y], for two positions |
| `Queries.SelectCompare` | src/query.cc:167-174 | exactly the words with w[x] op w[y] |
| `Queries.SplitAcross` | src/query.cc:241-254 | an expression across the cut, curried by its least coordinate |
| `Queries.SplitEquiv` | src/query.cc:189-255 | pairwise disjoint non-empty pieces with distinct markers whose union is the diagram, on which the expression equals its marker wherever it is defined or safe |
| `Counting.WaysStep` | src/surface_enabled_count.cc:42-46 | every division of the loop is exact |
| `Counting.Ways` | src/surface_enabled_count.cc:33-49 | the multiplicative loop yields the number of k-tuples of naturals with the given sum |
| `Counting.TuplesSize` | src/surface_weighted_count.cc:83-97 | there are C(total + k - 1, k - 1) such tuples |
| `Counting.CountUnique` | src/surface_weighted_count.cc:52-81 | a diagram has one number of original markings |
| `Counting.EnabledCounter.Count` | src/surface_enabled_count.cc:55-80 | the memoised count is the number of original markings in which every demand is met |
| `Counting.FitsLeaf` | src/surface_enabled_count.cc:55-80 | a marking of a leaf has as many places as its weight says, one if none is given, and meets the demand, if any, in the first |
| `Counting.OneValueCount` | src/surface_enabled_count.cc:63-69 | one value v at k places: the k-tuples with sum v minus the demand, none when v is below it |
| `Counting.Weigher.Count` | src/surface_weighted_count.cc:55-81 | the memoised count is the number of original markings of the diagram, unless that is empty at the unit sort |
| `Counting.Weigher.Spread` | src/surface_weighted_count.cc:83-97 | the cached binomial is the number of ways to spread the tokens over the places |
| `Ctl.Negation` | src/ctl/formula.cc:56-64 | the complement, with constants and double negations folded |
| `Ctl.MakeNary` | src/ctl/formula.cc:66-88 | the loop computes the n-ary normal form, which keeps the meaning |
| `Ctl.UntilDual` | src/ctl/formula.cc:163-179 | a fixpoint until is the complement of its dual: least and greatest fixpoints |
| `Ctl.NnfSat` | src/ctl/formula.cc:107-183 | `nnf` preserves Sat and `negate` gives the complement |
| `Ctl.NnfInNnf` | src/ctl/formula.cc:107-183 | only atoms are negated in the results |
| `Forward.AnyOfAnswer` | src/ctl/forward.cc:48-65 | the flattened disjunction of questions answers yes iff some child does |
| `Forward.WalkConjuncts` | src/ctl/forward.cc:112-123 | the loop over the conjuncts: one goes forward, the others restrict |
| `Forward.ForwardIsLast` | src/ctl/forward.cc:112-123 | what goes forward is the last convertible conjunct |
| `Forward.SelectConcat` | src/ctl/forward.cc:102-105 | state and temporal conjuncts keep their order |
| `Forward.ReverseAt` | src/ctl/forward.cc:108-112 | the reversed conjuncts, for the choice from the left |
| `Forward.ReachedMeets` | src/ctl/forward.cc:81-82 | reaching f through q forward is satisfying E[q U f] at the seed |
| `Forward.GloballyMeets` | src/ctl/forward.cc:83-84 | the forward hull is non-empty iff some state of the seed satisfies EG q |
| `Forward.WeakUntil` | src/ctl/forward.cc:85-90 | E[q W f] is E[q U f] or EG q |
| `Forward.ConjunctionSat` | src/ctl/forward.cc:97-124 | seed, filters, restrictions and the forward conjunct together are the conjunction |
| `Forward.RuleAsks` | src/ctl/forward.cc:67-130 | the question of `rule(r, phi)` is answered yes iff r meets Sat(phi) |
| `Forward.ConvertDecides` | src/ctl/forward.cc:132-140 | the verdict of `convert` says whether every initial state satisfies the formula |
| `Forward.RuleKept` | src/ctl/forward.cc:67-130 | every filter of the question carries a state formula and every restriction one that is not; a formula that is existential down to its state formulas, with one temporal conjunct at most, is asked without any restriction |
| `Forward.ConvertKept` | src/ctl/forward.cc:132-140 | the same for both outcomes of `convert` |
| `Forward.StateLocal` | src/ctl/checker.cc:144-152 | a state formula is decided by the labels of the state alone, so a selector can filter by it |
| `Forward.UntilByPath` | src/ctl/forward.cc:81-82 | the fixpoint E[a U b] is the existence of a path through a to b |
| `Impossibility.NeverEntered` | src/linear/dead.cc:39-69 | a slice that is not initial and that no live event enters holds no reachable state |
| `Impossibility.FirstTest` | src/linear/dead.cc:20-35 | untested iff the event has no guard, never-enabled iff the guard selects nothing of the set, and then the event never fires |
| `Impossibility.Pass` | src/linear/dead.cc:58-68 | one pass asks the candidates in order, each against the events live at that point; it keeps every verdict sound, and each fall shrinks the candidates |
| `Impossibility.DeadTransitions` | src/linear/dead.cc:13-76 | every event marked never-enabled or one-step is enabled in no reachable state, across all rounds and also when interrupted; untested and never-enabled are decided by the guard both ways; one-step is given to listed exact events whose guard misses the initial states; a run in which no entry test stops ends with the verdicts of the last pass that changed something, its rounds counted, and leaves only candidates that some live event enters |
| `Backward.EventsWriting` | src/surface_backward.cc:36-45 | the events that write a listed leaf, or may |
| `Backward.PreWithin` | src/surface_backward.cc:61-70 | exactly the predecessors inside the set under the listed events, unless stopped |
| `Backward.PostWithin` | src/surface_backward.cc:180-189 | exactly the successors inside the set under the listed events, unless stopped |
| `Backward.SearchBackward` | src/surface_backward.cc:126-157 | `init` comes with a reachable state of X; `closed` means no reachable state is in X when SET covers the reachable states and X is decided by the written leaves; without a stop and a step limit it ends in one of the two. Under these conditions on X and the write lists the returned set is the states of SET that reach X inside SET within as many steps as layers were counted; `closed` comes with the first layer that adds nothing and returns all states of SET from which a run inside SET enters X |
| `Backward.NearRuns` | src/surface_backward.cc:126-157 | every state of a layer has its run inside SET into X |
| `Backward.NearExactly` | src/surface_backward.cc:149-155 | when a layer adds nothing, the set is exactly the states with such a run |
| `Backward.InvertedConverses` | src/surface_backward.cc:61-70 | the converses that `Inversion.Invert` gives for the events, as relations on states, are what the search asks for |
| `Backward.Support` | src/surface_backward.cc:217-244 | every iterate holds the reachable set; the returned set is the iterate that the count names and the iterates before it differ; closed, as it ends without a stop and a round limit, it is the greatest supported set below the given one |

## Left out

- Codes, hash tables, caches and their policies, statistics, wall-clock deadlines and the divergence limit: they carry no meaning. The memo tables of the learner and of the counters are modelled.
- The open-addressing index of the accumulator (src/diagram.cc:76-94): the linear search it speeds up is modelled.
- int32 and int64 overflow exceptions; constants of 2^30 and above in `split_equiv`, which the source does not treat as immediates.
- `gfp`, `has_image` and the cycle witnesses (src/diagram.cc:261-392): the deflationary closures are not modelled.
- Fused composition, `compose_fused` and `term_compose` (src/operation.cc:216-251, src/int_set.cc:245-425): after a transform that is undefined somewhere it is not equal to the composition.
- Inversion.Invert: has no converse for saturated schedules and for events that assign, where the source refuses; completeness under a closure asks for a potential closed under it.
- Events.MakeEventDoes: asks that the event be determined at the word (`Sorts.Determined`) and its arrays loose (`Substitutions.Loose`); the exact condition is proved for self-writes and for accesses of a leaf by itself, for the rest determination is sufficient.
- Two writes left for one leaf: the source reports an error when it builds such an event, the model builds the term that does nothing; where the event is determined and its guard true there is at most one.
- Queries.SplitEquiv: array-free expressions in normal form, as the case engine passes them.
- Impossibility.DeadTransitions: takes the entry test as a parameter that answers "no entry" only when there is none; the order by slice size is a heuristic and is left to the caller.
- Backward.SearchBackward: works on sets of states and relations; `Backward.InvertedConverses` ties the converses it takes to the terms that `Inversion.Invert` returns. The direction filter `events_entering` is not modelled.
- Counting.Weigher.Count: asks for values that are not negative, which the source casts to unsigned.
- Runs.Verify: the closing classification of leaves as chaotic, exact or intermediate (src/cegar/loop.cc:379-390) is not modelled; certificates are data, their text and its parsing are left out, and a failed obligation is not counted beyond the first.
- The CTL evaluator, the path and witness search: the set operators have their mathematical meaning.
- Surface dispatch, readers, importers, orderings, the flow calculator, command-line tools, experiment scripts and web pages: plumbing, heuristics or text handling.
