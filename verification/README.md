# symm: a verified model

symm is a trading desk for Kraken. It turns market regimes into tokens, finds repeated structure in the
token stream with an online grammar (Sequitur), cuts the stream with a minimum description length
segmenter, learns which token paths to trade, and sizes, prices, stops and reconciles orders against
Level 3 books. This project models the parts whose correctness is hardest to see in the code and proves
what they are for.

`dafny verify dfyconfig.toml` checks everything.

## How the project is laid out

| file | what it models |
|---|---|
| `Text.dfy`, `Numbers.dfy` | decimal text: `Itoa`, `Atoi`, `Join`; minima and maxima |
| `Grammar.dfy` | symbols, rules, expansion, depth, saved tables (values) |
| `Sequitur.dfy` | the online grammar: a linked root list, the digram index, the mutually recursive replacement |
| `Entropy.dfy` | sums over histograms, code lengths and the laws of a logarithm |
| `Mdl.dfy` | histograms, the boundary sweep, and where a whole stream is cut |
| `Sequencer.dfy` | grammar and segmenter wired together, whole runs, save and restore |
| `Pricing.dfy`, `EntryGuard.dfy` | walking the book, budget sizing, round trips, the drag cap |
| `Book.dfy`, `Seeding.dfy` | applying Level 3 frames; racing deliveries and readiness |
| `Nonce.dfy` | nonces issued by compare-and-swap |
| `Stoploss.dfy` | the breathing stop over every mark sequence |
| `Tree.dfy`, `TreeRuns.dfy` | the path tree as a ledger, Predict's walk in key order, and whole runs |
| `PlainDecimal.dfy` | scientific notation rewritten digit for digit |

## The main results

* **The grammar is lossless.** In every run of Analyze and Sentence the root expands to exactly the tokens
  fed since the last Sentence (`SequiturModel.Run`). The invariant `Valid` behind it holds the list shape,
  the soundness of every pointer in the digram index, acyclic rules with distinct bodies and the token
  account together; termination is the root length. Two occurrences handed to `Reduce` never share a node:
  its precondition `q + 1 < p` is proved at its only call although the source's guard does not list the case
  in which the match follows the new pair. `Sharp` adds what the replacement is for: after every token the
  last pair of the root is one that no rule covers and that has no other indexed occurrence apart from it.
* **The sweep is the direct definition.** The incremental histograms find the first split that maximises the
  penalised gain computed from scratch. Over any run the open segment starts where cutting the whole stream
  at those splits puts it (`RunMdl`). What the gain is for is proved from the laws of a logarithm alone: it is
  what a split takes off a two-part description; splitting never makes the symbols themselves longer; a run
  of one symbol is never cut, and a run of one symbol followed by a run of another always is
  (`SplittingNeverLengthens`, `RepeatsNeverPay`, `ChangeAlwaysPays`).
* **The walk is optimal and the trim converges.** Greedy filling is the cheapest feasible allocation. With
  exact division one trim is enough, and none is needed under the gross budget Allocate passes; with
  division off by `eps`, two are enough. Whatever division rounds to, a returned size is affordable. With
  exact division Allocate returns `x` if and only if `x` is the most asks that the formatted touch cap, the
  depth and the cash after fees allow, and it meets both minimums (`DeskLot`); and trimming gives a size if
  and only if the fill fits or one trim leaves something (`SizeBuy`).
* **Sentences are exactly what was spoken.** Over every sequence of steps and resets from a new sequencer the
  root expands to the tokens since the last break, a break being a reset or the first non-empty step after
  the segmenter cut. When it cuts is not left open: it is where the segmenter's stream is cut by the direct
  definition, and each symbol of that stream stands for the end of the sentence when its token was in
  (`SequencerModel.RunSequencer`).
* **Racing deliveries are safe** in every run from new books, with the two steps of an announcement and the
  two of a declaration interleaved freely: whenever no announcement is between its store and its withdrawal
  of readiness, ready means every announced symbol had an accepted snapshot (`ReadyOnlyWhenSeeded`). It asks
  that no delivery has already seen nothing pending when symbols are announced. That condition is exact
  (`OvertakenIffUntimely`), and `OvertakenFromFresh` reaches a false readiness from new books. Readiness is
  declared only by a delivery that had counted nothing pending and then looked when nothing was stale
  (`ReadyWasLooked`), a delivery counts only once its symbol is removed (`CountsOnceRemoved`), and left to
  itself it settles all it accepted (`DeliverySettlesAll`).
* **Readers see verified books or none.** A reader is shown a verified book exactly as long as entries decode
  (`AppliedIsVerifiedIff`, `FaultIsShown`). In every run an invalid or stale book is refused by all readers
  until a snapshot naming it, and a pending one until a delivery settles it (`HiddenUntilSnapshot`,
  `StaleUntilSnapshot`, `PendingUntilSettled`); an accepted snapshot is shown (`AcceptedSnapshotIsShown`).
* **Protection lasts at a ratio of exactly 3/2.** A stop once protected keeps its floor at or above 0 over
  every later mark sequence in which no rising mark arrives at more than 1.5 times the pace of an earlier
  falling one, and 1.5 is the largest such ratio (`ProtectionLasts`, `ProtectionRatioIsExact`).
* **The path tree is a ledger.** After any run of calls from an empty tree each leaf holds 0.5 plus what every
  settlement since the call that seeded it moved it by, and the action it was seeded with
  (`LeafIsSeedPlusSettlements`): 0.05 up for every losing path above it and 0.05 down for every profitable one
  (`LeafLearns`); the code's leaves and log are those of the calls (`RunTree`). A prediction
  then names an action if and only if the cut is long enough, no two leaves under it differ and the
  brightness exceeds the average kept, and it removes exactly the leaves said (`PredictAfterRun`).

## Where the code and its documentation differ

* broker/stoploss.go:36 says that once Protected the floor never sits below 0. That holds for any constant
  pace (`ConstantPaceKeepsProtection`) and, over all runs, exactly as far as the ratio above
  (`ProtectionRatioIsExact`). `ProtectionCanBeLost` gives three marks with ordinary paces that lose it, and
  `FloorFallsBelowZeroIff` the mark that does.
* broker/book.go:410-413 says a failed book is neither wiped nor hidden. It is not wiped. It is hidden
  exactly when the failure is an absent level or a differing checksum, and not when an order fails to decode
  (`FailedBookIsHiddenIff`, with an input in `DivergedBookIsHidden`), until a snapshot (`HiddenUntilSnapshot`).
* broker/book.go:84-87 says the owner stays BUSY until every requested snapshot has been applied. A delivery
  that has already counted nothing pending can still declare READY after the announcement
  (`OvertakenIffUntimely`, `OvertakenFromFresh`).
* strategy/tree.go:96-99 says disagreement means leaves naming different actions. A leaf whose action is
  unknown is passed over when its key comes before the others (`UnknownActionIsPassedOver`) and disagrees when
  it comes after one; `StoredLeavesDisagree` gives the exact condition on the stored leaves. No leaf of a tree
  built from empty by the model's calls is unknown (`RunNames`).
* kraken/level3.go:117-120 says scientific notation is rewritten by moving the point. Near the ends of a
  machine word the position of the point wraps: `1e9223372036854775807` crashes (`LargestExponentCrashes`),
  and `MachineRendersIff` gives the exact range in which the rewriting is right.

## Modelling decisions

* A grammar symbol is a datatype, terminal or rule reference. `RawRoundTrip` and `DisplayRoundTrip` tie it to
  the two string forms the source uses, and say exactly for which tokens those forms lose nothing: Analyze
  asks that a token is not the internal form of a rule reference, saving asks that it is not spelled like a
  rule name, for the tokens that stand in the root or in a rule. The first is exactly when a token adds itself
  to the expansion (`TokenIsLosslessIff`), the second exactly when root and bodies are read back
  (`SavedGrammarIsReadIff`).
* Floats and decimals are reals. The sizing code takes its division as a parameter, so that rounding is
  covered; the round trip divides exactly. The logarithm is any function with its two laws, log xy = log x +
  log y and log x <= x - 1.
* The order book library is a record of functions (`Sdk`), the pace of marks and the clock are inputs, and
  formatting a size is a function that never enlarges it.
* Go's map iteration order does not matter: loops over maps take their elements in an arbitrary order, and
  rule views are listed by increasing id, which is how the source sorts them.

## Model

| member | source | states |
|---|---|---|
| Text.AtoiOfSigned | kraken/level3.go:128-132 | a sign in front of the digits is read as such, and a number outside 64 bits is refused |
| Text.NonEmptyConcat | strategy/tokenizer/sequencer.go:45-55 | dropping the empty symbols works part by part and keeps the order |
| Text.JoinConcat | strategy/tokenizer/sequencer.go:56-66 | joining two parts puts the separator between them and keeps their order |
| Grammar.RawRoundTrip | strategy/tokenizer/sequitur.go:16-32 | the internal string form of a symbol can be read back if and only if no terminal imitates a rule reference |
| Grammar.OnlyPositiveIds | strategy/tokenizer/sequitur.go:20-32 | what follows the prefix is a rule id if and only if it is a positive machine integer |
| Grammar.DisplayRoundTrip | strategy/tokenizer/sequitur.go:38-43 | the display form can be parsed back if and only if the terminal is not spelled like a rule name |
| Grammar.SavedRootIsReadIff | strategy/tokenizer/sequitur.go:528-544 | a saved root is read back whole if and only if none of its terminals is spelled like a rule name |
| Grammar.SavedGrammarIsReadIff | strategy/tokenizer/sequitur.go:528-544 | a saved root and all rule bodies are read back if and only if no token they use is spelled like a rule name |
| Grammar.DisplayConfusesRuleLikeTerminals | strategy/tokenizer/sequitur.go:528-544 | a terminal M05 comes back as rule 5, displayed M5 |
| Grammar.BodiesAreUnique | strategy/tokenizer/sequitur.go:438-440 | when the digram lookup inverts the rules, no two rules share a body |
| Grammar.SubstitutionIsLossless | strategy/tokenizer/sequitur.go:453-466 | replacing a rule's body by its reference anywhere in a root changes no expansion |
| Grammar.TokenIsLosslessIff | strategy/tokenizer/sequitur.go:101-123 | on every sound table a token adds exactly itself to the expansion if and only if it is not the internal form of a rule reference |
| Grammar.FlattenFrame | strategy/tokenizer/sequitur.go:438-439 | adding rules or counting uses changes no existing expansion |
| Grammar.SameBodiesKeep | strategy/tokenizer/sequitur.go:225-235 | what a display form stands for is kept by every table that keeps the bodies |
| Grammar.LastStandsForEnd | strategy/tokenizer/sequitur.go:130-163 | the last symbol of a root stands for the last tokens the root expands to |
| Grammar.AddRule | strategy/tokenizer/sequitur.go:422-439 | a new rule for an unruled digram keeps ids dense, bodies descending and the lookup inverse, and adds 2 to the count sum |
| Grammar.BumpCount | strategy/tokenizer/sequitur.go:393-395 | counting a reuse changes only the count sum, by 1 |
| Grammar.CountSumAtLeastTwiceRules | strategy/tokenizer/sequitur.go:432-436 | every rule accounts for at least two replaced digrams |
| Grammar.CycleGuardNeverFires | strategy/tokenizer/sequitur.go:332-359 | on a sound table the guarded descent never meets its own stack and returns the nesting height |
| Grammar.HeightBoundsChains | strategy/tokenizer/sequitur.go:285-288 | no chain of rule references is longer than the height |
| Grammar.HeightIsReached | strategy/tokenizer/sequitur.go:285-288 | some chain of rule references is exactly as long as the height |
| Grammar.LearnStep | strategy/tokenizer/sequitur.go:574-584 | learning saved rules in order of id rebuilds the table and its digram lookup |
| SequiturModel.Sequitur.constructor | strategy/tokenizer/sequitur.go:82-94 | a new grammar satisfies the invariant with an empty root |
| SequiturModel.Sequitur.AppendNode | strategy/tokenizer/sequitur.go:368-375 | the circular list grows by one node at its end |
| SequiturModel.Sequitur.ForgetNode | strategy/tokenizer/sequitur.go:478-496 | exactly the entries pointing at the node or its predecessor leave the index |
| SequiturModel.IndexAfterMerge | strategy/tokenizer/sequitur.go:458-466 | what remains of the index after a replacement points at live pairs with exactly the indexed symbols |
| SequiturModel.Sequitur.Substitute | strategy/tokenizer/sequitur.go:453-473 | the pair gives way to the reference, the victim is unlinked, index soundness and the expansion are kept |
| SequiturModel.Sequitur.Check | strategy/tokenizer/sequitur.go:386-417 | only a check at the end of the root can replace; it reuses the pair's rule, makes one exactly when the pair was indexed apart from itself, and leaves the last pair sharp; a check on a new rule's pair only indexes |
| SequiturModel.Sequitur.Reduce | strategy/tokenizer/sequitur.go:419-451 | the two occurrences never overlap; both are replaced by a rule with a fresh id, invariant kept |
| SequiturModel.TwoMerges | strategy/tokenizer/sequitur.go:443-444 | after both replacements the new reference stands in exactly two places |
| SequiturModel.Sequitur.CheckAdjacencies | strategy/tokenizer/sequitur.go:498-511 | the invariant is kept, the last pair is sharp, and if nothing more is replaced the pairs around both nodes are indexed |
| SequiturModel.Sequitur.Analyze | strategy/tokenizer/sequitur.go:101-123 | the expansion grows by exactly the non-empty tokens; create means a rule was minted, append means only terminals were added; one token returns exactly the rule it completes |
| SequiturModel.Sequitur.Sentence | strategy/tokenizer/sequitur.go:515-526 | the root and index are emptied, the rules kept, and the dropped symbols accounted for |
| SequiturModel.Run | strategy/tokenizer/sequitur.go:101-123 | over every run: lossless, the last pair sharp, tokens = root length + dropped + sum of counts, nothing dropped but tokens before a break, at most half as many rules as tokens |
| SequiturModel.Sequitur.Tail | strategy/tokenizer/sequitur.go:130-163 | the last min(n, length) symbols of the root sequence, in order |
| SequiturModel.Sequitur.RootSequence | strategy/tokenizer/sequitur.go:198-209 | the whole root, in order, in display form |
| SequiturModel.Sequitur.CollectTerminalNames | strategy/tokenizer/sequitur.go:225-235 | the recursive descent yields exactly the rule's expansion |
| SequiturModel.Sequitur.RuleDepth | strategy/tokenizer/sequitur.go:332-359 | the loop computes the guarded depth for any table, cyclic or not |
| SequiturModel.Sequitur.RuleViews | strategy/tokenizer/sequitur.go:300-330 | every rule in increasing id with its count, true nesting depth, symbols and expansion |
| SequiturModel.Sequitur.Learn | strategy/tokenizer/sequitur.go:547-585 | ignored, merged into an existing rule by the larger count, or installed with a count of at least 2 and a fresh next id |
| SequiturModel.Sequitur.RestoreRoot | strategy/tokenizer/sequitur.go:588-609 | the root is the parsed symbols, and every pair of it is ruled or indexed at its first place |
| SequiturModel.Sequitur.IndexPair | strategy/tokenizer/sequitur.go:599-605 | a pair is indexed unless it has a rule or an earlier place, so entries stay at the first place |
| SequiturModel.Sequitur.Restore | strategy/tokenizer/sequencer.go:126-132 | a new grammar becomes the saved one: rules, lookup, next id, root, expansion and an index of first places |
| MdlModel.HistogramIsExact | strategy/tokenizer/mdl.go:136-153 | a histogram's counts, total and distinct are those of the stretch it holds, from scratch |
| MdlModel.Histogram.CostUnder | strategy/tokenizer/mdl.go:169-187 | the loop gives the cost of the histogram's symbols under their own frequencies, in whatever order it meets them |
| Entropy.SplittingNeverLengthens | strategy/tokenizer/mdl.go:169-187 | coding two stretches apart never costs more than coding them as one |
| Entropy.RepeatsAreFree | strategy/tokenizer/mdl.go:169-187 | one symbol repeated costs nothing |
| MdlModel.TallyRemove | strategy/tokenizer/mdl.go:155-167 | removing a symbol keeps the tally exact and drops the key at zero |
| MdlModel.Mdl.DetectBoundary | strategy/tokenizer/mdl.go:82-126 | a cut is reported if and only if some allowed split pays, and it is the first split maximising the gain defined on both halves |
| MdlModel.Mdl.LeadingStep | strategy/tokenizer/mdl.go:98-123 | one position of the sweep keeps the best split so far |
| MdlModel.Mdl.SplitGain | strategy/tokenizer/mdl.go:108-118 | the gain from the running histograms is the gain from scratch |
| MdlModel.Mdl.GainIsDescription | strategy/tokenizer/mdl.go:104-118 | the gain is what the split takes off the description: the symbols' cost and half a logarithm for each free parameter |
| MdlModel.Mdl.RepeatsNeverPay | strategy/tokenizer/mdl.go:104-118 | no split of a stretch of one repeated symbol has a positive gain |
| MdlModel.Mdl.ChangeAlwaysPays | strategy/tokenizer/mdl.go:104-118 | a stretch of one symbol and then another has a positive gain at the change |
| MdlModel.Mdl.GainIsBoundedBelow | strategy/tokenizer/mdl.go:104-118 | a gain is lost only to the penalties |
| MdlModel.Mdl.RepeatsAreNotCut | strategy/tokenizer/mdl.go:37-67 | an open segment that holds one symbol only is not cut |
| MdlModel.Mdl.RepeatsStayWhole | strategy/tokenizer/mdl.go:37-67 | a stream of one symbol is never cut, however long |
| MdlModel.Mdl.ChangeIsCut | strategy/tokenizer/mdl.go:37-67 | an open segment of one symbol and then another, each at least the minimum long, is cut |
| MdlModel.Mdl.Intern | strategy/tokenizer/mdl.go:69-80 | interning never confuses two symbols |
| MdlModel.Mdl.Analyze | strategy/tokenizer/mdl.go:37-67 | the histogram is always that of the open segment; the cut is made exactly when a split pays, is the best one, and puts the start where the direct definition does |
| MdlModel.Mdl.StartFromStages | strategy/tokenizer/mdl.go:37-67 | cutting a stream in two stages is cutting it in one |
| MdlModel.Mdl.ShortStreamsAreWhole | strategy/tokenizer/mdl.go:48-50 | no stream under twice the minimum segment is cut |
| MdlModel.RunMdl | strategy/tokenizer/mdl.go:37-67 | over every run the stream spells the symbols fed and the open segment starts where the direct definition over the whole stream puts it |
| MdlModel.Mdl.Restore | strategy/tokenizer/mdl_state.go:32-48 | a saved memory is restored exactly and is sound |
| SequencerModel.Sequencer.StepOne | strategy/tokenizer/sequencer.go:69-77 | the token joins the sentence, the segmenter gets the root's last symbol, which stands for the end of the sentence, and a best cut asks for a sentence break |
| SequencerModel.Sequencer.StepPath | strategy/tokenizer/sequencer.go:45-84 | a pending break ends the sentence first; a repeated path feeds nothing; otherwise the sentence grows by the path, the segmenter's start moves as the direct definition says, and a break is pending if and only if it moved |
| SequencerModel.RunSequencer | strategy/tokenizer/sequencer.go:27-84 | over every sequence of steps and resets from a new sequencer the root expands to the tokens since the last break, breaks follow the direct cuts of the segmenter's stream, and each symbol of it stands for the end of the sentence at the time |
| SequencerModel.Sequencer.Cut | strategy/tokenizer/sequencer.go:86-100 | the last symbols of the root with the brightness on the final one only |
| SequencerModel.CutShape | strategy/tokenizer/sequencer.go:86-100 | a cut is the end of the root in order, and only its final token carries the brightness |
| SequencerModel.Sequencer.Reset | strategy/tokenizer/sequencer.go:27-31 | the sentence ends, the rules and the segmenter stay |
| SequencerModel.SaveRestoreRoundTrip | strategy/tokenizer/sequencer.go:110-132 | restoring a saved sequencer into a new one and saving again gives the same state, next rule id, rules, root and expansion, when no token in the root or a rule is spelled like a rule name |
| Pricing.MarginalCost | broker/price.go:722-747 | every extra unit of a walk costs at least the best price |
| Pricing.GreedyIsCheapest | broker/price.go:722-747 | on sorted prices no feasible allocation of the same quantity costs less than the walk |
| Pricing.WalkBuysCheapest | broker/price.go:697-762 | on sorted asks the uncapped walk buys at the minimum cost over all feasible allocations |
| Pricing.WalkSellsDearest | broker/price.go:697-762 | on sorted bids the uncapped walk sells for the maximum proceeds |
| Pricing.WalkGrows | broker/price.go:722-747 | walking further costs strictly more |
| Pricing.WalkedMost | broker/price.go:722-747 | a walk that spent the cash or filled all there was filled the most the cash pays for |
| Pricing.Consume | broker/price.go:697-762 | uncapped: fills exactly what the side supplies at the walk's cost and fails if and only if the side is too shallow; capped with exact division: fills the most of the want that depth and cash allow, at the walk's cost; capped otherwise: a feasible fill |
| Pricing.TrimFits | broker/price.go:613-631 | one trim of an over-budget fill fits the budget, up to the division error priced at the ask |
| Pricing.LooseTrim | broker/price.go:613-631 | with rounded division the second trim fits when the lot increment covers the error |
| Pricing.SizeBuy | broker/price.go:572-641 | a returned fill is feasible, affordable after fees and under the touch cap and the formatted size; at most one trim with exact division, two with rounded; under Allocate's gross budget a fill is returned if and only if cap and formatted size are positive and an ask is usable, and it is the most allowed; with exact division and sorted asks one is returned if and only if the most allowed fits or one trim leaves something |
| Pricing.TrimToBudget | broker/price.go:600-640 | a fill that fits is returned as it is; otherwise the trims are bounded, and with exact division one trim decides |
| Pricing.Retake | broker/price.go:613-631 | one trim gives a smaller feasible fill that fits with exact division and nearly fits with rounded, and gives one if and only if something is left |
| Pricing.FeeIsPercent | broker/price.go:764-780 | the fee is its percentage of the amount, on top of a buy and off a sale |
| Pricing.Allocate | broker/price.go:454-569 | every quantity respects the cash fraction, the touch cap and both venue minimums; with exact division it is returned if and only if it is the desk's lot |
| Pricing.EntryCost | broker/price.go:391-446 | succeeds exactly when the asks can fill; price times quantity is the walk's cost, and with the fee the fee-inclusive cost |
| Pricing.ExitVwap | broker/price.go:365-388 | price times quantity is the walk's proceeds, whenever the bids can fill |
| Pricing.EntryCloseNow | broker/price.go:331-351 | known exactly when both sides can fill, and is the fee-net percentage of the two walks |
| Pricing.EntryCloseNowPct | broker/price.go:331-351 | known if and only if there is a desk lot and the bids can fill it; its percentage is that of the two walks, and on a sorted book it is negative and no better than the touch's |
| Pricing.CloseNowLoses | broker/price.go:643-694 | on an uncrossed sorted book the percentage is at most that of the touch after both fees, which is negative |
| EntryGuard.FloorActsOnlyOnConfiguration | broker/entry_guard.go:37-57 | the cap is never under two fees, and the floor decides it exactly when the configured maximum is no more than two fees |
| EntryGuard.BudgetIsThreefold | broker/price.go:314-325 | the budget is three times the spread and both fees, whenever there is a spread |
| EntryGuard.CapIsTheTighter | broker/entry_guard.go:37-57 | the cap is the tighter of the maximum and a positive budget, lifted to two fees |
| EntryGuard.FeesAloneAreAllowed | broker/entry_guard.go:128-138 | equal entry and exit prices never trip the drag gate |
| EntryGuard.GateIsRecovery | broker/entry_guard.go:128-138 | the gate passes if and only if the net exit recovers all but the cap of the cost |
| BookModel.FaultIff | broker/book.go:490-503 | orders that meet no absent level are applied in full if and only if all of them decode |
| BookModel.AbsentIff | broker/book.go:505-592 | orders stop at an absent level if and only if a priced order that is reached takes from one; an order without a price is passed over |
| BookModel.OrdersConcat | broker/book.go:490-612 | applying orders in two batches is applying them in one, unless the first stops |
| BookModel.OrdersRestOnce | broker/book.go:538-560 | an order is dropped from its old level before it rests at a new one, so none rests at two prices |
| BookModel.EntryKeepsBooksOk | broker/book.go:426-643 | every entry keeps: a valid book whose last entry did not fault is verified, and one worker per request in flight |
| BookModel.AppliedIsVerifiedIff | broker/book.go:490-640 | an applied entry that leaves its book valid leaves it verified if and only if its orders decode |
| BookModel.FailedBookIsHiddenIff | broker/book.go:410-640 | after any entry its symbol is invalid if and only if it was skipped or diverged, that is failed other than by decoding; an applied book is kept as its orders left it, and an accepted one has the venue's checksum |
| BookModel.DivergedBookIsHidden | broker/book.go:612-640 | a snapshot with another checksum leaves a book that is kept and that no reader is shown |
| BookModel.FrameKeepsInvalid | broker/book.go:440-464 | a whole frame leaves an invalid symbol invalid and its book alone unless it is a snapshot naming it |
| BookModel.InvalidCountsDeltas | broker/book.go:440-448 | a frame of deltas counts every delta for an invalid symbol and changes nothing else about it |
| BookModel.RecoveryIsRequestedIff | broker/book.go:440-448 | a fresh snapshot is asked for exactly on divergence and on every hundredth dropped delta, when there is a hook |
| BookModel.AcceptedSnapshotIsShown | broker/book.go:462-475 | an accepted snapshot is neither stale nor invalid, so readers see it unless it is pending |
| BookModel.FrameKeepsStale | broker/book.go:462-464 | a frame leaves a stale symbol stale unless it is a snapshot naming it |
| BookModel.SnapshotFrameAcceptsAll | broker/book.go:644-656 | a snapshot frame applied to its end accepts all its entries in order |
| BookModel.Level3.Apply | broker/book.go:415-656 | the loop applies the entries in order and stops at the first failure |
| BookModel.FailureStops | broker/book.go:649-651 | entries after a failure are not applied |
| BookModel.Resubscribe | broker/book.go:680-699 | a request keeps one worker for each symbol in flight |
| Seeding.StoreKeepsInv | broker/book.go:88-97 | storing announced symbols while no delivery is committed to declaring readiness keeps the seeding invariant |
| Seeding.StepKeepsInv | broker/book.go:349-398 | every store, withdrawal, load, swap, count, look, declaration, delivery or outside event keeps the seeding invariant |
| Seeding.ReadyOnlyWhenSeeded | broker/book.go:88-398 | in every interleaving, with no announcement between its store and its withdrawal, the books are ready only after every announced symbol had an accepted snapshot; the pending set is always the announced set less the removals |
| Seeding.RemovalsAreKept | broker/book.go:351-369 | between announcements no racing delivery loses a removal |
| Seeding.ReadersSeeVerifiedBooks | broker/book.go:148-172 | in every run a book that Book, BlockReason or StaleSymbol lets through passed its last comparison unless its last entry faulted |
| Seeding.DecodingRunsNeverFault | broker/book.go:490-503 | when all frames decode no symbol is ever faulted |
| Seeding.OneRecoveryEach | broker/book.go:680-699 | in every run at most one recovery request per symbol is in flight |
| Seeding.OvertakenIffUntimely | broker/book.go:377-394 | after announcing a symbol never accepted some continuation is falsely ready if and only if a delivery was committed to declaring when it was announced |
| Seeding.OvertakenFromFresh | broker/book.go:377-394 | seven steps from new books that end falsely ready |
| Seeding.HiddenUntilSnapshot | broker/book.go:148-475 | in every run an invalid symbol stays invalid, its book unchanged and refused by all three readers, until a snapshot naming it is delivered |
| Seeding.StaleUntilSnapshot | broker/book.go:263-281 | in every run a symbol whose socket went down is refused by all three readers until a snapshot naming it is delivered |
| Seeding.PendingUntilSettled | broker/book.go:148-157 | in every run an announced symbol is refused by all three readers until a delivery settles it or others are announced |
| Seeding.ReadyWasLooked | broker/book.go:376-391 | the books become ready only by a delivery that counted nothing pending and then saw nothing stale, doing nothing else in between |
| Seeding.CountsOnceRemoved | broker/book.go:351-369 | in every run a delivery goes on to count only when its symbol has left the pending set |
| Seeding.DeliverySettlesIff | broker/book.go:345-350 | a delivery settles all its symbols in order exactly when its whole snapshot frame went through |
| Seeding.DeliverySettlesAll | broker/book.go:349-398 | undisturbed, a delivery takes exactly its symbols from the pending set and ends ready if nothing is then pending or stale |
| Seeding.RecoveryEnds | broker/book.go:680-699 | a finished recovery leaves no worker and room for the next request |
| Seeding.HookStays | broker/book.go:676-678 | a recovery hook once set stays set |
| Seeding.FaultIsShown | broker/book.go:490-503 | a snapshot that does not decode leaves a shown book that passed no comparison |
| Nonce.StepKeepsInv | kraken/nonce.go:73-84 | every load and swap keeps the issued values increasing and the high-water above them |
| Nonce.NoncesIncrease | kraken/nonce.go:46-84 | under every interleaving and any clocks nonces strictly increase, exceed the persisted high-water and every nonce issued before their call began, and are not behind the seeding clock |
| Nonce.FailureMeansProgress | kraken/nonce.go:74-83 | a swap fails only if another nonce was issued since the load; otherwise the nonce is the later of the caller's clock and one past the high-water |
| Nonce.FirstNonce | kraken/nonce.go:46-66 | the first nonce is the latest of the caller's clock, the seeding clock and one past the persisted high-water |
| StoplossModel.Stoploss.Update | broker/stoploss.go:74-110 | the method performs exactly one step of the stop's transition function |
| StoplossModel.Stoploss.Move | broker/stoploss.go:116-141 | the floor moves as the breathing function says |
| StoplossModel.EveryRunIsSafe | broker/stoploss.go:52-141 | over every mark sequence and pace: floor on or above the rail, protected floor at least 0, a live stop's marks above the rail and its last mark above its floor, the peak exact |
| StoplossModel.TriggeredIsAbsorbing | broker/stoploss.go:74-77 | once triggered nothing changes |
| StoplossModel.PhaseMeans | broker/stoploss.go:74-110 | when a mark triggers, protects or leaves the stop healthy, and what it remembers |
| StoplossModel.HealthMeans | broker/stoploss.go:168-183 | healthy, dangerous and critical by distance from floor, target and entry; a lower mark is never healthier |
| StoplossModel.FloorFollowsTheMark | broker/stoploss.go:129-140 | with a non-negative pace a falling mark never lowers the floor and a rising mark never raises the breathed floor |
| StoplossModel.FloorFallsBelowZeroIff | broker/stoploss.go:98-106 | a floor of at least 0 goes negative exactly on a rising mark under the target that widens by more than the floor |
| StoplossModel.ProtectedHoldsOneMark | broker/stoploss.go:98-106 | from a protected state the next mark keeps the floor at least 0 |
| StoplossModel.ProtectionLasts | broker/stoploss.go:36 | over every run after protection the floor is at least 0 as long as no mark rises at more than 1.5 times the pace of an earlier fall |
| StoplossModel.ConstantPaceKeepsProtection | broker/stoploss.go:36 | with any constant pace protection is never lost |
| StoplossModel.ProtectionRatioIsExact | broker/stoploss.go:116-141 | a pace ratio guarantees the protection over all stops and all runs from entry on if and only if it is at most 1.5 |
| StoplossModel.ProtectionCanBeLost | broker/stoploss.go:134-137 | three marks with positive paces after which a stop that was protected has its floor below 0 |
| TreeModel.WalkAgreesIff | strategy/tree.go:117-144 | the walk agrees on an action if and only if leaves naming none come first and all others name it |
| TreeModel.StoredLeavesDecide | strategy/tree.go:117-144 | the walk agrees on an action if and only if, among the stored leaves under the cut, some name it, none names another, and the keys of those naming none come first |
| TreeModel.StoredLeavesDisagree | strategy/tree.go:126-133 | disagreement is reported if and only if two leaves under the cut hold different actions and no action is agreed all the same |
| TreeModel.WalkDisagreesIff | strategy/tree.go:126-133 | when every leaf names an action the walk disagrees if and only if two leaves differ |
| TreeModel.WalkPrunes | strategy/tree.go:137-140 | an agreeing walk marks exactly the leaves above the threshold |
| TreeModel.WalkPrunesIff | strategy/tree.go:126-140 | when every leaf names an action, exactly the leaves above the threshold that name the first one's action are marked |
| TreeModel.AscendingIsUnique | strategy/tree.go:117-117 | the walk's key order is determined by the keys |
| TreeModel.WalkAverages | strategy/tree.go:142-144 | an agreeing walk averages exactly the leaves it keeps |
| TreeModel.KeptMean | strategy/tree.go:137-161 | the leaves averaged are those not above 0.8, once each, and the mean lies between their extremes |
| TreeModel.PredictionIsUnanimous | strategy/tree.go:100-169 | a named action is agreed by the leaves under the cut, by all of them when each names an action; none above the threshold survives, leaves outside are untouched, the resistance is the average kept |
| TreeRuns.RunTree | strategy/model.go:533-552 | after any sequence of seeds, updates, settlements and predictions from an empty tree the leaves and the log are those the calls give |
| TreeRuns.LeafIsSeedPlusSettlements | strategy/tree.go:174-241 | over every run a leaf holds 0.5 plus what each settlement since the call that seeded it moved it by, and that call's action |
| TreeRuns.LeafLearns | strategy/model.go:541-551 | over every run a leaf is 0.5 plus 0.05 for every losing path above it less 0.05 for every profitable one since it was seeded, plus the plain updates |
| TreeRuns.RunKeysAreLong | strategy/tree.go:200-214 | every key of a run has at least the minimum number of segments |
| TreeRuns.RunNames | strategy/tree.go:219-241 | every leaf of a run from an empty tree names an action |
| TreeRuns.PredictAfterRun | strategy/tree.go:96-169 | after any such run: when an action is named and which, its resistance, disagreement if and only if two leaves differ, and exactly which leaves are removed |
| TreeModel.UnknownActionIsPassedOver | strategy/tree.go:126-135 | a leaf with an unknown action met first does not stop another action being named |
| TreeModel.JoinedSlashes | strategy/tree.go:122-124 | the length filter never excludes a leaf under a long enough cut |
| TreeModel.PathLengthIsTokens | strategy/tree.go:122-124 | a path of slash-free tokens is long enough if and only if it has enough tokens |
| TreeModel.NamesAreRead | strategy/tree.go:28-39 | an action is read back from its name, and any other name is none |
| TreeModel.PrecedesMeans | strategy/tree.go:117-117 | a key comes before its extensions, and of two keys that part the one with the smaller character first |
| TreeModel.ResistanceIsSeedPlusDeltas | strategy/tree.go:174-241 | a live leaf of any log holds its seed plus every settlement whose path prefixes its key since it was seeded |
| TreeModel.Tree.Predict | strategy/tree.go:100-169 | the result is the conclusion of a walk in key order over the leaves under the cut; only marked leaves are removed, and the log gets one removal for each |
| TreeModel.Tree.Update | strategy/tree.go:174-195 | every leaf under the path moves by the delta, no other changes, and the log gets one settlement |
| TreeModel.Tree.SettleExit | strategy/model.go:533-552 | new paths are seeded, then every leaf moves once for each of the two paths above it; the log gets the seeds and both settlements |
| TreeModel.ProfitEasesLossStiffens | strategy/model.go:541-551 | for each of the two paths above a leaf a profitable close lowers it by 0.05 and any other raises it by 0.05 |
| TreeModel.Tree.Insert | strategy/tree.go:200-214 | a long enough path gets the decision and the ledger a seed |
| TreeModel.Tree.Ensure | strategy/tree.go:219-241 | a leaf is seeded once, with one seed in the log; an existing leaf keeps its resistance |
| PlainDecimal.TrimRejectsExactly | kraken/level3.go:146-148 | the trim test leaves something if and only if there is a non-digit |
| PlainDecimal.ReadingIsExact | kraken/level3.go:122-148 | a text is accepted exactly when the exponent is a machine integer and the mantissa has digits only, at least one |
| PlainDecimal.SpellingIsRead | kraken/level3.go:122-146 | every spelled-out sign, mantissa, letter and exponent is read as its parts |
| PlainDecimal.RenderingIsExact | kraken/level3.go:150-160 | the plain text denotes the same number and is the mantissa's digits with zeros at one end only |
| PlainDecimal.MachineRendersIff | kraken/level3.go:150-160 | the machine gives the plain spelling if and only if the position of the point and its negation fit a machine word |
| PlainDecimal.LargestExponentCrashes | kraken/level3.go:150-154 | 1e9223372036854775807 asks for a negative number of zeros |
| PlainDecimal.RewriteIsExact | kraken/level3.go:121-161 | a spelled-out scientific number is rewritten as the plain text of the same value and digits if and only if the position of the point fits |
| PlainDecimal.RewritingIsIdempotent | kraken/level3.go:121-161 | rewriting a rewritten text changes nothing |

## Left out

- Rule bodies are immutable sequences, not circular lists: nothing changes them after creation. Sharing of rule pointers with callers is not modelled.
- `lastRule`, `pendingLen` and `Flush`, `Symbols`, `Rules`, `TerminalsForRef`: easy readers and counters around the modelled state.
- Digram uniqueness and rule utility: the code does not keep them.
- Rule ids, segmenter ids and nonces beyond their machine width, and running out of memory for a very long text.
- Bit-identical replay after a restore: the pending sentence break is not saved and the rebuilt index may hold entries the live one had dropped.
- SequiturModel.Sequitur.Analyze: asks that no token is the internal form of a rule reference; Grammar.TokenIsLosslessIff shows that for such a token the result is false of the code.
- SequiturModel.Run: asks the same of its tokens, for the same reason.
- SequencerModel.Sequencer.StepOne: asks the same of its token, and that it is not empty, which StepPath sees to.
- SequencerModel.SaveRestoreRoundTrip: asks that no token in the root or a rule is spelled like a rule name; Grammar.SavedGrammarIsReadIff shows that otherwise root or rules are not read back.
- SequiturModel.Sequitur.RestoreRoot: asks for symbols the grammar knows, as every saved root holds.
- SequiturModel.Sequitur.Restore: starts from a new grammar and a state saved by a sound one, as its callers do.
- MdlModel.Mdl.Restore: asks for a histogram that agrees with its stream, as every saved memory has.
- NaN, infinities and rounding of floats in the segmenter, the stop and the tree. The segmenter's reported gain is not clamped to 1.
- Pricing.EntryCloseNow: its division is exact; the quantity is a parameter here and the desk's lot in Pricing.EntryCloseNowPct.
- Pricing.EntryCloseNowPct: the round trip divides exactly, and when it is known is said for an exact sizing division.
- Reasons for refusing a size, fee tables, tickers, spread, backing ratio and touch cash: lookups and plain sums.
- Order-level price levels inside the book library, touch reporting, diagnostics files, shutdown and a missing depth setting.
- Persistence of nonces and of tree leaves, the race between Ensure's look-up and its insert, and decisions shared between two paths.
- Desk, tier, position, transport, the signal nodes, the web front end and the scripts.
