# A verified model of a production-rule reasoning engine

This project models the reasoning core of a small production-rule engine
written in Rust. It is written in Dafny, and its members are specified by
contracts for Dafny's verifier. The engine has four parts:

- **Facts and rules** (`Facts`). A fact is a symbol or a tuple of facts. A rule
  turns an ordered list of required facts into one output fact. A rule matches
  a fact set when every requirement is in the set.
- **The knowledge base** (`Engines`). An engine holds the enumerated facts, the
  starting facts and the rules. It also has the hard-coded crafting example
  (oak_wood → oak_planks → stick, and oak_planks + stick → wooden_pickaxe), and
  the "reset" colouring that `recolor_node` writes.
- **Forward chaining** (`Direct`). The class `DirectReasoning` holds the known
  facts, the unused rules and the fired rules. `Step` fires one matching unused
  rule. `TryFind` steps until something other than `Applied` comes back.
  `UpdateHashmap` exports the colour snapshot.
- **Backward chaining** (`AndOr`, `Reverse`). `AndOr` defines the AND/OR search
  tree as values, plus these specification functions:
  - `Iterate`: one evaluation pass over the tree, as `rec_iterate` does it.
  - `Run`: passes repeated until the tree settles.
  - `AppliedRules`: the rules collected from a tree.
  - `Paint`: the colours written for a tree.

  Lemmas prove what a pass does to each kind of node. They also prove that
  passes keep the tree sound and acyclic, and that a measure strictly decreases
  on every pass that leaves the root Potential, so the search ends. They
  prove that a proved root yields a derivation of the target that uses only
  the engine's rules (soundness).
  They also prove that a search ending `NotProved` means no sequence of the
  engine's rules derives the target from the starting facts (completeness).
  Completeness holds because an expansion removes only the producers of the
  goal being expanded from its branch. A derivation can always be cut before
  its first producer of that goal, so such a cut derivation never needs those
  rules below the goal. As `build_tree` never returns `Iterated`, it returns
  `Found` exactly when the target is derivable with the engine's rules.

  The module `Reverse` and its class `ReverseReasoning` implement `new`,
  `rec_iterate`, `step`, `build_tree`, `recolor`, `rec_recoloring` and
  `get_applied_rules` with loops and methods; `rec_recoloring` and the
  collector of `get_applied_rules` are module-level methods of `Reverse`. Each
  method is proved equal to the matching specification function.

`Scenario` traces the crafting example through both strategies:
- Forward chaining fires r1, r2, then r3, and finds the pickaxe.
- Backward chaining takes four passes, each written out as a tree, and ends
  `Found`. Its applied rules are r1, r2, r3, after the repeated r1 is dropped.

The "known facts" of forward chaining and the rules reported by backward
chaining are both tied to `Facts.IsDerivation`. That predicate says the rules
can be replayed in order from the starting facts, each one matching what has
been produced before it.

In three places the code does something other than one might expect, and the model follows the code:

- **Rule choice in `step`.** `step` fires a rule found by iterating the hash set
  of unused rules (src/direct_reasoning.rs:89-92). It does not take the first
  rule in enumeration order. `Direct.DirectReasoning.Step` therefore fires *some*
  unused matching rule.
- **Dead-ended goals.** One might expect a goal with no available producer to
  become a DeadEnd leaf. It returns `DeadEnd`, but it stays a `FactToProve`
  node (src/reverse_reasoning.rs:267-271). No DeadEnd leaf is ever built. A knowledge base without a producer for the target leaves
  the root as `FactToProve` and makes `step` return `NotProved`, provided the
  target is not a starting fact.
- **Target colour after recolor.** One might expect only a Found Or/And root to
  mark the target `TargetVisited`. The target is also `TargetVisited` when the
  root is `ProvenFact(target)` (src/reverse_reasoning.rs:112-117), not only when
  the root is a Found Or/And node for it.

The specification functions that the contracts below are stated against,
and the source each one follows:

- `Facts.MatchRequirement`, `Facts.AllKnown`: `match_requirement` (src/fact.rs:16-18).
- `Facts.FactToString`, `Facts.ListToString`, `Facts.RuleToString`: the two `Display` impls (src/fact.rs:35-57).
- `Facts.IsDerivation`, `Facts.Derivable`: what "the rules can be replayed" means; they have no counterpart in the source.
- `Engines.ResetFacts`, `Engines.ResetRules`: `recolor_node` (src/engine.rs:126-141).
- `Direct.ForwardFacts`, `Direct.ForwardRules`: `update_hashmap` (src/direct_reasoning.rs:44-73).
- `AndOr.ReversedIndex`, `AndOr.RulesFor`: the index built by `ReverseReasoning::new` (src/reverse_reasoning.rs:30-42).
- `AndOr.Iterate`, `AndOr.ScanOr`, `AndOr.ScanAnd`, `AndOr.Expand`, `AndOr.Candidates`: `rec_iterate` (src/reverse_reasoning.rs:172-278).
- `AndOr.Run`: the loop of `build_tree` (src/reverse_reasoning.rs:70-78).
- `AndOr.AppliedRules`, `AndOr.RootRules`: `get_applied_rules_unfiltered` and `get_applied_rules_rec` (src/reverse_reasoning.rs:291-340).
- `AndOr.Dedup`: the filter of `get_applied_rules` that drops repeats (src/reverse_reasoning.rs:279-290).
- `AndOr.Paint`, `AndOr.PaintAll`: `rec_recoloring` (src/reverse_reasoning.rs:127-170).
- `Reverse.Recolored`: `recolor` (src/reverse_reasoning.rs:79-126).

## Model

| member | source | states |
|---|---|---|
| Facts.NewFact | src/fact.rs:30-32 | `CoreFact::new(s)` is the symbol `s` |
| Facts.NewRule | src/fact.rs:19-21 | the requirements are kept in iterator order, element by element, and the output is kept unchanged |
| Facts.AllKnown | src/fact.rs:16-18 | the front-to-back `all` scan holds iff every requirement is in the set |
| Facts.MatchRequirementIff | src/fact.rs:16-18 | a rule matches exactly the sets containing the set of its requirements; a rule with no requirements matches every set |
| Facts.MatchMonotone | src/fact.rs:16-18 | if a rule matches S, it matches every superset of S |
| Facts.RuleEquality | src/fact.rs:9-13 | two rules are equal iff they have the same requirement list and the same output (derived structural equality) |
| Facts.DerivationSnoc | src/direct_reasoning.rs:94-98 | appending a rule that matches what a derivation has produced gives a derivation, and adds exactly that rule's output |
| Facts.DerivationConcat | src/reverse_reasoning.rs:317-319 | two derivations from the same start, replayed one after the other, form a derivation producing both sets of outputs |
| Facts.ListToStringAppend | src/fact.rs:39-45 | rendering a concatenated list gives the concatenation of the two renderings |
| Facts.ListToStringSnoc | src/fact.rs:41-43 | every element, the last one included, is followed by ", " |
| Facts.RuleToStringShape | src/fact.rs:49-56 | a rendered rule is "{", then the rendered requirement list (each requirement followed by ", "), then "} -> " and the rendered output |
| Coloring.InsertSet | src/direct_reasoning.rs:51-53 | inserting `v` for each key of a set gives the old map overridden by `v` on exactly those keys |
| Coloring.InsertSeq | src/direct_reasoning.rs:48-50 | inserting `v` for each key of a sequence gives the old map overridden by `v` on exactly those keys |
| Engines.NewEngine | src/engine.rs:81-83 | the three arguments are stored unchanged |
| Engines.PrimitiveEngine | src/engine.rs:20-34 | the example engine enumerates oak_planks, oak_wood, stick, wooden_pickaxe in that order, starts from {oak_wood}, has exactly the rules r1 = {oak_wood} -> oak_planks, r2 = {oak_planks} -> stick, r3 = {oak_planks, stick} -> wooden_pickaxe, and is closed (every mentioned fact is enumerated) |
| Engines.RecolorNode | src/engine.rs:126-141 | the loops give exactly the reset snapshot: facts reset, rules reset, target marked |
| Engines.ResetEnumerated | src/engine.rs:127-134 | each enumerated fact becomes Starting when it is a starting fact, None otherwise, and other entries stay |
| Engines.ResetFactsAt | src/engine.rs:126-141 | a given target is Target, which overrides Starting; other enumerated facts are Starting or None; other entries are kept; with no target, no Target entry is added |
| Engines.ResetRulesAt | src/engine.rs:135-137 | every rule becomes None and other entries are kept |
| Engines.ResetIdempotent | src/engine.rs:126-141 | resetting twice gives the same colours as resetting once |
| Direct.ForwardFactsAt | src/direct_reasoning.rs:48-67 | the target is TargetVisited iff known; TargetNotPossible iff unknown with no unused rule matching; Target otherwise; other facts are Starting, then Visited, then None by how they are known; other entries kept |
| Direct.ForwardRulesAt | src/direct_reasoning.rs:68-73 | fired rules are Visited, unfired ones None, other entries kept |
| Direct.ForwardFactsIdempotent | src/direct_reasoning.rs:44-67 | exporting the fact snapshot twice in the same state changes nothing |
| Direct.ForwardRulesIdempotent | src/direct_reasoning.rs:68-73 | exporting the rule snapshot twice in the same state changes nothing |
| Direct.FireConsistent | src/direct_reasoning.rs:94-98 | firing an unused matching rule keeps the invariant: used and unused partition the rules, no rule fires twice, known facts are the starting facts plus the outputs fired, and the fired rules replay |
| Direct.DirectReasoning.constructor | src/direct_reasoning.rs:32-43 | the known facts are the starting facts, every rule is unused, none is fired, and the invariant holds |
| Direct.DirectReasoning.Step | src/direct_reasoning.rs:85-106 | Found iff the target was known, with nothing changed; otherwise an unused matching rule is fired, its output added, and the rule moved to the end of the fired rules, giving FoundAfter iff it produced the target and Applied otherwise; NotProved iff nothing could fire, with nothing changed |
| Direct.DirectReasoning.TryFind | src/direct_reasoning.rs:75-84 | never returns Applied; Found iff the target was already known; at most as many rules fire as were unused; NotProved leaves no fireable rule; on FoundAfter the returned rule was unused, produces the target and is the last one fired; the known facts only grow |
| Direct.DirectReasoning.StepSettled | src/direct_reasoning.rs:80 | once the target is known or no unused rule matches, the extra step keeps every field as it was |
| Direct.DirectReasoning.UpdateHashmap | src/direct_reasoning.rs:44-74 | the colours written are exactly the forward snapshot of the current state |
| Direct.ForwardSound | src/direct_reasoning.rs:94-98 | every known fact is a starting fact or the output of a fired rule, and the fired rules replay in firing order |
| AndOr.RulesForMembers | src/reverse_reasoning.rs:33-42 | a fact's list holds exactly the rules producing it, and is no longer than the rule list |
| AndOr.RulesForSnoc | src/reverse_reasoning.rs:33-41 | adding a rule appends it to the list of its own output and leaves every other list as it was |
| AndOr.ReversedIndexAt | src/reverse_reasoning.rs:30-42 | the index has an entry exactly for the produced facts, and each entry is non-empty and lists exactly that fact's producers |
| AndOr.ReversedIndexSnoc | src/reverse_reasoning.rs:34-41 | one loop turn pushes the rule onto its output's list, or starts that list |
| AndOr.IndexBounded | src/reverse_reasoning.rs:30-42 | every rule listed for a fact produces it, and each list carries no more requirements in total than all the rules together |
| AndOr.FilterAvailableMembers | src/reverse_reasoning.rs:229-232 | the filter keeps exactly the listed rules that are still available, and carries no more requirements than the list |
| AndOr.ExpandShape | src/reverse_reasoning.rs:233-265 | expansion gives an Or node with one And child per candidate, in order, each with one FactToProve goal per requirement; every new node's rules are the parent's minus all candidates, a strictly smaller set |
| AndOr.IterateFinal | src/reverse_reasoning.rs:174-177 | a Found or DeadEnd Or/And node, and a ProvenFact leaf, is returned unchanged with its own status |
| AndOr.IterateGoal | src/reverse_reasoning.rs:220-273 | a goal that is a starting fact becomes ProvenFact with the same rules and is Found; a goal with no available producer is DeadEnd and left unchanged; otherwise it is expanded over its available producers and stays Potential |
| AndOr.ScanOrMeaning | src/reverse_reasoning.rs:178-189 | the Or loop finds iff some child is found, and then keeps only the first found child; otherwise every child is rewritten, and all died iff every child died |
| AndOr.ScanAndMeaning | src/reverse_reasoning.rs:204-214 | the And loop dies iff some child dies; children up to the first dead one are rewritten and the later ones untouched; with no dead child, all are found iff every child is found |
| AndOr.IterateOr | src/reverse_reasoning.rs:174-199 | a Potential Or node becomes Found, with only the first found child left, iff some child is found; it becomes DeadEnd iff every child died, including when it has none |
| AndOr.IterateAnd | src/reverse_reasoning.rs:200-219 | a Potential And node becomes DeadEnd at its first dead child, later children untouched; it becomes Found iff every child is found, including when it has none |
| AndOr.ExpandMeasure | src/reverse_reasoning.rs:234-240 | an expansion weighs strictly less than the goal it replaces, because its rule set lost a candidate |
| AndOr.MeasureIterate | src/reverse_reasoning.rs:172-278 | a pass never increases the measure, and strictly decreases it whenever it reports Potential, so build_tree's loop ends |
| AndOr.RunSettles | src/reverse_reasoning.rs:70-78 | repeating passes ends: the settled result is never Potential, and a Potential pass leaves the settled result unchanged |
| AndOr.SoundExpand | src/reverse_reasoning.rs:228-266 | a fresh expansion is sound: each And node's rule produces the goal, and its children are its requirements in order |
| Facts.DerivableProducer | src/reverse_reasoning.rs:233-240 | a derivable fact that is not given has a producer whose requirements are all derivable without any producer of that fact, which is why the expansion may drop every candidate from the branch |
| AndOr.InitialRoot | src/reverse_reasoning.rs:30-54 | the starting root, the target as a goal with every rule, meets the soundness, acyclicity, engine-rules-only and completeness invariants over a sound, complete and bounded index |
| AndOr.ReversedIndexComplete | src/reverse_reasoning.rs:30-42 | every rule is listed in the index under its own output |
| AndOr.NoCandidateUnderivable | src/reverse_reasoning.rs:267-272 | a goal that is not a starting fact and has no available producer cannot be derived with its branch's rules |
| AndOr.HonestExpand | src/reverse_reasoning.rs:228-266 | an expansion keeps every non-producer of the goal on the branch and has an And child for every available producer |
| AndOr.OrDeadUnderivable | src/reverse_reasoning.rs:191-196 | an Or node whose children all died is for a fact that cannot be derived with its goal's rules |
| AndOr.HonestIterate | src/reverse_reasoning.rs:172-278 | a pass keeps every dead end justified: a DeadEnd report means the goal (or an And node's requirement) cannot be derived |
| AndOr.RunComplete | src/reverse_reasoning.rs:70-78 | a settled search that ends DeadEnd for a goal means the goal cannot be derived from the starting facts with its rules |
| AndOr.SoundIterate | src/reverse_reasoning.rs:172-278 | a pass keeps the tree sound, keeps each node's fact and kind, and reports Found exactly when the rewritten node is proved |
| AndOr.AcyclicIterate | src/reverse_reasoning.rs:234-265 | a pass keeps every branch free of repeated rules and never widens a node's rule set |
| AndOr.WithinIterate | src/reverse_reasoning.rs:172-278 | a pass brings in no rule from outside a given rule set: every node's rules and every And node's rule stay in it |
| AndOr.ProofDerives | src/reverse_reasoning.rs:313-340 | the rules collected from a proved subtree, in post-order, replay from the starting facts and produce the subtree's fact |
| AndOr.BackwardSound | src/reverse_reasoning.rs:291-312 | once the root for the target is proved, the reported rules replay from the starting facts and produce the target; a ProvenFact root reports no rule |
| AndOr.WithinApplied | src/reverse_reasoning.rs:313-340 | every rule collected from a tree that stays within a rule set belongs to that set |
| AndOr.ProvedDerivable | src/reverse_reasoning.rs:291-340 | a proved root for the target, in a tree within a rule set, shows the target derivable from the starting facts with rules of that set |
| AndOr.AppliedMembers | src/reverse_reasoning.rs:321-333 | a rule is collected iff some And node of the subtree has it and is Found, or is Potential outside a final proof; DeadEnd nodes never contribute |
| AndOr.AppliedMembersAll | src/reverse_reasoning.rs:316-320 | a rule is collected from the children iff one of them contributes it |
| AndOr.DedupMeaning | src/reverse_reasoning.rs:279-290 | dropping repeats keeps exactly the same rules, each once |
| AndOr.DedupOrder | src/reverse_reasoning.rs:279-290 | the kept rules appear in the order of their first occurrences in the unfiltered list |
| AndOr.DedupDerivation | src/reverse_reasoning.rs:279-290 | dropping repeats keeps a derivation a derivation with the same outputs |
| AndOr.PaintFrame | src/reverse_reasoning.rs:127-170 | painting writes exactly the tree's facts and rules and keeps every other entry; an Or/And node's fact (and an And node's rule) gets the label of its status, and a goal is Visited |
| AndOr.PaintAllFrame | src/reverse_reasoning.rs:134-136 | painting the children writes exactly their facts and rules and keeps every other entry |
| AndOr.PaintIndep | src/reverse_reasoning.rs:127-170 | the colours painting leaves on the tree's own facts and rules are the same whatever maps it starts from |
| AndOr.PaintAllIndep | src/reverse_reasoning.rs:134-136 | the colours painting the children leaves on their facts and rules are the same whatever maps it starts from |
| Reverse.StepOutcome | src/reverse_reasoning.rs:64-68 | Iterated iff Potential, Found iff Found, NotProved iff DeadEnd |
| Reverse.ClearFactsAt | src/reverse_reasoning.rs:83-85 | the enumerated facts become None and other entries stay |
| Reverse.ClearRulesAt | src/reverse_reasoning.rs:86-88 | the enumerated rules become None and other entries stay |
| Reverse.MarkFactsAt | src/reverse_reasoning.rs:90-125 | the target gets its label, the other starting facts are Starting, and the rest is kept |
| Reverse.RecoloredFactsAt | src/reverse_reasoning.rs:79-125 | after recolor the target is TargetVisited iff the root proves it, and Target otherwise; other starting facts are Starting; other tree facts carry the tree's colour; the remaining enumerated facts are None; foreign entries are kept |
| Reverse.RecoloredRulesAt | src/reverse_reasoning.rs:86-89 | after recolor the tree's rules carry the tree's colour, other enumerated rules are None, and foreign entries are kept |
| Reverse.RecoloredTreeIndep | src/reverse_reasoning.rs:79-126 | the colours recolor gives the tree's facts and rules do not depend on the maps it is given |
| Reverse.RecoloredIdempotent | src/reverse_reasoning.rs:79-126 | recolouring the maps a recolor produced, on the same tree, gives the same maps back |
| Reverse.MarkTarget | src/reverse_reasoning.rs:94-125 | the match on the root writes exactly the target's label |
| Reverse.RecRecoloring | src/reverse_reasoning.rs:127-170 | the recursive walk writes exactly the tree's paint |
| Reverse.PaintChildren | src/reverse_reasoning.rs:134-136 | the loop over the children writes exactly their paint, in order |
| Reverse.CollectApplied | src/reverse_reasoning.rs:313-340 | the recursive collector returns exactly the subtree's applied rules |
| Reverse.CollectChildren | src/reverse_reasoning.rs:317-319 | the append loop returns exactly the children's applied rules, in order |
| Reverse.ReverseReasoning.constructor | src/reverse_reasoning.rs:30-54 | the loop builds exactly the reversed index; the root is a goal for the target with every rule available; the search invariant holds |
| Reverse.ReverseReasoning.RecIterate | src/reverse_reasoning.rs:172-278 | the in-place pass returns exactly the status and rewritten subtree of one evaluation pass |
| Reverse.ReverseReasoning.IterateOrChildren | src/reverse_reasoning.rs:174-199 | the Or loop, with its dead-child count and early stop, gives exactly the Or pass |
| Reverse.ReverseReasoning.IterateAndChildren | src/reverse_reasoning.rs:200-219 | the And loop, with its found-child count and early return, gives exactly the And pass |
| Reverse.ReverseReasoning.Step | src/reverse_reasoning.rs:55-69 | the root is replaced by its one-pass rewrite, the invariant is kept, the outcome is the pass's status, Found holds iff the new root is proved, Found only when the target is derivable with the engine's rules, and NotProved only when it is not |
| Reverse.ReverseReasoning.BuildTree | src/reverse_reasoning.rs:70-78 | the loop ends on the settled tree, its result is not Iterated, Found holds iff the root is proved and iff the target is derivable from the starting facts with the engine's rules, NotProved only when it is not, and the colours are exactly the recolor snapshot |
| Reverse.ReverseReasoning.Recolor | src/reverse_reasoning.rs:79-126 | the loops and the final match write exactly the recolor snapshot |
| Reverse.ReverseReasoning.GetAppliedRulesUnfiltered | src/reverse_reasoning.rs:291-312 | the collector is run in final mode exactly when the root is a Found Or/And node for the target |
| Reverse.ReverseReasoning.GetAppliedRules | src/reverse_reasoning.rs:279-290 | the rules come without repeats, in first-seen order (AndOr.DedupOrder), with the same members as the unfiltered list, and all are engine rules; once the root is proved they replay from the starting facts and produce the target |
| Scenario.ExampleMatches | src/engine.rs:28-32 | r1 and only r1 matches {oak_wood}; then r2 but not r3 matches; then r3 matches |
| Scenario.FireOnly | src/direct_reasoning.rs:85-106 | when one unused rule is the only one that can fire, step fires that rule |
| Scenario.ForwardRest | src/direct_reasoning.rs:85-106 | with oak_planks known, the next steps give Applied(r2), FoundAfter(r3, wooden_pickaxe), then Found |
| Scenario.ForwardExample | src/engine.rs:20-34 | forward chaining on the example gives Applied(r1), Applied(r2), FoundAfter(r3, wooden_pickaxe), then Found |
| Scenario.ExampleIndex | src/reverse_reasoning.rs:33-42 | the example's index maps oak_planks to [r1], stick to [r2] and wooden_pickaxe to [r3] |
| Scenario.Pass1 | src/reverse_reasoning.rs:228-266 | the first pass expands the target into the single alternative oak_planks + stick |
| Scenario.Pass2 | src/reverse_reasoning.rs:200-219 | the second pass expands both requirements |
| Scenario.Pass3 | src/reverse_reasoning.rs:174-199 | the third pass proves the first oak_planks from oak_wood, and expands the oak_planks under stick with no rule left |
| Scenario.Pass4 | src/reverse_reasoning.rs:172-219 | the fourth pass proves the inner oak_planks, then stick, then the target |
| Scenario.ExampleRun | src/reverse_reasoning.rs:70-78 | the settled search on the example is Found, with the tree of the fourth pass |
| Scenario.ExampleRules | src/reverse_reasoning.rs:313-340 | the final tree reports r1, r1, r2, r3 |
| Scenario.ExampleDedup | src/reverse_reasoning.rs:279-290 | dropping the repeat leaves r1, r2, r3 |
| Scenario.BackwardExample | src/reverse_reasoning.rs:70-78 | on the example, build_tree returns Found and get_applied_rules returns r1, r2, r3 |

## Left out

- `NodeInfo::Empty` and the `mem::swap` around it (src/reverse_reasoning.rs:57-63) are left out. They only park the root while it is rewritten. The node datatype has no `Empty` case, so the `unreachable!()` arms do not exist.
- In-place mutation of the tree is not modelled at the memory level. `*node = …`, the status fields, and `drain`/`clear`/`push` on child vectors are all modelled by `RecIterate` returning the rewritten node, which `Step` stores as the new root. Sharing of the `available_rules` sets through `Arc` is not modelled either; each node holds its own set value.
- The colour maps are shared through `Arc<RwLock<…>>` in the source. Here each operation takes and returns plain map values. Locking and the concurrent renderer are not modelled.
- Hash-set iteration order is not modelled. `DirectReasoning.Step` fires any unused matching rule, and `InsertSet` visits the keys in any order. Only the resulting map matters there.
- The `Display` impls are modelled as pure string functions. Writing into a `Formatter` and its `fmt::Error` result are not modelled.
- `Engine::to_graph`, the petgraph/egui graph and its layout (src/engine.rs:84-125), are left out: they are presentation only.
- `Engine::from_string` (src/engine.rs:35-80) is left out, because its behaviour is defined by regular-expression captures. Engines are built with `NewEngine` instead.
- `try_direct_output` and `try_reverse_output` (src/engine.rs:142-154) are unfinished dead code (`todo!()`), and are left out.
- src/ruletree.rs is never used by the core, and src/main.rs is the user interface and file I/O. Neither is part of this model.
- `Engines.Closed`, the knowledge-base invariant, is stated and proved for the example only. The source never checks it, so `NewEngine` does not require it.
