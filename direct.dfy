/**
 * Forward chaining (`DirectReasoning`, src/direct_reasoning.rs).
 *
 * The state is the set of facts known so far, the rules not yet fired and the
 * rules fired so far, in firing order.  Each step fires at most one unused
 * rule whose requirements are all known.  The source picks that rule by
 * scanning a hash set, so the model picks *some* such rule.
 */
module Direct {
  import opened Facts
  import opened Coloring
  import opened Engines

  datatype StepResult = FoundAfter(rule: Rule, fact: Fact) | Found | Applied(rule: Rule) | NotProved

  /** Some unused rule matches the known facts (the `any`/`find` scan of the source). */
  predicate AnyFireable(unused: set<Rule>, current: set<Fact>)
  {
    exists r :: r in unused && MatchRequirement(r, current)
  }

  /** Colour of the target in update_hashmap. */
  function TargetLabel(current: set<Fact>, unused: set<Rule>, target: Fact): FactState
  {
    if target in current then FactState.TargetVisited
    else if !AnyFireable(unused, current) then FactState.TargetNotPossible
    else FactState.Target
  }

  /** The fact colours after update_hashmap, as the successive loops leave them. */
  function ForwardFacts(allFacts: seq<Fact>, starting: set<Fact>, current: set<Fact>,
                        unused: set<Rule>, target: Fact, fc: FactColors): FactColors
  {
    (fc + (map f | f in allFacts :: FactState.None)
        + (map f | f in current :: FactState.Visited)
        + (map f | f in starting :: FactState.Starting))[target := TargetLabel(current, unused, target)]
  }

  /** The rule colours after update_hashmap. */
  function ForwardRules(unused: set<Rule>, used: seq<Rule>, rc: RuleColors): RuleColors
  {
    rc + (map r | r in unused :: RuleState.None) + (map r | r in used :: RuleState.Visited)
  }

  /**
   * The snapshot of one fact: the target is TargetVisited once known, else
   * TargetNotPossible once no unused rule can fire, else Target; any other
   * fact is Starting, Visited or None by how it is known; entries for facts
   * outside the knowledge base are kept.
   */
  lemma ForwardFactsAt(allFacts: seq<Fact>, starting: set<Fact>, current: set<Fact>,
                       unused: set<Rule>, target: Fact, fc: FactColors, f: Fact)
    ensures var m := ForwardFacts(allFacts, starting, current, unused, target, fc);
      && (f in m <==> f == target || f in fc || f in allFacts || f in current || f in starting)
      && (f == target ==> (m[f] == FactState.TargetVisited <==> target in current))
      && (f == target ==> (m[f] == FactState.TargetNotPossible <==> target !in current && !AnyFireable(unused, current)))
      && (f == target ==> m[f] in {FactState.TargetVisited, FactState.TargetNotPossible, FactState.Target})
      && (f != target && f in starting ==> m[f] == FactState.Starting)
      && (f != target && f !in starting && f in current ==> m[f] == FactState.Visited)
      && (f != target && f !in current && f !in starting && f in allFacts ==> m[f] == FactState.None)
      && (f != target && f !in current && f !in starting && f !in allFacts && f in fc ==> m[f] == fc[f])
  {
  }

  /** Fired rules are Visited, unfired ones None, other entries kept. */
  lemma ForwardRulesAt(unused: set<Rule>, used: seq<Rule>, rc: RuleColors, r: Rule)
    ensures var m := ForwardRules(unused, used, rc);
      && (r in m <==> r in rc || r in unused || r in used)
      && (r in used ==> m[r] == RuleState.Visited)
      && (r !in used && r in unused ==> m[r] == RuleState.None)
      && (r !in used && r !in unused && r in rc ==> m[r] == rc[r])
  {
  }

  /** Exporting the fact snapshot twice without a step in between changes nothing. */
  lemma ForwardFactsIdempotent(allFacts: seq<Fact>, starting: set<Fact>, current: set<Fact>,
                               unused: set<Rule>, target: Fact, fc: FactColors)
    ensures ForwardFacts(allFacts, starting, current, unused, target,
                         ForwardFacts(allFacts, starting, current, unused, target, fc))
         == ForwardFacts(allFacts, starting, current, unused, target, fc)
  {
    var m := ForwardFacts(allFacts, starting, current, unused, target, fc);
    var m2 := ForwardFacts(allFacts, starting, current, unused, target, m);
    assert m2.Keys == m.Keys;
    forall f | f in m ensures m2[f] == m[f] {
      ForwardFactsAt(allFacts, starting, current, unused, target, fc, f);
      ForwardFactsAt(allFacts, starting, current, unused, target, m, f);
    }
  }

  /** Exporting the rule snapshot twice without a step in between changes nothing. */
  lemma ForwardRulesIdempotent(unused: set<Rule>, used: seq<Rule>, rc: RuleColors)
    ensures ForwardRules(unused, used, ForwardRules(unused, used, rc)) == ForwardRules(unused, used, rc)
  {
    var n := ForwardRules(unused, used, rc);
    var n2 := ForwardRules(unused, used, n);
    assert n2.Keys == n.Keys;
    forall r | r in n ensures n2[r] == n[r] {
      ForwardRulesAt(unused, used, rc, r);
      ForwardRulesAt(unused, used, n, r);
    }
  }

  /**
   * The forward-chaining invariant: fired and unfired rules partition the
   * rules, no rule fires twice (the counts add up to the number of distinct
   * rules), the known facts are the starting facts plus the outputs fired so
   * far, and the fired rules replay from the starting facts in firing order.
   */
  ghost predicate Consistent(starting: set<Fact>, allRules: seq<Rule>, current: set<Fact>,
                             used: seq<Rule>, unused: set<Rule>)
  {
    && (set r | r in used) !! unused
    && (set r | r in used) + unused == (set r | r in allRules)
    && |used| + |unused| == |set r | r in allRules|
    && current == starting + Outs(used)
    && IsDerivation(starting, used)
  }

  /** Firing an unused rule that matches keeps the invariant. */
  lemma FireConsistent(starting: set<Fact>, allRules: seq<Rule>, current: set<Fact>,
                       used: seq<Rule>, unused: set<Rule>, r: Rule)
    requires Consistent(starting, allRules, current, used, unused)
    requires r in unused && MatchRequirement(r, current)
    ensures Consistent(starting, allRules, current + {r.out}, used + [r], unused - {r})
  {
    DerivationSnoc(starting, used, r);
    assert (set x | x in used + [r]) == (set x | x in used) + {r};
    assert |unused - {r}| == |unused| - 1;
  }

  class DirectReasoning {
    const allFacts: seq<Fact>
    const startingFacts: set<Fact>
    const allRules: seq<Rule>
    var currentFacts: set<Fact>
    const targetFact: Fact
    var usedRules: seq<Rule>
    var unusedRules: set<Rule>

    /** The forward-chaining invariant on the current fields (see Consistent). */
    ghost predicate Valid()
      reads this
    {
      Consistent(startingFacts, allRules, currentFacts, usedRules, unusedRules)
    }

    /** DirectReasoning::new: nothing known beyond the starting facts, every rule unused. */
    constructor (engine: Engine, target: Fact)
      ensures Valid()
      ensures allFacts == engine.allPossibleFacts && allRules == engine.rules
      ensures startingFacts == engine.startingFacts && targetFact == target
      ensures currentFacts == engine.startingFacts
      ensures unusedRules == (set r | r in engine.rules) && usedRules == []
    {
      startingFacts := engine.startingFacts;
      allFacts := engine.allPossibleFacts;
      allRules := engine.rules;
      currentFacts := engine.startingFacts;
      targetFact := target;
      usedRules := [];
      unusedRules := set r | r in engine.rules;
    }

    /**
     * DirectReasoning::step.  Found when the target is already known; otherwise
     * fires one unused matching rule, adding its output and moving it to the
     * end of the fired rules; NotProved, with nothing changed, when none matches.
     */
    method Step() returns (res: StepResult)
      requires Valid()
      modifies this
      ensures Valid()
      ensures res == Found <==> old(targetFact in currentFacts)
      ensures res == NotProved <==> old(targetFact !in currentFacts && !AnyFireable(unusedRules, currentFacts))
      ensures res.Found? || res.NotProved? ==>
        currentFacts == old(currentFacts) && unusedRules == old(unusedRules) && usedRules == old(usedRules)
      ensures res.Applied? || res.FoundAfter? ==>
        && res.rule in old(unusedRules)
        && MatchRequirement(res.rule, old(currentFacts))
        && currentFacts == old(currentFacts) + {res.rule.out}
        && unusedRules == old(unusedRules) - {res.rule}
        && usedRules == old(usedRules) + [res.rule]
        && (res.FoundAfter? <==> res.rule.out == targetFact)
      ensures res.FoundAfter? ==> res.fact == targetFact
    {
      if targetFact in currentFacts {
        return Found;
      }
      if r :| r in unusedRules && MatchRequirement(r, currentFacts) {
        var f := r.out;
        assert AnyFireable(unusedRules, currentFacts);
        FireConsistent(startingFacts, allRules, currentFacts, usedRules, unusedRules, r);
        currentFacts, unusedRules, usedRules := currentFacts + {f}, unusedRules - {r}, usedRules + [r];
        if f == targetFact {
          return FoundAfter(r, f);
        } else {
          return Applied(r);
        }
      }
      return NotProved;
    }

    /**
     * DirectReasoning::try_find: steps until a result other than Applied, then
     * takes one more step, which changes nothing.  Only rules that were unused
     * are fired, each once, so at most |old unused| rules fire.
     */
    method TryFind() returns (res: StepResult)
      requires Valid()
      modifies this
      ensures Valid()
      ensures !res.Applied?
      ensures res == Found <==> old(targetFact in currentFacts)
      ensures res == Found ==> currentFacts == old(currentFacts) && usedRules == old(usedRules)
      ensures res.FoundAfter? ==> res.fact == targetFact && targetFact in currentFacts
                                  && usedRules != [] && usedRules[|usedRules| - 1] == res.rule
      ensures res.FoundAfter? ==> res.rule.out == targetFact && res.rule in old(unusedRules)
                                  && res.rule !in unusedRules
      ensures res == NotProved ==> targetFact !in currentFacts && !AnyFireable(unusedRules, currentFacts)
      ensures old(usedRules) <= usedRules
      ensures |usedRules| - |old(usedRules)| <= |old(unusedRules)|
      ensures unusedRules <= old(unusedRules)
      ensures old(currentFacts) <= currentFacts
    {
      ghost var unused0 := unusedRules;
      while true
        invariant Valid()
        invariant old(usedRules) <= usedRules
        invariant unusedRules <= unused0
        invariant |usedRules| - |old(usedRules)| == |unused0| - |unusedRules|
        invariant old(currentFacts) <= currentFacts
        invariant old(targetFact in currentFacts) <==> targetFact in currentFacts
        invariant old(targetFact in currentFacts) ==> currentFacts == old(currentFacts) && usedRules == old(usedRules)
        decreases |unusedRules|
      {
        var t := Step();
        if !t.Applied? {
          StepSettled();
          return t;
        }
      }
    }

    /** The extra step try_find takes once the search has settled: it changes nothing. */
    method StepSettled()
      requires Valid()
      requires targetFact in currentFacts || !AnyFireable(unusedRules, currentFacts)
      modifies this
      ensures Valid()
      ensures currentFacts == old(currentFacts) && unusedRules == old(unusedRules) && usedRules == old(usedRules)
    {
      var _ := Step();
    }

    /** DirectReasoning::update_hashmap: the colour snapshot of the current state. */
    method UpdateHashmap(fc: FactColors, rc: RuleColors) returns (fc': FactColors, rc': RuleColors)
      ensures fc' == ForwardFacts(allFacts, startingFacts, currentFacts, unusedRules, targetFact, fc)
      ensures rc' == ForwardRules(unusedRules, usedRules, rc)
    {
      fc' := InsertSeq(fc, allFacts, FactState.None);
      fc' := InsertSet(fc', currentFacts, FactState.Visited);
      fc' := InsertSet(fc', startingFacts, FactState.Starting);
      if targetFact in currentFacts {
        fc' := fc'[targetFact := FactState.TargetVisited];
      } else if !(exists r :: r in unusedRules && MatchRequirement(r, currentFacts)) {
        fc' := fc'[targetFact := FactState.TargetNotPossible];
      } else {
        fc' := fc'[targetFact := FactState.Target];
      }
      rc' := InsertSet(rc, unusedRules, RuleState.None);
      rc' := InsertSeq(rc', usedRules, RuleState.Visited);
    }
  }

  /**
   * Forward soundness: in any valid state, every known fact is a starting fact
   * or is produced by replaying the fired rules, in order, from the starting facts.
   */
  lemma ForwardSound(d: DirectReasoning, f: Fact)
    requires d.Valid()
    requires f in d.currentFacts
    ensures f in d.startingFacts || exists i :: 0 <= i < |d.usedRules| && d.usedRules[i].out == f
    ensures IsDerivation(d.startingFacts, d.usedRules)
  {
  }
}
