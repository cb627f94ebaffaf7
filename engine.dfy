/**
 * The knowledge base (`Engine`, src/engine.rs): the enumerated universe of
 * facts, the chosen starting facts and the rules, plus the "reset" colouring
 * that the user interface shows when no strategy is selected.
 */
module Engines {
  import opened Facts
  import opened Coloring
  import Wrappers

  datatype Engine = Engine(startingFacts: set<Fact>, allPossibleFacts: seq<Fact>, rules: seq<Rule>)

  /** Engine::new stores its three arguments as they are, with no validation. */
  function NewEngine(allFacts: seq<Fact>, startingFacts: set<Fact>, rules: seq<Rule>): (e: Engine)
    ensures e.allPossibleFacts == allFacts
    ensures e.startingFacts == startingFacts
    ensures e.rules == rules
  {
    Engine(startingFacts, allFacts, rules)
  }

  /**
   * The knowledge-base invariant: every fact a rule mentions, and every
   * starting fact, is among the enumerated facts.  The engine never checks it.
   */
  ghost predicate Closed(e: Engine)
  {
    && (forall f :: f in e.startingFacts ==> f in e.allPossibleFacts)
    && (forall i :: 0 <= i < |e.rules| ==> e.rules[i].out in e.allPossibleFacts)
    && (forall i, j :: 0 <= i < |e.rules| && 0 <= j < |e.rules[i].reqs| ==> e.rules[i].reqs[j] in e.allPossibleFacts)
  }

  // The crafting example built by Engine::primitive_engine.
  const Planks: Fact := NewFact("oak_planks")
  const Wood: Fact := NewFact("oak_wood")
  const Stick: Fact := NewFact("stick")
  const Pickaxe: Fact := NewFact("wooden_pickaxe")
  const R1: Rule := NewRule([Wood], Planks)
  const R2: Rule := NewRule([Planks], Stick)
  const R3: Rule := NewRule([Planks, Stick], Pickaxe)

  /** Engine::primitive_engine: four facts, starting set {oak_wood}, three rules. */
  function PrimitiveEngine(): (e: Engine)
    ensures Closed(e)
    ensures e.allPossibleFacts == [Planks, Wood, Stick, Pickaxe] && e.startingFacts == {Wood}
    ensures e.rules == [Rule([Wood], Planks), Rule([Planks], Stick), Rule([Planks, Stick], Pickaxe)]
  {
    NewEngine([Planks, Wood, Stick, Pickaxe], {Wood}, [R1, R2, R3])
  }

  /** Colour of a fact in the reset snapshot, before the target is marked. */
  function ResetLabel(e: Engine, f: Fact): FactState
  {
    if f in e.startingFacts then FactState.Starting else FactState.None
  }

  /** The fact colours after recolor_node: every enumerated fact reset, then the target marked. */
  function ResetFacts(e: Engine, target: Wrappers.Option<Fact>, fc: FactColors): FactColors
  {
    var base := fc + map f | f in e.allPossibleFacts :: ResetLabel(e, f);
    match target
    case Some(t) => base[t := FactState.Target]
    case None => base
  }

  /** The rule colours after recolor_node: every rule reset to None. */
  function ResetRules(e: Engine, rc: RuleColors): RuleColors
  {
    rc + map r | r in e.rules :: RuleState.None
  }

  /** Engine::recolor_node: the facts loop, then the rules loop, then the target. */
  method RecolorNode(e: Engine, target: Wrappers.Option<Fact>, fc: FactColors, rc: RuleColors)
    returns (fc': FactColors, rc': RuleColors)
    ensures fc' == ResetFacts(e, target, fc)
    ensures rc' == ResetRules(e, rc)
  {
    fc' := ResetEnumerated(e, fc);
    rc' := InsertSeq(rc, e.rules, RuleState.None);
    if target.Some? {
      fc' := fc'[target.value := FactState.Target];
    }
  }

  /** The facts loop of recolor_node: each enumerated fact is Starting or None, entry by entry. */
  method ResetEnumerated(e: Engine, fc: FactColors) returns (fc': FactColors)
    ensures fc' == fc + map f | f in e.allPossibleFacts :: ResetLabel(e, f)
  {
    var facts := e.allPossibleFacts;
    fc' := fc;
    for i := 0 to |facts|
      invariant forall f :: f in fc' <==> f in fc || f in facts[..i]
      invariant forall f :: f in fc' ==> fc'[f] == if f in facts[..i] then ResetLabel(e, f) else fc[f]
    {
      assert facts[..i + 1] == facts[..i] + [facts[i]];
      if facts[i] in e.startingFacts {
        fc' := fc'[facts[i] := FactState.Starting];
      } else {
        fc' := fc'[facts[i] := FactState.None];
      }
    }
    assert facts[..|facts|] == facts;
  }

  /**
   * What the reset snapshot says about one fact: the target is Target (even
   * when it is a starting fact), other enumerated facts are Starting or None,
   * and every other entry is left as it was.
   */
  lemma ResetFactsAt(e: Engine, target: Wrappers.Option<Fact>, fc: FactColors, f: Fact)
    ensures var r := ResetFacts(e, target, fc);
      && (f in r <==> f in fc || f in e.allPossibleFacts || target == Wrappers.Some(f))
      && (target == Wrappers.Some(f) ==> r[f] == FactState.Target)
      && (target != Wrappers.Some(f) && f in e.allPossibleFacts && f in e.startingFacts ==> r[f] == FactState.Starting)
      && (target != Wrappers.Some(f) && f in e.allPossibleFacts && f !in e.startingFacts ==> r[f] == FactState.None)
      && (target != Wrappers.Some(f) && f !in e.allPossibleFacts && f in fc ==> r[f] == fc[f])
      && (target.None? ==> FactState.Target !in (set g | g in r && g !in fc :: r[g]))
  {
  }

  /** Every rule is reset to None; any other rule entry is left as it was. */
  lemma ResetRulesAt(e: Engine, rc: RuleColors, r: Rule)
    ensures var m := ResetRules(e, rc);
      && (r in m <==> r in rc || r in e.rules)
      && (r in e.rules ==> m[r] == RuleState.None)
      && (r !in e.rules && r in rc ==> m[r] == rc[r])
  {
  }

  /** Resetting twice gives the same snapshot as resetting once. */
  lemma ResetIdempotent(e: Engine, target: Wrappers.Option<Fact>, fc: FactColors, rc: RuleColors)
    ensures ResetFacts(e, target, ResetFacts(e, target, fc)) == ResetFacts(e, target, fc)
    ensures ResetRules(e, ResetRules(e, rc)) == ResetRules(e, rc)
  {
  }
}
