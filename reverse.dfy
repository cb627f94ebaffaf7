/**
 * Backward chaining (`ReverseReasoning`, src/reverse_reasoning.rs).
 *
 * The reasoner owns the search tree rooted at the target fact and the reversed
 * index of the rules.  Each step runs one evaluation pass over the tree
 * (module AndOr specifies that pass as the function Iterate); build_tree
 * repeats steps until the root is no longer Potential and then recolours.
 */
module Reverse {
  import opened Facts
  import opened Coloring
  import opened AndOr
  import opened Engines

  datatype RevStepResult = Found | Iterated | NotProved

  /** How a pass's result is reported by step. */
  function StepOutcome(r: RecResult): (o: RevStepResult)
    ensures o == Iterated <==> r == Potential
    ensures o == RevStepResult.Found <==> r == RecResult.Found
    ensures o == NotProved <==> r == RecResult.DeadEnd
  {
    match r
    case Potential => Iterated
    case Found => RevStepResult.Found
    case DeadEnd => NotProved
  }

  /** Colour of the target after recolor: TargetVisited exactly when the root proves it. */
  function RootLabel(root: Node, target: Fact): FactState
  {
    if Proved(root) && root.info.fact == target then FactState.TargetVisited else FactState.Target
  }

  /** The first stage of recolor: every enumerated fact reset to None. */
  function ClearFacts(allFacts: seq<Fact>, fc: FactColors): FactColors
  {
    fc + map f | f in allFacts :: FactState.None
  }

  /** The first stage of recolor for rules: every enumerated rule reset to None. */
  function ClearRules(allRules: seq<Rule>, rc: RuleColors): RuleColors
  {
    rc + map r | r in allRules :: RuleState.None
  }

  /** The last stage of recolor: the starting facts marked Starting, then the target marked. */
  function MarkFacts(fc: FactColors, starting: set<Fact>, root: Node, target: Fact): FactColors
  {
    (fc + map f | f in starting :: FactState.Starting)[target := RootLabel(root, target)]
  }

  /**
   * The colours after recolor: every enumerated fact and rule reset to None,
   * the tree painted over them, the starting facts marked Starting, and
   * finally the target marked.
   */
  function Recolored(allFacts: seq<Fact>, allRules: seq<Rule>, starting: set<Fact>, root: Node,
                     target: Fact, fc: FactColors, rc: RuleColors): (FactColors, RuleColors)
  {
    var (fc1, rc1) := Paint(root, ClearFacts(allFacts, fc), ClearRules(allRules, rc));
    (MarkFacts(fc1, starting, root, target), rc1)
  }

  /** Clearing adds the enumerated facts as None and keeps every other entry. */
  lemma ClearFactsAt(allFacts: seq<Fact>, fc: FactColors, f: Fact)
    ensures ClearFacts(allFacts, fc).Keys == fc.Keys + (set g | g in allFacts)
    ensures f in allFacts ==> ClearFacts(allFacts, fc)[f] == FactState.None
    ensures f !in allFacts && f in fc ==> ClearFacts(allFacts, fc)[f] == fc[f]
  {
  }

  /** Clearing adds the enumerated rules as None and keeps every other entry. */
  lemma ClearRulesAt(allRules: seq<Rule>, rc: RuleColors, r: Rule)
    ensures ClearRules(allRules, rc).Keys == rc.Keys + (set q | q in allRules)
    ensures r in allRules ==> ClearRules(allRules, rc)[r] == RuleState.None
    ensures r !in allRules && r in rc ==> ClearRules(allRules, rc)[r] == rc[r]
  {
  }

  /** Marking: the target gets its label, other starting facts are Starting, the rest is kept. */
  lemma MarkFactsAt(fc: FactColors, starting: set<Fact>, root: Node, target: Fact, f: Fact)
    ensures MarkFacts(fc, starting, root, target).Keys == fc.Keys + starting + {target}
    ensures MarkFacts(fc, starting, root, target)[target] == RootLabel(root, target)
    ensures f != target && f in starting ==> MarkFacts(fc, starting, root, target)[f] == FactState.Starting
    ensures f != target && f !in starting && f in fc ==> MarkFacts(fc, starting, root, target)[f] == fc[f]
  {
  }

  /**
   * What recolor shows of the facts: the target is TargetVisited iff the root
   * proves it, Target otherwise; other starting facts are Starting; other
   * facts the tree mentions carry the tree's colour; the remaining enumerated
   * facts are None, and entries outside the knowledge base are kept.
   */
  lemma RecoloredFactsAt(allFacts: seq<Fact>, allRules: seq<Rule>, starting: set<Fact>, root: Node,
                         target: Fact, fc: FactColors, rc: RuleColors, f: Fact)
    ensures var fc' := Recolored(allFacts, allRules, starting, root, target, fc, rc).0;
            var painted := Paint(root, ClearFacts(allFacts, fc), ClearRules(allRules, rc)).0;
      && fc'.Keys == fc.Keys + (set g | g in allFacts) + TreeFacts(root) + starting + {target}
      && (fc'[target] == FactState.TargetVisited <==> Proved(root) && root.info.fact == target)
      && (fc'[target] != FactState.TargetVisited ==> fc'[target] == FactState.Target)
      && (f != target && f in starting ==> fc'[f] == FactState.Starting)
      && (f != target && f !in starting && f in TreeFacts(root) ==> fc'[f] == painted[f])
      && (f != target && f !in starting && f !in TreeFacts(root) && f in allFacts ==> fc'[f] == FactState.None)
      && (f != target && f !in starting && f !in TreeFacts(root) && f !in allFacts && f in fc ==> fc'[f] == fc[f])
  {
    var fc0 := ClearFacts(allFacts, fc);
    var rc0 := ClearRules(allRules, rc);
    ClearFactsAt(allFacts, fc, f);
    PaintFrame(root, fc0, rc0);
    var fc1 := Paint(root, fc0, rc0).0;
    MarkFactsAt(fc1, starting, root, target, f);
  }

  /**
   * What recolor shows of the rules: rules the tree mentions carry the tree's
   * colour, other enumerated rules are None, other entries are kept.
   */
  lemma RecoloredRulesAt(allFacts: seq<Fact>, allRules: seq<Rule>, starting: set<Fact>, root: Node,
                         target: Fact, fc: FactColors, rc: RuleColors, r: Rule)
    ensures var rc' := Recolored(allFacts, allRules, starting, root, target, fc, rc).1;
            var painted := Paint(root, ClearFacts(allFacts, fc), ClearRules(allRules, rc)).1;
      && rc'.Keys == rc.Keys + (set q | q in allRules) + TreeRules(root)
      && (r in TreeRules(root) ==> rc'[r] == painted[r])
      && (r !in TreeRules(root) && r in allRules ==> rc'[r] == RuleState.None)
      && (r !in TreeRules(root) && r !in allRules && r in rc ==> rc'[r] == rc[r])
  {
    var fc0 := ClearFacts(allFacts, fc);
    var rc0 := ClearRules(allRules, rc);
    ClearRulesAt(allRules, rc, r);
    PaintFrame(root, fc0, rc0);
  }

  /** One tree fact: recolor gives it the same colour whatever maps it is given. */
  lemma RecoloredFactIndep(allFacts: seq<Fact>, allRules: seq<Rule>, starting: set<Fact>, root: Node,
                           target: Fact, fc: FactColors, rc: RuleColors, fc2: FactColors, rc2: RuleColors, f: Fact)
    requires f in TreeFacts(root)
    ensures var fa := Recolored(allFacts, allRules, starting, root, target, fc, rc).0;
            var fb := Recolored(allFacts, allRules, starting, root, target, fc2, rc2).0;
            f in fa && f in fb && fa[f] == fb[f]
  {
    PaintIndep(root, ClearFacts(allFacts, fc), ClearRules(allRules, rc),
               ClearFacts(allFacts, fc2), ClearRules(allRules, rc2));
    RecoloredFactsAt(allFacts, allRules, starting, root, target, fc, rc, f);
    RecoloredFactsAt(allFacts, allRules, starting, root, target, fc2, rc2, f);
  }

  /** One tree rule: recolor gives it the same colour whatever maps it is given. */
  lemma RecoloredRuleIndep(allFacts: seq<Fact>, allRules: seq<Rule>, starting: set<Fact>, root: Node,
                           target: Fact, fc: FactColors, rc: RuleColors, fc2: FactColors, rc2: RuleColors, r: Rule)
    requires r in TreeRules(root)
    ensures var ra := Recolored(allFacts, allRules, starting, root, target, fc, rc).1;
            var rb := Recolored(allFacts, allRules, starting, root, target, fc2, rc2).1;
            r in ra && r in rb && ra[r] == rb[r]
  {
    PaintIndep(root, ClearFacts(allFacts, fc), ClearRules(allRules, rc),
               ClearFacts(allFacts, fc2), ClearRules(allRules, rc2));
    RecoloredRulesAt(allFacts, allRules, starting, root, target, fc, rc, r);
    RecoloredRulesAt(allFacts, allRules, starting, root, target, fc2, rc2, r);
  }

  /**
   * What recolor writes over the tree's own facts and rules does not depend on
   * the colours it is given: two runs on the same tree agree there.
   */
  lemma RecoloredTreeIndep(allFacts: seq<Fact>, allRules: seq<Rule>, starting: set<Fact>, root: Node,
                           target: Fact, fc: FactColors, rc: RuleColors, fc2: FactColors, rc2: RuleColors)
    ensures var (fa, ra) := Recolored(allFacts, allRules, starting, root, target, fc, rc);
            var (fb, rb) := Recolored(allFacts, allRules, starting, root, target, fc2, rc2);
      && (forall f :: f in TreeFacts(root) ==> f in fa && f in fb && fa[f] == fb[f])
      && (forall r :: r in TreeRules(root) ==> r in ra && r in rb && ra[r] == rb[r])
  {
    forall f | f in TreeFacts(root)
      ensures var fa := Recolored(allFacts, allRules, starting, root, target, fc, rc).0;
              var fb := Recolored(allFacts, allRules, starting, root, target, fc2, rc2).0;
              f in fa && f in fb && fa[f] == fb[f]
    {
      RecoloredFactIndep(allFacts, allRules, starting, root, target, fc, rc, fc2, rc2, f);
    }
    forall r | r in TreeRules(root)
      ensures var ra := Recolored(allFacts, allRules, starting, root, target, fc, rc).1;
              var rb := Recolored(allFacts, allRules, starting, root, target, fc2, rc2).1;
              r in ra && r in rb && ra[r] == rb[r]
    {
      RecoloredRuleIndep(allFacts, allRules, starting, root, target, fc, rc, fc2, rc2, r);
    }
  }

  /** One fact: recolouring recolor's own output leaves its entry as it was. */
  lemma RecoloredFactStable(allFacts: seq<Fact>, allRules: seq<Rule>, starting: set<Fact>, root: Node,
                            target: Fact, fc: FactColors, rc: RuleColors, f: Fact)
    ensures var (fc1, rc1) := Recolored(allFacts, allRules, starting, root, target, fc, rc);
            var fc2 := Recolored(allFacts, allRules, starting, root, target, fc1, rc1).0;
            (f in fc1 <==> f in fc2) && (f in fc1 ==> fc2[f] == fc1[f])
  {
    var (fc1, rc1) := Recolored(allFacts, allRules, starting, root, target, fc, rc);
    if f in TreeFacts(root) {
      RecoloredFactIndep(allFacts, allRules, starting, root, target, fc, rc, fc1, rc1, f);
    }
    RecoloredFactsAt(allFacts, allRules, starting, root, target, fc, rc, f);
    RecoloredFactsAt(allFacts, allRules, starting, root, target, fc1, rc1, f);
  }

  /** One rule: recolouring recolor's own output leaves its entry as it was. */
  lemma RecoloredRuleStable(allFacts: seq<Fact>, allRules: seq<Rule>, starting: set<Fact>, root: Node,
                            target: Fact, fc: FactColors, rc: RuleColors, r: Rule)
    ensures var (fc1, rc1) := Recolored(allFacts, allRules, starting, root, target, fc, rc);
            var rc2 := Recolored(allFacts, allRules, starting, root, target, fc1, rc1).1;
            (r in rc1 <==> r in rc2) && (r in rc1 ==> rc2[r] == rc1[r])
  {
    var (fc1, rc1) := Recolored(allFacts, allRules, starting, root, target, fc, rc);
    if r in TreeRules(root) {
      RecoloredRuleIndep(allFacts, allRules, starting, root, target, fc, rc, fc1, rc1, r);
    }
    RecoloredRulesAt(allFacts, allRules, starting, root, target, fc, rc, r);
    RecoloredRulesAt(allFacts, allRules, starting, root, target, fc1, rc1, r);
  }

  /** Exporting the backward colours a second time in the same state changes nothing. */
  lemma RecoloredIdempotent(allFacts: seq<Fact>, allRules: seq<Rule>, starting: set<Fact>, root: Node,
                            target: Fact, fc: FactColors, rc: RuleColors)
    ensures var (fc1, rc1) := Recolored(allFacts, allRules, starting, root, target, fc, rc);
            Recolored(allFacts, allRules, starting, root, target, fc1, rc1) == (fc1, rc1)
  {
    var (fc1, rc1) := Recolored(allFacts, allRules, starting, root, target, fc, rc);
    var (fc2, rc2) := Recolored(allFacts, allRules, starting, root, target, fc1, rc1);
    forall f | f in fc1 || f in fc2
      ensures f in fc1 && f in fc2 && fc2[f] == fc1[f]
    {
      RecoloredFactStable(allFacts, allRules, starting, root, target, fc, rc, f);
    }
    forall r | r in rc1 || r in rc2
      ensures r in rc1 && r in rc2 && rc2[r] == rc1[r]
    {
      RecoloredRuleStable(allFacts, allRules, starting, root, target, fc, rc, r);
    }
    assert fc2 == fc1;
    assert rc2 == rc1;
  }

  /** The final match of recolor: the target is TargetVisited when the root is a proof of it, Target otherwise. */
  method MarkTarget(fc: FactColors, root: Node, target: Fact) returns (fc': FactColors)
    ensures fc' == fc[target := RootLabel(root, target)]
  {
    match root.info {
      case Or(f, _, s) =>
        if s == RecResult.Found && f == target {
          fc' := fc[target := FactState.TargetVisited];
        } else {
          fc' := fc[target := FactState.Target];
        }
      case And(f, _, _, s) =>
        if s == RecResult.Found && f == target {
          fc' := fc[target := FactState.TargetVisited];
        } else {
          fc' := fc[target := FactState.Target];
        }
      case FactToProve(_) =>
        fc' := fc[target := FactState.Target];
      case ProvenFact(f) =>
        if f == target {
          fc' := fc[target := FactState.TargetVisited];
        } else {
          fc' := fc[target := FactState.Target];
        }
      case DeadEnd(_) =>
        fc' := fc[target := FactState.Target];
    }
  }

  /** ReverseReasoning::rec_recoloring: paint the children in order, then the node itself. */
  method RecRecoloring(n: Node, fc: FactColors, rc: RuleColors) returns (fc': FactColors, rc': RuleColors)
    ensures (fc', rc') == Paint(n, fc, rc)
    decreases n
  {
    match n.info {
      case Or(t, cs, q) =>
        fc', rc' := PaintChildren(n, cs, fc, rc);
        fc' := fc'[t := FactLabel(q)];
      case And(f, r, cs, q) =>
        fc', rc' := PaintChildren(n, cs, fc, rc);
        rc' := rc'[r := RuleLabel(q)];
        fc' := fc'[f := FactLabel(q)];
      case FactToProve(f) =>
        fc', rc' := fc[f := FactState.Visited], rc;
      case ProvenFact(_) =>
        fc', rc' := fc, rc;
      case DeadEnd(f) =>
        fc', rc' := fc[f := FactState.DeadEnd], rc;
    }
  }

  /** The loop of rec_recoloring that paints each child in turn. */
  method PaintChildren(ghost n: Node, cs: seq<Node>, fc: FactColors, rc: RuleColors)
    returns (fc': FactColors, rc': RuleColors)
    requires (n.info.Or? || n.info.And?) && cs == n.info.children
    ensures (fc', rc') == PaintAll(cs, fc, rc)
    decreases n, 0
  {
    fc', rc' := fc, rc;
    assert cs[0..] == cs;
    for i := 0 to |cs|
      invariant PaintAll(cs[i..], fc', rc') == PaintAll(cs, fc, rc)
    {
      assert cs[i..][1..] == cs[i + 1..];
      fc', rc' := RecRecoloring(cs[i], fc', rc');
    }
  }

  /** ReverseReasoning::get_applied_rules_rec: the children's rules in order, then the node's rule when reported. */
  method CollectApplied(n: Node, isFinal: bool) returns (t: seq<Rule>)
    ensures t == AppliedRules(n, isFinal)
    decreases n
  {
    t := [];
    match n.info {
      case Or(_, cs, _) =>
        t := CollectChildren(n, cs, isFinal);
      case And(_, r, cs, q) =>
        t := CollectChildren(n, cs, isFinal);
        if Include(q, isFinal) {
          t := t + [r];
        }
      case FactToProve(_) =>
      case ProvenFact(_) =>
      case DeadEnd(_) =>
    }
  }

  /** The loop of get_applied_rules_rec that appends each child's rules in turn. */
  method CollectChildren(ghost n: Node, cs: seq<Node>, isFinal: bool) returns (t: seq<Rule>)
    requires (n.info.Or? || n.info.And?) && cs == n.info.children
    ensures t == AppliedRulesAll(cs, isFinal)
    decreases n, 0
  {
    t := [];
    assert cs[0..] == cs;
    for i := 0 to |cs|
      invariant t + AppliedRulesAll(cs[i..], isFinal) == AppliedRulesAll(cs, isFinal)
    {
      assert cs[i..][1..] == cs[i + 1..];
      var u := CollectApplied(cs[i], isFinal);
      t := t + u;
    }
  }

  class ReverseReasoning {
    const allFacts: seq<Fact>
    const targetFact: Fact
    const allRules: seq<Rule>
    var root: Node
    const startingFacts: set<Fact>
    const reversedRules: map<Fact, seq<Rule>>

    /** What an evaluation pass consults. */
    function K(): Knowledge
    {
      Knowledge(startingFacts, reversedRules)
    }

    /** The engine's rules, as the set a goal at the root may use. */
    function RuleSet(): set<Rule>
    {
      set r | r in allRules
    }

    /** The base of the termination measure of build_tree. */
    function Bound(): nat
    {
      1 + SumReqs(allRules)
    }

    /**
     * The backward-chaining invariant: the index is the reversed rule list,
     * the tree is sound and repeats no rule on a branch, its root is about the
     * target, it only uses the engine's rules (Within), and every dead end it reports
     * is justified (the root goal being posed with all of them).
     */
    ghost predicate Valid()
      reads this
    {
      && reversedRules == ReversedIndex(allRules)
      && Sound(K(), root)
      && Acyclic(root, {})
      && root.info.fact == targetFact
      && Within(root, RuleSet())
      && !root.info.And?
      && Honest(K(), RuleSet(), root, RuleSet())
      && IndexSound(K()) && IndexComplete(K(), RuleSet()) && Bounded(K(), Bound())
    }

    /** ReverseReasoning::new: index the rules by output; the root is the target as a goal with every rule available. */
    constructor (engine: Engine, target: Fact)
      ensures Valid()
      ensures allFacts == engine.allPossibleFacts && allRules == engine.rules
      ensures startingFacts == engine.startingFacts && targetFact == target
      ensures reversedRules == ReversedIndex(engine.rules)
      ensures root == Node((set r | r in engine.rules), FactToProve(target))
    {
      var rev: map<Fact, seq<Rule>> := map[];
      assert Outs(engine.rules[..0]) == {};
      for i := 0 to |engine.rules|
        invariant rev == ReversedIndex(engine.rules[..i])
      {
        var rule := engine.rules[i];
        ReversedIndexSnoc(engine.rules[..i], rule);
        assert engine.rules[..i + 1] == engine.rules[..i] + [rule];
        if rule.out in rev {
          rev := rev[rule.out := rev[rule.out] + [rule]];
        } else {
          assert [] + [rule] == [rule];
          rev := rev[rule.out := [rule]];
        }
      }
      assert engine.rules[..|engine.rules|] == engine.rules;
      allFacts := engine.allPossibleFacts;
      allRules := engine.rules;
      root := Node((set r | r in engine.rules), FactToProve(target));
      startingFacts := engine.startingFacts;
      reversedRules := rev;
      targetFact := target;
      InitialRoot(engine.startingFacts, engine.rules, target);
    }

    /**
     * ReverseReasoning::rec_iterate, on a node passed in and handed back
     * rewritten: a final Or/And node returns its status; an Or node walks its
     * children until one is Found, keeping only that child; an And node stops
     * at the first dead child and is Found when every child is; a goal becomes
     * a proven fact, an expansion, or stays as it is and reports DeadEnd.
     */
    method RecIterate(n: Node) returns (res: RecResult, n': Node)
      ensures (res, n') == Iterate(K(), n)
      decreases n
    {
      match n.info {
        case Or(f, v, status) =>
          if status != Potential {
            return status, n;
          }
          res, n' := IterateOrChildren(n, f, v);
        case And(f, r, v, status) =>
          if status != Potential {
            return status, n;
          }
          res, n' := IterateAndChildren(n, f, r, v);
        case FactToProve(f) =>
          if f in startingFacts {
            return RecResult.Found, Node(n.available, ProvenFact(f));
          } else if f in reversedRules {
            var t := FilterAvailable(reversedRules[f], n.available);
            if t != [] {
              return Potential, Expand(f, t, n.available);
            } else {
              return RecResult.DeadEnd, n;
            }
          } else {
            return RecResult.DeadEnd, n;
          }
        case ProvenFact(_) =>
          return RecResult.Found, n;
        case DeadEnd(_) =>
          return RecResult.DeadEnd, n;
      }
    }

    /** The Or branch of rec_iterate: counts dead children, stops at the first Found one. */
    method IterateOrChildren(n: Node, f: Fact, cs: seq<Node>) returns (res: RecResult, n': Node)
      requires n.info == Or(f, cs, Potential)
      ensures (res, n') == Iterate(K(), n)
      decreases n, 0
    {
      ScanOrMeaning(K(), cs);
      var v := cs;
      var deadCount := 0;
      var i := 0;
      while i < |v|
        invariant 0 <= i <= |cs| && |v| == |cs|
        invariant forall j :: 0 <= j < i ==> v[j] == Iterate(K(), cs[j]).1 && Iterate(K(), cs[j]).0 != RecResult.Found
        invariant forall j :: i <= j < |cs| ==> v[j] == cs[j]
        invariant deadCount <= i
        invariant deadCount == i <==> forall j :: 0 <= j < i ==> Iterate(K(), cs[j]).0 == RecResult.DeadEnd
      {
        var r, c := RecIterate(v[i]);
        v := v[i := c];
        if r == RecResult.Found {
          v := [v[i]];
          return RecResult.Found, Node(n.available, Or(f, v, RecResult.Found));
        } else if r == RecResult.DeadEnd {
          deadCount := deadCount + 1;
        }
        i := i + 1;
      }
      var status := if deadCount == |v| || |v| == 0 then RecResult.DeadEnd else Potential;
      assert v == ScanOr(K(), cs).children;
      return status, Node(n.available, Or(f, v, status));
    }

    /** The And branch of rec_iterate: counts Found children, returns DeadEnd at the first dead one. */
    method IterateAndChildren(n: Node, f: Fact, rule: Rule, cs: seq<Node>) returns (res: RecResult, n': Node)
      requires n.info == And(f, rule, cs, Potential)
      ensures (res, n') == Iterate(K(), n)
      decreases n, 0
    {
      ScanAndMeaning(K(), cs);
      var v := cs;
      var countFound := 0;
      var i := 0;
      while i < |v|
        invariant 0 <= i <= |cs| && |v| == |cs|
        invariant forall j :: 0 <= j < i ==> v[j] == Iterate(K(), cs[j]).1 && Iterate(K(), cs[j]).0 != RecResult.DeadEnd
        invariant forall j :: i <= j < |cs| ==> v[j] == cs[j]
        invariant countFound <= i
        invariant countFound == i <==> forall j :: 0 <= j < i ==> Iterate(K(), cs[j]).0 == RecResult.Found
      {
        var r, c := RecIterate(v[i]);
        v := v[i := c];
        if r == RecResult.DeadEnd {
          assert FirstWith(K(), cs, RecResult.DeadEnd) == i;
          assert v == ScanAnd(K(), cs).children;
          return RecResult.DeadEnd, Node(n.available, And(f, rule, v, RecResult.DeadEnd));
        } else if r == RecResult.Found {
          countFound := countFound + 1;
        }
        i := i + 1;
      }
      assert FirstWith(K(), cs, RecResult.DeadEnd) == |cs|;
      assert v == ScanAnd(K(), cs).children;
      var status := if countFound == |v| then RecResult.Found else Potential;
      return status, Node(n.available, And(f, rule, v, status));
    }

    /** ReverseReasoning::step: one pass over the whole tree, the root replaced by its rewrite. */
    method Step() returns (res: RevStepResult)
      requires Valid()
      modifies this
      ensures Valid()
      ensures root == Iterate(K(), old(root)).1
      ensures res == StepOutcome(Iterate(K(), old(root)).0)
      ensures res == RevStepResult.Found <==> Proved(root)
      ensures res == RevStepResult.Found ==> Derivable(startingFacts, targetFact, RuleSet())
      ensures res == NotProved ==> !Derivable(startingFacts, targetFact, RuleSet())
    {
      SoundIterate(K(), root);
      AcyclicIterate(K(), root, {});
      HonestIterate(K(), RuleSet(), root, RuleSet());
      WithinIterate(K(), root, RuleSet());
      var t, n := RecIterate(root);
      root := n;
      if t == RecResult.Found {
        ProvedDerivable(K(), RuleSet(), root, targetFact);
      }
      match t {
        case Potential => res := Iterated;
        case Found => res := RevStepResult.Found;
        case DeadEnd => res := NotProved;
      }
    }

    /**
     * ReverseReasoning::build_tree: steps until the result is not Iterated,
     * then recolours.  The loop always ends (see AndOr.RunSettles).
     */
    method BuildTree(fc: FactColors, rc: RuleColors) returns (res: RevStepResult, fc': FactColors, rc': RuleColors)
      requires Valid()
      modifies this
      ensures Valid()
      ensures root == Run(K(), Bound(), old(root)).1
      ensures res == StepOutcome(Run(K(), Bound(), old(root)).0) && res != Iterated
      ensures res == RevStepResult.Found <==> Proved(root)
      ensures res == RevStepResult.Found <==> Derivable(startingFacts, targetFact, RuleSet())
      ensures res == NotProved ==> !Derivable(startingFacts, targetFact, RuleSet())
      ensures (fc', rc') == Recolored(allFacts, allRules, startingFacts, root, targetFact, fc, rc)
    {
      ghost var root0 := root;
      while true
        invariant Valid()
        invariant Run(K(), Bound(), root) == Run(K(), Bound(), root0)
        decreases Measure(Bound(), root)
      {
        ghost var before := root;
        RunSettles(K(), Bound(), before);
        MeasureIterate(K(), Bound(), before);
        var t := Step();
        if t != Iterated {
          fc', rc' := Recolor(fc, rc);
          return t, fc', rc';
        }
      }
    }

    /** ReverseReasoning::recolor, writing entry by entry as the source does. */
    method Recolor(fc: FactColors, rc: RuleColors) returns (fc': FactColors, rc': RuleColors)
      ensures (fc', rc') == Recolored(allFacts, allRules, startingFacts, root, targetFact, fc, rc)
    {
      fc' := InsertSeq(fc, allFacts, FactState.None);
      rc' := InsertSeq(rc, allRules, RuleState.None);
      fc', rc' := RecRecoloring(root, fc', rc');
      fc' := InsertSet(fc', startingFacts, FactState.Starting);
      fc' := MarkTarget(fc', root, targetFact);
    }

    /** ReverseReasoning::get_applied_rules_unfiltered. */
    method GetAppliedRulesUnfiltered() returns (t: seq<Rule>)
      ensures t == RootRules(root, targetFact)
    {
      match root.info {
        case Or(f, _, s) =>
          t := CollectApplied(root, s == RecResult.Found && f == targetFact);
        case And(f, _, _, s) =>
          t := CollectApplied(root, s == RecResult.Found && f == targetFact);
        case FactToProve(_) =>
          t := CollectApplied(root, false);
        case ProvenFact(_) =>
          t := CollectApplied(root, false);
        case DeadEnd(_) =>
          t := CollectApplied(root, false);
      }
    }

    /**
     * ReverseReasoning::get_applied_rules: the unfiltered rules with repeats
     * dropped, first occurrences kept in order.  Once the tree proves the
     * target, they are a derivation of it from the starting facts.
     */
    method GetAppliedRules() returns (v: seq<Rule>)
      requires Valid()
      ensures v == Dedup(RootRules(root, targetFact))
      ensures forall i, j :: 0 <= i < j < |v| ==> v[i] != v[j]
      ensures forall r :: r in v <==> r in RootRules(root, targetFact)
      ensures forall r :: r in v ==> r in allRules
      ensures Proved(root) ==> IsDerivation(startingFacts, v) && targetFact in startingFacts + Outs(v)
    {
      var t := GetAppliedRulesUnfiltered();
      v := [];
      var mentioned: set<Rule> := {};
      for i := 0 to |t|
        invariant v == Dedup(t[..i])
        invariant forall r :: r in mentioned <==> r in t[..i]
      {
        assert t[..i + 1][..i] == t[..i];
        if t[i] !in mentioned {
          mentioned := mentioned + {t[i]};
          v := v + [t[i]];
        }
      }
      assert t[..|t|] == t;
      DedupMeaning(t);
      WithinApplied(root, RuleSet(), (root.info.Or? || root.info.And?) && root.info.status == RecResult.Found && root.info.fact == targetFact);
      if Proved(root) {
        BackwardSound(K(), root, targetFact);
        DedupDerivation(startingFacts, t);
      }
    }
  }
}
