/**
 * The crafting example of Engine::primitive_engine (src/engine.rs), run
 * through both strategies with the target "wooden_pickaxe".
 *
 * Forward chaining fires oak_wood -> oak_planks, then oak_planks -> stick,
 * then {oak_planks, stick} -> wooden_pickaxe.  Backward chaining needs four
 * passes over its tree; the trees after each pass are written out below.
 */
module Scenario {
  import opened Facts
  import opened Engines
  import opened Direct
  import opened AndOr
  import opened Reverse

  /** What the example's rules need, against the facts known before each firing. */
  lemma ExampleMatches()
    ensures MatchRequirement(R1, {Wood}) && !MatchRequirement(R2, {Wood}) && !MatchRequirement(R3, {Wood})
    ensures MatchRequirement(R2, {Wood} + {Planks}) && !MatchRequirement(R3, {Wood} + {Planks})
    ensures MatchRequirement(R3, {Wood} + {Planks} + {Stick})
  {
    Distinct();
    assert R1.reqs == [Wood] && R2.reqs == [Planks] && R3.reqs == [Planks, Stick];
    assert Planks in R2.reqs && Planks in R3.reqs && Stick in R3.reqs;
  }

  /** The unused rules before each firing, and which rule each leaves as the only candidate. */
  lemma ExampleRuleSets()
    ensures (set r | r in [R1, R2, R3]) == All
    ensures forall q :: q in All ==> q == R1 || q in {R2, R3}
    ensures R2 in All - {R1} && forall q :: q in All - {R1} ==> q == R2 || q in {R3}
    ensures R3 in All - {R1} - {R2} && forall q :: q in All - {R1} - {R2} ==> q == R3
  {
    Distinct();
  }

  /** A step when exactly one unused rule can fire: that rule fires. */
  method FireOnly(dr: DirectReasoning, r: Rule, ghost blocked: set<Rule>) returns (res: StepResult)
    requires dr.Valid() && dr.targetFact !in dr.currentFacts
    requires r in dr.unusedRules && MatchRequirement(r, dr.currentFacts)
    requires forall q :: q in dr.unusedRules ==> q == r || q in blocked
    requires forall q :: q in blocked ==> !MatchRequirement(q, dr.currentFacts)
    modifies dr
    ensures dr.Valid()
    ensures res == (if r.out == dr.targetFact then FoundAfter(r, r.out) else Applied(r))
    ensures dr.currentFacts == old(dr.currentFacts) + {r.out} && dr.unusedRules == old(dr.unusedRules) - {r}
  {
    res := dr.Step();
  }

  /** The steps after oak_planks is known: stick, then the pickaxe, then Found. */
  method ForwardRest(dr: DirectReasoning) returns (b: StepResult, c: StepResult, d: StepResult)
    requires dr.Valid() && dr.targetFact == Pickaxe
    requires dr.currentFacts == {Wood} + {Planks} && dr.unusedRules == All - {R1}
    modifies dr
    ensures b == Applied(R2) && c == FoundAfter(R3, Pickaxe) && d == StepResult.Found
  {
    Distinct();
    ExampleMatches();
    ExampleRuleSets();
    assert R2.out == Stick && R3.out == Pickaxe;
    b := FireOnly(dr, R2, {R3});
    c := FireOnly(dr, R3, {});
    d := dr.Step();
  }

  /** Forward chaining on the example: the only fireable rule is taken at each step. */
  method ForwardExample() returns (a: StepResult, b: StepResult, c: StepResult, d: StepResult)
    ensures a == Applied(R1) && b == Applied(R2) && c == FoundAfter(R3, Pickaxe)
    ensures d == StepResult.Found
  {
    Distinct();
    ExampleMatches();
    assert R1.out == Planks && R2.out == Stick && R3.out == Pickaxe;
    var e := PrimitiveEngine();
    assert e.rules == [R1, R2, R3];
    ExampleRuleSets();
    var dr := new DirectReasoning(e, Pickaxe);
    a := FireOnly(dr, R1, {R2, R3});
    b, c, d := ForwardRest(dr);
  }

  // The backward search for wooden_pickaxe, pass by pass.
  const All: set<Rule> := {R1, R2, R3}
  const Av1: set<Rule> := {R1, R2}
  const Index: map<Fact, seq<Rule>> := map[Planks := [R1], Stick := [R2], Pickaxe := [R3]]
  const KP: Knowledge := Knowledge({Wood}, Index)

  const T0: Node := Node(All, FactToProve(Pickaxe))

  function Top(planks: Node, stick: Node, st: RecResult): Node
  {
    Node(Av1, Or(Pickaxe, [Node(Av1, And(Pickaxe, R3, [planks, stick], st))], st))
  }

  /** An Or node for `f` with the single alternative `r` whose only requirement is the node `g`. */
  function Single(av: set<Rule>, f: Fact, r: Rule, g: Node, st: RecResult): Node
  {
    Node(av, Or(f, [Node(av, And(f, r, [g], st))], st))
  }

  const T1: Node := Top(Node(Av1, FactToProve(Planks)), Node(Av1, FactToProve(Stick)), Potential)
  const P1: Node := Single({R2}, Planks, R1, Node({R2}, FactToProve(Wood)), Potential)
  const S1: Node := Single({R1}, Stick, R2, Node({R1}, FactToProve(Planks)), Potential)
  const T2: Node := Top(P1, S1, Potential)
  const P2: Node := Single({R2}, Planks, R1, Node({R2}, ProvenFact(Wood)), RecResult.Found)
  const Q1: Node := Single({}, Planks, R1, Node({}, FactToProve(Wood)), Potential)
  const S2: Node := Single({R1}, Stick, R2, Q1, Potential)
  const T3: Node := Top(P2, S2, Potential)
  const Q2: Node := Single({}, Planks, R1, Node({}, ProvenFact(Wood)), RecResult.Found)
  const S3: Node := Single({R1}, Stick, R2, Q2, RecResult.Found)
  const T4: Node := Top(P2, S3, RecResult.Found)

  /** The four facts of the example are different, so are its three rules. */
  lemma Distinct()
    ensures Planks != Wood && Planks != Stick && Planks != Pickaxe
    ensures Wood != Stick && Wood != Pickaxe && Stick != Pickaxe
    ensures R1 != R2 && R1 != R3 && R2 != R3
  {
    assert |Planks.name| == 10 && |Wood.name| == 8 && |Stick.name| == 5 && |Pickaxe.name| == 14;
  }

  /** The index built for the example: each fact has its one producer. */
  lemma ExampleIndex()
    ensures ReversedIndex([R1, R2, R3]) == Index
  {
    Distinct();
    var rs := [R1, R2, R3];
    assert rs[1..] == [R2, R3] && rs[1..][1..] == [R3] && rs[1..][1..][1..] == [];
    assert Outs(rs) == {Planks, Stick, Pickaxe};
    assert RulesFor(rs[1..][1..], Planks) == [];
    assert RulesFor(rs[1..], Planks) == [];
    assert RulesFor(rs, Planks) == [R1];
    assert RulesFor(rs[1..][1..], Stick) == [];
    assert RulesFor(rs[1..], Stick) == [R2];
    assert RulesFor(rs, Stick) == [R2];
    assert RulesFor(rs[1..][1..], Pickaxe) == [R3];
    assert RulesFor(rs[1..], Pickaxe) == [R3];
    assert RulesFor(rs, Pickaxe) == [R3];
  }

  /** A goal with a single producer `r`, still available and not a starting fact, expands into that one alternative. */
  lemma GoalOne(k: Knowledge, f: Fact, r: Rule, available: set<Rule>)
    requires f !in k.starting && f in k.reversed && k.reversed[f] == [r] && r in available
    ensures Iterate(k, Node(available, FactToProve(f)))
         == (Potential, Node(available - {r}, Or(f, [Node(available - {r}, And(f, r, Goals(r.reqs, available - {r}), Potential))], Potential)))
  {
    assert [r][1..] == [];
    assert FilterAvailable([], available) == [];
    assert FilterAvailable([r], available) == [r] + [];
    assert Candidates(k, f, available) == [r];
    assert (set q | q in [r]) == {r};
    var av := available - {r};
    assert Alternatives(f, [r], av) == [Node(av, And(f, r, Goals(r.reqs, av), Potential))];
  }

  /** A pass over a one-alternative, one-requirement Or node: the requirement's outcome becomes the status of both nodes. */
  lemma SingleIterate(k: Knowledge, av: set<Rule>, f: Fact, r: Rule, g: Node)
    ensures var (st, g') := Iterate(k, g);
      Iterate(k, Single(av, f, r, g, Potential)) == (st, Single(av, f, r, g', st))
  {
    var (st, g') := Iterate(k, g);
    assert [g][1..] == [];
    assert ScanAnd(k, [g]) == AndScan(st == RecResult.DeadEnd, st == RecResult.Found, [g']);
    var and := Node(av, And(f, r, [g], Potential));
    var and' := Node(av, And(f, r, [g'], st));
    assert Iterate(k, and) == (st, and');
    assert [and][1..] == [];
    assert ScanOr(k, [and]) == OrScan(st == RecResult.Found, st == RecResult.DeadEnd, [and']);
  }

  /** A pass over the top of the tree when neither requirement of the pickaxe rule dies. */
  lemma TopIterate(k: Knowledge, p: Node, s: Node)
    requires Iterate(k, p).0 != RecResult.DeadEnd && Iterate(k, s).0 != RecResult.DeadEnd
    ensures var (sp, p') := Iterate(k, p);
      var (ss, s') := Iterate(k, s);
      var st := if sp == RecResult.Found && ss == RecResult.Found then RecResult.Found else Potential;
      Iterate(k, Top(p, s, Potential)) == (st, Top(p', s', st))
  {
    var (sp, p') := Iterate(k, p);
    var (ss, s') := Iterate(k, s);
    var st := if sp == RecResult.Found && ss == RecResult.Found then RecResult.Found else Potential;
    var cs := [p, s];
    assert cs[1..] == [s] && cs[1..][1..] == [];
    assert ScanAnd(k, [s]) == AndScan(false, ss == RecResult.Found, [s']);
    assert ScanAnd(k, cs) == AndScan(false, st == RecResult.Found, [p', s']);
    var and := Node(Av1, And(Pickaxe, R3, cs, Potential));
    var and' := Node(Av1, And(Pickaxe, R3, [p', s'], st));
    assert Iterate(k, and) == (st, and');
    assert [and][1..] == [];
    assert ScanOr(k, [and]) == OrScan(st == RecResult.Found, false, [and']);
  }

  /** Pass 1 expands the target into the one alternative oak_planks + stick. */
  lemma Pass1()
    ensures Iterate(KP, T0) == (Potential, T1)
  {
    Distinct();
    assert Index[Pickaxe] == [R3];
    assert All - {R3} == Av1;
    GoalOne(KP, Pickaxe, R3, All);
    assert R3.reqs == [Planks, Stick];
    assert Goals(R3.reqs, Av1) == [Node(Av1, FactToProve(Planks)), Node(Av1, FactToProve(Stick))];
  }

  /** Pass 2, left: oak_planks gets the alternative oak_wood. */
  lemma Pass2Planks()
    ensures Iterate(KP, Node(Av1, FactToProve(Planks))) == (Potential, P1)
  {
    Distinct();
    assert Index[Planks] == [R1];
    assert Av1 - {R1} == {R2};
    GoalOne(KP, Planks, R1, Av1);
    assert R1.reqs == [Wood];
    assert Goals(R1.reqs, {R2}) == [Node({R2}, FactToProve(Wood))];
  }

  /** Pass 2, right: stick gets the alternative oak_planks. */
  lemma Pass2Stick()
    ensures Iterate(KP, Node(Av1, FactToProve(Stick))) == (Potential, S1)
  {
    Distinct();
    assert Index[Stick] == [R2];
    assert Av1 - {R2} == {R1};
    GoalOne(KP, Stick, R2, Av1);
    assert R2.reqs == [Planks];
    assert Goals(R2.reqs, {R1}) == [Node({R1}, FactToProve(Planks))];
  }

  /** Pass 2 expands both requirements. */
  lemma Pass2()
    ensures Iterate(KP, T1) == (Potential, T2)
  {
    Pass2Planks();
    Pass2Stick();
    TopIterate(KP, Node(Av1, FactToProve(Planks)), Node(Av1, FactToProve(Stick)));
  }

  /** Pass 3, left: oak_wood is a starting fact, so oak_planks is proved. */
  lemma Pass3Planks()
    ensures Iterate(KP, P1) == (RecResult.Found, P2)
  {
    assert Wood in KP.starting;
    SingleIterate(KP, {R2}, Planks, R1, Node({R2}, FactToProve(Wood)));
  }

  /** Pass 3, right: the oak_planks under stick gets its alternative, with no rule left. */
  lemma Pass3Stick()
    ensures Iterate(KP, S1) == (Potential, S2)
  {
    Distinct();
    assert Index[Planks] == [R1];
    assert {R1} - {R1} == {};
    GoalOne(KP, Planks, R1, {R1});
    assert R1.reqs == [Wood];
    assert Goals(R1.reqs, {}) == [Node({}, FactToProve(Wood))];
    assert Iterate(KP, Node({R1}, FactToProve(Planks))) == (Potential, Q1);
    SingleIterate(KP, {R1}, Stick, R2, Node({R1}, FactToProve(Planks)));
  }

  /** Pass 3 proves oak_planks from oak_wood and expands the oak_planks under stick. */
  lemma Pass3()
    ensures Iterate(KP, T2) == (Potential, T3)
  {
    Pass3Planks();
    Pass3Stick();
    TopIterate(KP, P1, S1);
  }

  /** Pass 4, right: the inner oak_planks is proved, and with it stick. */
  lemma Pass4Stick()
    ensures Iterate(KP, S2) == (RecResult.Found, S3)
  {
    assert Wood in KP.starting;
    SingleIterate(KP, {}, Planks, R1, Node({}, FactToProve(Wood)));
    assert Iterate(KP, Q1) == (RecResult.Found, Q2);
    SingleIterate(KP, {R1}, Stick, R2, Q1);
  }

  /** Pass 4 proves the inner oak_planks, then stick, then the target. */
  lemma Pass4()
    ensures Iterate(KP, T3) == (RecResult.Found, T4)
  {
    assert Iterate(KP, P2) == (RecResult.Found, P2);
    Pass4Stick();
    TopIterate(KP, P2, S2);
  }

  /** The whole search: four passes, ending Found. */
  lemma ExampleRun()
    ensures Run(KP, 5, T0) == (RecResult.Found, T4)
  {
    assert SumReqs(Index[Pickaxe]) == 2;
    assert Bounded(KP, 5);
    Pass1(); Pass2(); Pass3(); Pass4();
    RunSettles(KP, 5, T0);
    RunSettles(KP, 5, T1);
    RunSettles(KP, 5, T2);
    RunSettles(KP, 5, T3);
  }

  /** The rules reported under a one-alternative Or node: those of its requirement, then its rule when reported. */
  lemma SingleRules(av: set<Rule>, f: Fact, r: Rule, g: Node, st: RecResult, isFinal: bool)
    ensures AppliedRules(Single(av, f, r, g, st), isFinal)
         == AppliedRules(g, isFinal) + (if Include(st, isFinal) then [r] else [])
  {
    assert [g][1..] == [];
    assert AppliedRulesAll([g], isFinal) == AppliedRules(g, isFinal) + [];
    var and := Node(av, And(f, r, [g], st));
    assert [and][1..] == [];
    assert AppliedRulesAll([and], isFinal) == AppliedRules(and, isFinal) + [];
  }

  /** The rules reported under the top of the tree: those of both requirements, then the pickaxe rule when reported. */
  lemma TopRules(p: Node, s: Node, st: RecResult, isFinal: bool)
    ensures AppliedRules(Top(p, s, st), isFinal)
         == AppliedRules(p, isFinal) + AppliedRules(s, isFinal) + (if Include(st, isFinal) then [R3] else [])
  {
    var cs := [p, s];
    assert cs[1..] == [s] && cs[1..][1..] == [];
    assert AppliedRulesAll([s], isFinal) == AppliedRules(s, isFinal) + [];
    assert AppliedRulesAll(cs, isFinal) == AppliedRules(p, isFinal) + AppliedRulesAll([s], isFinal);
    var and := Node(Av1, And(Pickaxe, R3, cs, st));
    assert AppliedRules(and, isFinal) == AppliedRulesAll(cs, isFinal) + (if Include(st, isFinal) then [R3] else []);
    assert [and][1..] == [];
    assert AppliedRulesAll([and], isFinal) == AppliedRules(and, isFinal) + [];
  }

  /** The rules of the final tree: oak_planks twice (once under each branch), then stick, then the pickaxe. */
  lemma ExampleRules()
    ensures RootRules(T4, Pickaxe) == [R1, R1, R2, R3]
  {
    SingleRules({R2}, Planks, R1, Node({R2}, ProvenFact(Wood)), RecResult.Found, true);
    SingleRules({}, Planks, R1, Node({}, ProvenFact(Wood)), RecResult.Found, true);
    SingleRules({R1}, Stick, R2, Q2, RecResult.Found, true);
    TopRules(P2, S3, RecResult.Found, true);
    assert AppliedRules(P2, true) == [R1];
    assert AppliedRules(S3, true) == [R1, R2];
  }

  /** Dropping the repeated oak_planks rule. */
  lemma ExampleDedup()
    ensures Dedup([R1, R1, R2, R3]) == [R1, R2, R3]
  {
    Distinct();
    assert [R1, R1, R2, R3][..3] == [R1, R1, R2];
    assert [R1, R1, R2][..2] == [R1, R1];
    assert [R1, R1][..1] == [R1];
    assert [R1][..0] == [];
    assert Dedup([R1]) == [R1];
    assert Dedup([R1, R1]) == [R1];
    assert Dedup([R1, R1, R2]) == [R1, R2];
  }

  /** Backward chaining on the example: build_tree ends Found and the applied rules are r1, r2, r3. */
  method BackwardExample() returns (res: RevStepResult, rules: seq<Rule>)
    ensures res == RevStepResult.Found
    ensures rules == [R1, R2, R3]
  {
    var e := PrimitiveEngine();
    assert e.rules == [R1, R2, R3];
    ExampleRuleSets();
    ExampleIndex();
    var rr := new ReverseReasoning(e, Pickaxe);
    assert rr.root == T0;
    assert rr.K() == KP;
    assert R1.reqs == [Wood] && R2.reqs == [Planks] && R3.reqs == [Planks, Stick];
    assert SumReqs([R1, R2, R3]) == 4;
    assert rr.Bound() == 5;
    ExampleRun();
    var fc, rc;
    res, fc, rc := rr.BuildTree(map[], map[]);
    ExampleRules();
    ExampleDedup();
    rules := rr.GetAppliedRules();
  }
}
