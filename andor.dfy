/**
 * The AND/OR proof-search tree of backward chaining (src/reverse_reasoning.rs),
 * as values: the node types, the reversed rule index, one evaluation pass over
 * a tree (`rec_iterate`), the extraction of applied rules, and the recursive
 * colouring walk (`rec_recoloring`).  The class in module Reverse drives these.
 *
 * The source rewrites nodes in place with a placeholder `Empty` swapped in
 * while a node is being rebuilt; here every pass returns the rewritten tree,
 * so no placeholder is needed and `Empty` is not part of the model.
 */
module AndOr {
  import opened Facts
  import opened Coloring

  datatype RecResult = Potential | Found | DeadEnd

  /** A node of the search tree: the rules still usable on its branch, and its kind. */
  datatype Node = Node(available: set<Rule>, info: NodeInfo)

  datatype NodeInfo =
    | Or(fact: Fact, children: seq<Node>, status: RecResult)
    | And(fact: Fact, rule: Rule, children: seq<Node>, status: RecResult)
    | FactToProve(fact: Fact)
    | ProvenFact(fact: Fact)
    | DeadEnd(fact: Fact)

  /** What a pass consults besides the tree: the starting facts and the reversed index. */
  datatype Knowledge = Knowledge(starting: set<Fact>, reversed: map<Fact, seq<Rule>>)

  // ---------------------------------------------------------------------------
  // The reversed index (built by ReverseReasoning::new)
  // ---------------------------------------------------------------------------

  /** The rules of `rules` whose output is `f`, in their original order. */
  function RulesFor(rules: seq<Rule>, f: Fact): seq<Rule>
  {
    if rules == [] then []
    else (if rules[0].out == f then [rules[0]] else []) + RulesFor(rules[1..], f)
  }

  /** Each produced fact mapped to the rules producing it; unproduced facts have no entry. */
  function ReversedIndex(rules: seq<Rule>): map<Fact, seq<Rule>>
  {
    map f | f in Outs(rules) :: RulesFor(rules, f)
  }

  /** RulesFor keeps exactly the rules producing `f`. */
  lemma {:induction false} RulesForMembers(rules: seq<Rule>, f: Fact, r: Rule)
    ensures r in RulesFor(rules, f) <==> r in rules && r.out == f
    ensures |RulesFor(rules, f)| <= |rules|
  {
    if rules != [] {
      RulesForMembers(rules[1..], f, r);
      assert rules == [rules[0]] + rules[1..];
    }
  }

  /** Appending a rule appends it to the list of its own output and to no other. */
  lemma {:induction false} RulesForSnoc(rules: seq<Rule>, r: Rule, f: Fact)
    ensures RulesFor(rules + [r], f) == RulesFor(rules, f) + (if r.out == f then [r] else [])
    decreases |rules|
  {
    if rules == [] {
      assert [r][1..] == [];
    } else {
      var h := if rules[0].out == f then [rules[0]] else [];
      assert (rules + [r])[0] == rules[0];
      assert (rules + [r])[1..] == rules[1..] + [r];
      assert RulesFor(rules + [r], f) == h + RulesFor(rules[1..] + [r], f);
      RulesForSnoc(rules[1..], r, f);
      assert RulesFor(rules, f) == h + RulesFor(rules[1..], f);
    }
  }

  /** The index has an entry exactly for the facts some rule produces, and it lists those producers. */
  lemma ReversedIndexAt(rules: seq<Rule>, f: Fact)
    ensures f in ReversedIndex(rules) <==> exists r :: r in rules && r.out == f
    ensures f in ReversedIndex(rules) ==>
      ReversedIndex(rules)[f] != [] &&
      forall r :: r in ReversedIndex(rules)[f] <==> r in rules && r.out == f
  {
    if f in ReversedIndex(rules) {
      var r0 :| r0 in rules && r0.out == f;
      RulesForMembers(rules, f, r0);
      forall r ensures r in ReversedIndex(rules)[f] <==> r in rules && r.out == f {
        RulesForMembers(rules, f, r);
      }
    }
  }

  /** A fact no rule produces has an empty list of producers. */
  lemma RulesForUnproduced(rules: seq<Rule>, f: Fact)
    requires f !in Outs(rules)
    ensures RulesFor(rules, f) == []
  {
    if RulesFor(rules, f) != [] {
      RulesForMembers(rules, f, RulesFor(rules, f)[0]);
      assert false;
    }
  }

  /** Adding one rule to the index as the constructor's loop does: push to its output's list, or start one. */
  lemma ReversedIndexSnoc(rules: seq<Rule>, r: Rule)
    ensures var m := ReversedIndex(rules);
      ReversedIndex(rules + [r]) == m[r.out := (if r.out in m then m[r.out] else []) + [r]]
  {
    var m := ReversedIndex(rules);
    var m2 := ReversedIndex(rules + [r]);
    var m' := m[r.out := (if r.out in m then m[r.out] else []) + [r]];
    assert Outs(rules + [r]) == Outs(rules) + {r.out};
    assert m2.Keys == m'.Keys;
    forall f | f in m2
      ensures m2[f] == m'[f]
    {
      RulesForSnoc(rules, r, f);
      if f !in Outs(rules) {
        RulesForUnproduced(rules, f);
      }
    }
  }

  /** A fact's producers carry no more requirements than all the rules together. */
  lemma {:induction false} RulesForWeight(rules: seq<Rule>, f: Fact)
    ensures SumReqs(RulesFor(rules, f)) <= SumReqs(rules)
  {
    if rules != [] {
      RulesForWeight(rules[1..], f);
      var t := RulesFor(rules[1..], f);
      if rules[0].out == f {
        assert RulesFor(rules, f) == [rules[0]] + t;
        assert ([rules[0]] + t)[1..] == t;
      } else {
        assert RulesFor(rules, f) == t;
      }
    }
  }

  /**
   * The index built from a rule list lists only true producers, and one plus
   * the total number of requirements bounds every expansion.
   */
  lemma IndexBounded(starting: set<Fact>, rules: seq<Rule>)
    ensures IndexSound(Knowledge(starting, ReversedIndex(rules)))
    ensures Bounded(Knowledge(starting, ReversedIndex(rules)), 1 + SumReqs(rules))
  {
    var m := ReversedIndex(rules);
    forall f: Fact, r: Rule | f in m && r in m[f] ensures r.out == f {
      RulesForMembers(rules, f, r);
    }
    forall f | f in m ensures SumReqs(m[f]) < 1 + SumReqs(rules) {
      RulesForWeight(rules, f);
    }
  }

  // ---------------------------------------------------------------------------
  // One evaluation pass (ReverseReasoning::rec_iterate)
  // ---------------------------------------------------------------------------

  /** The rules of `rs` that are still available, in order (the `filter` on available_rules). */
  function FilterAvailable(rs: seq<Rule>, available: set<Rule>): seq<Rule>
  {
    if rs == [] then []
    else (if rs[0] in available then [rs[0]] else []) + FilterAvailable(rs[1..], available)
  }

  /** The candidate rules for proving `f` on a branch: its producers still available there. */
  function Candidates(k: Knowledge, f: Fact, available: set<Rule>): seq<Rule>
  {
    if f in k.reversed then FilterAvailable(k.reversed[f], available) else []
  }

  /** One fresh goal per requirement. */
  function Goals(reqs: seq<Fact>, av: set<Rule>): seq<Node>
  {
    seq(|reqs|, i requires 0 <= i < |reqs| => Node(av, FactToProve(reqs[i])))
  }

  /** One And alternative per candidate rule, in candidate order. */
  function Alternatives(f: Fact, cands: seq<Rule>, av: set<Rule>): seq<Node>
  {
    seq(|cands|, i requires 0 <= i < |cands| => Node(av, And(f, cands[i], Goals(cands[i].reqs, av), Potential)))
  }

  /**
   * The expansion of a goal: an Or node over one And node per candidate, every
   * new node carrying the branch's rules minus all the candidates.
   */
  function Expand(f: Fact, cands: seq<Rule>, available: set<Rule>): Node
  {
    var av := available - (set r | r in cands);
    Node(av, Or(f, Alternatives(f, cands, av), Potential))
  }

  /** The outcome of the Or loop: whether a child was found, whether all children died, and the new children. */
  datatype OrScan = OrScan(found: bool, allDead: bool, children: seq<Node>)

  /** The outcome of the And loop: whether a child died, whether all were found, and the new children. */
  datatype AndScan = AndScan(dead: bool, allFound: bool, children: seq<Node>)

  /** ReverseReasoning::rec_iterate: one pass over the subtree, returning its status and its rewrite. */
  function Iterate(k: Knowledge, n: Node): (RecResult, Node)
    decreases n
  {
    match n.info
    case Or(f, cs, st) =>
      if st != Potential then (st, n)
      else
        var s := ScanOr(k, cs);
        var st' := if s.found then Found else if s.allDead then RecResult.DeadEnd else Potential;
        (st', Node(n.available, Or(f, s.children, st')))
    case And(f, r, cs, st) =>
      if st != Potential then (st, n)
      else
        var s := ScanAnd(k, cs);
        var st' := if s.dead then RecResult.DeadEnd else if s.allFound then Found else Potential;
        (st', Node(n.available, And(f, r, s.children, st')))
    case FactToProve(f) =>
      if f in k.starting then (Found, Node(n.available, ProvenFact(f)))
      else
        var cands := Candidates(k, f, n.available);
        if cands == [] then (RecResult.DeadEnd, n)
        else (Potential, Expand(f, cands, n.available))
    case ProvenFact(_) => (Found, n)
    case DeadEnd(_) => (RecResult.DeadEnd, n)
  }

  /**
   * The Or loop: children are evaluated in order; the first Found one stops the
   * loop and becomes the only child; otherwise every child is rewritten.
   */
  function ScanOr(k: Knowledge, cs: seq<Node>): OrScan
    decreases cs
  {
    if cs == [] then OrScan(false, true, [])
    else
      var (r, c) := Iterate(k, cs[0]);
      if r == Found then OrScan(true, false, [c])
      else
        var rest := ScanOr(k, cs[1..]);
        OrScan(rest.found, r == RecResult.DeadEnd && rest.allDead,
               if rest.found then rest.children else [c] + rest.children)
  }

  /**
   * The And loop: children are evaluated in order; the first DeadEnd one stops
   * the loop, leaving the later children as they were.
   */
  function ScanAnd(k: Knowledge, cs: seq<Node>): AndScan
    decreases cs
  {
    if cs == [] then AndScan(false, true, [])
    else
      var (r, c) := Iterate(k, cs[0]);
      if r == RecResult.DeadEnd then AndScan(true, false, [c] + cs[1..])
      else
        var rest := ScanAnd(k, cs[1..]);
        AndScan(rest.dead, r == Found && rest.allFound, [c] + rest.children)
  }

  // ---------------------------------------------------------------------------
  // What one pass does to each kind of node
  // ---------------------------------------------------------------------------

  /** Final nodes, proven facts and dead ends come back unchanged, with their own status. */
  lemma IterateFinal(k: Knowledge, n: Node)
    requires || n.info.ProvenFact? || n.info.DeadEnd?
             || ((n.info.Or? || n.info.And?) && n.info.status != Potential)
    ensures Iterate(k, n).1 == n
    ensures n.info.ProvenFact? ==> Iterate(k, n).0 == Found
    ensures n.info.DeadEnd? ==> Iterate(k, n).0 == RecResult.DeadEnd
    ensures n.info.Or? || n.info.And? ==> Iterate(k, n).0 == n.info.status
  {
  }

  /**
   * A goal leaf: a starting fact becomes a proven fact on the same rules;
   * with no available producer the leaf stays as it is and reports DeadEnd;
   * otherwise it is expanded and reports Potential.
   */
  lemma IterateGoal(k: Knowledge, n: Node)
    requires n.info.FactToProve?
    ensures var (r, n') := Iterate(k, n); var f := n.info.fact;
      && (f in k.starting ==> r == Found && n' == Node(n.available, ProvenFact(f)))
      && (f !in k.starting && (f !in k.reversed || forall q :: q in k.reversed[f] ==> q !in n.available) ==>
            r == RecResult.DeadEnd && n' == n)
      && (f !in k.starting && f in k.reversed && (exists q :: q in k.reversed[f] && q in n.available) ==>
            r == Potential && n' == Expand(f, Candidates(k, f, n.available), n.available))
  {
    var f := n.info.fact;
    if f in k.reversed {
      var cands := Candidates(k, f, n.available);
      if cands != [] {
        FilterAvailableMembers(k.reversed[f], n.available, cands[0]);
      } else if q :| q in k.reversed[f] && q in n.available {
        FilterAvailableMembers(k.reversed[f], n.available, q);
      }
    }
  }

  /** FilterAvailable keeps exactly the available rules, and only shrinks the requirement count. */
  lemma {:induction false} FilterAvailableMembers(rs: seq<Rule>, available: set<Rule>, q: Rule)
    ensures q in FilterAvailable(rs, available) <==> q in rs && q in available
    ensures SumReqs(FilterAvailable(rs, available)) <= SumReqs(rs)
  {
    if rs != [] {
      FilterAvailableMembers(rs[1..], available, q);
      assert rs == [rs[0]] + rs[1..];
      var t := FilterAvailable(rs[1..], available);
      if rs[0] in available {
        assert FilterAvailable(rs, available) == [rs[0]] + t;
        assert ([rs[0]] + t)[1..] == t;
      } else {
        assert FilterAvailable(rs, available) == t;
      }
    }
  }

  /**
   * The shape of an expansion: one And child per candidate, in order, each
   * with one goal per requirement; every new node carries the branch's rules
   * minus all the candidates, which is a strictly smaller set when some
   * candidate was available.
   */
  lemma ExpandShape(f: Fact, cands: seq<Rule>, available: set<Rule>)
    ensures var n := Expand(f, cands, available); var av := available - (set r | r in cands);
      && n.available == av
      && n.info == Or(f, n.info.children, Potential)
      && |n.info.children| == |cands|
      && (forall i :: 0 <= i < |cands| ==>
            && n.info.children[i].available == av
            && n.info.children[i].info == And(f, cands[i], n.info.children[i].info.children, Potential)
            && |n.info.children[i].info.children| == |cands[i].reqs|
            && (forall j :: 0 <= j < |cands[i].reqs| ==>
                  n.info.children[i].info.children[j] == Node(av, FactToProve(cands[i].reqs[j]))))
      && (forall r :: r in cands ==> r !in av)
      && (cands != [] && cands[0] in available ==> av < available)
  {
  }

  /** The position of the first child whose pass reports `r`, or the number of children when none does. */
  function FirstWith(k: Knowledge, cs: seq<Node>, r: RecResult): (i: nat)
    ensures i <= |cs|
    ensures forall j :: 0 <= j < i ==> Iterate(k, cs[j]).0 != r
    ensures i < |cs| ==> Iterate(k, cs[i]).0 == r
    decreases cs
  {
    if cs == [] then 0
    else if Iterate(k, cs[0]).0 == r then 0
    else
      var i := FirstWith(k, cs[1..], r);
      assert forall j :: 1 <= j < i + 1 ==> cs[j] == cs[1..][j - 1];
      1 + i
  }

  /**
   * The Or loop, child by child: found iff some child is found, and then only
   * the first such child is kept; otherwise every child is rewritten, and all
   * died iff every child died.
   */
  lemma {:induction false} ScanOrMeaning(k: Knowledge, cs: seq<Node>)
    ensures var s := ScanOr(k, cs); var i := FirstWith(k, cs, Found);
      && (s.found <==> i < |cs|)
      && (s.found ==> s.children == [Iterate(k, cs[i]).1])
      && (!s.found ==> |s.children| == |cs|
                        && (forall j :: 0 <= j < |cs| ==> s.children[j] == Iterate(k, cs[j]).1)
                        && (s.allDead <==> forall j :: 0 <= j < |cs| ==> Iterate(k, cs[j]).0 == RecResult.DeadEnd))
    decreases cs
  {
    if cs != [] {
      var (r, c) := Iterate(k, cs[0]);
      if r != Found {
        ScanOrMeaning(k, cs[1..]);
        var rest := ScanOr(k, cs[1..]);
        var s := ScanOr(k, cs);
        assert FirstWith(k, cs, Found) == 1 + FirstWith(k, cs[1..], Found);
        if !rest.found {
          assert s.children == [c] + rest.children;
          forall j | 0 <= j < |cs| ensures s.children[j] == Iterate(k, cs[j]).1 {
            if j > 0 { assert s.children[j] == rest.children[j - 1] && cs[j] == cs[1..][j - 1]; }
          }
          if !s.allDead && r == RecResult.DeadEnd {
            var j :| 0 <= j < |cs[1..]| && Iterate(k, cs[1..][j]).0 != RecResult.DeadEnd;
            assert Iterate(k, cs[j + 1]).0 != RecResult.DeadEnd;
          }
        }
      }
    }
  }

  /**
   * The And loop, child by child: it dies iff some child dies; children up to
   * and including the first dead one are rewritten and the later ones are left
   * untouched; when none dies it is found iff every child is found.
   */
  lemma {:induction false} ScanAndMeaning(k: Knowledge, cs: seq<Node>)
    ensures var s := ScanAnd(k, cs); var d := FirstWith(k, cs, RecResult.DeadEnd);
      && |s.children| == |cs|
      && (s.dead <==> d < |cs|)
      && (forall j :: 0 <= j <= d && j < |cs| ==> s.children[j] == Iterate(k, cs[j]).1)
      && (forall j :: d < j < |cs| ==> s.children[j] == cs[j])
      && (!s.dead ==> (s.allFound <==> forall i :: 0 <= i < |cs| ==> Iterate(k, cs[i]).0 == Found))
    decreases cs
  {
    if cs != [] {
      var (r, c) := Iterate(k, cs[0]);
      var s := ScanAnd(k, cs);
      if r == RecResult.DeadEnd {
        assert s.children == [c] + cs[1..];
        forall j | 0 < j < |cs| ensures s.children[j] == cs[j] {
          assert s.children[j] == cs[1..][j - 1];
        }
      } else {
        ScanAndMeaning(k, cs[1..]);
        var rest := ScanAnd(k, cs[1..]);
        var d' := FirstWith(k, cs[1..], RecResult.DeadEnd);
        assert FirstWith(k, cs, RecResult.DeadEnd) == 1 + d';
        assert s.children == [c] + rest.children;
        forall j | 1 <= j < |cs|
          ensures cs[1..][j - 1] == cs[j] && s.children[j] == rest.children[j - 1]
        {
        }
        if !s.dead && !s.allFound && r == Found {
          var i :| 0 <= i < |cs[1..]| && Iterate(k, cs[1..][i]).0 != Found;
          assert Iterate(k, cs[i + 1]).0 != Found;
        }
      }
    }
  }

  /**
   * An Or node: a final one is returned as it is; a Potential one is found
   * iff some child is found (keeping only the first), dead iff every child
   * is dead (in particular when it has none), and Potential otherwise.
   */
  lemma IterateOr(k: Knowledge, n: Node)
    requires n.info.Or?
    ensures var (r, n') := Iterate(k, n); var cs := n.info.children;
      && (n.info.status != Potential ==> r == n.info.status && n' == n)
      && n'.available == n.available && n'.info.Or? && n'.info.fact == n.info.fact
      && n'.info.status == r
      && (n.info.status == Potential ==>
           && (r == Found <==> exists i :: 0 <= i < |cs| && Iterate(k, cs[i]).0 == Found)
           && (r == Found ==> exists i :: (0 <= i < |cs| && Iterate(k, cs[i]).0 == Found
                              && (forall j :: 0 <= j < i ==> Iterate(k, cs[j]).0 != Found)
                              && n'.info.children == [Iterate(k, cs[i]).1]))
           && (r == RecResult.DeadEnd <==> forall i :: 0 <= i < |cs| ==> Iterate(k, cs[i]).0 == RecResult.DeadEnd)
           && (r != Found ==> |n'.info.children| == |cs|
                              && forall i :: 0 <= i < |cs| ==> n'.info.children[i] == Iterate(k, cs[i]).1))
  {
    ScanOrMeaning(k, n.info.children);
  }

  /**
   * An And node: a final one is returned as it is; a Potential one dies as
   * soon as a child dies (later children untouched), is found iff every
   * child is found (in particular when it has none), and is Potential otherwise.
   */
  lemma IterateAnd(k: Knowledge, n: Node)
    requires n.info.And?
    ensures var (r, n') := Iterate(k, n); var cs := n.info.children;
            var d := FirstWith(k, cs, RecResult.DeadEnd);
      && (n.info.status != Potential ==> r == n.info.status && n' == n)
      && n'.available == n.available && n'.info.And? && n'.info.fact == n.info.fact
      && n'.info.rule == n.info.rule && n'.info.status == r
      && |n'.info.children| == |cs|
      && (n.info.status == Potential ==>
           && (r == RecResult.DeadEnd <==> d < |cs|)
           && (forall j :: 0 <= j <= d && j < |cs| ==> n'.info.children[j] == Iterate(k, cs[j]).1)
           && (forall j :: d < j < |cs| ==> n'.info.children[j] == cs[j])
           && (r == Found <==> forall i :: 0 <= i < |cs| ==> Iterate(k, cs[i]).0 == Found))
  {
    ScanAndMeaning(k, n.info.children);
  }

  // ---------------------------------------------------------------------------
  // Termination: a measure that every Potential pass decreases
  // ---------------------------------------------------------------------------

  function Pow(b: nat, e: nat): nat
  {
    if e == 0 then 1 else b * Pow(b, e - 1)
  }

  /** Total number of requirements of a list of rules. */
  function SumReqs(rs: seq<Rule>): nat
  {
    if rs == [] then 0 else |rs[0].reqs| + SumReqs(rs[1..])
  }

  /**
   * The weight of a tree: each unexpanded goal weighs b to the power of the
   * number of rules still available to it; everything else weighs nothing.
   */
  function Measure(b: nat, n: Node): nat
    decreases n
  {
    match n.info
    case Or(_, cs, _) => MeasureAll(b, cs)
    case And(_, _, cs, _) => MeasureAll(b, cs)
    case FactToProve(_) => Pow(b, |n.available|)
    case ProvenFact(_) => 0
    case DeadEnd(_) => 0
  }

  function MeasureAll(b: nat, cs: seq<Node>): nat
    decreases cs
  {
    if cs == [] then 0 else Measure(b, cs[0]) + MeasureAll(b, cs[1..])
  }

  /** The base of the measure exceeds the number of goals any one expansion can create. */
  ghost predicate Bounded(k: Knowledge, b: nat)
  {
    b >= 1 && forall f :: f in k.reversed ==> SumReqs(k.reversed[f]) < b
  }

  lemma {:induction false} PowMonotone(b: nat, x: nat, y: nat)
    requires b >= 1 && x <= y
    ensures 1 <= Pow(b, x) <= Pow(b, y)
    decreases y
  {
    if x < y {
      PowMonotone(b, x, y - 1);
      MulLeq(Pow(b, y - 1), 1, b);
    } else if y > 0 {
      PowMonotone(b, x - 1, y - 1);
      MulLeq(Pow(b, y - 1), 1, b);
    }
  }

  lemma {:induction false} MeasureGoals(b: nat, reqs: seq<Fact>, av: set<Rule>)
    ensures MeasureAll(b, Goals(reqs, av)) == |reqs| * Pow(b, |av|)
    decreases |reqs|
  {
    var g := Goals(reqs, av);
    if reqs != [] {
      assert g[1..] == Goals(reqs[1..], av);
      MeasureGoals(b, reqs[1..], av);
    }
  }

  lemma {:induction false} MeasureAlternatives(b: nat, f: Fact, cands: seq<Rule>, av: set<Rule>)
    ensures MeasureAll(b, Alternatives(f, cands, av)) == SumReqs(cands) * Pow(b, |av|)
    decreases |cands|
  {
    var a := Alternatives(f, cands, av);
    if cands != [] {
      assert a[1..] == Alternatives(f, cands[1..], av);
      MeasureAlternatives(b, f, cands[1..], av);
      MeasureGoals(b, cands[0].reqs, av);
      var p := Pow(b, |av|);
      assert MeasureAll(b, a) == |cands[0].reqs| * p + SumReqs(cands[1..]) * p;
      assert SumReqs(cands) == |cands[0].reqs| + SumReqs(cands[1..]);
      Distribute(|cands[0].reqs|, SumReqs(cands[1..]), p);
    }
  }

  lemma Distribute(x: nat, y: nat, p: nat)
    ensures x * p + y * p == (x + y) * p
  {
  }

  /** Expanding a goal weighs strictly less than the goal it replaces. */
  lemma ExpandMeasure(b: nat, f: Fact, cands: seq<Rule>, available: set<Rule>)
    requires b >= 1 && cands != [] && cands[0] in available
    requires SumReqs(cands) < b
    ensures Measure(b, Expand(f, cands, available)) < Pow(b, |available|)
  {
    var av := available - (set r | r in cands);
    MeasureAlternatives(b, f, cands, av);
    assert av <= available - {cands[0]};
    assert |available - {cands[0]}| == |available| - 1;
    assert |av| <= |available| - 1;
    PowMonotone(b, |av|, |available| - 1);
    Weighing(SumReqs(cands), b, Pow(b, |av|), Pow(b, |available| - 1));
  }

  /** Fewer than b copies of at most p weigh less than b copies of p. */
  lemma Weighing(s: nat, b: nat, x: nat, p: nat)
    requires s < b && 1 <= x <= p
    ensures s * x < b * p
  {
    MulLeq(s, x, p);
    MulLeq(p, s, b - 1);
    assert p * (b - 1) == p * b - p;
  }

  lemma MulLeq(a: nat, x: nat, y: nat)
    requires x <= y
    ensures a * x <= a * y
  {
  }

  /** One pass never increases the measure, and strictly decreases it when it reports Potential. */
  lemma {:induction false} MeasureIterate(k: Knowledge, b: nat, n: Node)
    requires Bounded(k, b)
    ensures Measure(b, Iterate(k, n).1) <= Measure(b, n)
    ensures Iterate(k, n).0 == Potential ==> Measure(b, Iterate(k, n).1) < Measure(b, n)
    decreases n, 1
  {
    match n.info
    case Or(f, cs, st) =>
      if st == Potential { MeasureScanOr(k, b, cs); }
    case And(f, r, cs, st) =>
      if st == Potential { MeasureScanAnd(k, b, cs); }
    case FactToProve(f) =>
      if f !in k.starting {
        var cands := Candidates(k, f, n.available);
        if cands != [] {
          FilterAvailableMembers(k.reversed[f], n.available, cands[0]);
          ExpandMeasure(b, f, cands, n.available);
        }
      }
    case ProvenFact(_) =>
    case DeadEnd(_) =>
  }

  lemma {:induction false} MeasureScanOr(k: Knowledge, b: nat, cs: seq<Node>)
    requires Bounded(k, b)
    ensures var s := ScanOr(k, cs);
      && MeasureAll(b, s.children) <= MeasureAll(b, cs)
      && (!s.found && !s.allDead ==> MeasureAll(b, s.children) < MeasureAll(b, cs))
    decreases cs, 0
  {
    if cs != [] {
      MeasureIterate(k, b, cs[0]);
      var (r, c) := Iterate(k, cs[0]);
      if r == Found {
        assert MeasureAll(b, [c]) == Measure(b, c) by { assert [c][1..] == []; }
      } else {
        MeasureScanOr(k, b, cs[1..]);
        var rest := ScanOr(k, cs[1..]);
        if !rest.found {
          assert ([c] + rest.children)[1..] == rest.children;
        }
      }
    }
  }

  lemma {:induction false} MeasureScanAnd(k: Knowledge, b: nat, cs: seq<Node>)
    requires Bounded(k, b)
    ensures var s := ScanAnd(k, cs);
      && MeasureAll(b, s.children) <= MeasureAll(b, cs)
      && (!s.dead && !s.allFound ==> MeasureAll(b, s.children) < MeasureAll(b, cs))
    decreases cs, 0
  {
    if cs != [] {
      MeasureIterate(k, b, cs[0]);
      var (r, c) := Iterate(k, cs[0]);
      if r == RecResult.DeadEnd {
        assert ([c] + cs[1..])[1..] == cs[1..];
      } else {
        MeasureScanAnd(k, b, cs[1..]);
        var rest := ScanAnd(k, cs[1..]);
        assert ([c] + rest.children)[1..] == rest.children;
      }
    }
  }

  /** Passes repeated until the root is no longer Potential (ReverseReasoning::build_tree). */
  ghost function Run(k: Knowledge, b: nat, n: Node): (RecResult, Node)
    requires Bounded(k, b)
    decreases Measure(b, n)
  {
    var (r, n') := Iterate(k, n);
    if r == Potential then
      MeasureIterate(k, b, n);
      Run(k, b, n')
    else (r, n')
  }

  /** The search always settles: build_tree ends Found or DeadEnd, never Potential. */
  lemma {:induction false} RunSettles(k: Knowledge, b: nat, n: Node)
    requires Bounded(k, b)
    ensures Run(k, b, n).0 != Potential
    ensures Iterate(k, n).0 != Potential ==> Run(k, b, n) == Iterate(k, n)
    ensures Iterate(k, n).0 == Potential ==> Run(k, b, n) == Run(k, b, Iterate(k, n).1)
    decreases Measure(b, n)
  {
    var (r, n') := Iterate(k, n);
    if r == Potential {
      MeasureIterate(k, b, n);
      RunSettles(k, b, n');
    }
  }

  // ---------------------------------------------------------------------------
  // Tree invariants: every node means what it says
  // ---------------------------------------------------------------------------

  /** Every rule the index lists for a fact produces that fact. */
  ghost predicate IndexSound(k: Knowledge)
  {
    forall f, r :: f in k.reversed && r in k.reversed[f] ==> r.out == f
  }

  /** A node that stands proved: a proven fact, or an Or/And node whose status is Found. */
  predicate Proved(n: Node)
  {
    n.info.ProvenFact? || ((n.info.Or? || n.info.And?) && n.info.status == Found)
  }

  /**
   * The search-tree invariant: an Or node's children are And nodes for its own
   * fact; an And node's rule produces its fact and it has one non-And child per
   * requirement, in order; a Found Or node has a child and a Found And or Or
   * node has only proved children; a proven fact is a starting fact.
   */
  ghost predicate Sound(k: Knowledge, n: Node)
    decreases n
  {
    match n.info
    case Or(f, cs, st) =>
      && (st == Found ==> cs != [])
      && forall i :: 0 <= i < |cs| ==>
           && cs[i].info.And? && cs[i].info.fact == f
           && (st == Found ==> Proved(cs[i]))
           && Sound(k, cs[i])
    case And(f, r, cs, st) =>
      && r.out == f && |cs| == |r.reqs|
      && forall i :: 0 <= i < |cs| ==>
           && !cs[i].info.And? && cs[i].info.fact == r.reqs[i]
           && (st == Found ==> Proved(cs[i]))
           && Sound(k, cs[i])
    case FactToProve(_) => true
    case ProvenFact(f) => f in k.starting
    case DeadEnd(_) => true
  }

  /** An expansion built from indexed producers is sound. */
  lemma SoundExpand(k: Knowledge, f: Fact, cands: seq<Rule>, available: set<Rule>)
    requires forall r :: r in cands ==> r.out == f
    ensures Sound(k, Expand(f, cands, available))
  {
    var n := Expand(f, cands, available);
    forall i | 0 <= i < |cands| ensures Sound(k, n.info.children[i]) {
      var c := n.info.children[i];
      forall j | 0 <= j < |c.info.children| ensures Sound(k, c.info.children[j]) {
        assert c.info.children[j].info.FactToProve?;
      }
    }
  }

  /**
   * One pass keeps the tree sound, keeps the node's fact and whether it is an
   * And node, and reports Found exactly when the rewritten node stands proved.
   */
  lemma {:induction false} SoundIterate(k: Knowledge, n: Node)
    requires IndexSound(k) && Sound(k, n)
    ensures var (r, n') := Iterate(k, n);
      && Sound(k, n')
      && n'.info.fact == n.info.fact
      && (n'.info.And? <==> n.info.And?)
      && (r == Found <==> Proved(n'))
    decreases n
  {
    match n.info
    case Or(f, cs, st) =>
      if st == Potential {
        forall i | 0 <= i < |cs| ensures SoundStep(k, cs[i]) { SoundIterate(k, cs[i]); }
        ScanOrMeaning(k, cs);
      }
    case And(f, rule, cs, st) =>
      if st == Potential {
        forall i | 0 <= i < |cs| ensures SoundStep(k, cs[i]) { SoundIterate(k, cs[i]); }
        ScanAndMeaning(k, cs);
        var s := ScanAnd(k, cs);
        var d := FirstWith(k, cs, RecResult.DeadEnd);
        forall j | 0 <= j < |cs| ensures Sound(k, s.children[j]) && s.children[j].info.fact == cs[j].info.fact
                                         && !s.children[j].info.And? {
          if j > d { assert s.children[j] == cs[j]; }
        }
      }
    case FactToProve(f) =>
      if f !in k.starting {
        var cands := Candidates(k, f, n.available);
        if cands != [] {
          forall r | r in cands ensures r.out == f {
            FilterAvailableMembers(k.reversed[f], n.available, r);
          }
          SoundExpand(k, f, cands, n.available);
        }
      }
    case ProvenFact(_) =>
    case DeadEnd(_) =>
  }

  /** What SoundIterate promises about one child. */
  ghost predicate SoundStep(k: Knowledge, c: Node)
  {
    var (r, c') := Iterate(k, c);
    && Sound(k, c') && c'.info.fact == c.info.fact && (c'.info.And? <==> c.info.And?)
    && (r == Found <==> Proved(c'))
  }

  /**
   * No rule is used twice on one branch: `used` holds the rules of the And
   * nodes above `n`; none of them is available at `n`, and every And node's
   * rule differs from those above it.
   */
  ghost predicate Acyclic(n: Node, used: set<Rule>)
    decreases n
  {
    && n.available !! used
    && match n.info
       case Or(_, cs, _) => forall i :: 0 <= i < |cs| ==> Acyclic(cs[i], used)
       case And(_, r, cs, _) => r !in used && forall i :: 0 <= i < |cs| ==> Acyclic(cs[i], used + {r})
       case FactToProve(_) => true
       case ProvenFact(_) => true
       case DeadEnd(_) => true
  }

  /** One pass keeps branches free of repeated rules, and never widens a node's rules. */
  lemma {:induction false} AcyclicIterate(k: Knowledge, n: Node, used: set<Rule>)
    requires Acyclic(n, used)
    ensures Acyclic(Iterate(k, n).1, used)
    ensures Iterate(k, n).1.available <= n.available
    decreases n
  {
    match n.info
    case Or(f, cs, st) =>
      if st == Potential {
        forall i | 0 <= i < |cs| ensures Acyclic(Iterate(k, cs[i]).1, used) { AcyclicIterate(k, cs[i], used); }
        ScanOrMeaning(k, cs);
      }
    case And(f, rule, cs, st) =>
      if st == Potential {
        forall i | 0 <= i < |cs| ensures Acyclic(Iterate(k, cs[i]).1, used + {rule}) {
          AcyclicIterate(k, cs[i], used + {rule});
        }
        ScanAndMeaning(k, cs);
        var s := ScanAnd(k, cs);
        var d := FirstWith(k, cs, RecResult.DeadEnd);
        forall j | 0 <= j < |cs| ensures Acyclic(s.children[j], used + {rule}) {
          if j > d { assert s.children[j] == cs[j]; }
        }
      }
    case FactToProve(f) =>
      if f !in k.starting {
        var cands := Candidates(k, f, n.available);
        if cands != [] {
          var e := Expand(f, cands, n.available);
          var av := e.available;
          forall i | 0 <= i < |cands| ensures Acyclic(e.info.children[i], used) {
            FilterAvailableMembers(k.reversed[f], n.available, cands[i]);
            var c := e.info.children[i];
            forall j | 0 <= j < |c.info.children| ensures Acyclic(c.info.children[j], used + {cands[i]}) {
              assert c.info.children[j].available == av;
            }
          }
        }
      }
    case ProvenFact(_) =>
    case DeadEnd(_) =>
  }

  /**
   * The tree only draws on the rules `R`: every node's rules are among them,
   * and so is every And node's rule.
   */
  ghost predicate Within(n: Node, R: set<Rule>)
    decreases n
  {
    && n.available <= R
    && match n.info
       case Or(_, cs, _) => forall i :: 0 <= i < |cs| ==> Within(cs[i], R)
       case And(_, r, cs, _) => r in R && forall i :: 0 <= i < |cs| ==> Within(cs[i], R)
       case FactToProve(_) => true
       case ProvenFact(_) => true
       case DeadEnd(_) => true
  }

  /** One pass introduces no rule from outside `R`: expansions take their rules from the goal's own. */
  lemma {:induction false} WithinIterate(k: Knowledge, n: Node, R: set<Rule>)
    requires Within(n, R)
    ensures Within(Iterate(k, n).1, R)
    decreases n
  {
    match n.info
    case Or(f, cs, st) =>
      if st == Potential {
        forall i | 0 <= i < |cs| ensures Within(Iterate(k, cs[i]).1, R) { WithinIterate(k, cs[i], R); }
        ScanOrMeaning(k, cs);
      }
    case And(f, rule, cs, st) =>
      if st == Potential {
        forall i | 0 <= i < |cs| ensures Within(Iterate(k, cs[i]).1, R) { WithinIterate(k, cs[i], R); }
        ScanAndMeaning(k, cs);
        var s := ScanAnd(k, cs);
        var d := FirstWith(k, cs, RecResult.DeadEnd);
        forall j | 0 <= j < |cs| ensures Within(s.children[j], R) {
          if j > d { assert s.children[j] == cs[j]; }
        }
      }
    case FactToProve(f) =>
      if f !in k.starting {
        var cands := Candidates(k, f, n.available);
        if cands != [] {
          var e := Expand(f, cands, n.available);
          forall i | 0 <= i < |cands| ensures Within(e.info.children[i], R) {
            FilterAvailableMembers(k.reversed[f], n.available, cands[i]);
            var c := e.info.children[i];
            forall j | 0 <= j < |c.info.children| ensures Within(c.info.children[j], R) {
              assert c.info.children[j].available == e.available;
            }
          }
        }
      }
    case ProvenFact(_) =>
    case DeadEnd(_) =>
  }

  // ---------------------------------------------------------------------------
  // Completeness: a dead end means there is no derivation
  // ---------------------------------------------------------------------------

  /** Every rule of `rules` is listed in the index under its own output. */
  ghost predicate IndexComplete(k: Knowledge, rules: set<Rule>)
  {
    forall r :: r in rules ==> r.out in k.reversed && r in k.reversed[r.out]
  }

  /** The reversed index lists every rule it was built from. */
  lemma ReversedIndexComplete(start: set<Fact>, rules: seq<Rule>)
    ensures IndexComplete(Knowledge(start, ReversedIndex(rules)), set r | r in rules)
  {
    forall r | r in rules ensures r.out in ReversedIndex(rules) && r in ReversedIndex(rules)[r.out] {
      ReversedIndexAt(rules, r.out);
    }
  }

  /** The root a search starts from: the target as a goal with every rule; it meets all tree invariants. */
  lemma InitialRoot(start: set<Fact>, rules: seq<Rule>, target: Fact)
    ensures var k := Knowledge(start, ReversedIndex(rules));
            var R := set r | r in rules;
            var n := Node(R, FactToProve(target));
      && Sound(k, n) && Acyclic(n, {}) && Within(n, R) && Honest(k, R, n, R)
      && IndexSound(k) && IndexComplete(k, R) && Bounded(k, 1 + SumReqs(rules))
  {
    IndexBounded(start, rules);
    ReversedIndexComplete(start, rules);
  }

  /**
   * What a DeadEnd report says about a node whose goal was posed with the
   * rules `A`: for an And node, some requirement of its rule cannot be derived
   * with the node's rules; for any other node, its fact cannot be derived with `A`.
   */
  ghost predicate Claim(k: Knowledge, n: Node, A: set<Rule>)
  {
    if n.info.And? then !AllDerivable(k.starting, n.info.rule.reqs, n.available)
    else !Derivable(k.starting, n.info.fact, A)
  }

  /**
   * The completeness invariant of a node whose goal was posed with the rules
   * `A` (a subset of the engine's rules `R`): a goal still has exactly `A`; an
   * Or node is for a fact that is not given, keeps every rule of `A` not
   * producing its fact, has an And child for every producer in `A` until it is
   * found, and is dead only when its fact is underivable with `A`; an And node
   * is dead only when one of its requirements is underivable.
   */
  ghost predicate Honest(k: Knowledge, R: set<Rule>, n: Node, A: set<Rule>)
    decreases n
  {
    && A <= R
    && match n.info
       case Or(f, cs, st) =>
         && f !in k.starting
         && n.available <= A
         && (forall q :: q in A && q.out != f ==> q in n.available)
         && (st != Found ==> forall q :: q in A && q.out == f ==>
               exists i :: 0 <= i < |cs| && cs[i].info.And? && cs[i].info.rule == q)
         && (st == RecResult.DeadEnd ==> !Derivable(k.starting, f, A))
         && forall i :: 0 <= i < |cs| ==> Honest(k, R, cs[i], n.available)
       case And(f, r, cs, st) =>
         && n.available == A
         && (st == RecResult.DeadEnd ==> !AllDerivable(k.starting, r.reqs, A))
         && forall i :: 0 <= i < |cs| ==> Honest(k, R, cs[i], n.available)
       case FactToProve(_) => n.available == A
       case ProvenFact(_) => true
       case DeadEnd(f) => !Derivable(k.starting, f, A)
  }

  /** What HonestIterate promises about one child. */
  ghost predicate HonestStep(k: Knowledge, R: set<Rule>, c: Node, A: set<Rule>)
  {
    var (r, c') := Iterate(k, c);
    Honest(k, R, c', A) && (r == RecResult.DeadEnd ==> Claim(k, c, A))
  }

  /** Among the rules of `A`, the candidates for `f` are exactly its producers. */
  lemma CandidatesExact(k: Knowledge, R: set<Rule>, f: Fact, A: set<Rule>, q: Rule)
    requires IndexSound(k) && IndexComplete(k, R) && A <= R && q in A
    ensures q in Candidates(k, f, A) <==> q.out == f
  {
    if f in k.reversed {
      FilterAvailableMembers(k.reversed[f], A, q);
    }
  }

  /** A goal that is not given and has no candidate cannot be derived. */
  lemma NoCandidateUnderivable(k: Knowledge, R: set<Rule>, f: Fact, A: set<Rule>)
    requires IndexSound(k) && IndexComplete(k, R) && A <= R
    requires f !in k.starting && Candidates(k, f, A) == []
    ensures !Derivable(k.starting, f, A)
  {
    if Derivable(k.starting, f, A) {
      DerivableProducer(k.starting, f, A);
      var q :| q in A && q.out == f && AllDerivable(k.starting, q.reqs, set r | r in A && r.out != f);
      CandidatesExact(k, R, f, A, q);
      assert false;
    }
  }

  /** The expansion of a goal posed with `A` is honest. */
  lemma HonestExpand(k: Knowledge, R: set<Rule>, f: Fact, A: set<Rule>)
    requires IndexSound(k) && IndexComplete(k, R) && A <= R && f !in k.starting
    ensures Honest(k, R, Expand(f, Candidates(k, f, A), A), A)
  {
    var cands := Candidates(k, f, A);
    var e := Expand(f, cands, A);
    var av := e.available;
    ExpandShape(f, cands, A);
    forall q | q in A && q.out != f ensures q in av {
      CandidatesExact(k, R, f, A, q);
    }
    forall q | q in A && q.out == f
      ensures exists i :: 0 <= i < |e.info.children| && e.info.children[i].info.And? && e.info.children[i].info.rule == q
    {
      CandidatesExact(k, R, f, A, q);
      var i :| 0 <= i < |cands| && cands[i] == q;
      assert e.info.children[i].info.rule == q;
    }
    forall i | 0 <= i < |cands| ensures Honest(k, R, e.info.children[i], av) {
      var c := e.info.children[i];
      forall j | 0 <= j < |c.info.children| ensures Honest(k, R, c.info.children[j], av) {
        assert c.info.children[j].available == av;
      }
    }
  }

  /** A Potential Or node stays honest when its children's passes do. */
  lemma HonestOrPass(k: Knowledge, R: set<Rule>, n: Node, A: set<Rule>)
    requires Honest(k, R, n, A) && n.info.Or? && n.info.status == Potential
    requires forall i :: 0 <= i < |n.info.children| ==>
               HonestStep(k, R, n.info.children[i], n.available) && SoundStep(k, n.info.children[i])
    ensures HonestStep(k, R, n, A)
  {
    var f, cs, av := n.info.fact, n.info.children, n.available;
    ScanOrMeaning(k, cs);
    var (res, n') := Iterate(k, n);
    assert n'.available == av;
    forall i | 0 <= i < |n'.info.children| ensures Honest(k, R, n'.info.children[i], av) {
    }
    if res != Found {
      forall q | q in A && q.out == f
        ensures exists i :: 0 <= i < |n'.info.children| && n'.info.children[i].info.And? && n'.info.children[i].info.rule == q
      {
        var i :| 0 <= i < |cs| && cs[i].info.And? && cs[i].info.rule == q;
        IterateAnd(k, cs[i]);
        assert n'.info.children[i] == Iterate(k, cs[i]).1;
      }
    }
    if res == RecResult.DeadEnd {
      OrDeadUnderivable(k, R, n, A);
    }
  }

  /** A Potential Or node whose children all report DeadEnd is for an underivable fact. */
  lemma OrDeadUnderivable(k: Knowledge, R: set<Rule>, n: Node, A: set<Rule>)
    requires Honest(k, R, n, A) && n.info.Or? && n.info.status == Potential
    requires forall i :: 0 <= i < |n.info.children| ==>
               HonestStep(k, R, n.info.children[i], n.available) && Iterate(k, n.info.children[i]).0 == RecResult.DeadEnd
    ensures !Derivable(k.starting, n.info.fact, A)
  {
    var f := n.info.fact;
    if Derivable(k.starting, f, A) {
      DerivableProducer(k.starting, f, A);
      assert false;
    }
  }

  /** A Potential And node stays honest when its children's passes do. */
  lemma HonestAndPass(k: Knowledge, R: set<Rule>, n: Node, A: set<Rule>)
    requires Sound(k, n) && Honest(k, R, n, A) && n.info.And? && n.info.status == Potential
    requires forall i :: 0 <= i < |n.info.children| ==> HonestStep(k, R, n.info.children[i], n.available)
    ensures HonestStep(k, R, n, A)
  {
    var cs, av, rule := n.info.children, n.available, n.info.rule;
    ScanAndMeaning(k, cs);
    var s := ScanAnd(k, cs);
    var d := FirstWith(k, cs, RecResult.DeadEnd);
    forall j | 0 <= j < |cs| ensures Honest(k, R, s.children[j], av) {
      if j > d { assert s.children[j] == cs[j]; }
    }
    if s.dead {
      assert Claim(k, cs[d], av);
      assert rule.reqs[d] in rule.reqs;
    }
  }

  /**
   * One pass keeps the completeness invariant, and a DeadEnd report is
   * justified: the node's goal (or an And node's requirement) is underivable.
   */
  lemma {:induction false} HonestIterate(k: Knowledge, R: set<Rule>, n: Node, A: set<Rule>)
    requires IndexSound(k) && IndexComplete(k, R) && Sound(k, n) && Honest(k, R, n, A)
    ensures var (r, n') := Iterate(k, n);
      && Honest(k, R, n', A)
      && (r == RecResult.DeadEnd ==> Claim(k, n, A))
    decreases n
  {
    match n.info
    case Or(f, cs, st) =>
      if st == Potential {
        forall i | 0 <= i < |cs| ensures HonestStep(k, R, cs[i], n.available) && SoundStep(k, cs[i]) {
          HonestIterate(k, R, cs[i], n.available);
          SoundIterate(k, cs[i]);
        }
        HonestOrPass(k, R, n, A);
      }
    case And(f, rule, cs, st) =>
      if st == Potential {
        forall i | 0 <= i < |cs| ensures HonestStep(k, R, cs[i], n.available) {
          HonestIterate(k, R, cs[i], n.available);
        }
        HonestAndPass(k, R, n, A);
      }
    case FactToProve(f) =>
      if f !in k.starting {
        if Candidates(k, f, n.available) == [] {
          NoCandidateUnderivable(k, R, f, A);
        } else {
          HonestExpand(k, R, f, A);
        }
      }
    case ProvenFact(_) =>
    case DeadEnd(_) =>
  }

  /**
   * Backward completeness: when the settled search reports DeadEnd for a goal
   * posed with the rules `A`, its fact cannot be derived from the starting
   * facts with any rules drawn from `A`.
   */
  lemma {:induction false} RunComplete(k: Knowledge, R: set<Rule>, b: nat, n: Node, A: set<Rule>)
    requires Bounded(k, b) && IndexSound(k) && IndexComplete(k, R)
    requires Sound(k, n) && Honest(k, R, n, A) && !n.info.And?
    ensures Run(k, b, n).0 == RecResult.DeadEnd ==> !Derivable(k.starting, n.info.fact, A)
    decreases Measure(b, n)
  {
    var (r, n') := Iterate(k, n);
    HonestIterate(k, R, n, A);
    SoundIterate(k, n);
    RunSettles(k, b, n);
    if r == Potential {
      MeasureIterate(k, b, n);
      RunComplete(k, R, b, n', A);
    }
  }

  // ---------------------------------------------------------------------------
  // Applied rules (get_applied_rules_rec / get_applied_rules_unfiltered / get_applied_rules)
  // ---------------------------------------------------------------------------

  /** Whether an And node's rule is reported: Found always, DeadEnd never, Potential only outside a final proof. */
  function Include(st: RecResult, isFinal: bool): bool
  {
    match st
    case Potential => !isFinal
    case Found => true
    case DeadEnd => false
  }

  /** The rules of a subtree in post-order: each And node's children first, then its rule when reported. */
  function AppliedRules(n: Node, isFinal: bool): seq<Rule>
    decreases n
  {
    match n.info
    case Or(_, cs, _) => AppliedRulesAll(cs, isFinal)
    case And(_, r, cs, st) => AppliedRulesAll(cs, isFinal) + (if Include(st, isFinal) then [r] else [])
    case FactToProve(_) => []
    case ProvenFact(_) => []
    case DeadEnd(_) => []
  }

  function AppliedRulesAll(cs: seq<Node>, isFinal: bool): seq<Rule>
    decreases cs
  {
    if cs == [] then [] else AppliedRules(cs[0], isFinal) + AppliedRulesAll(cs[1..], isFinal)
  }

  /** get_applied_rules_unfiltered: the final-proof reading only when the root is a Found Or/And node for the target. */
  function RootRules(root: Node, target: Fact): seq<Rule>
  {
    var isFinal := (root.info.Or? || root.info.And?) && root.info.status == Found && root.info.fact == target;
    AppliedRules(root, isFinal)
  }

  /**
   * A proved subtree is a proof: its rules in post-order replay from the
   * starting facts, and they produce the subtree's fact (or it is a starting fact).
   */
  lemma {:induction false} ProofDerives(k: Knowledge, n: Node)
    requires Sound(k, n) && Proved(n)
    ensures IsDerivation(k.starting, AppliedRules(n, true))
    ensures n.info.fact in k.starting + Outs(AppliedRules(n, true))
    decreases n, 1
  {
    match n.info
    case Or(f, cs, st) =>
      ProofsDerive(k, cs);
    case And(f, r, cs, st) =>
      ProofsDerive(k, cs);
      var t := AppliedRulesAll(cs, true);
      forall x | x in r.reqs ensures x in k.starting + Outs(t) {
        var i :| 0 <= i < |r.reqs| && r.reqs[i] == x;
        assert cs[i].info.fact == x;
      }
      DerivationSnoc(k.starting, t, r);
    case ProvenFact(f) =>
  }

  lemma {:induction false} ProofsDerive(k: Knowledge, cs: seq<Node>)
    requires forall i :: 0 <= i < |cs| ==> Sound(k, cs[i]) && Proved(cs[i])
    ensures IsDerivation(k.starting, AppliedRulesAll(cs, true))
    ensures forall i :: 0 <= i < |cs| ==> cs[i].info.fact in k.starting + Outs(AppliedRulesAll(cs, true))
    decreases cs, 0
  {
    if cs != [] {
      ProofDerives(k, cs[0]);
      ProofsDerive(k, cs[1..]);
      var a := AppliedRules(cs[0], true);
      var b := AppliedRulesAll(cs[1..], true);
      assert AppliedRulesAll(cs, true) == a + b;
      DerivationConcat(k.starting, a, b);
      forall i | 0 <= i < |cs| ensures cs[i].info.fact in k.starting + Outs(a + b) {
        if i > 0 {
          assert cs[1..][i - 1] == cs[i];
          assert cs[i].info.fact in k.starting + Outs(b);
        }
      }
    }
  }

  /**
   * Backward soundness: once the root for `target` stands proved, the rules
   * get_applied_rules_unfiltered reports replay from the starting facts and
   * produce the target (or the target is a starting fact and no rule is needed).
   */
  lemma BackwardSound(k: Knowledge, root: Node, target: Fact)
    requires Sound(k, root) && Proved(root) && root.info.fact == target
    ensures IsDerivation(k.starting, RootRules(root, target))
    ensures target in k.starting + Outs(RootRules(root, target))
    ensures root.info.ProvenFact? ==> target in k.starting && RootRules(root, target) == []
  {
    ProofDerives(k, root);
  }

  /**
   * Some And node of the subtree reports `r`: its rule is `r` and its status
   * is included under `isFinal` (Found always, Potential only outside a
   * final proof, DeadEnd never).
   */
  ghost predicate Contributes(n: Node, r: Rule, isFinal: bool)
    decreases n
  {
    match n.info
    case Or(_, cs, _) => exists i :: 0 <= i < |cs| && Contributes(cs[i], r, isFinal)
    case And(_, q, cs, st) =>
      (q == r && Include(st, isFinal)) || exists i :: 0 <= i < |cs| && Contributes(cs[i], r, isFinal)
    case FactToProve(_) => false
    case ProvenFact(_) => false
    case DeadEnd(_) => false
  }

  /** A rule is collected from a subtree exactly when some And node of the subtree reports it. */
  lemma {:induction false} AppliedMembers(n: Node, r: Rule, isFinal: bool)
    ensures r in AppliedRules(n, isFinal) <==> Contributes(n, r, isFinal)
    decreases n, 1
  {
    match n.info
    case Or(_, cs, _) => AppliedMembersAll(cs, r, isFinal);
    case And(_, q, cs, st) => AppliedMembersAll(cs, r, isFinal);
    case FactToProve(_) =>
    case ProvenFact(_) =>
    case DeadEnd(_) =>
  }

  lemma {:induction false} AppliedMembersAll(cs: seq<Node>, r: Rule, isFinal: bool)
    ensures r in AppliedRulesAll(cs, isFinal) <==> exists i :: 0 <= i < |cs| && Contributes(cs[i], r, isFinal)
    decreases cs, 0
  {
    if cs != [] {
      AppliedMembers(cs[0], r, isFinal);
      AppliedMembersAll(cs[1..], r, isFinal);
      if r in AppliedRulesAll(cs[1..], isFinal) {
        var i :| 0 <= i < |cs[1..]| && Contributes(cs[1..][i], r, isFinal);
        assert Contributes(cs[i + 1], r, isFinal);
      }
      if exists i :: 0 <= i < |cs| && Contributes(cs[i], r, isFinal) {
        var i :| 0 <= i < |cs| && Contributes(cs[i], r, isFinal);
        if i > 0 {
          assert cs[1..][i - 1] == cs[i];
        }
      }
    }
  }

  /** A rule some And node of a tree within `R` reports is one of `R`. */
  lemma {:induction false} WithinContributes(n: Node, R: set<Rule>, r: Rule, isFinal: bool)
    requires Within(n, R) && Contributes(n, r, isFinal)
    ensures r in R
    decreases n
  {
    match n.info
    case Or(_, cs, _) =>
      var i :| 0 <= i < |cs| && Contributes(cs[i], r, isFinal);
      WithinContributes(cs[i], R, r, isFinal);
    case And(_, q, cs, st) =>
      if !(q == r && Include(st, isFinal)) {
        var i :| 0 <= i < |cs| && Contributes(cs[i], r, isFinal);
        WithinContributes(cs[i], R, r, isFinal);
      }
  }

  /** The rules collected from a tree within `R` are rules of `R`. */
  lemma WithinApplied(n: Node, R: set<Rule>, isFinal: bool)
    requires Within(n, R)
    ensures forall r :: r in AppliedRules(n, isFinal) ==> r in R
  {
    forall r | r in AppliedRules(n, isFinal) ensures r in R {
      AppliedMembers(n, r, isFinal);
      WithinContributes(n, R, r, isFinal);
    }
  }

  /**
   * Backward soundness with the engine's rules: a proved root for `target`
   * in a tree within `R` shows the target derivable with rules of `R`.
   */
  lemma ProvedDerivable(k: Knowledge, R: set<Rule>, root: Node, target: Fact)
    requires Sound(k, root) && Within(root, R) && Proved(root) && root.info.fact == target
    ensures Derivable(k.starting, target, R)
  {
    BackwardSound(k, root, target);
    var isFinal := (root.info.Or? || root.info.And?) && root.info.status == Found && root.info.fact == target;
    WithinApplied(root, R, isFinal);
    var t := RootRules(root, target);
    assert (forall r :: r in t ==> r in R) && IsDerivation(k.starting, t) && target in k.starting + Outs(t);
  }

  /** The rules in first-seen order, each kept at its first occurrence only. */
  function Dedup(t: seq<Rule>): seq<Rule>
    decreases |t|
  {
    if t == [] then []
    else
      var p := t[..|t| - 1];
      Dedup(p) + (if t[|t| - 1] in p then [] else [t[|t| - 1]])
  }

  /** Dedup keeps exactly the rules of `t`, each once. */
  lemma {:induction false} DedupMeaning(t: seq<Rule>)
    ensures forall r :: r in Dedup(t) <==> r in t
    ensures forall i, j :: 0 <= i < j < |Dedup(t)| ==> Dedup(t)[i] != Dedup(t)[j]
    decreases |t|
  {
    if t != [] {
      var p := t[..|t| - 1];
      DedupMeaning(p);
      assert t == p + [t[|t| - 1]];
    }
  }

  /** Where `r` first occurs in `t`, or |t| when it does not occur. */
  function FirstIndex(t: seq<Rule>, r: Rule): (i: nat)
    ensures i <= |t|
    ensures i < |t| ==> t[i] == r
    ensures forall j :: 0 <= j < i ==> t[j] != r
    ensures r in t ==> i < |t|
    decreases |t|
  {
    if t == [] then 0 else if t[0] == r then 0 else 1 + FirstIndex(t[1..], r)
  }

  /** Appending a rule moves no first occurrence, and gives a new rule its own. */
  lemma FirstIndexSnoc(p: seq<Rule>, x: Rule, r: Rule)
    ensures r in p ==> FirstIndex(p + [x], r) == FirstIndex(p, r)
    ensures x !in p ==> FirstIndex(p + [x], x) == |p|
  {
    if r in p {
      var i, i' := FirstIndex(p + [x], r), FirstIndex(p, r);
      assert (p + [x])[i'] == r;
      assert (p + [x])[i] == p[i];
    }
    if x !in p {
      assert (p + [x])[|p|] == x;
    }
  }

  /**
   * Dedup keeps the rules in the order of their first occurrences in `t`;
   * with DedupMeaning this says it is `t` with every later repeat removed.
   */
  lemma {:induction false} DedupOrder(t: seq<Rule>)
    ensures forall i, j :: 0 <= i < j < |Dedup(t)| ==> FirstIndex(t, Dedup(t)[i]) < FirstIndex(t, Dedup(t)[j])
    decreases |t|
  {
    if t != [] {
      var p := t[..|t| - 1];
      var x := t[|t| - 1];
      assert t == p + [x];
      DedupOrder(p);
      DedupMeaning(p);
      forall r | r in p ensures FirstIndex(t, r) == FirstIndex(p, r) < |p| {
        FirstIndexSnoc(p, x, r);
      }
      FirstIndexSnoc(p, x, x);
      var d := Dedup(p);
      forall i, j | 0 <= i < j < |Dedup(t)| ensures FirstIndex(t, Dedup(t)[i]) < FirstIndex(t, Dedup(t)[j]) {
        assert Dedup(t)[i] == d[i] && d[i] in p;
        if j < |d| {
          assert Dedup(t)[j] == d[j] && d[j] in p;
        }
      }
    }
  }

  /** Dropping repeats keeps a derivation a derivation, with the same outputs. */
  lemma {:induction false} DedupDerivation(start: set<Fact>, t: seq<Rule>)
    requires IsDerivation(start, t)
    ensures IsDerivation(start, Dedup(t))
    ensures Outs(Dedup(t)) == Outs(t)
    decreases |t|
  {
    if t != [] {
      var p := t[..|t| - 1];
      var x := t[|t| - 1];
      assert t == p + [x];
      assert IsDerivation(start, p) && MatchRequirement(x, start + Outs(p));
      DerivationSnoc(start, p, x);
      DedupDerivation(start, p);
      if x in p {
        assert Dedup(t) == Dedup(p);
        assert x.out in Outs(p);
      } else {
        assert Dedup(t) == Dedup(p) + [x];
        DerivationSnoc(start, Dedup(p), x);
      }
    }
  }

  // ---------------------------------------------------------------------------
  // Colouring of the tree (rec_recoloring)
  // ---------------------------------------------------------------------------

  function FactLabel(st: RecResult): FactState
  {
    match st
    case Potential => FactState.Visited
    case Found => FactState.VisitedPath
    case DeadEnd => FactState.DeadEnd
  }

  function RuleLabel(st: RecResult): RuleState
  {
    match st
    case Potential => RuleState.Visited
    case Found => RuleState.VisitedPath
    case DeadEnd => RuleState.DeadEnd
  }

  /** The colours after painting a subtree: its children first, in order, then the node itself. */
  function Paint(n: Node, fc: FactColors, rc: RuleColors): (FactColors, RuleColors)
    decreases n
  {
    match n.info
    case Or(t, cs, q) =>
      var (fc1, rc1) := PaintAll(cs, fc, rc);
      (fc1[t := FactLabel(q)], rc1)
    case And(f, r, cs, q) =>
      var (fc1, rc1) := PaintAll(cs, fc, rc);
      (fc1[f := FactLabel(q)], rc1[r := RuleLabel(q)])
    case FactToProve(f) => (fc[f := FactState.Visited], rc)
    case ProvenFact(_) => (fc, rc)
    case DeadEnd(f) => (fc[f := FactState.DeadEnd], rc)
  }

  function PaintAll(cs: seq<Node>, fc: FactColors, rc: RuleColors): (FactColors, RuleColors)
    decreases cs
  {
    if cs == [] then (fc, rc)
    else
      var (fc1, rc1) := Paint(cs[0], fc, rc);
      PaintAll(cs[1..], fc1, rc1)
  }

  /** The facts and rules a subtree mentions. */
  function TreeFacts(n: Node): set<Fact>
    decreases n
  {
    match n.info
    case Or(f, cs, _) => {f} + TreeFactsAll(cs)
    case And(f, _, cs, _) => {f} + TreeFactsAll(cs)
    case FactToProve(f) => {f}
    case ProvenFact(f) => {}
    case DeadEnd(f) => {f}
  }

  function TreeFactsAll(cs: seq<Node>): set<Fact>
    decreases cs
  {
    if cs == [] then {} else TreeFacts(cs[0]) + TreeFactsAll(cs[1..])
  }

  function TreeRules(n: Node): set<Rule>
    decreases n
  {
    match n.info
    case Or(_, cs, _) => TreeRulesAll(cs)
    case And(_, r, cs, _) => {r} + TreeRulesAll(cs)
    case FactToProve(_) => {}
    case ProvenFact(_) => {}
    case DeadEnd(_) => {}
  }

  function TreeRulesAll(cs: seq<Node>): set<Rule>
    decreases cs
  {
    if cs == [] then {} else TreeRules(cs[0]) + TreeRulesAll(cs[1..])
  }

  /**
   * Painting writes only the facts and rules the subtree mentions: it adds
   * exactly those keys, keeps every other entry, and leaves the node's own
   * fact (and an And node's rule) with the label of its status.
   */
  lemma {:induction false} PaintFrame(n: Node, fc: FactColors, rc: RuleColors)
    ensures var (fc', rc') := Paint(n, fc, rc);
      && fc'.Keys == fc.Keys + TreeFacts(n)
      && rc'.Keys == rc.Keys + TreeRules(n)
      && (forall f :: f in fc && f !in TreeFacts(n) ==> fc'[f] == fc[f])
      && (forall r :: r in rc && r !in TreeRules(n) ==> rc'[r] == rc[r])
      && ((n.info.Or? || n.info.And?) ==> fc'[n.info.fact] == FactLabel(n.info.status))
      && (n.info.And? ==> rc'[n.info.rule] == RuleLabel(n.info.status))
      && (n.info.FactToProve? ==> fc'[n.info.fact] == FactState.Visited)
      && (n.info.DeadEnd? ==> fc'[n.info.fact] == FactState.DeadEnd)
    decreases n, 1
  {
    match n.info
    case Or(t, cs, q) => PaintAllFrame(cs, fc, rc);
    case And(f, r, cs, q) => PaintAllFrame(cs, fc, rc);
    case FactToProve(f) =>
    case ProvenFact(_) =>
    case DeadEnd(f) =>
  }

  lemma {:induction false} PaintAllFrame(cs: seq<Node>, fc: FactColors, rc: RuleColors)
    ensures var (fc', rc') := PaintAll(cs, fc, rc);
      && fc'.Keys == fc.Keys + TreeFactsAll(cs)
      && rc'.Keys == rc.Keys + TreeRulesAll(cs)
      && (forall f :: f in fc && f !in TreeFactsAll(cs) ==> fc'[f] == fc[f])
      && (forall r :: r in rc && r !in TreeRulesAll(cs) ==> rc'[r] == rc[r])
    decreases cs, 0
  {
    if cs != [] {
      PaintFrame(cs[0], fc, rc);
      var (fc1, rc1) := Paint(cs[0], fc, rc);
      PaintAllFrame(cs[1..], fc1, rc1);
    }
  }

  /**
   * The colours painting leaves on the subtree's own facts and rules are the
   * same whatever maps it starts from: every mentioned key is overwritten.
   */
  lemma {:induction false} PaintIndep(n: Node, fc: FactColors, rc: RuleColors, fc2: FactColors, rc2: RuleColors)
    ensures TreeFacts(n) <= Paint(n, fc, rc).0.Keys && TreeFacts(n) <= Paint(n, fc2, rc2).0.Keys
    ensures TreeRules(n) <= Paint(n, fc, rc).1.Keys && TreeRules(n) <= Paint(n, fc2, rc2).1.Keys
    ensures forall f :: f in TreeFacts(n) ==> Paint(n, fc, rc).0[f] == Paint(n, fc2, rc2).0[f]
    ensures forall r :: r in TreeRules(n) ==> Paint(n, fc, rc).1[r] == Paint(n, fc2, rc2).1[r]
    decreases n, 1
  {
    PaintFrame(n, fc, rc);
    PaintFrame(n, fc2, rc2);
    match n.info
    case Or(t, cs, q) => PaintAllIndep(cs, fc, rc, fc2, rc2);
    case And(f, r, cs, q) => PaintAllIndep(cs, fc, rc, fc2, rc2);
    case FactToProve(f) =>
    case ProvenFact(_) =>
    case DeadEnd(f) =>
  }

  lemma {:induction false} PaintAllIndep(cs: seq<Node>, fc: FactColors, rc: RuleColors, fc2: FactColors, rc2: RuleColors)
    ensures TreeFactsAll(cs) <= PaintAll(cs, fc, rc).0.Keys && TreeFactsAll(cs) <= PaintAll(cs, fc2, rc2).0.Keys
    ensures TreeRulesAll(cs) <= PaintAll(cs, fc, rc).1.Keys && TreeRulesAll(cs) <= PaintAll(cs, fc2, rc2).1.Keys
    ensures forall f :: f in TreeFactsAll(cs) ==> PaintAll(cs, fc, rc).0[f] == PaintAll(cs, fc2, rc2).0[f]
    ensures forall r :: r in TreeRulesAll(cs) ==> PaintAll(cs, fc, rc).1[r] == PaintAll(cs, fc2, rc2).1[r]
    decreases cs, 0
  {
    if cs != [] {
      PaintIndep(cs[0], fc, rc, fc2, rc2);
      PaintFrame(cs[0], fc, rc);
      PaintFrame(cs[0], fc2, rc2);
      var (fc1, rc1) := Paint(cs[0], fc, rc);
      var (fc3, rc3) := Paint(cs[0], fc2, rc2);
      PaintAllFrame(cs[1..], fc1, rc1);
      PaintAllFrame(cs[1..], fc3, rc3);
      PaintAllIndep(cs[1..], fc1, rc1, fc3, rc3);
    }
  }
}
