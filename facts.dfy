/**
 * Facts and rules of the production-rule engine (src/fact.rs).
 *
 * A fact is an opaque symbol or an ordered tuple of facts; a rule consumes an
 * ordered list of required facts and produces one output fact.  Both are plain
 * values whose equality is structural, as the derived `PartialEq`/`Eq`/`Hash`
 * of the source make them.
 */
module Facts {

  /** CoreFact: a named symbol, or an ordered tuple of facts. */
  datatype Fact = Symbol(name: string) | Symbols(parts: seq<Fact>)

  /** CoreRule: the facts `reqs` (in their given order) yield the fact `out`. */
  datatype Rule = Rule(reqs: seq<Fact>, out: Fact)

  /** CoreFact::new: a fact made of one symbol. */
  function NewFact(symbol: string): (f: Fact)
    ensures f.Symbol? && f.name == symbol
  {
    Symbol(symbol)
  }

  /** CoreRule::new: the requirements are collected in iterator order, the output kept. */
  function NewRule(reqs: seq<Fact>, out: Fact): (r: Rule)
    ensures |r.reqs| == |reqs| && (forall i :: 0 <= i < |reqs| ==> r.reqs[i] == reqs[i]) && r.out == out
  {
    Rule(reqs, out)
  }

  /** Every requirement is among the facts, checked front to back. */
  predicate AllKnown(reqs: seq<Fact>, facts: set<Fact>)
    ensures AllKnown(reqs, facts) <==> forall x :: x in reqs ==> x in facts
  {
    reqs == [] || (reqs[0] in facts && AllKnown(reqs[1..], facts))
  }

  /** CoreRule::match_requirement: every required fact is among `facts`. */
  predicate MatchRequirement(r: Rule, facts: set<Fact>)
  {
    AllKnown(r.reqs, facts)
  }

  /** A rule matches exactly the sets that contain all of its requirements. */
  lemma MatchRequirementIff(r: Rule, facts: set<Fact>)
    ensures MatchRequirement(r, facts) <==> (set x | x in r.reqs) <= facts
    ensures r.reqs == [] ==> MatchRequirement(r, facts)
  {
  }

  /** Matching is monotone in the fact set. */
  lemma MatchMonotone(r: Rule, s: set<Fact>, s': set<Fact>)
    requires s <= s'
    requires MatchRequirement(r, s)
    ensures MatchRequirement(r, s')
  {
  }

  /** Equal rules are exactly those with the same requirement list and output. */
  lemma RuleEquality(a: Rule, b: Rule)
    ensures a == b <==> (a.reqs == b.reqs && a.out == b.out)
  {
  }

  /** The outputs of a sequence of rules. */
  function Outs(rs: seq<Rule>): set<Fact>
  {
    set r | r in rs :: r.out
  }

  /**
   * Replaying `rs` in order from `start` is possible: every rule matches the
   * starting facts plus the outputs of the rules replayed before it.
   * This is what both reasoning strategies promise about the rules they report.
   */
  ghost predicate IsDerivation(start: set<Fact>, rs: seq<Rule>)
    decreases |rs|
  {
    rs == [] ||
    (var k := |rs| - 1;
     IsDerivation(start, rs[..k]) && MatchRequirement(rs[k], start + Outs(rs[..k])))
  }

  /** A derivation can be extended by a rule that matches what it has produced. */
  lemma DerivationSnoc(start: set<Fact>, rs: seq<Rule>, r: Rule)
    requires IsDerivation(start, rs)
    requires MatchRequirement(r, start + Outs(rs))
    ensures IsDerivation(start, rs + [r])
    ensures Outs(rs + [r]) == Outs(rs) + {r.out}
  {
    assert (rs + [r])[..|rs|] == rs;
  }

  /** In a derivation, each rule matches what the rules before it produced. */
  lemma {:induction false} DerivationAt(start: set<Fact>, rs: seq<Rule>, i: nat)
    requires IsDerivation(start, rs)
    requires i < |rs|
    ensures MatchRequirement(rs[i], start + Outs(rs[..i]))
    decreases |rs|
  {
    var k := |rs| - 1;
    if i < k {
      DerivationAt(start, rs[..k], i);
      assert rs[..k][..i] == rs[..i];
    }
  }

  /** Conversely, a sequence whose every rule matches what precedes it is a derivation. */
  lemma {:induction false} DerivationFromSteps(start: set<Fact>, rs: seq<Rule>)
    requires forall i :: 0 <= i < |rs| ==> MatchRequirement(rs[i], start + Outs(rs[..i]))
    ensures IsDerivation(start, rs)
    decreases |rs|
  {
    if rs != [] {
      var k := |rs| - 1;
      forall i | 0 <= i < k
        ensures MatchRequirement(rs[..k][i], start + Outs(rs[..k][..i]))
      {
        assert rs[..k][..i] == rs[..i];
      }
      DerivationFromSteps(start, rs[..k]);
    }
  }

  /** Two derivations from the same facts can be replayed one after the other. */
  lemma DerivationConcat(start: set<Fact>, a: seq<Rule>, b: seq<Rule>)
    requires IsDerivation(start, a) && IsDerivation(start, b)
    ensures IsDerivation(start, a + b)
    ensures Outs(a + b) == Outs(a) + Outs(b)
  {
    var ab := a + b;
    forall i | 0 <= i < |ab|
      ensures MatchRequirement(ab[i], start + Outs(ab[..i]))
    {
      if i < |a| {
        assert ab[..i] == a[..i];
        DerivationAt(start, a, i);
      } else {
        var j := i - |a|;
        assert ab[i] == b[j];
        assert ab[..i] == a + b[..j];
        DerivationAt(start, b, j);
        MatchMonotone(b[j], start + Outs(b[..j]), start + Outs(ab[..i]));
      }
    }
    DerivationFromSteps(start, ab);
  }

  /** `f` can be produced from `start` by replaying some rules drawn from `rules`. */
  ghost predicate Derivable(start: set<Fact>, f: Fact, rules: set<Rule>)
  {
    exists rs: seq<Rule> :: (forall r :: r in rs ==> r in rules) && IsDerivation(start, rs) && f in start + Outs(rs)
  }

  /** Every fact of `fs` is derivable from `start` with `rules`. */
  ghost predicate AllDerivable(start: set<Fact>, fs: seq<Fact>, rules: set<Rule>)
  {
    forall x :: x in fs ==> Derivable(start, x, rules)
  }

  /** Every prefix of a derivation is a derivation. */
  lemma DerivationPrefix(start: set<Fact>, rs: seq<Rule>, i: nat)
    requires IsDerivation(start, rs) && i <= |rs|
    ensures IsDerivation(start, rs[..i])
  {
    var p := rs[..i];
    forall j | 0 <= j < |p| ensures MatchRequirement(p[j], start + Outs(p[..j])) {
      DerivationAt(start, rs, j);
      assert p[..j] == rs[..j];
    }
    DerivationFromSteps(start, p);
  }

  /** More rules derive at least as much. */
  lemma DerivableMonotone(start: set<Fact>, f: Fact, rules: set<Rule>, rules': set<Rule>)
    requires rules <= rules' && Derivable(start, f, rules)
    ensures Derivable(start, f, rules')
  {
    var rs :| (forall r :: r in rs ==> r in rules) && IsDerivation(start, rs) && f in start + Outs(rs);
    assert forall r :: r in rs ==> r in rules';
  }

  /** The position of the first rule of `rs` producing `f`, or |rs| when none does. */
  function FirstProducer(rs: seq<Rule>, f: Fact): (i: nat)
    ensures i <= |rs|
    ensures forall j :: 0 <= j < i ==> rs[j].out != f
    ensures i < |rs| ==> rs[i].out == f
    ensures f in Outs(rs) ==> i < |rs|
    decreases |rs|
  {
    if rs == [] then 0
    else if rs[0].out == f then 0
    else
      var i := FirstProducer(rs[1..], f);
      assert forall j :: 1 <= j < i + 1 ==> rs[j] == rs[1..][j - 1];
      assert f in Outs(rs) ==> f in Outs(rs[1..]) by {
        if f in Outs(rs) {
          var r :| r in rs && r.out == f;
          assert r in rs[1..];
        }
      }
      1 + i
  }

  /**
   * A derivable fact that is not given is produced by some rule whose
   * requirements are all derivable without any rule producing that fact:
   * cut the derivation just before its first producer.
   */
  lemma DerivableProducer(start: set<Fact>, f: Fact, rules: set<Rule>)
    requires Derivable(start, f, rules) && f !in start
    ensures exists q :: q in rules && q.out == f && AllDerivable(start, q.reqs, set r | r in rules && r.out != f)
  {
    var rs :| (forall r :: r in rs ==> r in rules) && IsDerivation(start, rs) && f in start + Outs(rs);
    var i := FirstProducer(rs, f);
    var p := rs[..i];
    var others := set r | r in rules && r.out != f;
    DerivationPrefix(start, rs, i);
    DerivationAt(start, rs, i);
    forall r | r in p ensures r in others {
      assert r in rs;
    }
    PrefixDerivesRequirements(start, rs[i], p, others);
    assert rs[i] in rules;
  }

  /** A rule matching what a derivation produced has all its requirements derivable with that derivation's rules. */
  lemma PrefixDerivesRequirements(start: set<Fact>, q: Rule, p: seq<Rule>, rules: set<Rule>)
    requires IsDerivation(start, p) && (forall r :: r in p ==> r in rules)
    requires MatchRequirement(q, start + Outs(p))
    ensures AllDerivable(start, q.reqs, rules)
  {
    forall x: Fact | x in q.reqs ensures Derivable(start, x, rules) {
      assert x in start + Outs(p);
    }
  }

  // ---------------------------------------------------------------------------
  // Display (the two `fmt::Display` impls)
  // ---------------------------------------------------------------------------

  /** `Display for CoreFact`: a symbol is its name; a tuple is "(" e1 ", " e2 ", " … ")". */
  function FactToString(f: Fact): string
    decreases f
  {
    match f
    case Symbol(s) => s
    case Symbols(v) => "(" + ListToString(v) + ")"
  }

  /** Each fact of `v` rendered and followed by ", ". */
  function ListToString(v: seq<Fact>): string
    decreases v
  {
    if v == [] then "" else FactToString(v[0]) + ", " + ListToString(v[1..])
  }

  /** `Display for CoreRule`: "{" then each requirement followed by ", ", then "} -> " and the output. */
  function RuleToString(r: Rule): string
  {
    "{" + ListToString(r.reqs) + "} -> " + FactToString(r.out)
  }

  /** The rendering of a list is the concatenation of the renderings of its parts. */
  lemma {:induction false} ListToStringAppend(a: seq<Fact>, b: seq<Fact>)
    ensures ListToString(a + b) == ListToString(a) + ListToString(b)
    decreases |a|
  {
    if a == [] {
      assert a + b == b;
    } else {
      assert (a + b)[0] == a[0];
      assert (a + b)[1..] == a[1..] + b;
      ListToStringAppend(a[1..], b);
    }
  }

  /** Every element, including the last, is followed by ", ". */
  lemma {:induction false} ListToStringSnoc(v: seq<Fact>, f: Fact)
    ensures ListToString(v + [f]) == ListToString(v) + FactToString(f) + ", "
  {
    ListToStringAppend(v, [f]);
    assert [f][1..] == [];
  }

  /**
   * A rendered rule starts with "{", then lists the requirements, each followed
   * by ", ", and ends with "} -> " followed by its output.
   */
  lemma RuleToStringShape(r: Rule)
    ensures var s := RuleToString(r);
      && |s| >= 6 + |FactToString(r.out)|
      && s[0] == '{'
      && s[1..|s| - |FactToString(r.out)| - 5] == ListToString(r.reqs)
      && s[|s| - |FactToString(r.out)| - 5..] == "} -> " + FactToString(r.out)
  {
    var s := RuleToString(r);
    var o := FactToString(r.out);
    var l := ListToString(r.reqs);
    assert s == "{" + l + ("} -> " + o);
    assert s[1..|s| - |o| - 5] == l;
    assert s[|s| - |o| - 5..] == ("} -> " + o);
  }
}
