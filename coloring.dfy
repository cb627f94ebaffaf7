/**
 * The colour labels that every reasoning operation writes for the renderer
 * (`FactState`, `RuleState` in src/direct_reasoning.rs).  The shared,
 * lock-protected maps of the source are modelled as plain map values that
 * each colouring operation receives and returns.
 */
module Coloring {
  import opened Facts

  datatype FactState =
    | None
    | Starting
    | Target
    | TargetVisited
    | TargetNotPossible
    | Visited
    | VisitedPath
    | DeadEnd

  datatype RuleState = None | Visited | VisitedPath | DeadEnd

  type FactColors = map<Fact, FactState>
  type RuleColors = map<Rule, RuleState>

  /** Inserts `v` for each key of a set, in any order: every key gets `v`, other entries stay. */
  method InsertSet<K, V>(m: map<K, V>, keys: set<K>, v: V) returns (m': map<K, V>)
    ensures m' == m + map k | k in keys :: v
  {
    m' := m;
    var rest := keys;
    while rest != {}
      invariant rest <= keys
      invariant forall k :: k in m' <==> k in m || k in keys - rest
      invariant forall k :: k in m' ==> m'[k] == if k in keys - rest then v else m[k]
      decreases |rest|
    {
      var k :| k in rest;
      m' := m'[k := v];
      rest := rest - {k};
    }
  }

  /** Inserts `v` for each key of a sequence, in order. */
  method InsertSeq<K, V>(m: map<K, V>, keys: seq<K>, v: V) returns (m': map<K, V>)
    ensures m' == m + map k | k in keys :: v
  {
    m' := m;
    for i := 0 to |keys|
      invariant forall k :: k in m' <==> k in m || k in keys[..i]
      invariant forall k :: k in m' ==> m'[k] == if k in keys[..i] then v else m[k]
    {
      assert keys[..i + 1] == keys[..i] + [keys[i]];
      m' := m'[keys[i] := v];
    }
    assert keys[..|keys|] == keys;
  }
}
