/**
 * The certainty-factor evidence aggregator of the expert system
 * (inference_engine/engine.py, `infer`).
 *
 * Observed facts are symptom codes; each rule names the codes it requires,
 * the diagnosis it concludes and a confidence. Every rule whose required
 * codes are all observed "fires", and its confidence is folded into the
 * running score of its diagnosis with the parallel certainty-factor rule
 * cf_old + cf * (1 - cf_old). Confidences are exact reals here.
 */
module Engine {

  /** A parsed rule: the `if` list, the `then` code and the `cf` value. */
  datatype Rule = Rule(conds: seq<string>, concl: string, cf: real)

  /** The evidence map: diagnosis code to aggregated confidence. */
  type EvidenceMap = map<string, real>

  /**
   * The scan `all(cond in facts for cond in conds)`: the conditions are
   * checked left to right, stopping at the first one that is not observed.
   */
  function AllPresent(conds: seq<string>, facts: seq<string>): (b: bool)
    ensures b <==> forall c :: c in conds ==> c in facts
    decreases |conds|
  {
    if |conds| == 0 then true
    else conds[0] in facts && AllPresent(conds[1..], facts)
  }

  /**
   * A rule fires when every one of its required codes is among the facts;
   * a rule with an empty `if` list fires whatever the facts.
   */
  function Fires(r: Rule, facts: seq<string>): (b: bool)
    ensures b <==> forall c :: c in r.conds ==> c in facts
    ensures r.conds == [] ==> b
  {
    AllPresent(r.conds, facts)
  }

  /** Every rule's confidence lies in the unit interval. */
  predicate UnitConfidences(rules: seq<Rule>)
  {
    forall r :: r in rules ==> 0.0 <= r.cf <= 1.0
  }

  /** Parallel combination of an existing score with a new confidence. */
  function Combine(cfOld: real, cf: real): real
  {
    cfOld + cf * (1.0 - cfOld)
  }

  /** The combined disbelief is the product of the two disbeliefs. */
  lemma CombineComplement(cfOld: real, cf: real)
    ensures 1.0 - Combine(cfOld, cf) == (1.0 - cfOld) * (1.0 - cf)
  {
  }

  /** Combining two unit confidences stays in [0,1] and lowers neither. */
  lemma CombineBounds(cfOld: real, cf: real)
    requires 0.0 <= cfOld <= 1.0 && 0.0 <= cf <= 1.0
    ensures cfOld <= Combine(cfOld, cf) <= 1.0
    ensures cf <= Combine(cfOld, cf)
  {
    ScaledComplement(cf, cfOld);
    ScaledComplement(cfOld, cf);
    assert cfOld + cf * (1.0 - cfOld) == cf + cfOld * (1.0 - cf);
  }

  /** Scaling the complement of a unit value by a unit value keeps it in [0, 1 - y]. */
  lemma ScaledComplement(x: real, y: real)
    requires 0.0 <= x <= 1.0 && 0.0 <= y <= 1.0
    ensures 0.0 <= x * (1.0 - y) <= 1.0 - y
  {
    NonNegativeProduct(x, 1.0 - y);
    NonNegativeProduct(1.0 - x, 1.0 - y);
    assert (1.0 - x) * (1.0 - y) == (1.0 - y) - x * (1.0 - y);
  }

  /** The product of two non-negative reals is non-negative. */
  lemma NonNegativeProduct(a: real, b: real)
    requires 0.0 <= a && 0.0 <= b
    ensures 0.0 <= a * b
  {
  }

  /** One iteration of the loop: fold rule `r` into the evidence map `m`. */
  function Step(m: EvidenceMap, facts: seq<string>, r: Rule): EvidenceMap
  {
    if Fires(r, facts) then
      m[r.concl := if r.concl in m then Combine(m[r.concl], r.cf) else r.cf]
    else
      m
  }

  /**
   * What one iteration does: a rule that does not fire changes nothing; a
   * firing rule adds its conclusion, storing its own cf for a new key and
   * the combination with the old score otherwise; other entries stay.
   */
  lemma StepEffect(m: EvidenceMap, facts: seq<string>, r: Rule)
    ensures Step(m, facts, r).Keys == if Fires(r, facts) then m.Keys + {r.concl} else m.Keys
    ensures forall k :: k in m && k != r.concl ==> Step(m, facts, r)[k] == m[k]
    ensures !Fires(r, facts) ==> Step(m, facts, r) == m
    ensures Fires(r, facts) && r.concl !in m ==> Step(m, facts, r)[r.concl] == r.cf
    ensures Fires(r, facts) && r.concl in m ==>
              1.0 - Step(m, facts, r)[r.concl] == (1.0 - m[r.concl]) * (1.0 - r.cf)
  {
    if Fires(r, facts) && r.concl in m {
      CombineComplement(m[r.concl], r.cf);
    }
  }

  /** The map `infer` returns: the rules folded into an empty map in order. */
  function Evidence(facts: seq<string>, rules: seq<Rule>): EvidenceMap
    decreases |rules|
  {
    if |rules| == 0 then map[]
    else Step(Evidence(facts, rules[..|rules| - 1]), facts, rules[|rules| - 1])
  }

  /** The conclusions of the rules that fire. */
  function Fired(facts: seq<string>, rules: seq<Rule>): set<string>
  {
    set r | r in rules && Fires(r, facts) :: r.concl
  }

  /** The factor a rule contributes to the disbelief in diagnosis `d`. */
  function Factor(facts: seq<string>, r: Rule, d: string): real
  {
    if Fires(r, facts) && r.concl == d then 1.0 - r.cf else 1.0
  }

  /** The product of (1 - cf) over the firing rules that conclude `d`. */
  function Residual(facts: seq<string>, rules: seq<Rule>, d: string): real
    decreases |rules|
  {
    if |rules| == 0 then 1.0
    else Residual(facts, rules[..|rules| - 1], d) * Factor(facts, rules[|rules| - 1], d)
  }

  /** The aggregation loop of `infer`. */
  method Infer(facts: seq<string>, rules: seq<Rule>) returns (results: EvidenceMap)
    ensures results == Evidence(facts, rules)
    ensures results.Keys == Fired(facts, rules)
    ensures forall d :: d in results ==> results[d] == 1.0 - Residual(facts, rules, d)
  {
    results := map[];
    for i := 0 to |rules|
      invariant results == Evidence(facts, rules[..i])
    {
      var rule := rules[i];
      assert rules[..i + 1][..i] == rules[..i];
      ghost var before := results;
      if Fires(rule, facts) {
        var conclusion := rule.concl;
        var cf := rule.cf;
        if conclusion in results {
          var cfOld := results[conclusion];
          cf := cfOld + cf * (1.0 - cfOld);
          assert cf == Combine(before[conclusion], rule.cf);
        }
        results := results[conclusion := cf];
      }
      assert results == Step(before, facts, rule);
    }
    assert rules[..|rules|] == rules;
    EvidenceKeys(facts, rules);
    forall d | d in results
      ensures results[d] == 1.0 - Residual(facts, rules, d)
    {
      ClosedForm(facts, rules, d);
    }
  }

  /** Splitting the last rule off the firing conclusions. */
  lemma FiredSnoc(facts: seq<string>, rules: seq<Rule>, r: Rule)
    ensures Fired(facts, rules + [r]) ==
              Fired(facts, rules) + (if Fires(r, facts) then {r.concl} else {})
  {
    var rs := rules + [r];
    forall d | d in Fired(facts, rs)
      ensures d in Fired(facts, rules) + (if Fires(r, facts) then {r.concl} else {})
    {
      var q :| q in rs && Fires(q, facts) && q.concl == d;
      if q != r {
        assert q in rules;
      }
    }
    forall d | d in Fired(facts, rules)
      ensures d in Fired(facts, rs)
    {
      var q :| q in rules && Fires(q, facts) && q.concl == d;
      assert q in rs;
    }
    if Fires(r, facts) {
      assert r in rs;
    }
  }

  /** The diagnoses in the result are exactly the conclusions of firing rules. */
  lemma {:induction false} EvidenceKeys(facts: seq<string>, rules: seq<Rule>)
    ensures Evidence(facts, rules).Keys == Fired(facts, rules)
    decreases |rules|
  {
    if |rules| > 0 {
      var p, r := rules[..|rules| - 1], rules[|rules| - 1];
      assert rules == p + [r];
      EvidenceKeys(facts, p);
      FiredSnoc(facts, p, r);
    }
  }

  /**
   * The independent reference for the scores: a diagnosis's score is
   * 1 - Π(1 - cf_i) over the firing rules that conclude it, and a diagnosis
   * with no entry has an empty product.
   */
  lemma {:induction false} ClosedForm(facts: seq<string>, rules: seq<Rule>, d: string)
    ensures d in Evidence(facts, rules) ==>
              Evidence(facts, rules)[d] == 1.0 - Residual(facts, rules, d)
    ensures d !in Evidence(facts, rules) ==> Residual(facts, rules, d) == 1.0
    decreases |rules|
  {
    if |rules| > 0 {
      var p, r := rules[..|rules| - 1], rules[|rules| - 1];
      ClosedForm(facts, p, d);
      ClosedFormStep(Evidence(facts, p), Residual(facts, p, d), facts, r, d);
    }
  }

  /** One loop iteration keeps a score equal to 1 minus the residual so far. */
  lemma ClosedFormStep(e: EvidenceMap, rest: real, facts: seq<string>, r: Rule, d: string)
    requires d in e ==> e[d] == 1.0 - rest
    requires d !in e ==> rest == 1.0
    ensures d in Step(e, facts, r) ==> Step(e, facts, r)[d] == 1.0 - rest * Factor(facts, r, d)
    ensures d !in Step(e, facts, r) ==> rest * Factor(facts, r, d) == 1.0
  {
    if Fires(r, facts) && r.concl == d {
      if d in e {
        CombineComplement(e[d], r.cf);
      } else {
        assert rest * (1.0 - r.cf) == 1.0 - r.cf;
      }
    }
  }

  /** The combination is commutative. */
  lemma CombineCommutes(a: real, b: real)
    ensures Combine(a, b) == Combine(b, a)
  {
  }

  /** Folding two confidences into a score gives the same result in either order. */
  lemma CombineSwap(a: real, b: real, c: real)
    ensures Combine(Combine(a, b), c) == Combine(Combine(a, c), b)
  {
    CombineComplement(a, b);
    CombineComplement(a, c);
    CombineComplement(Combine(a, b), c);
    CombineComplement(Combine(a, c), b);
    Reorder(1.0 - a, 1.0 - b, 1.0 - c);
  }

  /** Reordering the factors of a product of three reals. */
  lemma Reorder(p: real, q: real, r: real)
    ensures (p * q) * r == (p * r) * q
  {
  }

  /** Two consecutive rules can be folded in either order. */
  lemma StepCommutes(m: EvidenceMap, facts: seq<string>, r1: Rule, r2: Rule)
    ensures Step(Step(m, facts, r1), facts, r2) == Step(Step(m, facts, r2), facts, r1)
  {
    if Fires(r1, facts) && Fires(r2, facts) && r1.concl == r2.concl {
      var d := r1.concl;
      if d in m {
        CombineSwap(m[d], r1.cf, r2.cf);
      } else {
        CombineCommutes(r1.cf, r2.cf);
      }
    }
  }

  /** Appending a rule adds one loop iteration. */
  lemma EvidenceSnoc(facts: seq<string>, rules: seq<Rule>, r: Rule)
    ensures Evidence(facts, rules + [r]) == Step(Evidence(facts, rules), facts, r)
  {
    assert (rules + [r])[..|rules|] == rules;
  }

  /** Moving one rule to the end of the list does not change the evidence map. */
  lemma {:induction false} MoveToEnd(facts: seq<string>, s: seq<Rule>, x: Rule, t: seq<Rule>)
    ensures Evidence(facts, s + [x] + t) == Evidence(facts, s + t + [x])
    decreases |t|
  {
    if |t| == 0 {
      assert s + [x] + t == s + t + [x];
    } else {
      var t', y := t[..|t| - 1], t[|t| - 1];
      var withX, withoutX := s + [x] + t', s + t';
      assert s + [x] + t == withX + [y];
      assert s + t + [x] == (withoutX + [y]) + [x];
      MoveToEnd(facts, s, x, t');
      EvidenceSnoc(facts, withX, y);
      EvidenceSnoc(facts, withoutX, x);
      EvidenceSnoc(facts, withoutX + [y], x);
      EvidenceSnoc(facts, withoutX, y);
      StepCommutes(Evidence(facts, withoutX), facts, x, y);
    }
  }

  /** Removing one occurrence of the same rule from both sides keeps them permutations. */
  lemma RemoveMatching(a: seq<Rule>, b: seq<Rule>, j: nat)
    requires multiset(a) == multiset(b) && |a| > 0
    requires j < |b| && b[j] == a[|a| - 1]
    ensures multiset(a[..|a| - 1]) == multiset(b[..j] + b[j + 1..])
  {
    var a', x, lo, hi := a[..|a| - 1], a[|a| - 1], b[..j], b[j + 1..];
    assert a == a' + [x];
    assert b == lo + [x] + hi;
    assert multiset(lo + hi) == multiset(lo) + multiset(hi);
    assert multiset(a') == multiset(a) - multiset{x};
    assert multiset(lo + hi) == multiset(b) - multiset{x};
  }

  /**
   * Order-independence: reordering the rules in any way (in particular
   * among rules sharing a conclusion) gives the same evidence map.
   */
  lemma {:induction false} EvidencePermutation(facts: seq<string>, a: seq<Rule>, b: seq<Rule>)
    requires multiset(a) == multiset(b)
    ensures Evidence(facts, a) == Evidence(facts, b)
    decreases |a|
  {
    if |a| == 0 {
      assert |b| == |multiset(b)| == 0;
    } else {
      var a', x := a[..|a| - 1], a[|a| - 1];
      assert x in multiset(b);
      var j :| 0 <= j < |b| && b[j] == x;
      var lo, hi := b[..j], b[j + 1..];
      RemoveMatching(a, b, j);
      EvidencePermutation(facts, a', lo + hi);
      assert b == lo + [x] + hi;
      MoveToEnd(facts, lo, x, hi);
      assert (lo + hi + [x])[..|lo + hi|] == lo + hi;
    }
  }

  /** Every score lies in [0,1] when every rule's confidence does. */
  lemma {:induction false} EvidenceInRange(facts: seq<string>, rules: seq<Rule>)
    requires UnitConfidences(rules)
    ensures forall d :: d in Evidence(facts, rules) ==> 0.0 <= Evidence(facts, rules)[d] <= 1.0
    decreases |rules|
  {
    if |rules| > 0 {
      var p, r := rules[..|rules| - 1], rules[|rules| - 1];
      assert rules == p + [r];
      EvidenceInRange(facts, p);
      var e := Evidence(facts, p);
      if Fires(r, facts) && r.concl in e {
        assert r in rules;
        CombineBounds(e[r.concl], r.cf);
      }
    }
  }

  /** More rules never remove a diagnosis nor lower its score. */
  lemma {:induction false} Monotone(facts: seq<string>, rules: seq<Rule>, more: seq<Rule>, d: string)
    requires UnitConfidences(rules + more)
    requires d in Evidence(facts, rules)
    ensures d in Evidence(facts, rules + more)
    ensures Evidence(facts, rules) [d] <= Evidence(facts, rules + more)[d]
    decreases |more|
  {
    if |more| == 0 {
      assert rules + more == rules;
    } else {
      var more' := more[..|more| - 1];
      assert (rules + more)[..|rules + more| - 1] == rules + more';
      assert UnitConfidences(rules + more') by {
        forall r | r in rules + more' ensures r in rules + more { }
      }
      Monotone(facts, rules, more', d);
      EvidenceInRange(facts, rules + more');
      var e, r := Evidence(facts, rules + more'), more[|more| - 1];
      assert r in rules + more;
      if Fires(r, facts) && r.concl == d {
        CombineBounds(e[d], r.cf);
      }
    }
  }

  /** A diagnosis scores at least the confidence of each of its firing rules. */
  lemma AtLeastEachFiringRule(facts: seq<string>, rules: seq<Rule>, i: nat)
    requires UnitConfidences(rules)
    requires i < |rules| && Fires(rules[i], facts)
    ensures rules[i].concl in Evidence(facts, rules)
    ensures rules[i].cf <= Evidence(facts, rules)[rules[i].concl]
  {
    var r, d := rules[i], rules[i].concl;
    var before, upTo, more := rules[..i], rules[..i + 1], rules[i + 1..];
    assert upTo[..i] == before;
    assert UnitConfidences(before) by {
      forall q | q in before ensures q in rules { }
    }
    assert r in rules;
    var e := Evidence(facts, before);
    assert Evidence(facts, upTo) == Step(e, facts, r);
    if d in e {
      EvidenceInRange(facts, before);
      CombineBounds(e[d], r.cf);
    }
    assert d in Evidence(facts, upTo) && r.cf <= Evidence(facts, upTo)[d];
    assert rules == upTo + more;
    Monotone(facts, upTo, more, d);
  }

  /** The residual of a single firing rule concluding `d` is 1 - cf. */
  lemma {:induction false} ResidualOfOnlyRule(facts: seq<string>, rules: seq<Rule>, i: nat, d: string)
    requires i < |rules| && Fires(rules[i], facts) && rules[i].concl == d
    requires forall j :: 0 <= j < |rules| && j != i ==> !(Fires(rules[j], facts) && rules[j].concl == d)
    ensures Residual(facts, rules, d) == 1.0 - rules[i].cf
    decreases |rules|
  {
    var p := rules[..|rules| - 1];
    if i == |rules| - 1 {
      NoFiringRule(facts, p, d);
    } else {
      ResidualOfOnlyRule(facts, p, i, d);
    }
  }

  /** Without a firing rule concluding `d`, its residual is 1. */
  lemma {:induction false} NoFiringRule(facts: seq<string>, rules: seq<Rule>, d: string)
    requires forall j :: 0 <= j < |rules| ==> !(Fires(rules[j], facts) && rules[j].concl == d)
    ensures Residual(facts, rules, d) == 1.0
    decreases |rules|
  {
    if |rules| > 0 {
      NoFiringRule(facts, rules[..|rules| - 1], d);
    }
  }

  /** A diagnosis reached by exactly one firing rule keeps that rule's cf. */
  lemma SingleFiringRule(facts: seq<string>, rules: seq<Rule>, i: nat)
    requires i < |rules| && Fires(rules[i], facts)
    requires forall j :: 0 <= j < |rules| && j != i ==>
               !(Fires(rules[j], facts) && rules[j].concl == rules[i].concl)
    ensures rules[i].concl in Evidence(facts, rules)
    ensures Evidence(facts, rules)[rules[i].concl] == rules[i].cf
  {
    var d := rules[i].concl;
    EvidenceKeys(facts, rules);
    assert rules[i] in rules;
    assert d in Fired(facts, rules);
    ClosedForm(facts, rules, d);
    ResidualOfOnlyRule(facts, rules, i, d);
  }

  /**
   * With no observed facts, only rules with an empty `if` list fire, so the
   * map is empty exactly when no rule has an empty `if` list.
   */
  lemma EmptyFacts(rules: seq<Rule>)
    ensures Evidence([], rules) == map[] <==> forall r :: r in rules ==> r.conds != []
  {
    EvidenceKeys([], rules);
    forall r | r in rules && r.conds != [] ensures !Fires(r, []) {
      assert r.conds[0] in r.conds;
    }
    if exists r :: r in rules && r.conds == [] {
      var r :| r in rules && r.conds == [];
      assert r.concl in Fired([], rules);
    } else {
      assert Fired([], rules) == {};
    }
  }

  /** Two rules for X, both firing: 0.6 and 0.5 combine to 0.8. */
  lemma TwoRulesExample()
    ensures Evidence(["A", "B"], [Rule(["A"], "X", 0.6), Rule(["B"], "X", 0.5)]) == map["X" := 0.8]
  {
    var facts := ["A", "B"];
    var rules := [Rule(["A"], "X", 0.6), Rule(["B"], "X", 0.5)];
    assert Fires(rules[0], facts) && Fires(rules[1], facts);
    assert rules[..1][..0] == [];
    assert Evidence(facts, rules[..1]) == map["X" := 0.6];
  }

  /** The rule for P01 on G05: fires on ["G05"], not on []. */
  lemma SingleRuleExample()
    ensures Evidence(["G05"], [Rule(["G05"], "P01", 0.9)]) == map["P01" := 0.9]
    ensures Evidence([], [Rule(["G05"], "P01", 0.9)]) == map[]
  {
    var rules := [Rule(["G05"], "P01", 0.9)];
    assert rules[..0] == [];
    assert !Fires(rules[0], []) by {
      assert "G05" in rules[0].conds;
    }
  }
}
