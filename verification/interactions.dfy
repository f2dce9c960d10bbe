/**
 The interaction evaluator: every pair of selected values, earlier pick
 first, that a rule table relates in either direction. Conflicts and
 synergies are computed independently from their own tables.
 */
module Interactions {
  import opened Seqs
  import opened Catalog

  /** A reported pair, in selection order. */
  datatype Pair = Pair(first: Value, second: Value)

  /** Both lists the evaluator reports. */
  datatype Report = Report(conflicts: seq<Pair>, synergies: seq<Pair>)

  /**
   The table relates `a` and `b` when either one's entry lists the other; a
   name without an entry relates to nothing.
   */
  predicate Related(rules: Rules, a: Value, b: Value) {
    (a in rules && b in rules[a]) || (b in rules && a in rules[b])
  }

  /** The number of unordered pairs of `n` positions. */
  function Triangle(n: nat): nat {
    if n == 0 then 0 else (n - 1) + Triangle(n - 1)
  }

  /** `Triangle` is the closed form n(n-1)/2. */
  lemma {:induction false} TriangleClosedForm(n: nat)
    ensures Triangle(n) == n * (n - 1) / 2
  {
    if n > 0 {
      TriangleClosedForm(n - 1);
      assert n * (n - 1) == (n - 1) * (n - 2) + 2 * (n - 1);
    }
  }

  /**
   The inner pass: `s[i]` against every later value from position `j` on,
   keeping the related pairs.
   */
  function PairsWith(rules: Rules, s: seq<Value>, i: nat, j: nat): (r: seq<Pair>)
    requires i < j <= |s|
    ensures |r| <= |s| - j
    ensures forall p :: p in r <==>
      exists b :: j <= b < |s| && p == Pair(s[i], s[b]) && Related(rules, s[i], s[b])
    decreases |s| - j
  {
    if j == |s| then []
    else
      var rest := PairsWith(rules, s, i, j + 1);
      if Related(rules, s[i], s[j]) then [Pair(s[i], s[j])] + rest else rest
  }

  /**
   The outer pass from position `i` on: for each value, its pairs with the
   later values, in order.
   */
  function PairsFrom(rules: Rules, s: seq<Value>, i: nat): (r: seq<Pair>)
    requires i <= |s|
    ensures |r| <= Triangle(|s| - i)
    ensures forall p :: p in r <==>
      exists a, b :: i <= a < b < |s| && p == Pair(s[a], s[b]) && Related(rules, s[a], s[b])
    decreases |s| - i
  {
    if i == |s| then []
    else
      PairsWith(rules, s, i, i + 1) + PairsFrom(rules, s, i + 1)
  }

  /** All related pairs of the selection under one table. */
  function RelatedPairs(rules: Rules, s: seq<Value>): (r: seq<Pair>)
    ensures |r| <= Triangle(|s|)
    ensures forall p :: p in r <==>
      exists a, b :: 0 <= a < b < |s| && p == Pair(s[a], s[b]) && Related(rules, s[a], s[b])
  {
    PairsFrom(rules, s, 0)
  }

  /**
   The evaluator run on the current selection with the shipped tables: each
   list holds exactly the pairs, earlier pick first, that its own table
   relates, and at most one entry per unordered pair of positions.
   */
  function Evaluate(s: seq<Value>): (r: Report)
    ensures forall p :: p in r.conflicts <==>
      exists a, b :: 0 <= a < b < |s| && p == Pair(s[a], s[b]) && Related(ConflictRules, s[a], s[b])
    ensures forall p :: p in r.synergies <==>
      exists a, b :: 0 <= a < b < |s| && p == Pair(s[a], s[b]) && Related(SynergyRules, s[a], s[b])
    ensures |r.conflicts| <= Triangle(|s|) && |r.synergies| <= Triangle(|s|)
  {
    Report(RelatedPairs(ConflictRules, s), RelatedPairs(SynergyRules, s))
  }

  /** The position-based order of two pairs: by the first value's pick position, then the second's. */
  predicate Before(s: seq<Value>, p: Pair, q: Pair) {
    IndexOf(s, p.first) < IndexOf(s, q.first)
    || (IndexOf(s, p.first) == IndexOf(s, q.first) && IndexOf(s, p.second) < IndexOf(s, q.second))
  }

  /** The pairs are listed strictly in (first position, second position) order. */
  predicate InSelectionOrder(s: seq<Value>, r: seq<Pair>) {
    forall k, l :: 0 <= k < l < |r| ==> Before(s, r[k], r[l])
  }

  /** Every pair of the inner pass starts at position `i` and ends at a position from `j` on. */
  lemma PairsWithPositions(rules: Rules, s: seq<Value>, i: nat, j: nat)
    requires Distinct(s)
    requires i < j <= |s|
    ensures forall k :: 0 <= k < |PairsWith(rules, s, i, j)| ==>
      && IndexOf(s, PairsWith(rules, s, i, j)[k].first) == i
      && j <= IndexOf(s, PairsWith(rules, s, i, j)[k].second) < |s|
  {
    var r := PairsWith(rules, s, i, j);
    forall k | 0 <= k < |r| ensures IndexOf(s, r[k].first) == i && j <= IndexOf(s, r[k].second) < |s| {
      var p := r[k];
      assert p in r;
      var b :| j <= b < |s| && p == Pair(s[i], s[b]) && Related(rules, s[i], s[b]);
      IndexOfDistinct(s, i);
      IndexOfDistinct(s, b);
    }
  }

  /** Every pair of the outer pass from `i` starts at position `i` or later. */
  lemma PairsFromPositions(rules: Rules, s: seq<Value>, i: nat)
    requires Distinct(s)
    requires i <= |s|
    ensures forall k :: 0 <= k < |PairsFrom(rules, s, i)| ==> i <= IndexOf(s, PairsFrom(rules, s, i)[k].first)
  {
    var r := PairsFrom(rules, s, i);
    forall k | 0 <= k < |r| ensures i <= IndexOf(s, r[k].first) {
      var p := r[k];
      assert p in r;
      var a, b :| i <= a < b < |s| && p == Pair(s[a], s[b]) && Related(rules, s[a], s[b]);
      IndexOfDistinct(s, a);
    }
  }

  /** The inner pass lists the pairs of `s[i]` in increasing position of the partner. */
  lemma {:induction false} PairsWithOrdered(rules: Rules, s: seq<Value>, i: nat, j: nat)
    requires Distinct(s)
    requires i < j <= |s|
    ensures InSelectionOrder(s, PairsWith(rules, s, i, j))
    decreases |s| - j
  {
    if j < |s| {
      PairsWithOrdered(rules, s, i, j + 1);
      var rest := PairsWith(rules, s, i, j + 1);
      if Related(rules, s[i], s[j]) {
        PairsWithPositions(rules, s, i, j + 1);
        IndexOfDistinct(s, i);
        IndexOfDistinct(s, j);
        ConsInSelectionOrder(s, Pair(s[i], s[j]), rest);
        assert PairsWith(rules, s, i, j) == [Pair(s[i], s[j])] + rest;
      } else {
        assert PairsWith(rules, s, i, j) == rest;
      }
    }
  }

  /** A pair in front of an ordered list that it precedes entirely. */
  lemma ConsInSelectionOrder(s: seq<Value>, x: Pair, rest: seq<Pair>)
    requires InSelectionOrder(s, rest)
    requires forall k :: 0 <= k < |rest| ==> Before(s, x, rest[k])
    ensures InSelectionOrder(s, [x] + rest)
  {
    var r := [x] + rest;
    forall k, l | 0 <= k < l < |r| ensures Before(s, r[k], r[l]) {
      assert r[l] == rest[l - 1];
      if k > 0 {
        assert r[k] == rest[k - 1];
      }
    }
  }

  /** The outer pass from position `i` lists its pairs in selection order. */
  lemma {:induction false} PairsFromOrdered(rules: Rules, s: seq<Value>, i: nat)
    requires Distinct(s)
    requires i <= |s|
    ensures InSelectionOrder(s, PairsFrom(rules, s, i))
    decreases |s| - i
  {
    if i < |s| {
      var head := PairsWith(rules, s, i, i + 1);
      var rest := PairsFrom(rules, s, i + 1);
      PairsWithOrdered(rules, s, i, i + 1);
      PairsFromOrdered(rules, s, i + 1);
      PairsWithPositions(rules, s, i, i + 1);
      PairsFromPositions(rules, s, i + 1);
      ConcatInSelectionOrder(s, i, head, rest);
      PairsFromUnfold(rules, s, i);
    }
  }

  /** One step of the outer pass: the pairs of `s[i]`, then the pairs from the next position. */
  lemma PairsFromUnfold(rules: Rules, s: seq<Value>, i: nat)
    requires i < |s|
    ensures PairsFrom(rules, s, i) == PairsWith(rules, s, i, i + 1) + PairsFrom(rules, s, i + 1)
  {
  }

  /** Two ordered lists, every pair of the first before every pair of the second, join into an ordered list. */
  lemma ConcatInSelectionOrder(s: seq<Value>, i: nat, head: seq<Pair>, rest: seq<Pair>)
    requires InSelectionOrder(s, head) && InSelectionOrder(s, rest)
    requires forall k :: 0 <= k < |head| ==> IndexOf(s, head[k].first) == i
    requires forall k :: 0 <= k < |rest| ==> i < IndexOf(s, rest[k].first)
    ensures InSelectionOrder(s, head + rest)
  {
    var r := head + rest;
    forall k, l | 0 <= k < l < |r| ensures Before(s, r[k], r[l]) {
      if l < |head| {
        assert r[k] == head[k] && r[l] == head[l];
      } else if k >= |head| {
        assert r[k] == rest[k - |head|] && r[l] == rest[l - |head|];
      } else {
        assert r[k] == head[k];
        assert r[l] == rest[l - |head|];
      }
    }
  }

  /**
   For a duplicate-free selection both lists are ordered by the pick position
   of the first value and then of the second.
   */
  lemma EvaluateInSelectionOrder(s: seq<Value>)
    requires Distinct(s)
    ensures InSelectionOrder(s, Evaluate(s).conflicts)
    ensures InSelectionOrder(s, Evaluate(s).synergies)
  {
    PairsFromOrdered(ConflictRules, s, 0);
    PairsFromOrdered(SynergyRules, s, 0);
  }

  /**
   With two values selected each list holds the one pair, in pick order, if
   the table relates them in either direction, and nothing otherwise.
   */
  lemma TwoValues(rules: Rules, a: Value, b: Value)
    ensures RelatedPairs(rules, [a, b]) == if Related(rules, a, b) then [Pair(a, b)] else []
  {
    var s := [a, b];
    assert PairsWith(rules, s, 1, 2) == [];
    assert PairsFrom(rules, s, 2) == [];
    assert PairsFrom(rules, s, 1) == [];
    assert PairsWith(rules, s, 0, 2) == [];
  }

  /** The relation is read in both directions, so the pick order only decides which value is named first. */
  lemma PickOrderIrrelevant(rules: Rules, a: Value, b: Value)
    ensures |RelatedPairs(rules, [a, b])| == |RelatedPairs(rules, [b, a])|
    ensures RelatedPairs(rules, [a, b]) != [] ==> RelatedPairs(rules, [b, a]) == [Pair(b, a)]
  {
    TwoValues(rules, a, b);
    TwoValues(rules, b, a);
  }

  /** The conflict table relates "Achievement" and "Balance"; the synergy table does not. */
  lemma AchievementBalanceRules()
    ensures Related(ConflictRules, "Achievement", "Balance")
    ensures !Related(SynergyRules, "Achievement", "Balance")
  {
    assert "Balance" in ConflictRules["Achievement"];
    assert "Achievement" !in SynergyRules && "Balance" !in SynergyRules;
  }

  /** The synergy table relates "Growth" and "Learning"; the conflict table does not. */
  lemma GrowthLearningRules()
    ensures Related(SynergyRules, "Growth", "Learning")
    ensures !Related(ConflictRules, "Growth", "Learning")
  {
    assert "Learning" in SynergyRules["Growth"];
    assert "Growth" !in ConflictRules && "Learning" !in ConflictRules;
  }

  /** "Achievement" and "Balance", in either order: one conflict, no synergy. */
  lemma AchievementBalanceConflict()
    ensures Evaluate(["Achievement", "Balance"]) == Report([Pair("Achievement", "Balance")], [])
    ensures Evaluate(["Balance", "Achievement"]) == Report([Pair("Balance", "Achievement")], [])
  {
    AchievementBalanceRules();
    TwoValues(ConflictRules, "Achievement", "Balance");
    TwoValues(SynergyRules, "Achievement", "Balance");
    TwoValues(ConflictRules, "Balance", "Achievement");
    TwoValues(SynergyRules, "Balance", "Achievement");
  }

  /** "Growth" and "Learning": one synergy, no conflict. */
  lemma GrowthLearningSynergy()
    ensures Evaluate(["Growth", "Learning"]) == Report([], [Pair("Growth", "Learning")])
  {
    GrowthLearningRules();
    TwoValues(ConflictRules, "Growth", "Learning");
    TwoValues(SynergyRules, "Growth", "Learning");
  }

  /** No name is keyed in both shipped tables. */
  lemma ShippedKeysDisjoint()
    ensures forall v :: v in ConflictRules ==> v !in SynergyRules
  {
  }

  /** No conflict entry names a synergy key. */
  lemma ShippedConflictEntries()
    ensures forall a, b :: a in ConflictRules && b in ConflictRules[a] ==> b !in SynergyRules
  {
  }

  /** No synergy entry names a conflict key. */
  lemma ShippedSynergyEntries()
    ensures forall a, b :: a in SynergyRules && b in SynergyRules[a] ==> b !in ConflictRules
  {
  }

  /**
   With the shipped tables no pair is both a conflict and a synergy, so in
   practice the two lists never share a pair.
   */
  lemma ShippedTablesNeverBoth(a: Value, b: Value)
    ensures !(Related(ConflictRules, a, b) && Related(SynergyRules, a, b))
  {
    ShippedKeysDisjoint();
    ShippedConflictEntries();
    ShippedSynergyEntries();
  }
}
