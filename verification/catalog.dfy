/**
 The fixed data of the poll: the catalog of value names, in the order the
 catalog object declares them (which is not alphabetical, and is the order
 in which the frequency table breaks ties), and the two interaction rule
 tables, each mapping a value name to the names it is declared to conflict
 with or to reinforce. The rule tables are declared one-directionally; the
 evaluator reads them in both directions.
 */
module Catalog {
  import opened Seqs

  /** A value name, the key of the catalog. */
  type Value = string

  /** A rule table: a value name to the names it is related to. */
  type Rules = map<Value, seq<Value>>

  /** The catalog keys, in declaration order (the descriptions are display text only). */
  const Values: seq<Value> := Part1 + Part2 + Part3 + Part4 + Part5 + Part6

  // The keys are declared in six consecutive parts so that facts about the
  // literal sequences stay small enough to prove one part at a time.
  const Part1: seq<Value> := [
    "Authenticity", "Achievement", "Adventure", "Authority", "Autonomy", "Balance", "Beauty",
    "Boldness", "Compassion", "Challenge"
  ]
  const Part2: seq<Value> := [
    "Citizenship", "Community", "Competency", "Contribution", "Creativity", "Curiosity",
    "Determination", "Fairness", "Faith", "Fame"
  ]
  const Part3: seq<Value> := [
    "Friendships", "Fun", "Growth", "Happiness", "Honesty", "Humor", "Influence",
    "Inner Harmony", "Justice", "Kindness"
  ]
  const Part4: seq<Value> := [
    "Knowledge", "Leadership", "Learning", "Love", "Loyalty", "Meaningful Work", "Openness",
    "Optimism", "Peace", "Pleasure"
  ]
  const Part5: seq<Value> := [
    "Poise", "Popularity", "Recognition", "Religion", "Reputation", "Respect", "Responsibility",
    "Security", "Self-Respect", "Service"
  ]
  const Part6: seq<Value> := [
    "Spirituality", "Stability", "Success", "Status", "Trustworthiness", "Wealth", "Wisdom"
  ]

  /** Declared conflicts. */
  const ConflictRules: Rules := map[
    "Achievement" := ["Balance", "Peace"],
    "Adventure" := ["Security", "Stability"],
    "Authority" := ["Autonomy", "Peace"],
    "Wealth" := ["Spirituality", "Inner Harmony"],
    "Status" := ["Authenticity", "Inner Harmony"],
    "Fame" := ["Peace", "Inner Harmony"],
    "Balance" := ["Achievement", "Challenge"],
    "Security" := ["Adventure", "Risk"],
    "Inner Harmony" := ["Status", "Fame"]
  ]

  /** Declared synergies. */
  const SynergyRules: Rules := map[
    "Growth" := ["Learning", "Challenge", "Wisdom"],
    "Compassion" := ["Service", "Kindness"],
    "Leadership" := ["Influence", "Responsibility"],
    "Wisdom" := ["Knowledge", "Growth"],
    "Learning" := ["Curiosity", "Growth"],
    "Service" := ["Contribution", "Compassion"],
    "Community" := ["Friendships", "Citizenship"],
    "Knowledge" := ["Learning", "Wisdom"],
    "Honesty" := ["Trustworthiness", "Authenticity"]
  ]

  /** No element of `b` occurs in `a`. */
  predicate Disjoint(a: seq<Value>, b: seq<Value>) {
    forall j :: 0 <= j < |b| ==> b[j] !in a
  }

  /** Joining two duplicate-free, disjoint sequences gives a duplicate-free sequence. */
  lemma DistinctConcat(a: seq<Value>, b: seq<Value>)
    requires Distinct(a) && Distinct(b) && Disjoint(a, b)
    ensures Distinct(a + b)
  {
    forall i, j | 0 <= i < j < |a + b| ensures (a + b)[i] != (a + b)[j] {
      if j >= |a| && i < |a| {
        assert (a + b)[j] == b[j - |a|];
        assert (a + b)[i] in a;
      }
    }
  }

  /** Facts about the literal parts, each small enough to be checked on its own. */
  lemma Part1Distinct() ensures Distinct(Part1) {}
  lemma Part2Distinct() ensures Distinct(Part2) {}
  lemma Part2AfterPart1() ensures Disjoint(Part1, Part2) {}
  lemma Part3Distinct() ensures Distinct(Part3) {}
  lemma Part3AfterPart1() ensures Disjoint(Part1, Part3) {}
  lemma Part3AfterPart2() ensures Disjoint(Part2, Part3) {}
  lemma Part4Distinct() ensures Distinct(Part4) {}
  lemma Part4AfterPart1() ensures Disjoint(Part1, Part4) {}
  lemma Part4AfterPart2() ensures Disjoint(Part2, Part4) {}
  lemma Part4AfterPart3() ensures Disjoint(Part3, Part4) {}
  lemma Part5Distinct() ensures Distinct(Part5) {}
  lemma Part5AfterPart1() ensures Disjoint(Part1, Part5) {}
  lemma Part5AfterPart2() ensures Disjoint(Part2, Part5) {}
  lemma Part5AfterPart3() ensures Disjoint(Part3, Part5) {}
  lemma Part5AfterPart4() ensures Disjoint(Part4, Part5) {}
  lemma Part6Distinct() ensures Distinct(Part6) {}
  lemma Part6AfterPart1() ensures Disjoint(Part1, Part6) {}
  lemma Part6AfterPart2() ensures Disjoint(Part2, Part6) {}
  lemma Part6AfterPart3() ensures Disjoint(Part3, Part6) {}
  lemma Part6AfterPart4() ensures Disjoint(Part4, Part6) {}
  lemma Part6AfterPart5() ensures Disjoint(Part5, Part6) {}

  /** The catalog declares 57 distinct keys, so a key's catalog position is well defined. */
  lemma {:induction false} CatalogDistinct()
    ensures |Values| == 57
    ensures Distinct(Values)
  {
    Part1Distinct(); Part2Distinct(); Part3Distinct(); Part4Distinct(); Part5Distinct(); Part6Distinct();
    Part2AfterPart1();
    DistinctConcat(Part1, Part2);
    Part3AfterPart1(); Part3AfterPart2();
    DistinctConcat(Part1 + Part2, Part3);
    Part4AfterPart1(); Part4AfterPart2(); Part4AfterPart3();
    DistinctConcat(Part1 + Part2 + Part3, Part4);
    Part5AfterPart1(); Part5AfterPart2(); Part5AfterPart3(); Part5AfterPart4();
    DistinctConcat(Part1 + Part2 + Part3 + Part4, Part5);
    Part6AfterPart1(); Part6AfterPart2(); Part6AfterPart3(); Part6AfterPart4(); Part6AfterPart5();
    DistinctConcat(Part1 + Part2 + Part3 + Part4 + Part5, Part6);
  }
}
