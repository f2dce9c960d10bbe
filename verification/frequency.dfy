/**
 The frequency table of the history view: for each catalog key, in catalog
 order, the number of stored polls that include it; stably sorted by count,
 largest first, so that equal counts keep catalog order; keys no poll
 includes dropped; each row with its share of all polls.
 */
module Frequency {
  import opened Seqs
  import opened Catalog
  import opened History

  /** The test of the count's filter: the poll includes `v`. */
  function Includes(v: Value): Poll -> bool {
    (p: Poll) => v in p.values
  }

  /** How many polls include `v`. */
  function Count(polls: seq<Poll>, v: Value): (n: nat)
    ensures n <= |polls|
  {
    |Filter(Includes(v), polls)|
  }

  /** A key is counted at all exactly when some poll includes it. */
  lemma CountPositive(polls: seq<Poll>, v: Value)
    ensures Count(polls, v) > 0 <==> exists p :: p in polls && v in p.values
  {
    var kept := Filter(Includes(v), polls);
    if exists p :: p in polls && v in p.values {
      var p :| p in polls && v in p.values;
      assert p in kept;
    }
    if kept != [] {
      assert kept[0] in kept;
    }
  }

  /** A `[value, count]` entry before sorting. */
  datatype Tally = Tally(value: Value, count: nat)

  /** One row of the table: value, count, and the count as a percentage of all polls. */
  datatype Row = Row(value: Value, count: nat, percentage: real)

  /** One entry per catalog key, in catalog order. */
  function Tallies(catalog: seq<Value>, polls: seq<Poll>): seq<Tally> {
    seq(|catalog|, k requires 0 <= k < |catalog| => Tally(catalog[k], Count(polls, catalog[k])))
  }

  /** `a` belongs before `b`: a larger count, or an equal count and an earlier catalog position. */
  predicate Precedes(catalog: seq<Value>, a: Tally, b: Tally) {
    a.count > b.count || (a.count == b.count && IndexOf(catalog, a.value) < IndexOf(catalog, b.value))
  }

  /** Ordered by count, largest first, ties in catalog order. */
  predicate Sorted(catalog: seq<Value>, t: seq<Tally>) {
    forall k, l :: 0 <= k < l < |t| ==> Precedes(catalog, t[k], t[l])
  }

  /** The entries appear in strictly increasing catalog position, as the unsorted tallies do. */
  predicate InCatalogOrder(catalog: seq<Value>, t: seq<Tally>) {
    forall k, l :: 0 <= k < l < |t| ==> IndexOf(catalog, t[k].value) < IndexOf(catalog, t[l].value)
  }

  /**
   Insert `e` in front of the first entry whose count is not larger than its
   own. When `e` comes earlier in the catalog than every entry of `t`, this
   keeps the order stable.
   */
  function Insert(catalog: seq<Value>, e: Tally, t: seq<Tally>): (r: seq<Tally>)
    ensures multiset(r) == multiset([e] + t)
    ensures Sorted(catalog, t) && (forall x :: x in t ==> IndexOf(catalog, e.value) < IndexOf(catalog, x.value))
      ==> Sorted(catalog, r)
    decreases |t|
  {
    if t == [] then [e]
    else if e.count >= t[0].count then
      InsertAtHead(catalog, e, t);
      [e] + t
    else
      var rest := Insert(catalog, e, t[1..]);
      var r := [t[0]] + rest;
      assert t == [t[0]] + t[1..];
      InsertAfterHead(catalog, e, t, rest);
      r
  }

  /** `Insert` when `e` goes in front: its count is at least the head's, so at least everyone's. */
  lemma InsertAtHead(catalog: seq<Value>, e: Tally, t: seq<Tally>)
    requires t != [] && e.count >= t[0].count
    ensures Sorted(catalog, t) && (forall x :: x in t ==> IndexOf(catalog, e.value) < IndexOf(catalog, x.value))
      ==> Sorted(catalog, [e] + t)
  {
    if Sorted(catalog, t) && (forall x :: x in t ==> IndexOf(catalog, e.value) < IndexOf(catalog, x.value)) {
      var r := [e] + t;
      forall k, l | 0 <= k < l < |r| ensures Precedes(catalog, r[k], r[l]) {
        assert r[l] == t[l - 1];
        if k > 0 {
          assert r[k] == t[k - 1];
        } else {
          assert t[l - 1] in t;
          if l > 1 {
            assert Precedes(catalog, t[0], t[l - 1]);
          }
        }
      }
    }
  }

  /** The inductive step of `Insert` when `e` goes after the head of `t`. */
  lemma InsertAfterHead(catalog: seq<Value>, e: Tally, t: seq<Tally>, rest: seq<Tally>)
    requires t != [] && e.count < t[0].count
    requires multiset(rest) == multiset([e] + t[1..])
    requires Sorted(catalog, t[1..]) && (forall x :: x in t[1..] ==> IndexOf(catalog, e.value) < IndexOf(catalog, x.value))
      ==> Sorted(catalog, rest)
    ensures Sorted(catalog, t) && (forall x :: x in t ==> IndexOf(catalog, e.value) < IndexOf(catalog, x.value))
      ==> Sorted(catalog, [t[0]] + rest)
  {
    if Sorted(catalog, t) && (forall x :: x in t ==> IndexOf(catalog, e.value) < IndexOf(catalog, x.value)) {
      assert Sorted(catalog, t[1..]) by {
        forall k, l | 0 <= k < l < |t[1..]| ensures Precedes(catalog, t[1..][k], t[1..][l]) {
          assert t[1..][k] == t[k + 1] && t[1..][l] == t[l + 1];
        }
      }
      assert forall x :: x in t[1..] ==> x in t;
      var r := [t[0]] + rest;
      forall k, l | 0 <= k < l < |r| ensures Precedes(catalog, r[k], r[l]) {
        assert r[l] == rest[l - 1];
        if k > 0 {
          assert r[k] == rest[k - 1];
        } else {
          assert r[l] in multiset(rest);
          assert r[l] in multiset([e] + t[1..]);
          if r[l] != e {
            assert r[l] in t[1..];
            var m :| 0 <= m < |t[1..]| && t[1..][m] == r[l];
            assert Precedes(catalog, t[0], t[m + 1]);
          }
        }
      }
    }
  }

  /**
   Stable sort by count, largest first (insertion sort; any stable sort
   gives the same result).
   */
  function SortByCount(catalog: seq<Value>, s: seq<Tally>): (r: seq<Tally>)
    ensures multiset(r) == multiset(s)
    ensures InCatalogOrder(catalog, s) ==> Sorted(catalog, r)
    decreases |s|
  {
    if s == [] then []
    else
      var rest := SortByCount(catalog, s[1..]);
      SortStep(catalog, s, rest);
      Insert(catalog, s[0], rest)
  }

  /** The inductive step of `SortByCount`: the head precedes, in the catalog, everything sorted after it. */
  lemma SortStep(catalog: seq<Value>, s: seq<Tally>, rest: seq<Tally>)
    requires s != []
    requires multiset(rest) == multiset(s[1..])
    requires InCatalogOrder(catalog, s[1..]) ==> Sorted(catalog, rest)
    ensures multiset([s[0]] + rest) == multiset(s)
    ensures InCatalogOrder(catalog, s) ==>
      Sorted(catalog, rest) && forall x :: x in rest ==> IndexOf(catalog, s[0].value) < IndexOf(catalog, x.value)
  {
    assert s == [s[0]] + s[1..];
    if InCatalogOrder(catalog, s) {
      assert InCatalogOrder(catalog, s[1..]) by {
        forall k, l | 0 <= k < l < |s[1..]|
          ensures IndexOf(catalog, s[1..][k].value) < IndexOf(catalog, s[1..][l].value)
        {
          assert s[1..][k] == s[k + 1] && s[1..][l] == s[l + 1];
        }
      }
      forall x | x in rest ensures IndexOf(catalog, s[0].value) < IndexOf(catalog, x.value) {
        assert x in multiset(s[1..]);
        var m :| 0 <= m < |s[1..]| && s[1..][m] == x;
        assert s[m + 1] == x;
      }
    }
  }

  /** Keeping only some entries of a sorted list leaves it sorted. */
  lemma {:induction false} FilterSorted(catalog: seq<Value>, keep: Tally -> bool, t: seq<Tally>)
    requires Sorted(catalog, t)
    ensures Sorted(catalog, Filter(keep, t))
    decreases |t|
  {
    if t != [] {
      assert Sorted(catalog, t[1..]) by {
        forall k, l | 0 <= k < l < |t[1..]| ensures Precedes(catalog, t[1..][k], t[1..][l]) {
          assert t[1..][k] == t[k + 1] && t[1..][l] == t[l + 1];
        }
      }
      FilterSorted(catalog, keep, t[1..]);
      var rest := Filter(keep, t[1..]);
      if keep(t[0]) {
        var r := [t[0]] + rest;
        forall k, l | 0 <= k < l < |r| ensures Precedes(catalog, r[k], r[l]) {
          assert r[l] == rest[l - 1];
          if k > 0 {
            assert r[k] == rest[k - 1];
          } else {
            assert r[l] in rest;
            var m :| 0 <= m < |t[1..]| && t[1..][m] == r[l];
            assert Precedes(catalog, t[0], t[m + 1]);
          }
        }
      }
    }
  }

  /** The filter that drops keys no poll includes. */
  function Positive(): Tally -> bool {
    (e: Tally) => e.count > 0
  }

  /** `count` as a percentage of `total`, before rounding to one decimal. */
  function Percentage(count: nat, total: nat): real
    requires total > 0
  {
    (count as real / total as real) * 100.0
  }

  /**
   The frequency table of a history over a catalog: its rows are the catalog
   keys some poll includes, each once, with its exact count and share,
   ordered by count, largest first, ties in catalog order.
   */
  function FrequencyTable(catalog: seq<Value>, polls: seq<Poll>): (r: seq<Row>)
    requires Distinct(catalog)
    ensures forall k :: 0 <= k < |r| ==>
      && r[k].value in catalog
      && r[k].count == Count(polls, r[k].value)
      && 0 < r[k].count <= |polls|
      && r[k].percentage == Percentage(r[k].count, |polls|)
    ensures forall v :: v in catalog && Count(polls, v) > 0 ==> exists k :: 0 <= k < |r| && r[k].value == v
    ensures forall k, l :: 0 <= k < l < |r| ==> r[k].value != r[l].value
    ensures forall k, l :: 0 <= k < l < |r| ==>
      || r[k].count > r[l].count
      || (r[k].count == r[l].count && IndexOf(catalog, r[k].value) < IndexOf(catalog, r[l].value))
    ensures |polls| == 0 ==> r == []
  {
    var shown := Shown(catalog, polls);
    assert shown != [] ==> shown[0] in shown;
    var r := ToRows(shown, |polls|);
    RowsFacts(catalog, polls, shown, r);
    r
  }

  /** The kept tallies: sorted by count, then filtered to the positive ones. */
  function Shown(catalog: seq<Value>, polls: seq<Poll>): (t: seq<Tally>)
    requires Distinct(catalog)
    ensures forall e :: e in t <==> e.value in catalog && e.count == Count(polls, e.value) && e.count > 0
    ensures Sorted(catalog, t)
    ensures forall k, l :: 0 <= k < l < |t| ==> t[k].value != t[l].value
  {
    ShownFacts(catalog, polls);
    Filter(Positive(), SortByCount(catalog, Tallies(catalog, polls)))
  }

  /** The rows inherit what the kept tallies satisfy. */
  lemma RowsFacts(catalog: seq<Value>, polls: seq<Poll>, shown: seq<Tally>, r: seq<Row>)
    requires forall e :: e in shown <==> e.value in catalog && e.count == Count(polls, e.value) && e.count > 0
    requires Sorted(catalog, shown)
    requires forall k, l :: 0 <= k < l < |shown| ==> shown[k].value != shown[l].value
    requires |r| == |shown|
    requires forall k :: 0 <= k < |r| ==>
      r[k].value == shown[k].value && r[k].count == shown[k].count && 0 < |polls|
      && r[k].percentage == Percentage(shown[k].count, |polls|)
    ensures forall k :: 0 <= k < |r| ==>
      && r[k].value in catalog
      && r[k].count == Count(polls, r[k].value)
      && 0 < r[k].count <= |polls|
      && r[k].percentage == Percentage(r[k].count, |polls|)
    ensures forall v :: v in catalog && Count(polls, v) > 0 ==> exists k :: 0 <= k < |r| && r[k].value == v
    ensures forall k, l :: 0 <= k < l < |r| ==> r[k].value != r[l].value
    ensures forall k, l :: 0 <= k < l < |r| ==>
      || r[k].count > r[l].count
      || (r[k].count == r[l].count && IndexOf(catalog, r[k].value) < IndexOf(catalog, r[l].value))
    ensures |polls| == 0 ==> r == []
  {
    forall k | 0 <= k < |r| ensures r[k].value in catalog && r[k].count == Count(polls, r[k].value) {
      assert shown[k] in shown;
    }
    forall v | v in catalog && Count(polls, v) > 0 ensures exists k :: 0 <= k < |r| && r[k].value == v {
      assert Tally(v, Count(polls, v)) in shown;
      var k :| 0 <= k < |shown| && shown[k] == Tally(v, Count(polls, v));
      assert r[k].value == v;
    }
    forall k, l | 0 <= k < l < |r|
      ensures || r[k].count > r[l].count
              || (r[k].count == r[l].count && IndexOf(catalog, r[k].value) < IndexOf(catalog, r[l].value))
    {
      assert Precedes(catalog, shown[k], shown[l]);
    }
    if r != [] {
      assert r[0].count == shown[0].count;
    }
  }

  /**
   The table the history view shows, over the shipped catalog: a row for
   exactly the catalog keys some poll includes, with the key's count and
   share, by count, largest first, equal counts in declaration order.
   */
  function ValueFrequency(polls: seq<Poll>): (r: seq<Row>)
    ensures forall k :: 0 <= k < |r| ==>
      && r[k].value in Values
      && r[k].count == Count(polls, r[k].value)
      && 0 < r[k].count <= |polls|
      && r[k].percentage == Percentage(r[k].count, |polls|)
    ensures forall v :: v in Values && Count(polls, v) > 0 ==> exists k :: 0 <= k < |r| && r[k].value == v
    ensures forall k, l :: 0 <= k < l < |r| ==> r[k].value != r[l].value
    ensures forall k, l :: 0 <= k < l < |r| ==>
      || r[k].count > r[l].count
      || (r[k].count == r[l].count && IndexOf(Values, r[k].value) < IndexOf(Values, r[l].value))
    ensures |polls| == 0 ==> r == []
  {
    CatalogDistinct();
    FrequencyTable(Values, polls)
  }

  /** The rows shown for the kept tallies, in the same order. */
  function ToRows(shown: seq<Tally>, total: nat): (r: seq<Row>)
    requires shown == [] || 0 < total
    ensures |r| == |shown|
    ensures forall k :: 0 <= k < |r| ==>
      r[k].value == shown[k].value && r[k].count == shown[k].count && 0 < total
      && r[k].percentage == Percentage(shown[k].count, total)
  {
    seq(|shown|, k requires 0 <= k < |shown| =>
      Row(shown[k].value, shown[k].count, Percentage(shown[k].count, total)))
  }

  /** What the sort and the filter leave: the positive tallies, each key once, sorted. */
  lemma ShownFacts(catalog: seq<Value>, polls: seq<Poll>)
    requires Distinct(catalog)
    ensures var shown := Filter(Positive(), SortByCount(catalog, Tallies(catalog, polls)));
      && (forall e :: e in shown <==> e.value in catalog && e.count == Count(polls, e.value) && e.count > 0)
      && Sorted(catalog, shown)
      && (forall k, l :: 0 <= k < l < |shown| ==> shown[k].value != shown[l].value)
  {
    var tallies := Tallies(catalog, polls);
    TalliesFacts(catalog, polls);
    var sorted := SortByCount(catalog, tallies);
    var shown := Filter(Positive(), sorted);
    FilterSorted(catalog, Positive(), sorted);
    SortedMembers(catalog, polls);
    SortedTalliesDistinct(catalog, polls, shown);
  }

  /** Sorting the tallies keeps exactly the catalog keys, each with its count. */
  lemma SortedMembers(catalog: seq<Value>, polls: seq<Poll>)
    requires Distinct(catalog)
    ensures forall e :: e in SortByCount(catalog, Tallies(catalog, polls)) <==>
      e.value in catalog && e.count == Count(polls, e.value)
  {
    var tallies := Tallies(catalog, polls);
    TalliesFacts(catalog, polls);
    var sorted := SortByCount(catalog, tallies);
    forall e ensures e in sorted <==> e in tallies {
      assert e in sorted <==> e in multiset(sorted);
    }
  }

  /** Sorted entries that each carry their key's true count name each key at most once. */
  lemma SortedTalliesDistinct(catalog: seq<Value>, polls: seq<Poll>, t: seq<Tally>)
    requires Sorted(catalog, t)
    requires forall e :: e in t ==> e.count == Count(polls, e.value)
    ensures forall k, l :: 0 <= k < l < |t| ==> t[k].value != t[l].value
  {
    forall k, l | 0 <= k < l < |t| ensures t[k].value != t[l].value {
      assert Precedes(catalog, t[k], t[l]);
      assert t[k] in t && t[l] in t;
    }
  }

  /** The unsorted tallies: each catalog key once, in catalog order, with its count. */
  lemma TalliesFacts(catalog: seq<Value>, polls: seq<Poll>)
    requires Distinct(catalog)
    ensures InCatalogOrder(catalog, Tallies(catalog, polls))
    ensures forall e :: e in Tallies(catalog, polls) <==> e.value in catalog && e.count == Count(polls, e.value)
  {
    var t := Tallies(catalog, polls);
    forall k | 0 <= k < |t| ensures IndexOf(catalog, t[k].value) == k {
      IndexOfDistinct(catalog, k);
    }
    forall e: Tally | e.value in catalog && e.count == Count(polls, e.value) ensures e in t {
      var k :| 0 <= k < |catalog| && catalog[k] == e.value;
      assert t[k] == e;
    }
  }

  /** With no polls stored the table is empty. */
  lemma EmptyHistoryEmptyTable()
    ensures ValueFrequency([]) == []
  {
  }

  /** Of two polls, exactly one including `v`: the count of `v` is 1. */
  lemma CountOneOfTwo(with: Poll, without: Poll, v: Value)
    requires v in with.values && v !in without.values
    ensures Count([with, without], v) == 1
  {
    var polls := [with, without];
    assert polls[1..] == [without] && [without][1..] == [];
    assert Filter(Includes(v), polls) == [with];
  }

  /** "Honesty" is a catalog key. */
  lemma HonestyInCatalog()
    ensures "Honesty" in Values
  {
    assert Values[24] == "Honesty";
  }

  /** Of two polls, one including catalog key `v` and one not: `v` is shown with count 1 and 50%. */
  lemma HalfOfTwo(catalog: seq<Value>, with: Poll, without: Poll, v: Value)
    requires Distinct(catalog) && v in catalog
    requires v in with.values && v !in without.values
    ensures exists k :: 0 <= k < |FrequencyTable(catalog, [with, without])|
                        && FrequencyTable(catalog, [with, without])[k] == Row(v, 1, 50.0)
  {
    CountOneOfTwo(with, without, v);
    var r := FrequencyTable(catalog, [with, without]);
    var k :| 0 <= k < |r| && r[k].value == v;
    assert r[k] == Row(v, 1, 50.0);
  }

  /** Of two polls, one including "Honesty" and one not: "Honesty" is shown with count 1 and 50%. */
  lemma HonestyInOneOfTwo(with: Poll, without: Poll)
    requires "Honesty" in with.values && "Honesty" !in without.values
    ensures exists k :: 0 <= k < |ValueFrequency([with, without])|
                        && ValueFrequency([with, without])[k] == Row("Honesty", 1, 50.0)
  {
    HonestyInCatalog();
    CatalogDistinct();
    HalfOfTwo(Values, with, without, "Honesty");
    var r := FrequencyTable(Values, [with, without]);
    assert ValueFrequency([with, without]) == r;
    var k :| 0 <= k < |r| && r[k] == Row("Honesty", 1, 50.0);
  }

  /** Of two keys with equal counts, the one declared earlier in the catalog gets the earlier row. */
  lemma TieKeepsCatalogOrder(catalog: seq<Value>, polls: seq<Poll>, a: Value, b: Value)
    requires Distinct(catalog)
    requires IndexOf(catalog, a) < IndexOf(catalog, b)
    requires Count(polls, a) == Count(polls, b)
    ensures forall k, l :: 0 <= k < |FrequencyTable(catalog, polls)| && 0 <= l < |FrequencyTable(catalog, polls)|
                           && FrequencyTable(catalog, polls)[k].value == a
                           && FrequencyTable(catalog, polls)[l].value == b
                           ==> k < l
  {
    var r := FrequencyTable(catalog, polls);
    forall k, l | 0 <= k < |r| && 0 <= l < |r| && r[k].value == a && r[l].value == b
      ensures k < l
    {
      assert k != l;
    }
  }

  /** "Authenticity" is the first catalog key and "Achievement" the second. */
  lemma FirstTwoKeys()
    ensures IndexOf(Values, "Authenticity") == 0 && IndexOf(Values, "Achievement") == 1
  {
    assert Values[0] == "Authenticity" && Values[1] == "Achievement";
    assert Values[..1] == ["Authenticity"];
  }

  /**
   Equal counts keep catalog order, not alphabetical order: "Authenticity" is
   declared before "Achievement", so its row comes first.
   */
  lemma CatalogOrderBreaksTies(polls: seq<Poll>)
    requires Count(polls, "Authenticity") == Count(polls, "Achievement")
    ensures forall k, l :: 0 <= k < |ValueFrequency(polls)| && 0 <= l < |ValueFrequency(polls)|
                           && ValueFrequency(polls)[k].value == "Authenticity"
                           && ValueFrequency(polls)[l].value == "Achievement"
                           ==> k < l
  {
    CatalogDistinct();
    FirstTwoKeys();
    TieKeepsCatalogOrder(Values, polls, "Authenticity", "Achievement");
    assert ValueFrequency(polls) == FrequencyTable(Values, polls);
  }
}
