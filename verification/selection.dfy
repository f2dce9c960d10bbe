/**
 The in-progress selection: an ordered list of value names in pick order,
 bounded by the poll size. Toggling a selected value removes it; toggling an
 unselected one appends it while there is room; past the bound the pick is
 ignored.
 */
module Selection {
  import opened Seqs
  import opened Catalog

  /** Number of values a completed poll holds, and the bound on the selection. */
  const Capacity: nat := 10

  /** The selection invariant: within capacity and free of duplicates. */
  predicate Valid(s: seq<Value>) {
    |s| <= Capacity && Distinct(s)
  }

  /** The selection after the user clicks on `v`. */
  function Toggle(s: seq<Value>, v: Value): (r: seq<Value>)
    ensures v in s ==> v !in r && |r| < |s|
    ensures v in s ==> forall x :: x in r <==> x in s && x != v
    ensures v !in s && |s| < Capacity ==> r == s + [v]
    ensures v !in s && |s| >= Capacity ==> r == s
    ensures Valid(s) ==> Valid(r)
  {
    if v in s then
      var r := Filter(x => x != v, s);
      FilterDropsSome(x => x != v, s, v);
      if Distinct(s) then FilterDistinct(x => x != v, s); r else r
    else if |s| < Capacity then
      AppendFreshDistinct(s, v);
      s + [v]
    else
      s
  }

  /** Appending a value not yet present keeps a sequence duplicate-free. */
  lemma AppendFreshDistinct(s: seq<Value>, v: Value)
    requires v !in s
    ensures Distinct(s) ==> Distinct(s + [v])
  {
    if Distinct(s) {
      forall i, j | 0 <= i < j < |s + [v]| ensures (s + [v])[i] != (s + [v])[j] {
        if j == |s| {
          assert (s + [v])[i] == s[i];
        }
      }
    }
  }

  /**
   Toggling a selected value removes exactly that entry and keeps the other
   values in their original order.
   */
  lemma ToggleRemovesInPlace(s: seq<Value>, i: int)
    requires Distinct(s)
    requires 0 <= i < |s|
    ensures Toggle(s, s[i]) == s[..i] + s[i + 1..]
  {
    var v := s[i];
    var front, back := s[..i], s[i + 1..];
    assert s == front + [v] + back;
    forall x | x in front ensures x != v {
      var k :| 0 <= k < |front| && front[k] == x;
      assert s[k] == x;
    }
    forall x | x in back ensures x != v {
      var k :| 0 <= k < |back| && back[k] == x;
      assert s[i + 1 + k] == x;
    }
    FilterDropsOnly(x => x != v, front, v, back);
  }

  /** Picking a fresh value while there is room and then toggling it again restores the selection. */
  lemma {:induction false} ToggleTwiceRestores(s: seq<Value>, v: Value)
    requires v !in s
    requires |s| < Capacity
    ensures Toggle(Toggle(s, v), v) == s
  {
    var keep := x => x != v;
    assert Toggle(s, v) == s + [v];
    FilterConcat(keep, s, [v]);
    FilterKeepsAll(keep, s);
    assert Filter(keep, [v]) == [];
  }

  /** The selection after a run of clicks, in order. */
  function ToggleAll(s: seq<Value>, clicks: seq<Value>): seq<Value>
    decreases |clicks|
  {
    if clicks == [] then s else ToggleAll(Toggle(s, clicks[0]), clicks[1..])
  }

  /** Whatever the user clicks, a valid selection stays within capacity and duplicate-free. */
  lemma {:induction false} ToggleAllValid(s: seq<Value>, clicks: seq<Value>)
    requires Valid(s)
    ensures Valid(ToggleAll(s, clicks))
    decreases |clicks|
  {
    if clicks != [] {
      ToggleAllValid(Toggle(s, clicks[0]), clicks[1..]);
    }
  }
}
