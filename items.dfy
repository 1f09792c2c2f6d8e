/** Items, panels and the by-id queries the component runs over its lists. */
module Items {
  import opened Splice

  /** One of the two panels of the widget. */
  datatype Side = Left | Right {
    function Other(): (o: Side)
      ensures o != this
    {
      if this == Left then Right else Left
    }
  }

  /** A list entry; two items are the same entry when their ids are equal. */
  datatype Item = Item(id: int, name: string)

  /** The ids of `s`, position by position. */
  function Ids(s: seq<Item>): (r: seq<int>)
    ensures |r| == |s|
    ensures forall k :: 0 <= k < |s| ==> r[k] == s[k].id
  {
    if s == [] then [] else [s[0].id] + Ids(s[1..])
  }

  predicate Distinct(xs: seq<int>) {
    forall i, j :: 0 <= i < j < |xs| ==> xs[i] != xs[j]
  }

  /** No id occurs twice in `s`. */
  predicate UniqueIds(s: seq<Item>) {
    forall i, j :: 0 <= i < j < |s| ==> s[i].id != s[j].id
  }

  /** `s.some(i => i.id === id)`. */
  predicate HasId(s: seq<Item>, id: int) {
    exists k :: 0 <= k < |s| && s[k].id == id
  }

  /** Whether `s` holds `id`, one element at a time. */
  lemma {:induction false} HasIdCons(s: seq<Item>, id: int)
    requires s != []
    ensures HasId(s, id) <==> s[0].id == id || HasId(s[1..], id)
  {
    if HasId(s, id) && s[0].id != id {
      var k :| 0 <= k < |s| && s[k].id == id;
      assert s[1..][k - 1].id == id;
    }
    if HasId(s[1..], id) {
      var k :| 0 <= k < |s[1..]| && s[1..][k].id == id;
      assert s[k + 1].id == id;
    }
  }

  /** A list without repeated ids: its first id does not recur, and the
      rest has no repeated ids either. */
  lemma {:induction false} UniqueIdsCons(s: seq<Item>)
    requires s != [] && UniqueIds(s)
    ensures !HasId(s[1..], s[0].id) && UniqueIds(s[1..])
  {
    forall k | 0 <= k < |s[1..]| ensures s[1..][k].id != s[0].id {
      assert s[1..][k] == s[k + 1];
    }
    forall i, j | 0 <= i < j < |s[1..]| ensures s[1..][i].id != s[1..][j].id {
      assert s[1..][i] == s[i + 1] && s[1..][j] == s[j + 1];
    }
  }

  /** `s.findIndex(i => i.id === id)`: the first index holding `id`, or -1. */
  function FindIndex(s: seq<Item>, id: int): (r: int)
    ensures -1 <= r < |s|
    ensures r == -1 <==> !HasId(s, id)
    ensures r != -1 ==> s[r].id == id && forall k :: 0 <= k < r ==> s[k].id != id
  {
    if s == [] then -1
    else if s[0].id == id then 0
    else
      var r := FindIndex(s[1..], id);
      HasIdCons(s, id);
      if r == -1 then -1 else r + 1
  }

  /** The items of `s`, in order, whose id is (`selected`) or is not
      (`!selected`) the id of some item of `sel`. With `selected == false` this
      is the `filter` of the batch moves. */
  function Keep(s: seq<Item>, sel: seq<Item>, selected: bool): (r: seq<Item>)
    ensures |r| <= |s|
    ensures forall k :: 0 <= k < |r| ==> r[k] in s && HasId(sel, r[k].id) == selected
  {
    if s == [] then []
    else (if HasId(sel, s[0].id) == selected then [s[0]] else []) + Keep(s[1..], sel, selected)
  }

  /** The filter keeps exactly the items of `s` on the requested side of the
      selection. */
  lemma {:induction false} KeepMembers(s: seq<Item>, sel: seq<Item>, selected: bool)
    ensures forall x :: x in Keep(s, sel, selected) <==> x in s && HasId(sel, x.id) == selected
  {
    if s != [] {
      KeepMembers(s[1..], sel, selected);
      assert s == [s[0]] + s[1..];
    }
  }

  lemma {:induction false} IdsAppend(a: seq<Item>, b: seq<Item>)
    ensures Ids(a + b) == Ids(a) + Ids(b)
  {
  }

  lemma {:induction false} UniqueIdsDistinct(s: seq<Item>)
    ensures UniqueIds(s) <==> Distinct(Ids(s))
  {
  }

  /** A sequence of ids is duplicate-free exactly when no id occurs in it
      more than once as a multiset. */
  lemma {:induction false} DistinctMultiplicity(xs: seq<int>)
    ensures Distinct(xs) <==> forall x :: multiset(xs)[x] <= 1
  {
    if xs != [] {
      var t := xs[1..];
      DistinctMultiplicity(t);
      assert xs == [xs[0]] + t;
      assert multiset(xs) == multiset{xs[0]} + multiset(t);
      if Distinct(xs) {
        assert Distinct(t) by {
          forall i, j | 0 <= i < j < |t| ensures t[i] != t[j] {
            assert t[i] == xs[i + 1] && t[j] == xs[j + 1];
          }
        }
        forall j | 0 <= j < |t| ensures t[j] != xs[0] {
          assert t[j] == xs[j + 1];
        }
      }
      if forall x :: multiset(xs)[x] <= 1 {
        assert multiset(t)[xs[0]] == 0 by {
          assert multiset(xs)[xs[0]] <= 1;
        }
        assert xs[0] !in t;
        assert forall x :: multiset(t)[x] <= 1 by {
          forall x ensures multiset(t)[x] <= 1 {
            assert multiset(xs)[x] <= 1;
          }
        }
        forall i, j | 0 <= i < j < |xs| ensures xs[i] != xs[j] {
          if i == 0 {
            assert xs[j] == t[j - 1];
          } else {
            assert xs[i] == t[i - 1] && xs[j] == t[j - 1];
          }
        }
      }
    }
  }

  /** Two duplicate-free sequences of ids with the same elements are
      permutations of each other. */
  lemma {:induction false} DistinctSameElements(a: seq<int>, b: seq<int>)
    requires Distinct(a) && Distinct(b)
    requires forall x :: x in a <==> x in b
    ensures multiset(a) == multiset(b)
  {
    DistinctMultiplicity(a);
    DistinctMultiplicity(b);
    forall x ensures multiset(a)[x] == multiset(b)[x] {
      if x in a {
        assert multiset(a)[x] >= 1 && multiset(b)[x] >= 1;
      } else {
        assert x !in multiset(a) && x !in multiset(b);
      }
    }
  }

  /** Removing one item removes its id from the multiset of ids. */
  lemma {:induction false} IdsRemoveAt(b: seq<Item>, k: nat)
    requires k < |b|
    ensures multiset(Ids(b)) == multiset(Ids(RemoveAt(b, k))) + multiset{b[k].id}
  {
    var r := RemoveAt(b, k);
    RemoveAtIndices(b, k);
    RemoveAtIndices(Ids(b), k);
    assert Ids(r) == RemoveAt(Ids(b), k) by {
      forall j | 0 <= j < |r| ensures Ids(r)[j] == RemoveAt(Ids(b), k)[j] {
        if j < k {
          assert r[j] == b[j];
        } else {
          assert r[j] == b[j + 1];
        }
      }
    }
    assert Ids(b)[k] == b[k].id;
  }

  /** Permuting items permutes their ids. */
  lemma {:induction false} MultisetIds(a: seq<Item>, b: seq<Item>)
    requires multiset(a) == multiset(b)
    ensures multiset(Ids(a)) == multiset(Ids(b))
    decreases |a|
  {
    if a == [] {
      PermutationEmpty(b);
      assert Ids(a) == [] == Ids(b);
    } else {
      var x := a[0];
      var k := PermutationHead(a, b);
      var rest := RemoveAt(b, k);
      MultisetIds(a[1..], rest);
      var m := multiset(Ids(rest));
      assert multiset(Ids(b)) == m + multiset{x.id} by {
        IdsRemoveAt(b, k);
      }
      assert multiset(Ids(a)) == multiset{x.id} + m by {
        assert Ids(a) == [x.id] + Ids(a[1..]);
      }
      assert multiset(Ids(a)) == multiset(Ids(b));
    }
  }

  /** Filtering a sequence that starts with `x`. */
  lemma {:induction false} KeepCons(x: Item, s: seq<Item>, sel: seq<Item>, selected: bool)
    ensures Keep([x] + s, sel, selected)
         == (if HasId(sel, x.id) == selected then [x] else []) + Keep(s, sel, selected)
  {
    assert ([x] + s)[0] == x && ([x] + s)[1..] == s;
  }

  /** Filtering distributes over concatenation. */
  lemma {:induction false} KeepAppend(a: seq<Item>, b: seq<Item>, sel: seq<Item>, selected: bool)
    ensures Keep(a + b, sel, selected) == Keep(a, sel, selected) + Keep(b, sel, selected)
  {
    if a != [] {
      var head := if HasId(sel, a[0].id) == selected then [a[0]] else [];
      assert (a + b)[0] == a[0];
      assert (a + b)[1..] == a[1..] + b;
      assert Keep(a + b, sel, selected) == head + Keep(a[1..] + b, sel, selected);
      assert Keep(a, sel, selected) == head + Keep(a[1..], sel, selected);
      KeepAppend(a[1..], b, sel, selected);
    } else {
      assert a + b == b;
    }
  }

  /** A sequence splits into its unselected and its selected items. */
  lemma {:induction false} KeepPartition(s: seq<Item>, sel: seq<Item>)
    ensures multiset(Keep(s, sel, false)) + multiset(Keep(s, sel, true)) == multiset(s)
  {
    if s != [] {
      var rest := s[1..];
      KeepPartition(rest, sel);
      assert s == [s[0]] + rest;
      HeadJoinsOneSide(s[0], rest, Keep(rest, sel, false), Keep(rest, sel, true),
                       Keep(s, sel, false), Keep(s, sel, true));
    }
  }

  /** Adding `x` in front of one of two parts of `rest` gives two parts of
      `[x] + rest`. */
  lemma {:induction false} HeadJoinsOneSide<T>(x: T, rest: seq<T>, out: seq<T>, kept: seq<T>, a: seq<T>, b: seq<T>)
    requires multiset(out) + multiset(kept) == multiset(rest)
    requires (a == out && b == [x] + kept) || (a == [x] + out && b == kept)
    ensures multiset(a) + multiset(b) == multiset([x] + rest)
  {
    assert multiset([x] + rest) == multiset{x} + multiset(rest);
    if a == out {
      assert multiset(b) == multiset{x} + multiset(kept);
    } else {
      assert multiset(a) == multiset{x} + multiset(out);
    }
  }

  /** When no item of `s` is selected, `s` survives the filter whole. */
  lemma {:induction false} KeepNone(s: seq<Item>, sel: seq<Item>)
    requires forall k :: 0 <= k < |s| ==> !HasId(sel, s[k].id)
    ensures Keep(s, sel, false) == s && Keep(s, sel, true) == []
  {
    if s != [] {
      KeepNone(s[1..], sel);
    }
  }

  /** Filtering keeps ids unique. */
  lemma {:induction false} KeepUnique(s: seq<Item>, sel: seq<Item>, selected: bool)
    requires UniqueIds(s)
    ensures UniqueIds(Keep(s, sel, selected))
  {
    if s != [] {
      KeepUnique(s[1..], sel, selected);
      KeepMembers(s[1..], sel, selected);
      var t := Keep(s[1..], sel, selected);
      forall k | 0 <= k < |t| ensures t[k].id != s[0].id {
        assert t[k] in s[1..];
        var j :| 0 <= j < |s[1..]| && s[1..][j] == t[k];
        assert s[j + 1] == t[k];
      }
    }
  }

  /** When every selected id is present in a duplicate-free `from`, the items
      the batch filter takes out of `from` carry exactly the selected ids. */
  lemma {:induction false} KeptSelectionIds(from: seq<Item>, sel: seq<Item>)
    requires forall k :: 0 <= k < |sel| ==> HasId(from, sel[k].id)
    ensures forall x :: x in Ids(Keep(from, sel, true)) <==> x in Ids(sel)
  {
    forall x ensures x in Ids(Keep(from, sel, true)) <==> x in Ids(sel) {
      if x in Ids(Keep(from, sel, true)) {
        KeptIdSelected(from, sel, x);
      }
      if x in Ids(sel) {
        SelectedIdKept(from, sel, x);
      }
    }
  }

  /** An id the filter takes out is a selected id. */
  lemma {:induction false} KeptIdSelected(from: seq<Item>, sel: seq<Item>, x: int)
    requires x in Ids(Keep(from, sel, true))
    ensures x in Ids(sel)
  {
    var gone := Keep(from, sel, true);
    var k :| 0 <= k < |gone| && Ids(gone)[k] == x;
    assert gone[k] in from && HasId(sel, gone[k].id) by {
      KeepMembers(from, sel, true);
    }
    var m :| 0 <= m < |sel| && sel[m].id == gone[k].id;
    assert Ids(sel)[m] == x;
  }

  /** A selected id present in `from` is taken out by the filter. */
  lemma {:induction false} SelectedIdKept(from: seq<Item>, sel: seq<Item>, x: int)
    requires forall k :: 0 <= k < |sel| ==> HasId(from, sel[k].id)
    requires x in Ids(sel)
    ensures x in Ids(Keep(from, sel, true))
  {
    var gone := Keep(from, sel, true);
    var m :| 0 <= m < |sel| && Ids(sel)[m] == x;
    assert HasId(sel, sel[m].id);
    var k :| 0 <= k < |from| && from[k].id == sel[m].id;
    assert from[k] in gone by {
      KeepMembers(from, sel, true);
    }
    var j :| 0 <= j < |gone| && gone[j] == from[k];
    assert Ids(gone)[j] == x;
  }

  /** Appending the selection to `to` and filtering it out of `from` keeps the
      multiset of ids of the two panels, provided every selected id is present
      in `from` and neither `from` nor the selection repeats an id. */
  lemma {:induction false} BatchMoveConservesIds(from: seq<Item>, to: seq<Item>, sel: seq<Item>)
    requires UniqueIds(from) && UniqueIds(sel)
    requires forall k :: 0 <= k < |sel| ==> HasId(from, sel[k].id)
    ensures multiset(Ids(Keep(from, sel, false))) + multiset(Ids(to + sel))
         == multiset(Ids(from)) + multiset(Ids(to))
  {
    var kept, gone := Keep(from, sel, false), Keep(from, sel, true);
    KeepUnique(from, sel, true);
    KeptSelectionIds(from, sel);
    DistinctSameElements(Ids(gone), Ids(sel));
    KeepPartition(from, sel);
    assert multiset(kept + gone) == multiset(from);
    MultisetIds(kept + gone, from);
    IdsAppend(kept, gone);
    IdsAppend(to, sel);
  }

  /** Both parts of a list without repeated ids are without repeated ids. */
  lemma {:induction false} UniqueIdsAppend(a: seq<Item>, b: seq<Item>)
    requires UniqueIds(a + b)
    ensures UniqueIds(a) && UniqueIds(b)
  {
    var c := a + b;
    forall i, j | 0 <= i < j < |a| ensures a[i].id != a[j].id {
      assert a[i] == c[i] && a[j] == c[j];
    }
    forall i, j | 0 <= i < j < |b| ensures b[i].id != b[j].id {
      assert b[i] == c[|a| + i] && b[j] == c[|a| + j];
    }
  }

  /** Two lists whose ids are the same multiset are both free of repeated
      ids or both not. */
  lemma {:induction false} UniqueByIdMultiset(a: seq<Item>, b: seq<Item>)
    requires UniqueIds(a) && multiset(Ids(a)) == multiset(Ids(b))
    ensures UniqueIds(b)
  {
    UniqueIdsDistinct(a);
    UniqueIdsDistinct(b);
    DistinctMultiplicity(Ids(a));
    DistinctMultiplicity(Ids(b));
  }

  /** Two panels whose ids, taken together, are those of two panels without
      a shared or repeated id have no shared or repeated id either. */
  lemma {:induction false} PanelsUniqueByIds(a: seq<Item>, b: seq<Item>, a2: seq<Item>, b2: seq<Item>)
    requires UniqueIds(a + b)
    requires multiset(Ids(a2)) + multiset(Ids(b2)) == multiset(Ids(a)) + multiset(Ids(b))
    ensures UniqueIds(a2 + b2)
  {
    IdsAppend(a, b);
    IdsAppend(a2, b2);
    UniqueByIdMultiset(a + b, a2 + b2);
  }

  /** The same when the two pairs of panels hold the same items. */
  lemma {:induction false} PanelsUniqueByItems(a: seq<Item>, b: seq<Item>, a2: seq<Item>, b2: seq<Item>)
    requires UniqueIds(a + b)
    requires multiset(a2) + multiset(b2) == multiset(a) + multiset(b)
    ensures UniqueIds(a2 + b2)
  {
    MultisetIds(a + b, a2 + b2);
    IdsAppend(a, b);
    IdsAppend(a2, b2);
    PanelsUniqueByIds(a, b, a2, b2);
  }
}
