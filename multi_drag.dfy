/** The pieces of a multi-item drag: which source indices move, in what
    order they leave the source panel, and where they land in the target. */
module MultiDrag {
  import opened Splice
  import opened Items

  predicate InRange(idx: seq<int>, n: int) {
    forall k :: 0 <= k < |idx| ==> 0 <= idx[k] < n
  }

  predicate Sorted(xs: seq<int>) {
    forall i, j :: 0 <= i < j < |xs| ==> xs[i] <= xs[j]
  }

  predicate Increasing(xs: seq<int>) {
    forall i, j :: 0 <= i < j < |xs| ==> xs[i] < xs[j]
  }

  /** `sel.map(item => source.findIndex(i => i.id === item.id)).filter(index => index !== -1)`:
      for each selected item, in selection order, the index in `source` of
      its id, dropping the items whose id `source` lacks. */
  function FoundIndices(source: seq<Item>, sel: seq<Item>): (r: seq<int>)
    ensures |r| <= |sel|
    ensures InRange(r, |source|)
    ensures forall k :: 0 <= k < |r| ==> HasId(sel, source[r[k]].id)
    ensures UniqueIds(sel) ==> Distinct(r)
  {
    if sel == [] then []
    else
      var j := FindIndex(source, sel[0].id);
      var rest := FoundIndices(source, sel[1..]);
      FoundIndicesStep(source, sel, j, rest);
      (if j == -1 then [] else [j]) + rest
  }

  /** The facts `FoundIndices` needs about its first index and the indices
      found for the rest of the selection. */
  lemma {:induction false} FoundIndicesStep(source: seq<Item>, sel: seq<Item>, j: int, rest: seq<int>)
    requires sel != [] && j == FindIndex(source, sel[0].id)
    requires InRange(rest, |source|)
    requires forall k :: 0 <= k < |rest| ==> HasId(sel[1..], source[rest[k]].id)
    ensures forall k :: 0 <= k < |rest| ==> HasId(sel, source[rest[k]].id)
    ensures j != -1 ==> HasId(sel, source[j].id)
    ensures UniqueIds(sel) && j != -1 ==> j !in rest
  {
    forall k | 0 <= k < |rest| ensures HasId(sel, source[rest[k]].id) {
      HasIdCons(sel, source[rest[k]].id);
    }
    if j != -1 {
      assert sel[0].id == source[j].id;
    }
    if UniqueIds(sel) && j != -1 {
      UniqueIdsCons(sel);
    }
  }

  /** On a source without repeated ids, every position whose id is selected
      is found. */
  lemma {:induction false} FoundIndicesComplete(source: seq<Item>, sel: seq<Item>, j: int)
    requires UniqueIds(source)
    requires 0 <= j < |source| && HasId(sel, source[j].id)
    ensures j in FoundIndices(source, sel)
  {
    var f := FindIndex(source, sel[0].id);
    if sel[0].id == source[j].id {
      assert f == j;
    } else {
      var m :| 0 <= m < |sel| && sel[m].id == source[j].id;
      assert sel[1..][m - 1].id == source[j].id;
      FoundIndicesComplete(source, sel[1..], j);
    }
  }

  /** `xs` with `x` inserted before the first element not below it. */
  function InsertSorted(x: int, xs: seq<int>): (r: seq<int>)
    requires Sorted(xs)
    ensures |r| == |xs| + 1
    ensures r[0] == if xs == [] || x <= xs[0] then x else xs[0]
    ensures Sorted(r)
    ensures multiset(r) == multiset(xs) + multiset{x}
  {
    if xs == [] || x <= xs[0] then
      SortedCons(x, xs);
      [x] + xs
    else
      SplitFirst(xs);
      var rest := InsertSorted(x, xs[1..]);
      SortedCons(xs[0], rest);
      [xs[0]] + rest
  }

  /** A sorted sequence stays sorted when an element no larger than its
      first is put in front. */
  lemma {:induction false} SortedCons(h: int, xs: seq<int>)
    requires Sorted(xs) && (xs != [] ==> h <= xs[0])
    ensures Sorted([h] + xs)
  {
    var r := [h] + xs;
    forall i, j | 0 <= i < j < |r| ensures r[i] <= r[j] {
      if i == 0 {
        assert r[j] == xs[j - 1] && xs[0] <= xs[j - 1];
      } else {
        assert r[i] == xs[i - 1] && r[j] == xs[j - 1];
      }
    }
  }

  /** `xs.sort((a, b) => a - b)`: the elements of `xs` in ascending order. */
  function SortAscending(xs: seq<int>): (r: seq<int>)
    ensures Sorted(r)
    ensures multiset(r) == multiset(xs)
  {
    if xs == [] then []
    else
      SplitFirst(xs);
      InsertSorted(xs[0], SortAscending(xs[1..]))
  }

  /** The indices the multi-item loop works on: those of `FoundIndices`,
      sorted. They are in range, each names a selected id, and on a selection
      without repeated ids they strictly increase. */
  function SelectedIndices(source: seq<Item>, sel: seq<Item>): (r: seq<int>)
    ensures |r| <= |sel|
    ensures InRange(r, |source|)
    ensures forall k :: 0 <= k < |r| ==> HasId(sel, source[r[k]].id)
    ensures UniqueIds(sel) ==> Increasing(r)
  {
    var found := FoundIndices(source, sel);
    var r := SortAscending(found);
    SortedPermutation(found, r);
    assert |r| == |multiset(r)| == |multiset(found)| == |found|;
    assert InRange(r, |source|) && forall k :: 0 <= k < |r| ==> HasId(sel, source[r[k]].id) by {
      forall k | 0 <= k < |r| ensures 0 <= r[k] < |source| && HasId(sel, source[r[k]].id) {
        var j :| 0 <= j < |found| && found[j] == r[k];
      }
    }
    r
  }

  /** A sorted permutation holds only elements of the original, and is
      strictly increasing when the original has no repeats. */
  lemma {:induction false} SortedPermutation(xs: seq<int>, r: seq<int>)
    requires Sorted(r) && multiset(r) == multiset(xs)
    ensures forall k :: 0 <= k < |r| ==> r[k] in xs
    ensures Distinct(xs) ==> Increasing(r)
  {
    forall k | 0 <= k < |r| ensures r[k] in xs {
      assert r[k] in multiset(r);
    }
    if Distinct(xs) {
      DistinctMultiplicity(xs);
      DistinctMultiplicity(r);
    }
  }

  /** On a source and a selection without repeated ids, the sorted indices
      are exactly the positions of the source whose id is selected. */
  lemma {:induction false} SelectedIndicesExact(source: seq<Item>, sel: seq<Item>)
    requires UniqueIds(source)
    ensures forall j :: 0 <= j < |source| ==>
      (j in SelectedIndices(source, sel) <==> HasId(sel, source[j].id))
  {
    var found := FoundIndices(source, sel);
    var r := SelectedIndices(source, sel);
    forall j | 0 <= j < |source| && HasId(sel, source[j].id) ensures j in r {
      FoundIndicesComplete(source, sel, j);
      assert j in multiset(found);
    }
  }

  /** `s` with the elements at the strictly increasing indices `idx` removed;
      the other elements keep their order. */
  function RemoveSorted<T>(s: seq<T>, idx: seq<int>): (r: seq<T>)
    requires InRange(idx, |s|) && Increasing(idx)
    ensures |r| == |s| - |idx|
    decreases |idx|
  {
    if idx == [] then s
    else
      var n := |idx| - 1;
      var last := idx[n];
      RemoveSorted(s[..last], idx[..n]) + s[last + 1..]
  }

  /** The elements of `s` at the indices `idx`, in the order of `idx`. */
  function Picked<T>(s: seq<T>, idx: seq<int>): (r: seq<T>)
    requires InRange(idx, |s|)
    ensures |r| == |idx|
    decreases |idx|
  {
    if idx == [] then [] else
      var n := |idx| - 1;
      Picked(s, idx[..n]) + [s[idx[n]]]
  }

  /** Position `k` of the picked elements is the element at `idx[k]`. */
  lemma {:induction false} PickedIndices<T>(s: seq<T>, idx: seq<int>)
    requires InRange(idx, |s|)
    ensures forall k :: 0 <= k < |idx| ==> Picked(s, idx)[k] == s[idx[k]]
    decreases |idx|
  {
    if idx != [] {
      var n := |idx| - 1;
      PickedIndices(s, idx[..n]);
      SnocParts(Picked(s, idx[..n]), s[idx[n]]);
    }
  }

  /** Picking one more index appends one more element. */
  lemma {:induction false} PickedSnoc<T>(s: seq<T>, idx: seq<int>, i: nat)
    requires InRange(idx, |s|) && i < |idx|
    ensures Picked(s, idx[..i + 1]) == Picked(s, idx[..i]) + [s[idx[i]]]
  {
    assert idx[..i + 1][..i] == idx[..i] && idx[..i + 1][i] == idx[i];
  }

  /** Picking only looks at the positions it names. */
  lemma {:induction false} PickedPrefix<T>(s: seq<T>, idx: seq<int>, m: nat)
    requires m <= |s| && InRange(idx, m)
    ensures Picked(s[..m], idx) == Picked(s, idx)
    decreases |idx|
  {
    if idx != [] {
      PickedPrefix(s, idx[..|idx| - 1], m);
    }
  }

  /** What the source looks like part way through the loop: when every
      removed index lies before `a`, the untouched stretch `s[a..b]` can be
      appended to the removal from `s[..a]`. */
  lemma {:induction false} RemoveSortedExtend<T>(s: seq<T>, idx: seq<int>, a: nat, b: nat)
    requires a <= b <= |s|
    requires InRange(idx, a) && Increasing(idx)
    ensures RemoveSorted(s[..a], idx) + s[a..b] == RemoveSorted(s[..b], idx)
  {
    if idx == [] {
      assert s[..a] + s[a..b] == s[..b];
    } else {
      var n := |idx| - 1;
      var last := idx[n];
      var sa, sb := s[..a], s[..b];
      var front := RemoveSorted(s[..last], idx[..n]);
      assert RemoveSorted(sa, idx) == front + sa[last + 1..] by {
        assert sa[..last] == s[..last];
      }
      assert RemoveSorted(sb, idx) == front + sb[last + 1..] by {
        assert sb[..last] == s[..last];
      }
      assert sa[last + 1..] + s[a..b] == sb[last + 1..];
      assert front + sa[last + 1..] + s[a..b] == front + (sa[last + 1..] + s[a..b]);
    }
  }

  /** Removal and picking split the source: the kept elements and the moved
      ones together are the original elements. */
  lemma {:induction false} RemoveSortedPartition<T>(s: seq<T>, idx: seq<int>)
    requires InRange(idx, |s|) && Increasing(idx)
    ensures multiset(RemoveSorted(s, idx)) + multiset(Picked(s, idx)) == multiset(s)
    decreases |idx|
  {
    if idx != [] {
      var n := |idx| - 1;
      var last := idx[n];
      RemoveSortedPartition(s[..last], idx[..n]);
      PickedSnoc(s, idx, n);
      PickedPrefix(s, idx[..n], last);
      assert idx[..n + 1] == idx;
      SplitAt(s, last);
    }
  }

  /** `idx` lists exactly the positions of `s` whose id is selected. */
  predicate ExactlySelected(s: seq<Item>, idx: seq<int>, sel: seq<Item>) {
    forall j :: 0 <= j < |s| ==> (j in idx <==> HasId(sel, s[j].id))
  }

  /** Peeling the last index off `idx`: the positions before it are listed
      by the rest of `idx`, and no position after it is selected. */
  lemma {:induction false} ExactlySelectedSplit(s: seq<Item>, idx: seq<int>, sel: seq<Item>)
    requires InRange(idx, |s|) && Increasing(idx) && idx != []
    requires ExactlySelected(s, idx, sel)
    ensures ExactlySelected(s[..idx[|idx| - 1]], idx[..|idx| - 1], sel)
    ensures HasId(sel, s[idx[|idx| - 1]].id)
    ensures forall k :: idx[|idx| - 1] < k < |s| ==> !HasId(sel, s[k].id)
  {
    var n := |idx| - 1;
    var last := idx[n];
    forall j | 0 <= j < last ensures j in idx[..n] <==> HasId(sel, s[..last][j].id) {
      if j in idx {
        var m :| 0 <= m < |idx| && idx[m] == j;
        assert idx[..n][m] == j;
      }
    }
    forall k | last < k < |s| ensures !HasId(sel, s[k].id) {
      forall m | 0 <= m < |idx| ensures idx[m] != k {
        if m < n { assert idx[m] < last; }
      }
    }
  }

  /** Filtering `pre + [x] + post` when `x` is selected and nothing in
      `post` is. */
  lemma {:induction false} KeepAroundSelected(pre: seq<Item>, x: Item, post: seq<Item>, sel: seq<Item>, selected: bool)
    requires HasId(sel, x.id)
    requires forall k :: 0 <= k < |post| ==> !HasId(sel, post[k].id)
    ensures Keep(pre + [x] + post, sel, selected)
         == if selected then Keep(pre, sel, true) + [x] else Keep(pre, sel, false) + post
  {
    var tail := [x] + post;
    assert pre + [x] + post == pre + tail;
    KeepAppend(pre, tail, sel, selected);
    KeepCons(x, post, sel, selected);
    KeepNone(post, sel);
    if selected {
      assert Keep(tail, sel, true) == [x];
    } else {
      assert Keep(tail, sel, false) == post;
    }
  }

  /** When `idx` holds exactly the positions of `s` whose id is selected,
      removing them is the batch filter and picking them is its complement:
      a multi-item drag takes from the source what a batch move takes. */
  lemma {:induction false} RemoveSortedIsKeep(s: seq<Item>, idx: seq<int>, sel: seq<Item>)
    requires InRange(idx, |s|) && Increasing(idx)
    requires ExactlySelected(s, idx, sel)
    ensures RemoveSorted(s, idx) == Keep(s, sel, false)
    ensures Picked(s, idx) == Keep(s, sel, true)
    decreases |idx|
  {
    if idx == [] {
      KeepNone(s, sel);
    } else {
      var n := |idx| - 1;
      var last := idx[n];
      var init := idx[..n];
      var pre, post := s[..last], s[last + 1..];
      ExactlySelectedSplit(s, idx, sel);
      RemoveSortedIsKeep(pre, init, sel);
      SplitAt(s, last);
      assert RemoveSorted(s, idx) == Keep(s, sel, false) by {
        assert RemoveSorted(s, idx) == RemoveSorted(pre, init) + post;
        KeepAroundSelected(pre, s[last], post, sel, false);
      }
      assert Picked(s, idx) == Keep(s, sel, true) by {
        PickedSnoc(s, idx, n);
        PickedPrefix(s, init, last);
        assert idx[..n + 1] == idx;
        KeepAroundSelected(pre, s[last], post, sel, true);
      }
    }
  }

  /** Where `splice(i, ...)` starts on an array of length `n`: a negative `i`
      counts back from the end (and stops at 0), one past the end stops at `n`. */
  function SpliceStart(i: int, n: nat): (r: nat)
    ensures r <= n
    ensures 0 <= i <= n ==> r == i
    ensures i < 0 ==> r == if n + i < 0 then 0 else n + i
  {
    if i < 0 then (if n + i < 0 then 0 else n + i) else if i > n then n else i
  }

  /** The target after `t.splice(pos, 0, items[i])` for `i = 0, 1, ...` in
      turn, where `pos` is `cur - i` when `shift` holds and `cur` otherwise. */
  function InsertMoved<T>(t: seq<T>, items: seq<T>, cur: int, shift: bool): (r: seq<T>)
    ensures |r| == |t| + |items|
    decreases |items|
  {
    if items == [] then t
    else
      var n := |items| - 1;
      var before := InsertMoved(t, items[..n], cur, shift);
      InsertAt(before, SpliceStart(if shift then cur - n else cur, |before|), items[n])
  }

  /** One unfolding of `InsertMoved`: the last item goes in after the others. */
  lemma {:induction false} InsertMovedLast<T>(t: seq<T>, s: seq<T>, n: nat, cur: int, shift: bool)
    requires |s| == n + 1
    ensures InsertMoved(t, s, cur, shift)
         == InsertAt(InsertMoved(t, s[..n], cur, shift), SpliceStart(if shift then cur - n else cur, |t| + n), s[n])
  {
    var before := InsertMoved(t, s[..n], cur, shift);
    assert |before| == |t| + n;
  }

  /** Inserting one more item after those already inserted. */
  lemma {:induction false} InsertMovedSnoc<T>(t: seq<T>, items: seq<T>, n: nat, x: T, cur: int, shift: bool)
    requires n == |items|
    ensures InsertMoved(t, items + [x], cur, shift)
         == InsertAt(InsertMoved(t, items, cur, shift), SpliceStart(if shift then cur - n else cur, |t| + n), x)
  {
    InsertMovedLast(t, items + [x], n, cur, shift);
    SnocParts(items, x);
  }

  /** The target gains exactly the moved items. */
  lemma {:induction false} InsertMovedMultiset<T>(t: seq<T>, items: seq<T>, cur: int, shift: bool)
    ensures multiset(InsertMoved(t, items, cur, shift)) == multiset(t) + multiset(items)
    decreases |items|
  {
    if items != [] {
      var n := |items| - 1;
      var init := items[..n];
      InsertMovedMultiset(t, init, cur, shift);
      SplitLast(items);
    }
  }

  /** Without the shift every item lands at `cur`, so the moved items sit at
      `cur` as one block in reverse order. */
  lemma {:induction false} InsertMovedFixed<T>(t: seq<T>, items: seq<T>, cur: int)
    requires 0 <= cur <= |t|
    ensures InsertMoved(t, items, cur, false) == t[..cur] + Reversed(items) + t[cur..]
    decreases |items|
  {
    if items != [] {
      var n := |items| - 1;
      InsertMovedFixed(t, items[..n], cur);
      assert Reversed(items) == [items[n]] + Reversed(items[..n]);
      InsertAtBlock(t[..cur], Reversed(items[..n]), t[cur..], items[n]);
    }
  }

  /** The filter drops a single selected item. */
  lemma {:induction false} KeepDropsSelected(x: Item, sel: seq<Item>)
    requires HasId(sel, x.id)
    ensures Keep([x], sel, false) == []
  {
    assert [x][1..] == [];
  }

  /** Inserting an item whose id is selected does not change what the filter
      keeps. */
  lemma {:induction false} InsertSelectedInvisible(s: seq<Item>, p: nat, x: Item, sel: seq<Item>)
    requires p <= |s| && HasId(sel, x.id)
    ensures Keep(InsertAt(s, p, x), sel, false) == Keep(s, sel, false)
  {
    var pre, post := s[..p], s[p..];
    assert InsertAt(s, p, x) == pre + ([x] + post);
    assert s == pre + post;
    KeepSkipsSelected(pre, post, x, sel);
  }

  /** The filter skips a selected item wherever it stands. */
  lemma {:induction false} KeepSkipsSelected(pre: seq<Item>, post: seq<Item>, x: Item, sel: seq<Item>)
    requires HasId(sel, x.id)
    ensures Keep(pre + ([x] + post), sel, false) == Keep(pre + post, sel, false)
  {
    var kept := Keep(pre, sel, false) + Keep(post, sel, false);
    assert Keep([x] + post, sel, false) == Keep(post, sel, false) by {
      KeepAppend([x], post, sel, false);
      KeepDropsSelected(x, sel);
    }
    assert Keep(pre + ([x] + post), sel, false) == kept by {
      KeepAppend(pre, [x] + post, sel, false);
    }
    KeepAppend(pre, post, sel, false);
  }

  /** When the moved items' ids are selected and none of the target's are,
      filtering the moved items back out of the new target gives the old
      target: the target's own items keep their relative order. */
  lemma {:induction false} InsertMovedKeepsTarget(t: seq<Item>, items: seq<Item>, cur: int, shift: bool, sel: seq<Item>)
    requires forall k :: 0 <= k < |items| ==> HasId(sel, items[k].id)
    requires forall k :: 0 <= k < |t| ==> !HasId(sel, t[k].id)
    ensures Keep(InsertMoved(t, items, cur, shift), sel, false) == t
    decreases |items|
  {
    if items == [] {
      KeepNone(t, sel);
    } else {
      var n := |items| - 1;
      InsertMovedKeepsTarget(t, items[..n], cur, shift, sel);
      var before := InsertMoved(t, items[..n], cur, shift);
      InsertSelectedInvisible(before, SpliceStart(if shift then cur - n else cur, |before|), items[n], sel);
    }
  }

  /** How far along the source the loop has got after `i` rounds: one past
      the last index removed so far. */
  function Mark(idx: seq<int>, i: nat): int
    requires i <= |idx|
  {
    if i == 0 then 0 else idx[i - 1] + 1
  }

  /** Removing one more index at the end of the listed ones. */
  lemma {:induction false} RemoveSortedSnoc<T>(s: seq<T>, idx: seq<int>, i: nat)
    requires InRange(idx, |s|) && Increasing(idx) && i < |idx|
    ensures InRange(idx[..i + 1], idx[i] + 1) && InRange(idx[..i], idx[i])
    ensures RemoveSorted(s[..idx[i] + 1], idx[..i + 1]) == RemoveSorted(s[..idx[i]], idx[..i])
  {
    var t, jdx := s[..idx[i] + 1], idx[..i + 1];
    assert jdx[i] == idx[i] && jdx[..i] == idx[..i];
    assert t[..idx[i]] == s[..idx[i]] && t[idx[i] + 1..] == [];
  }

  /** Before round `i` of the loop, the next index to remove lies at or after
      `Mark(idx, i)`. */
  lemma {:induction false} MarkBounds(idx: seq<int>, i: nat)
    requires Increasing(idx) && i < |idx| && 0 <= idx[0]
    ensures Mark(idx, i) <= idx[i] && Mark(idx, i + 1) == idx[i] + 1
  {
    if i > 0 {
      assert idx[i - 1] < idx[i];
    }
  }

  /** One round of the loop on the source panel: the source so far is the
      removal up to `Mark(idx, i)` followed by the untouched rest, the
      adjusted index `idx[i] - i` finds the element originally at `idx[i]`,
      and splicing it out extends the removal by one index. */
  lemma {:induction false} SourceStep<T>(s: seq<T>, idx: seq<int>, i: nat, cur: seq<T>)
    requires InRange(idx, |s|) && Increasing(idx) && i < |idx|
    requires InRange(idx[..i], Mark(idx, i)) && Mark(idx, i) <= |s|
    requires cur == RemoveSorted(s[..Mark(idx, i)], idx[..i]) + s[Mark(idx, i)..]
    ensures 0 <= idx[i] - i < |cur| && cur[idx[i] - i] == s[idx[i]]
    ensures InRange(idx[..i + 1], Mark(idx, i + 1)) && Mark(idx, i + 1) <= |s|
    ensures RemoveAt(cur, idx[i] - i)
         == RemoveSorted(s[..Mark(idx, i + 1)], idx[..i + 1]) + s[Mark(idx, i + 1)..]
  {
    var m, x := Mark(idx, i), idx[i];
    MarkBounds(idx, i);
    var front := RemoveSorted(s[..m], idx[..i]);
    assert |front| + (x - m) == x - i;
    RemoveFromTail(front, s, m, x);
    assert front + s[m..x] == RemoveSorted(s[..x], idx[..i]) by {
      RemoveSortedExtend(s, idx[..i], m, x);
    }
    assert RemoveSorted(s[..x + 1], idx[..i + 1]) == RemoveSorted(s[..x], idx[..i]) by {
      RemoveSortedSnoc(s, idx, i);
    }
  }

  /** One round of the loop on the target panel: inserting the element at
      `idx[i]` extends the inserted items by one. */
  lemma {:induction false} TargetStep<T>(t: seq<T>, s: seq<T>, idx: seq<int>, i: nat, cur: int, shift: bool, target: seq<T>)
    requires InRange(idx, |s|) && i < |idx|
    requires target == InsertMoved(t, Picked(s, idx[..i]), cur, shift)
    ensures InsertAt(target, SpliceStart(if shift then cur - i else cur, |target|), s[idx[i]])
         == InsertMoved(t, Picked(s, idx[..i + 1]), cur, shift)
  {
    PickedSnoc(s, idx, i);
    InsertMovedSnoc(t, Picked(s, idx[..i]), i, s[idx[i]], cur, shift);
  }

  /** The loop state before round `i`: the source has lost the items at
      `idx[..i]`, and the target has gained them. */
  ghost predicate LoopState<T>(s0: seq<T>, t0: seq<T>, idx: seq<int>, i: nat, cur: int, shift: bool, source: seq<T>, target: seq<T>)
    requires InRange(idx, |s0|) && i <= |idx|
  {
    && Increasing(idx[..i]) && InRange(idx[..i], Mark(idx, i)) && Mark(idx, i) <= |s0|
    && source == RemoveSorted(s0[..Mark(idx, i)], idx[..i]) + s0[Mark(idx, i)..]
    && target == InsertMoved(t0, Picked(s0, idx[..i]), cur, shift)
  }

  /** Before the first round of the loop nothing has moved. */
  lemma {:induction false} LoopInit<T>(s0: seq<T>, t0: seq<T>, idx: seq<int>, cur: int, shift: bool)
    requires InRange(idx, |s0|)
    ensures LoopState(s0, t0, idx, 0, cur, shift, s0, t0)
  {
    assert idx[..0] == [];
    assert s0[..0] == [] && s0[0..] == s0;
  }

  /** After the last round every listed index has been removed from the
      source and every picked item inserted into the target. */
  lemma {:induction false} LoopDone<T>(s0: seq<T>, t0: seq<T>, idx: seq<int>, cur: int, shift: bool, source: seq<T>, target: seq<T>)
    requires InRange(idx, |s0|) && Increasing(idx)
    requires LoopState(s0, t0, idx, |idx|, cur, shift, source, target)
    ensures source == RemoveSorted(s0, idx)
    ensures target == InsertMoved(t0, Picked(s0, idx), cur, shift)
  {
    var n := |idx|;
    assert idx[..n] == idx && s0[..|s0|] == s0;
    RemoveSortedExtend(s0, idx, Mark(idx, n), |s0|);
  }

  /** In round `i` of the loop of `handleMultiItemDrag`, the adjusted index
      `idx[i] - i` is in range of the shrunken source and finds the item
      originally at `idx[i]`. */
  lemma {:induction false} LoopIndex<T>(s0: seq<T>, t0: seq<T>, idx: seq<int>, i: nat, cur: int, shift: bool, source: seq<T>, target: seq<T>)
    requires InRange(idx, |s0|) && Increasing(idx) && i < |idx|
    requires LoopState(s0, t0, idx, i, cur, shift, source, target)
    ensures 0 <= idx[i] - i < |source| && source[idx[i] - i] == s0[idx[i]]
  {
    SourceStep(s0, idx, i, source);
  }

  /** One round of the loop: splicing the item at the adjusted index out of
      the source and into the target at `cur - i` (with `shift`) or `cur`
      (without) gives the state before the next round. */
  lemma {:induction false} LoopStep<T>(s0: seq<T>, t0: seq<T>, idx: seq<int>, i: nat, cur: int, shift: bool,
                                       source: seq<T>, target: seq<T>, source': seq<T>, target': seq<T>)
    requires InRange(idx, |s0|) && Increasing(idx) && i < |idx|
    requires LoopState(s0, t0, idx, i, cur, shift, source, target)
    requires 0 <= idx[i] - i < |source| && source' == RemoveAt(source, idx[i] - i)
    requires target' == InsertAt(target, SpliceStart(if shift then cur - i else cur, |target|), s0[idx[i]])
    ensures LoopState(s0, t0, idx, i + 1, cur, shift, source', target')
  {
    var m, jdx := Mark(idx, i + 1), idx[..i + 1];
    assert InRange(jdx, m) && m <= |s0| && source' == RemoveSorted(s0[..m], jdx) + s0[m..] by {
      SourceStep(s0, idx, i, source);
    }
    assert target' == InsertMoved(t0, Picked(s0, jdx), cur, shift) by {
      TargetStep(t0, s0, idx, i, cur, shift, target);
    }
    assert Increasing(jdx);
    LoopStateIntro(s0, t0, idx, i + 1, cur, shift, source', target');
  }

  /** The loop state from its parts. */
  lemma {:induction false} LoopStateIntro<T>(s0: seq<T>, t0: seq<T>, idx: seq<int>, i: nat, cur: int, shift: bool,
                                             source: seq<T>, target: seq<T>)
    requires InRange(idx, |s0|) && i <= |idx|
    requires Increasing(idx[..i]) && InRange(idx[..i], Mark(idx, i)) && Mark(idx, i) <= |s0|
    requires source == RemoveSorted(s0[..Mark(idx, i)], idx[..i]) + s0[Mark(idx, i)..]
    requires target == InsertMoved(t0, Picked(s0, idx[..i]), cur, shift)
    ensures LoopState(s0, t0, idx, i, cur, shift, source, target)
  {
  }

  /** `handleMultiItemDrag` when the dragged item is selected: the new
      source and target panels. The selected items are spliced out of the
      source in ascending index order and inserted into the target one at a
      time, item `i` at `cur - i` when the drop index is past the drag index
      and at `cur` otherwise. */
  function MultiMoved(source: seq<Item>, target: seq<Item>, sel: seq<Item>, prev: int, cur: int): (r: (seq<Item>, seq<Item>))
    requires UniqueIds(sel)
    ensures |r.0| + |r.1| == |source| + |target|
    ensures |r.1| - |target| == |source| - |r.0| <= |sel|
  {
    var idx := SelectedIndices(source, sel);
    (RemoveSorted(source, idx), InsertMoved(target, Picked(source, idx), cur, cur > prev))
  }

  /** A multi-item drag loses no item and creates none: the two panels
      together hold the same items as before. */
  lemma {:induction false} MultiMovedConserves(source: seq<Item>, target: seq<Item>, sel: seq<Item>, prev: int, cur: int)
    requires UniqueIds(sel)
    ensures multiset(MultiMoved(source, target, sel, prev, cur).0) + multiset(MultiMoved(source, target, sel, prev, cur).1)
         == multiset(source) + multiset(target)
  {
    var idx := SelectedIndices(source, sel);
    RemoveSortedPartition(source, idx);
    InsertMovedMultiset(target, Picked(source, idx), cur, cur > prev);
  }

  /** On a source without repeated ids, a multi-item drag takes out of the
      source exactly what the batch move takes: the unselected items stay in
      order, and the selected ones go to the target in source order. */
  lemma {:induction false} MultiMovedIsBatch(source: seq<Item>, target: seq<Item>, sel: seq<Item>, prev: int, cur: int)
    requires UniqueIds(source) && UniqueIds(sel)
    ensures MultiMoved(source, target, sel, prev, cur).0 == Keep(source, sel, false)
    ensures MultiMoved(source, target, sel, prev, cur).1
         == InsertMoved(target, Keep(source, sel, true), cur, cur > prev)
  {
    var idx := SelectedIndices(source, sel);
    SelectedIndicesExact(source, sel);
    RemoveSortedIsKeep(source, idx, sel);
  }

  /** When no item of the target is selected, the target's own items keep
      their relative order: filtering out the selection gives the old target. */
  lemma {:induction false} MultiMovedKeepsTarget(source: seq<Item>, target: seq<Item>, sel: seq<Item>, prev: int, cur: int)
    requires UniqueIds(sel)
    requires forall k :: 0 <= k < |target| ==> !HasId(sel, target[k].id)
    ensures Keep(MultiMoved(source, target, sel, prev, cur).1, sel, false) == target
  {
    var idx := SelectedIndices(source, sel);
    PickedIndices(source, idx);
    InsertMovedKeepsTarget(target, Picked(source, idx), cur, cur > prev, sel);
  }

  /** When the drop index is not past the drag index, every selected item is
      inserted at the drop index, so the moved items form one block there in
      the REVERSE of their source order. */
  lemma {:induction false} MultiMovedReversed(source: seq<Item>, target: seq<Item>, sel: seq<Item>, prev: int, cur: int)
    requires UniqueIds(source) && UniqueIds(sel)
    requires 0 <= cur <= |target| && cur <= prev
    ensures MultiMoved(source, target, sel, prev, cur).1
         == target[..cur] + Reversed(Keep(source, sel, true)) + target[cur..]
  {
    MultiMovedIsBatch(source, target, sel, prev, cur);
    InsertMovedFixed(target, Keep(source, sel, true), cur);
  }

  /** Filtering three items of distinct ids by a selection of the first and
      the third. */
  lemma {:induction false} KeepFirstAndThird(one: Item, two: Item, three: Item)
    requires one.id != two.id && two.id != three.id && one.id != three.id
    ensures Keep([one, two, three], [one, three], false) == [two]
    ensures Keep([one, two, three], [one, three], true) == [one, three]
  {
    var sel := [one, three];
    assert HasId(sel, one.id) && HasId(sel, three.id) by {
      assert sel[0].id == one.id && sel[1].id == three.id;
    }
    assert !HasId(sel, two.id);
    assert [three] == [three] + [] && [two, three] == [two] + [three] && [one, two, three] == [one] + [two, three];
    KeepCons(three, [], sel, false);
    KeepCons(three, [], sel, true);
    KeepCons(two, [three], sel, false);
    KeepCons(two, [three], sel, true);
    KeepCons(one, [two, three], sel, false);
    KeepCons(one, [two, three], sel, true);
  }

  /** Inserting two items at the same index puts the second before the
      first. */
  lemma {:induction false} InsertTwoFixed<T>(t: seq<T>, x: T, y: T, cur: int)
    requires 0 <= cur <= |t|
    ensures InsertMoved(t, [x, y], cur, false) == t[..cur] + [y, x] + t[cur..]
  {
    InsertMovedFixed(t, [x, y], cur);
    assert [x, y][..1] == [x] && [x][..0] == [];
    assert Reversed([x, y]) == [y, x];
  }

  /** A backward multi-item drag into an empty panel, given what the batch
      filter keeps and what the insertions build. */
  lemma {:induction false} BackwardDropIntoEmpty(source: seq<Item>, sel: seq<Item>, kept: seq<Item>, built: seq<Item>)
    requires UniqueIds(source) && UniqueIds(sel)
    requires Keep(source, sel, false) == kept
    requires InsertMoved([], Keep(source, sel, true), 0, false) == built
    ensures MultiMoved(source, [], sel, 0, 0) == (kept, built)
  {
    MultiMovedIsBatch(source, [], sel, 0, 0);
  }

  /** Three items with distinct ids, and the first and third of them, repeat
      no id. */
  lemma {:induction false} ThreeUnique(one: Item, two: Item, three: Item)
    requires one.id != two.id && two.id != three.id && one.id != three.id
    ensures UniqueIds([one, two, three]) && UniqueIds([one, three])
  {
  }

  /** Dragging the first of three items, with the first and the third
      selected, to index 0 of an empty panel (so the drop index is not past
      the drag index): the source keeps the second item, and the selected
      items, inserted one at a time at index 0, end up as the third item
      before the first, the reverse of their source order. */
  lemma {:induction false} BackwardDropReverses(one: Item, two: Item, three: Item)
    requires one.id != two.id && two.id != three.id && one.id != three.id
    ensures Keep([one, two, three], [one, three], false) == [two]
    ensures InsertMoved([], Keep([one, two, three], [one, three], true), 0, false) == [three, one]
    ensures MultiMoved([one, two, three], [], [one, three], 0, 0) == ([two], [three, one])
  {
    var empty: seq<Item> := [];
    KeepFirstAndThird(one, two, three);
    InsertTwoFixed(empty, one, three, 0);
    assert empty[..0] == [] && empty[0..] == [];
    ThreeUnique(one, two, three);
    BackwardDropIntoEmpty([one, two, three], [one, three], [two], [three, one]);
  }
}
