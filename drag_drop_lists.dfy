/** The `DragDropListsComponent`: two panels of items (left and right), a
    selection per panel, and the operations its template binds to: dropping
    a dragged item, toggling and querying the selection, and the two batch
    move buttons. */
module DragDropLists {
  import opened Splice
  import opened Items
  import opened MultiDrag

  // The selection list of one panel and how `toggleSelect` changes it.

  /** The selection after toggling `item`: when no entry carries its id the
      item is pushed at the end, otherwise the first entry carrying it is
      spliced out. */
  function Toggled(sel: seq<Item>, item: Item): (r: seq<Item>)
    ensures |r| == if HasId(sel, item.id) then |sel| - 1 else |sel| + 1
  {
    var i := FindIndex(sel, item.id);
    if i == -1 then sel + [item] else RemoveAt(sel, i)
  }

  /** On a selection without repeated ids, toggling flips whether the item's
      id is selected. */
  lemma {:induction false} ToggleFlips(sel: seq<Item>, item: Item)
    requires UniqueIds(sel)
    ensures HasId(Toggled(sel, item), item.id) <==> !HasId(sel, item.id)
  {
    var r := Toggled(sel, item);
    var i := FindIndex(sel, item.id);
    if i == -1 {
      assert r[|sel|] == item;
    } else {
      RemoveAtIndices(sel, i);
      forall k | 0 <= k < |r| ensures r[k].id != item.id {
        if k < i {
          assert r[k] == sel[k];
        } else {
          assert r[k] == sel[k + 1];
        }
      }
    }
  }

  /** Toggling one item leaves every other id's selection state as it was. */
  lemma {:induction false} ToggleKeepsOthers(sel: seq<Item>, item: Item, id: int)
    requires id != item.id
    ensures HasId(Toggled(sel, item), id) <==> HasId(sel, id)
  {
    var r := Toggled(sel, item);
    var i := FindIndex(sel, item.id);
    if i == -1 {
      if HasId(r, id) {
        var k :| 0 <= k < |r| && r[k].id == id;
        assert k < |sel| && sel[k] == r[k];
      }
      if HasId(sel, id) {
        var k :| 0 <= k < |sel| && sel[k].id == id;
        assert r[k] == sel[k];
      }
    } else {
      RemoveAtIndices(sel, i);
      if HasId(r, id) {
        var k :| 0 <= k < |r| && r[k].id == id;
        if k < i {
          assert sel[k] == r[k];
        } else {
          assert sel[k + 1] == r[k];
        }
      }
      if HasId(sel, id) {
        var k :| 0 <= k < |sel| && sel[k].id == id;
        assert k != i;
        if k < i {
          assert r[k] == sel[k];
        } else {
          assert r[k - 1] == sel[k];
        }
      }
    }
  }

  /** Toggling keeps a selection free of repeated ids: it pushes only an id
      that is absent and otherwise removes an entry. */
  lemma {:induction false} ToggleKeepsUnique(sel: seq<Item>, item: Item)
    requires UniqueIds(sel)
    ensures UniqueIds(Toggled(sel, item))
  {
    var r := Toggled(sel, item);
    var i := FindIndex(sel, item.id);
    if i == -1 {
      forall j, k | 0 <= j < k < |r| ensures r[j].id != r[k].id {
        if k == |sel| {
          assert r[j] == sel[j];
        }
      }
    } else {
      RemoveAtIndices(sel, i);
      forall j, k | 0 <= j < k < |r| ensures r[j].id != r[k].id {
        var j' := if j < i then j else j + 1;
        var k' := if k < i then k else k + 1;
        assert r[j] == sel[j'] && r[k] == sel[k'];
      }
    }
  }

  /** Toggling the same item twice restores the selection state of every id. */
  lemma {:induction false} ToggleTwiceRestores(sel: seq<Item>, item: Item, id: int)
    requires UniqueIds(sel)
    ensures HasId(Toggled(Toggled(sel, item), item), id) <==> HasId(sel, id)
  {
    var once := Toggled(sel, item);
    if id == item.id {
      ToggleFlips(sel, item);
      ToggleKeepsUnique(sel, item);
      ToggleFlips(once, item);
    } else {
      ToggleKeepsOthers(sel, item, id);
      ToggleKeepsOthers(once, item, id);
    }
  }

  /** When every selected id and the toggled item's id belong to a panel,
      every id selected after the toggle still belongs to it. */
  lemma {:induction false} ToggleStaysWithin(sel: seq<Item>, item: Item, panel: seq<Item>)
    requires forall k :: 0 <= k < |sel| ==> HasId(panel, sel[k].id)
    requires HasId(panel, item.id)
    ensures forall k :: 0 <= k < |Toggled(sel, item)| ==> HasId(panel, Toggled(sel, item)[k].id)
  {
    var r := Toggled(sel, item);
    forall k | 0 <= k < |r| ensures HasId(panel, r[k].id) {
      var id := r[k].id;
      if id != item.id {
        assert HasId(r, id);
        ToggleKeepsOthers(sel, item, id);
        var j :| 0 <= j < |sel| && sel[j].id == id;
      }
    }
  }

  /** The items `ngOnInit` puts in the left panel: ids 1 to 8. */
  function SampleLeft(): (r: seq<Item>)
    ensures |r| == 8 && forall k :: 0 <= k < |r| ==> r[k].id == k + 1
  {
    [Item(1, "Item 1"), Item(2, "Item 2"), Item(3, "Item 3"), Item(4, "Item 4"),
     Item(5, "Item 5"), Item(6, "Item 6"), Item(7, "Item 7"), Item(8, "Item 8")]
  }

  /** The items `ngOnInit` puts in the right panel: ids 9 and 10. */
  function SampleRight(): (r: seq<Item>)
    ensures |r| == 2 && forall k :: 0 <= k < |r| ==> r[k].id == k + 9
  {
    [Item(9, "Item 9"), Item(10, "Item 10")]
  }

  /** The sample data has no id twice across the two panels. */
  lemma {:induction false} SampleIdsUnique()
    ensures UniqueIds(SampleLeft() + SampleRight())
  {
    var all := SampleLeft() + SampleRight();
    forall k | 0 <= k < |all| ensures all[k].id == k + 1 {
      if k >= 8 {
        assert all[k] == SampleRight()[k - 8];
      }
    }
  }

  class DragDropListsComponent {
    var leftItems: seq<Item>
    var rightItems: seq<Item>
    var selectedLeftItems: seq<Item>
    var selectedRightItems: seq<Item>

    /** The items of one panel. */
    function Panel(side: Side): (s: seq<Item>)
      reads this
    {
      if side == Left then leftItems else rightItems
    }

    /** The selection of one panel. */
    function Selected(side: Side): (s: seq<Item>)
      reads this
    {
      if side == Left then selectedLeftItems else selectedRightItems
    }

    /** Neither selection holds an id twice. */
    predicate SelectionsUnique()
      reads this
    {
      UniqueIds(selectedLeftItems) && UniqueIds(selectedRightItems)
    }

    /** The component's invariant: no id occurs twice across the two panels,
        no selection repeats an id, and every selected id belongs to an item
        of the selection's own panel. */
    predicate Consistent()
      reads this
    {
      && UniqueIds(leftItems + rightItems)
      && SelectionsUnique()
      && (forall k :: 0 <= k < |selectedLeftItems| ==> HasId(leftItems, selectedLeftItems[k].id))
      && (forall k :: 0 <= k < |selectedRightItems| ==> HasId(rightItems, selectedRightItems[k].id))
    }

    /** Under the invariant, no item of the other panel carries an id selected
        on `from`: a selected id belongs to `from`'s own panel, and no id occurs
        in both panels. This is what `MultiMovedKeepsTarget` asks of a drag's
        target. */
    lemma {:induction false} TargetUnselected(from: Side)
      requires Consistent()
      ensures forall k :: 0 <= k < |Panel(from.Other())| ==> !HasId(Selected(from), Panel(from.Other())[k].id)
    {
      var all := leftItems + rightItems;
      if from == Left {
        forall k, m | 0 <= k < |rightItems| && 0 <= m < |selectedLeftItems|
          ensures selectedLeftItems[m].id != rightItems[k].id
        {
          var j :| 0 <= j < |leftItems| && leftItems[j].id == selectedLeftItems[m].id;
          assert all[j].id != all[|leftItems| + k].id;
        }
      } else {
        forall k, m | 0 <= k < |leftItems| && 0 <= m < |selectedRightItems|
          ensures selectedRightItems[m].id != leftItems[k].id
        {
          var j :| 0 <= j < |rightItems| && rightItems[j].id == selectedRightItems[m].id;
          assert all[k].id != all[|leftItems| + j].id;
        }
      }
    }

    /** The field initialisers: both panels and both selections are empty. */
    constructor ()
      ensures leftItems == [] && rightItems == []
      ensures selectedLeftItems == [] && selectedRightItems == []
      ensures Consistent()
    {
      leftItems, rightItems := [], [];
      selectedLeftItems, selectedRightItems := [], [];
    }

    /** `ngOnInit`: loads the sample items; with nothing selected the
        component is then consistent. */
    method OnInit()
      modifies this
      ensures leftItems == SampleLeft() && rightItems == SampleRight()
      ensures selectedLeftItems == old(selectedLeftItems) && selectedRightItems == old(selectedRightItems)
      ensures selectedLeftItems == [] && selectedRightItems == [] ==> Consistent()
    {
      leftItems := SampleLeft();
      rightItems := SampleRight();
      SampleIdsUnique();
    }

    /** Replaces the items of one panel. */
    method SetPanel(side: Side, s: seq<Item>)
      modifies this
      ensures Panel(side) == s && Panel(side.Other()) == old(Panel(side.Other()))
      ensures selectedLeftItems == old(selectedLeftItems) && selectedRightItems == old(selectedRightItems)
    {
      if side == Left {
        leftItems := s;
      } else {
        rightItems := s;
      }
    }

    /** Replaces the selection of one panel. */
    method SetSelected(side: Side, s: seq<Item>)
      modifies this
      ensures Selected(side) == s && Selected(side.Other()) == old(Selected(side.Other()))
      ensures leftItems == old(leftItems) && rightItems == old(rightItems)
    {
      if side == Left {
        selectedLeftItems := s;
      } else {
        selectedRightItems := s;
      }
    }

    /** `drop`: a drag within one panel moves the item inside it; a drag to
        the other panel moves the dragged item alone, or every selected item
        when the dragged item is selected. Both selections are cleared
        afterwards. No item is lost or created, and the invariant is kept. */
    method Drop(from: Side, to: Side, prev: nat, cur: nat, dragged: Item)
      requires prev < |Panel(from)|
      requires from == to ==> cur < |Panel(from)|
      requires from != to ==> cur <= |Panel(to)|
      requires SelectionsUnique()
      modifies this
      ensures from == to ==>
        Panel(from) == MoveItemInArray(old(Panel(from)), prev, cur) && Panel(from.Other()) == old(Panel(from.Other()))
      ensures from != to && dragged !in old(Selected(from)) ==>
        (Panel(from), Panel(to)) == TransferArrayItem(old(Panel(from)), old(Panel(to)), prev, cur)
      ensures from != to && dragged in old(Selected(from)) ==>
        (Panel(from), Panel(to)) == MultiMoved(old(Panel(from)), old(Panel(to)), old(Selected(from)), prev, cur)
      ensures selectedLeftItems == [] && selectedRightItems == []
      ensures multiset(leftItems) + multiset(rightItems) == old(multiset(leftItems) + multiset(rightItems))
      ensures old(Consistent()) ==> Consistent()
    {
      ghost var left0, right0 := leftItems, rightItems;
      ghost var source0, target0, sel0 := Panel(from), Panel(to), Selected(from);
      if from == to {
        SetPanel(to, MoveItemInArray(Panel(to), prev, cur));
        assert multiset(Panel(to)) == multiset(target0);
      } else {
        if IsSingleItemDrag(from, dragged) {
          var moved := TransferArrayItem(Panel(from), Panel(to), prev, cur);
          SetPanel(from, moved.0);
          SetPanel(to, moved.1);
        } else {
          HandleMultiItemDrag(from, to, prev, cur, dragged);
          MultiMovedConserves(source0, target0, sel0, prev, cur);
        }
        assert multiset(Panel(from)) + multiset(Panel(to)) == multiset(source0) + multiset(target0);
      }
      ClearSelections();
      PanelsConserved(from, to, left0, right0, source0, target0);
      if UniqueIds(left0 + right0) {
        PanelsUniqueByItems(left0, right0, leftItems, rightItems);
      }
    }

    /** The two panels hold the same items as before when the panels a drop
        touched do. */
    lemma {:induction false} PanelsConserved(from: Side, to: Side, left0: seq<Item>, right0: seq<Item>, source0: seq<Item>, target0: seq<Item>)
      requires source0 == (if from == Left then left0 else right0)
      requires target0 == (if to == Left then left0 else right0)
      requires from == to ==> multiset(Panel(to)) == multiset(target0) && Panel(to.Other()) == (if to == Left then right0 else left0)
      requires from != to ==> multiset(Panel(from)) + multiset(Panel(to)) == multiset(source0) + multiset(target0)
      ensures multiset(leftItems) + multiset(rightItems) == multiset(left0) + multiset(right0)
    {
      if from == to {
        if to == Left {
          assert multiset(leftItems) == multiset(left0) && rightItems == right0;
        } else {
          assert multiset(rightItems) == multiset(right0) && leftItems == left0;
        }
      } else if from == Left {
        assert to == Right;
      } else {
        assert from == Right && to == Left;
        MultisetUnionSwap(multiset(leftItems), multiset(rightItems));
        MultisetUnionSwap(multiset(left0), multiset(right0));
      }
    }

    /** `isSingleItemDrag`: whether a drag out of panel `from` moves only the
        dragged item. The emptiness test in the source adds nothing: the
        drag is single exactly when the dragged item is not selected. */
    function IsSingleItemDrag(from: Side, dragged: Item): (r: bool)
      reads this
      ensures r <==> dragged !in Selected(from)
    {
      dragged !in Selected(from) || |Selected(from)| == 0
    }

    /** `handleMultiItemDrag`: when the dragged item is not selected it alone
        is transferred; otherwise the loop splices the selected items out of
        the source at their sorted indices, each shifted down by the number
        already removed, and into the target as `MultiMoved` describes. */
    method HandleMultiItemDrag(from: Side, to: Side, prev: nat, cur: nat, dragged: Item)
      requires from != to
      requires prev < |Panel(from)| && cur <= |Panel(to)|
      requires UniqueIds(Selected(from))
      modifies this
      ensures dragged !in old(Selected(from)) ==>
        (Panel(from), Panel(to)) == TransferArrayItem(old(Panel(from)), old(Panel(to)), prev, cur)
      ensures dragged in old(Selected(from)) ==>
        (Panel(from), Panel(to)) == MultiMoved(old(Panel(from)), old(Panel(to)), old(Selected(from)), prev, cur)
      ensures selectedLeftItems == old(selectedLeftItems) && selectedRightItems == old(selectedRightItems)
    {
      var selectedItems := Selected(from);
      if dragged !in selectedItems {
        var moved := TransferArrayItem(Panel(from), Panel(to), prev, cur);
        SetPanel(from, moved.0);
        SetPanel(to, moved.1);
        return;
      }
      var selectedIndices := SelectedIndices(Panel(from), selectedItems);
      SpliceSelected(from, to, selectedIndices, cur, cur > prev);
    }

    /** The loop of `handleMultiItemDrag`: for each sorted index `idx[i]` the
        item at `idx[i] - i` (the index shifted down by the items already
        removed) is spliced out of panel `from` and into panel `to` at
        `cur - i` when the drop moves forward (`shift`) and at `cur`
        otherwise. */
    method SpliceSelected(from: Side, to: Side, idx: seq<int>, cur: int, shift: bool)
      requires from != to
      requires InRange(idx, |Panel(from)|) && Increasing(idx)
      modifies this
      ensures Panel(from) == RemoveSorted(old(Panel(from)), idx)
      ensures Panel(to) == InsertMoved(old(Panel(to)), Picked(old(Panel(from)), idx), cur, shift)
      ensures selectedLeftItems == old(selectedLeftItems) && selectedRightItems == old(selectedRightItems)
    {
      var source0, target0 := Panel(from), Panel(to);
      LoopInit(source0, target0, idx, cur, shift);
      for i := 0 to |idx|
        invariant from == to.Other()
        invariant selectedLeftItems == old(selectedLeftItems) && selectedRightItems == old(selectedRightItems)
        invariant LoopState(source0, target0, idx, i, cur, shift, Panel(from), Panel(to))
      {
        SpliceRound(from, to, source0, target0, idx, i, cur, shift);
      }
      LoopDone(source0, target0, idx, cur, shift, Panel(from), Panel(to));
    }

    /** Round `i` of the loop of `handleMultiItemDrag`: the item at the
        adjusted index `idx[i] - i` is spliced out of panel `from` and into
        panel `to` at `cur - i` (when `shift`) or `cur`, with JavaScript's
        clamping of the start; this advances the loop's state by one round. */
    method SpliceRound(from: Side, to: Side, ghost s0: seq<Item>, ghost t0: seq<Item>, idx: seq<int>, i: nat, cur: int, shift: bool)
      requires from != to
      requires InRange(idx, |s0|) && Increasing(idx) && i < |idx|
      requires LoopState(s0, t0, idx, i, cur, shift, Panel(from), Panel(to))
      modifies this
      ensures LoopState(s0, t0, idx, i + 1, cur, shift, Panel(from), Panel(to))
      ensures selectedLeftItems == old(selectedLeftItems) && selectedRightItems == old(selectedRightItems)
    {
      var source, target := Panel(from), Panel(to);
      LoopIndex(s0, t0, idx, i, cur, shift, source, target);
      var adjustedIndex := idx[i] - i;
      var item := source[adjustedIndex];
      var targetIndex := if shift then cur - i else cur;
      var source', target' := RemoveAt(source, adjustedIndex), InsertAt(target, SpliceStart(targetIndex, |target|), item);
      LoopStep(s0, t0, idx, i, cur, shift, source, target, source', target');
      SetPanel(from, source');
      SetPanel(to, target');
    }

    /** `toggleSelect`: the selection of `side` gains the item when its id is
        not selected and loses the entry carrying that id otherwise. The
        item's selection state flips, and the invariant is kept when the
        item belongs to that panel. */
    method ToggleSelect(item: Item, side: Side)
      modifies this
      ensures Selected(side) == Toggled(old(Selected(side)), item)
      ensures Selected(side.Other()) == old(Selected(side.Other()))
      ensures leftItems == old(leftItems) && rightItems == old(rightItems)
      ensures old(SelectionsUnique()) ==>
        SelectionsUnique() && (IsSelected(item, side) <==> !old(IsSelected(item, side)))
      ensures old(Consistent()) && HasId(Panel(side), item.id) ==> Consistent()
    {
      var selected := Selected(side);
      var index := FindIndex(selected, item.id);
      if index == -1 {
        selected := selected + [item];
      } else {
        selected := RemoveAt(selected, index);
      }
      ghost var sel0 := Selected(side);
      SetSelected(side, selected);
      if UniqueIds(sel0) {
        ToggleKeepsUnique(sel0, item);
        ToggleFlips(sel0, item);
      }
      if forall k :: 0 <= k < |sel0| ==> HasId(Panel(side), sel0[k].id) {
        if HasId(Panel(side), item.id) {
          ToggleStaysWithin(sel0, item, Panel(side));
        }
      }
    }

    /** `isSelected`: whether some selected entry of `side` carries the
        item's id, which is exactly when the lookup `toggleSelect` uses
        finds it. */
    function IsSelected(item: Item, side: Side): (r: bool)
      reads this
      ensures r <==> FindIndex(Selected(side), item.id) != -1
    {
      HasId(Selected(side), item.id)
    }

    /** `hasSelectedItems`: whether `side` has a non-empty selection, which
        is exactly when some item is selected there. */
    function HasSelectedItems(side: Side): (r: bool)
      reads this
      ensures r <==> exists x :: IsSelected(x, side)
    {
      if |Selected(side)| > 0 then
        assert IsSelected(Selected(side)[0], side);
        true
      else
        false
    }

    /** `moveSelectedToRight`: with a non-empty left selection, the selected
        items are appended to the right panel in selection order, every left
        item with a selected id is filtered out, and the selections are
        cleared; with an empty one nothing changes. The ids of the two
        panels are conserved and the invariant is kept. */
    method MoveSelectedToRight()
      modifies this
      ensures old(selectedLeftItems) == [] ==> unchanged(this)
      ensures old(selectedLeftItems) != [] ==>
        && rightItems == old(rightItems) + old(selectedLeftItems)
        && leftItems == Keep(old(leftItems), old(selectedLeftItems), false)
        && selectedLeftItems == [] && selectedRightItems == []
      ensures old(Consistent()) ==>
        Consistent() && multiset(Ids(leftItems)) + multiset(Ids(rightItems))
                     == old(multiset(Ids(leftItems)) + multiset(Ids(rightItems)))
    {
      if |selectedLeftItems| == 0 {
        return;
      }
      ghost var left0, right0, sel0 := leftItems, rightItems, selectedLeftItems;
      rightItems := rightItems + selectedLeftItems;
      leftItems := Keep(leftItems, selectedLeftItems, false);
      ClearSelections();
      if old(Consistent()) {
        UniqueIdsAppend(left0, right0);
        BatchMoveConservesIds(left0, right0, sel0);
        PanelsUniqueByIds(left0, right0, leftItems, rightItems);
      }
    }

    /** `moveSelectedToLeft`: the mirror image of `MoveSelectedToRight`. */
    method MoveSelectedToLeft()
      modifies this
      ensures old(selectedRightItems) == [] ==> unchanged(this)
      ensures old(selectedRightItems) != [] ==>
        && leftItems == old(leftItems) + old(selectedRightItems)
        && rightItems == Keep(old(rightItems), old(selectedRightItems), false)
        && selectedLeftItems == [] && selectedRightItems == []
      ensures old(Consistent()) ==>
        Consistent() && multiset(Ids(leftItems)) + multiset(Ids(rightItems))
                     == old(multiset(Ids(leftItems)) + multiset(Ids(rightItems)))
    {
      if |selectedRightItems| == 0 {
        return;
      }
      ghost var left0, right0, sel0 := leftItems, rightItems, selectedRightItems;
      leftItems := leftItems + selectedRightItems;
      rightItems := Keep(rightItems, selectedRightItems, false);
      ClearSelections();
      if old(Consistent()) {
        UniqueIdsAppend(left0, right0);
        BatchMoveConservesIds(right0, left0, sel0);
        MultisetUnionSwap(multiset(Ids(leftItems)), multiset(Ids(rightItems)));
        MultisetUnionSwap(multiset(Ids(left0)), multiset(Ids(right0)));
        PanelsUniqueByIds(left0, right0, leftItems, rightItems);
      }
    }

    /** `clearSelections`: both selections become empty; the panels are
        untouched, so the invariant is kept. */
    method ClearSelections()
      modifies this
      ensures selectedLeftItems == [] && selectedRightItems == []
      ensures leftItems == old(leftItems) && rightItems == old(rightItems)
      ensures old(Consistent()) ==> Consistent()
    {
      selectedLeftItems := [];
      selectedRightItems := [];
    }
  }
}
