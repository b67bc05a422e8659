/** frontend/src/stores/boardStore.ts: the Pinia store holding the elements on
    the canvas, the current selection and the canvas transform.

    The store's state becomes the fields of `BoardStore`; its actions become
    methods that reassign those fields, and its getters become functions that
    read them. Each method's postcondition states the new state in terms of
    the old one through the pure functions defined first (`FindIndex`,
    `Merge`, `ColorSelected`, `RemoveElements`, `Toggle`, ...), and the lemmas
    after them state what those functions guarantee. JavaScript numbers are
    only copied, so they are modelled as `real`. `uuidv4()` becomes a fresh-id
    parameter. */
module BoardStoreModel {
  import opened Wrappers

  type Number = real
  type ElementId = string

  datatype ElementType = StickyNote | Text

  /** Everything an element carries besides its id (`Omit<BoardElement, 'id'>`).
      `StickyNoteElement` and `TextElement` share one record: `backgroundColor`
      is present on sticky notes and `fontFamily` on text elements. */
  datatype ElementData = ElementData(
    kind: ElementType, x: Number, y: Number, width: Number, height: Number,
    rotation: Option<Number>, fill: Option<string>, stroke: Option<string>, strokeWidth: Option<Number>,
    draggable: Option<bool>, selected: Option<bool>,
    text: string, fontSize: Number, textColor: string,
    backgroundColor: Option<string>, fontFamily: Option<string>)

  datatype BoardElement = BoardElement(id: ElementId, data: ElementData)

  /** `Partial<BoardElement>`: the fields an update sets (the id among them). */
  datatype ElementPatch = ElementPatch(
    id: Option<ElementId>, kind: Option<ElementType>,
    x: Option<Number>, y: Option<Number>, width: Option<Number>, height: Option<Number>,
    rotation: Option<Number>, fill: Option<string>, stroke: Option<string>, strokeWidth: Option<Number>,
    draggable: Option<bool>, selected: Option<bool>,
    text: Option<string>, fontSize: Option<Number>, textColor: Option<string>,
    backgroundColor: Option<string>, fontFamily: Option<string>)

  datatype CanvasTransform = CanvasTransform(x: Number, y: Number, scale: Number)

  /** `Partial<CanvasTransform>`. */
  datatype TransformPatch = TransformPatch(x: Option<Number>, y: Option<Number>, scale: Option<Number>)

  /** The snapshot `getCurrentBoardState` returns and `loadBoardState` accepts. */
  datatype BoardState = BoardState(elements: seq<BoardElement>, canvasTransform: CanvasTransform)

  const DefaultStickyNoteColor := "#ffeb3b"

  function InitialTransform(): CanvasTransform {
    CanvasTransform(0.0, 0.0, 1.0)
  }

  /** A patch setting nothing but the background color. */
  function ColorPatch(color: string): ElementPatch {
    ElementPatch(None, None, None, None, None, None, None, None, None, None, None, None,
                 None, None, None, Some(color), None)
  }

  // ---------------------------------------------------------------------------
  // Pure list operations
  // ---------------------------------------------------------------------------

  /** `elements.findIndex(el => el.id === id)`: the first index carrying `id`, or -1. */
  function FindIndex(elements: seq<BoardElement>, id: ElementId): (r: int)
    ensures -1 <= r < |elements|
    ensures r == -1 <==> forall i :: 0 <= i < |elements| ==> elements[i].id != id
    ensures r >= 0 ==> elements[r].id == id && forall j :: 0 <= j < r ==> elements[j].id != id
  {
    if elements == [] then -1
    else if elements[0].id == id then 0
    else
      var k := FindIndex(elements[1..], id);
      if k == -1 then -1 else k + 1
  }

  /** `elements.find(el => el.id === id)`. */
  function FindElement(elements: seq<BoardElement>, id: ElementId): (r: Option<BoardElement>)
    ensures r.None? <==> forall i :: 0 <= i < |elements| ==> elements[i].id != id
    ensures r.Some? ==> r.value == elements[FindIndex(elements, id)] && r.value.id == id
  {
    var i := FindIndex(elements, id);
    if i == -1 then None else Some(elements[i])
  }

  /** `{ ...element, ...updates }`: every field the patch sets wins. */
  function Merge(el: BoardElement, p: ElementPatch): BoardElement {
    var d := el.data;
    BoardElement(p.id.GetOr(el.id), ElementData(
      p.kind.GetOr(d.kind), p.x.GetOr(d.x), p.y.GetOr(d.y), p.width.GetOr(d.width), p.height.GetOr(d.height),
      if p.rotation.Some? then p.rotation else d.rotation,
      if p.fill.Some? then p.fill else d.fill,
      if p.stroke.Some? then p.stroke else d.stroke,
      if p.strokeWidth.Some? then p.strokeWidth else d.strokeWidth,
      if p.draggable.Some? then p.draggable else d.draggable,
      if p.selected.Some? then p.selected else d.selected,
      p.text.GetOr(d.text), p.fontSize.GetOr(d.fontSize), p.textColor.GetOr(d.textColor),
      if p.backgroundColor.Some? then p.backgroundColor else d.backgroundColor,
      if p.fontFamily.Some? then p.fontFamily else d.fontFamily))
  }

  /** `updateElement` on a list: the first element with `id` merged with the patch. */
  function UpdateAt(elements: seq<BoardElement>, id: ElementId, p: ElementPatch): seq<BoardElement> {
    var i := FindIndex(elements, id);
    if i == -1 then elements else elements[i := Merge(elements[i], p)]
  }

  /** Element `i` is the one `findIndex` reaches for its own id. */
  predicate IsFirstWithId(elements: seq<BoardElement>, i: int)
    requires 0 <= i < |elements|
  {
    FindIndex(elements, elements[i].id) == i
  }

  /** `updateSelectedElementsColor` changes element `i`: it is what
      `getElementById` finds for a selected id, and it is a sticky note. */
  predicate Recolors(elements: seq<BoardElement>, selected: seq<ElementId>, i: int)
    requires 0 <= i < |elements|
  {
    IsFirstWithId(elements, i) && elements[i].id in selected && elements[i].data.kind == StickyNote
  }

  /** The element list after `updateSelectedElementsColor(color)`. */
  function ColorSelected(elements: seq<BoardElement>, selected: seq<ElementId>, color: string): (r: seq<BoardElement>)
    ensures |r| == |elements|
    ensures forall i :: 0 <= i < |elements| && !Recolors(elements, selected, i) ==> r[i] == elements[i]
    ensures forall i :: 0 <= i < |elements| && Recolors(elements, selected, i) ==>
      r[i] == Merge(elements[i], ColorPatch(color))
  {
    seq(|elements|, i requires 0 <= i < |elements| =>
      if Recolors(elements, selected, i) then Merge(elements[i], ColorPatch(color)) else elements[i])
  }

  /** One turn of the loop in `updateSelectedElementsColor`, for the selected
      `id`: `getElementById` and, for a sticky note, `updateElement`. */
  function RecolorStep(elements: seq<BoardElement>, id: ElementId, color: string): seq<BoardElement> {
    var i := FindIndex(elements, id);
    if i != -1 && elements[i].data.kind == StickyNote then elements[i := Merge(elements[i], ColorPatch(color))]
    else elements
  }

  /** The loop invariant of `updateSelectedElementsColor`: `current` is `original`
      with the selected ids in `done` processed. */
  predicate ColoredSoFar(original: seq<BoardElement>, current: seq<BoardElement>, done: seq<ElementId>, color: string) {
    && |current| == |original|
    && forall i :: 0 <= i < |original| ==>
         current[i] == (if Recolors(original, done, i) then Merge(original[i], ColorPatch(color)) else original[i])
  }

  /** `elements.filter(el => !ids.includes(el.id))`. */
  function RemoveElements(elements: seq<BoardElement>, ids: seq<ElementId>): (r: seq<BoardElement>)
    ensures |r| <= |elements|
    ensures forall e :: e in r <==> e in elements && e.id !in ids
  {
    if elements == [] then []
    else (if elements[0].id in ids then [] else [elements[0]]) + RemoveElements(elements[1..], ids)
  }

  /** `selectedElementIds.filter(id => !ids.includes(id))`. */
  function RemoveIds(selection: seq<ElementId>, ids: seq<ElementId>): (r: seq<ElementId>)
    ensures |r| <= |selection|
    ensures forall x :: x in r <==> x in selection && x !in ids
  {
    if selection == [] then []
    else (if selection[0] in ids then [] else [selection[0]]) + RemoveIds(selection[1..], ids)
  }

  /** `indexOf`: the first position of `x`, or -1. */
  function IndexOf(s: seq<ElementId>, x: ElementId): (r: int)
    ensures -1 <= r < |s|
    ensures r == -1 <==> x !in s
    ensures r >= 0 ==> s[r] == x && x !in s[..r]
  {
    if s == [] then -1
    else if s[0] == x then 0
    else
      var k := IndexOf(s[1..], x);
      if k == -1 then -1 else k + 1
  }

  /** The multiple-select rule: append `id` when absent, otherwise splice out its
      first occurrence. */
  function Toggle(selection: seq<ElementId>, id: ElementId): seq<ElementId> {
    var i := IndexOf(selection, id);
    if i == -1 then selection + [id] else selection[..i] + selection[i + 1..]
  }

  /** `selectElement(id, multiple)` on the selection. */
  function Select(selection: seq<ElementId>, id: Option<ElementId>, multiple: bool): seq<ElementId> {
    match id
    case None => []
    case Some(x) => if multiple then Toggle(selection, x) else [x]
  }

  /** `{ ...canvasTransform, ...transform }`. */
  function MergeTransform(t: CanvasTransform, p: TransformPatch): (r: CanvasTransform)
    ensures p.x.Some? ==> r.x == p.x.value
    ensures p.x.None? ==> r.x == t.x
    ensures p.y.Some? ==> r.y == p.y.value
    ensures p.y.None? ==> r.y == t.y
    ensures p.scale.Some? ==> r.scale == p.scale.value
    ensures p.scale.None? ==> r.scale == t.scale
  {
    CanvasTransform(p.x.GetOr(t.x), p.y.GetOr(t.y), p.scale.GetOr(t.scale))
  }

  /** The selection never lists an id twice. */
  predicate NoDuplicates(s: seq<ElementId>) {
    forall i, j :: 0 <= i < j < |s| ==> s[i] != s[j]
  }

  /** `getSelectedElements`: the elements whose id is selected, in element order. */
  function SelectedElements(elements: seq<BoardElement>, selection: seq<ElementId>): (r: seq<BoardElement>)
    ensures |r| <= |elements|
    ensures forall e :: e in r <==> e in elements && e.id in selection
  {
    if elements == [] then []
    else (if elements[0].id in selection then [elements[0]] else []) + SelectedElements(elements[1..], selection)
  }

  // ---------------------------------------------------------------------------
  // Properties of the list operations
  // ---------------------------------------------------------------------------

  /** `updateElement` with an unknown id changes nothing; with a known one it
      changes only the first element with that id, to the merge of the old
      element and the patch, and keeps the length. */
  lemma UpdateAtEffect(elements: seq<BoardElement>, id: ElementId, p: ElementPatch)
    ensures (forall i :: 0 <= i < |elements| ==> elements[i].id != id) ==> UpdateAt(elements, id, p) == elements
    ensures |UpdateAt(elements, id, p)| == |elements|
    ensures forall i :: 0 <= i < |elements| ==>
      UpdateAt(elements, id, p)[i] == (if i == FindIndex(elements, id) then Merge(elements[i], p) else elements[i])
  {
  }

  /** A merge keeps every field the patch leaves unset and takes every field it sets. */
  lemma MergeKeepsUnsetFields(el: BoardElement, p: ElementPatch)
    ensures p.id.None? ==> Merge(el, p).id == el.id
    ensures p.id.Some? ==> Merge(el, p).id == p.id.value
    ensures p.kind.None? ==> Merge(el, p).data.kind == el.data.kind
    ensures p.kind.Some? ==> Merge(el, p).data.kind == p.kind.value
    ensures p.x.None? ==> Merge(el, p).data.x == el.data.x
    ensures p.x.Some? ==> Merge(el, p).data.x == p.x.value
    ensures p.y.None? ==> Merge(el, p).data.y == el.data.y
    ensures p.y.Some? ==> Merge(el, p).data.y == p.y.value
    ensures p.width.None? ==> Merge(el, p).data.width == el.data.width
    ensures p.width.Some? ==> Merge(el, p).data.width == p.width.value
    ensures p.height.None? ==> Merge(el, p).data.height == el.data.height
    ensures p.height.Some? ==> Merge(el, p).data.height == p.height.value
    ensures p.rotation.None? ==> Merge(el, p).data.rotation == el.data.rotation
    ensures p.rotation.Some? ==> Merge(el, p).data.rotation == p.rotation
    ensures p.fill.None? ==> Merge(el, p).data.fill == el.data.fill
    ensures p.fill.Some? ==> Merge(el, p).data.fill == p.fill
    ensures p.stroke.None? ==> Merge(el, p).data.stroke == el.data.stroke
    ensures p.stroke.Some? ==> Merge(el, p).data.stroke == p.stroke
    ensures p.strokeWidth.None? ==> Merge(el, p).data.strokeWidth == el.data.strokeWidth
    ensures p.strokeWidth.Some? ==> Merge(el, p).data.strokeWidth == p.strokeWidth
    ensures p.draggable.None? ==> Merge(el, p).data.draggable == el.data.draggable
    ensures p.draggable.Some? ==> Merge(el, p).data.draggable == p.draggable
    ensures p.selected.None? ==> Merge(el, p).data.selected == el.data.selected
    ensures p.selected.Some? ==> Merge(el, p).data.selected == p.selected
    ensures p.text.None? ==> Merge(el, p).data.text == el.data.text
    ensures p.text.Some? ==> Merge(el, p).data.text == p.text.value
    ensures p.fontSize.None? ==> Merge(el, p).data.fontSize == el.data.fontSize
    ensures p.fontSize.Some? ==> Merge(el, p).data.fontSize == p.fontSize.value
    ensures p.textColor.None? ==> Merge(el, p).data.textColor == el.data.textColor
    ensures p.textColor.Some? ==> Merge(el, p).data.textColor == p.textColor.value
    ensures p.backgroundColor.None? ==> Merge(el, p).data.backgroundColor == el.data.backgroundColor
    ensures p.backgroundColor.Some? ==> Merge(el, p).data.backgroundColor == p.backgroundColor
    ensures p.fontFamily.None? ==> Merge(el, p).data.fontFamily == el.data.fontFamily
    ensures p.fontFamily.Some? ==> Merge(el, p).data.fontFamily == p.fontFamily
    ensures (p == ElementPatch(None, None, None, None, None, None, None, None, None, None, None, None,
                               None, None, None, None, None)) ==> Merge(el, p) == el
  {
  }

  /** A color patch changes no id and no kind. */
  lemma ColorPatchKeepsIdAndKind(el: BoardElement, color: string)
    ensures Merge(el, ColorPatch(color)).id == el.id
    ensures Merge(el, ColorPatch(color)).data.kind == el.data.kind
    ensures Merge(el, ColorPatch(color)).data.backgroundColor == Some(color)
  {
  }

  /** Recolouring twice is recolouring once. */
  lemma ColorPatchTwice(el: BoardElement, color: string)
    ensures Merge(Merge(el, ColorPatch(color)), ColorPatch(color)) == Merge(el, ColorPatch(color))
  {
  }

  /** Processing the next selected id keeps the loop invariant. */
  lemma ColoredSoFarStep(original: seq<BoardElement>, current: seq<BoardElement>, selection: seq<ElementId>,
                         k: int, color: string)
    requires 0 <= k < |selection|
    requires ColoredSoFar(original, current, selection[..k], color)
    ensures ColoredSoFar(original, RecolorStep(current, selection[k], color), selection[..k + 1], color)
  {
    var id := selection[k];
    var done := selection[..k];
    assert selection[..k + 1] == done + [id];
    forall i | 0 <= i < |original|
      ensures current[i].id == original[i].id && current[i].data.kind == original[i].data.kind
    {
      ColorPatchKeepsIdAndKind(original[i], color);
    }
    FindIndexSameIds(current, original, id);
    var j := FindIndex(original, id);
    var next := RecolorStep(current, id, color);
    forall i | 0 <= i < |original|
      ensures next[i] == (if Recolors(original, done + [id], i) then Merge(original[i], ColorPatch(color))
                          else original[i])
    {
      if i == j {
        ColorPatchTwice(original[i], color);
      } else if original[i].id == id {
        assert !IsFirstWithId(original, i);
      }
    }
  }

  /** Once every selected id is processed, the invariant is the specification. */
  lemma ColoredSoFarComplete(original: seq<BoardElement>, current: seq<BoardElement>, selection: seq<ElementId>,
                             color: string)
    requires ColoredSoFar(original, current, selection, color)
    ensures current == ColorSelected(original, selection, color)
  {
  }

  /** Two lists with the same ids position by position agree on `findIndex`. */
  lemma {:induction false} FindIndexSameIds(a: seq<BoardElement>, b: seq<BoardElement>, id: ElementId)
    requires |a| == |b|
    requires forall i :: 0 <= i < |a| ==> a[i].id == b[i].id
    ensures FindIndex(a, id) == FindIndex(b, id)
  {
    if a != [] && a[0].id != id {
      FindIndexSameIds(a[1..], b[1..], id);
    }
  }

  /** Filtering distributes over concatenation, so survivors keep their order. */
  lemma {:induction false} RemoveElementsAppend(a: seq<BoardElement>, b: seq<BoardElement>, ids: seq<ElementId>)
    ensures RemoveElements(a + b, ids) == RemoveElements(a, ids) + RemoveElements(b, ids)
  {
    if a == [] {
      assert a + b == b;
    } else {
      assert (a + b)[1..] == a[1..] + b;
      RemoveElementsAppend(a[1..], b, ids);
    }
  }

  /** Deleting the same ids twice is deleting them once; deleting ids that no
      element carries changes nothing. */
  lemma {:induction false} RemoveElementsIdempotent(elements: seq<BoardElement>, ids: seq<ElementId>)
    ensures RemoveElements(RemoveElements(elements, ids), ids) == RemoveElements(elements, ids)
    ensures (forall e :: e in elements ==> e.id !in ids) ==> RemoveElements(elements, ids) == elements
  {
    if elements != [] {
      RemoveElementsIdempotent(elements[1..], ids);
      var head := if elements[0].id in ids then [] else [elements[0]];
      RemoveElementsAppend(head, RemoveElements(elements[1..], ids), ids);
      if forall e :: e in elements ==> e.id !in ids {
        assert forall e :: e in elements[1..] ==> e in elements;
        assert elements == [elements[0]] + elements[1..];
      }
    }
  }

  /** Filtering a selection without duplicates leaves one without duplicates. */
  lemma {:induction false} RemoveIdsKeepsNoDuplicates(selection: seq<ElementId>, ids: seq<ElementId>)
    requires NoDuplicates(selection)
    ensures NoDuplicates(RemoveIds(selection, ids))
  {
    if selection != [] {
      var tail := selection[1..];
      assert NoDuplicates(tail) by {
        forall i, j | 0 <= i < j < |tail| ensures tail[i] != tail[j] {
          assert tail[i] == selection[i + 1] && tail[j] == selection[j + 1];
        }
      }
      RemoveIdsKeepsNoDuplicates(tail, ids);
      assert selection[0] !in tail by {
        forall k | 0 <= k < |tail| ensures tail[k] != selection[0] {
          assert tail[k] == selection[k + 1];
        }
      }
    }
  }

  /** Multiple-select toggles membership of `id` and of nothing else. */
  lemma ToggleFlipsMembership(selection: seq<ElementId>, id: ElementId)
    requires NoDuplicates(selection)
    ensures id in Toggle(selection, id) <==> id !in selection
    ensures forall x :: x != id ==> (x in Toggle(selection, id) <==> x in selection)
    ensures NoDuplicates(Toggle(selection, id))
  {
    var i := IndexOf(selection, id);
    var t := Toggle(selection, id);
    if i != -1 {
      assert t == selection[..i] + selection[i + 1..];
      forall k | 0 <= k < |t| ensures t[k] != id {
        if k < i {
          assert t[k] == selection[k];
        } else {
          assert t[k] == selection[k + 1] && k + 1 != i;
        }
      }
      forall x | x != id && x in selection ensures x in t {
        var k :| 0 <= k < |selection| && selection[k] == x;
        if k < i {
          assert t[k] == x;
        } else {
          assert k != i && t[k - 1] == x;
        }
      }
      forall a, b | 0 <= a < b < |t| ensures t[a] != t[b] {
        var a' := if a < i then a else a + 1;
        var b' := if b < i then b else b + 1;
        assert t[a] == selection[a'] && t[b] == selection[b'];
      }
    } else {
      forall a, b | 0 <= a < b < |t| ensures t[a] != t[b] {
        if b == |selection| {
          assert t[b] == id && t[a] == selection[a];
        }
      }
    }
  }

  /** Toggling an absent id twice restores the original selection. */
  lemma ToggleTwiceRestores(selection: seq<ElementId>, id: ElementId)
    requires id !in selection
    ensures Toggle(Toggle(selection, id), id) == selection
  {
    var s := selection + [id];
    assert IndexOf(selection, id) == -1;
    var i := IndexOf(s, id);
    assert s[|selection|] == id;
    assert i == |selection|;
    assert s[..i] == selection;
  }

  /** Every selection rule keeps the selection free of duplicates. */
  lemma SelectKeepsNoDuplicates(selection: seq<ElementId>, id: Option<ElementId>, multiple: bool)
    requires NoDuplicates(selection)
    ensures NoDuplicates(Select(selection, id, multiple))
    ensures id.None? ==> Select(selection, id, multiple) == []
    ensures id.Some? && !multiple ==> Select(selection, id, multiple) == [id.value]
  {
    if id.Some? && multiple {
      ToggleFlipsMembership(selection, id.value);
    }
  }

  // ---------------------------------------------------------------------------
  // The store
  // ---------------------------------------------------------------------------

  class BoardStore {
    var elements: seq<BoardElement>
    var selectedElementIds: seq<ElementId>
    var canvasTransform: CanvasTransform
    var editingElementId: Option<ElementId>
    var defaultStickyNoteColor: string

    /** The selection lists each id at most once. */
    predicate Valid()
      reads this
    {
      NoDuplicates(selectedElementIds)
    }

    /** The store's initial state. */
    constructor ()
      ensures elements == [] && selectedElementIds == [] && canvasTransform == InitialTransform()
      ensures editingElementId == None && defaultStickyNoteColor == DefaultStickyNoteColor
      ensures Valid()
    {
      elements := [];
      selectedElementIds := [];
      canvasTransform := InitialTransform();
      editingElementId := None;
      defaultStickyNoteColor := DefaultStickyNoteColor;
    }

    /** `getSelectedElements`. */
    function GetSelectedElements(): (r: seq<BoardElement>)
      reads this
      ensures forall e :: e in r <==> e in elements && e.id in selectedElementIds
    {
      SelectedElements(elements, selectedElementIds)
    }

    /** `getElementById(id)`. */
    function GetElementById(id: ElementId): (r: Option<BoardElement>)
      reads this
      ensures r.None? <==> forall i :: 0 <= i < |elements| ==> elements[i].id != id
      ensures r.Some? ==> r.value.id == id && r.value in elements
    {
      FindElement(elements, id)
    }

    /** `getCurrentBoardState`: a copy of the elements and the transform. */
    function GetCurrentBoardState(): (r: BoardState)
      reads this
      ensures r.elements == elements && r.canvasTransform == canvasTransform
    {
      BoardState(elements, canvasTransform)
    }

    /** `addElement(element)`: appends the element under a fresh id and selects
        exactly that element. */
    method AddElement(data: ElementData, freshId: ElementId)
      modifies this
      ensures elements == old(elements) + [BoardElement(freshId, data)]
      ensures selectedElementIds == [freshId]
      ensures canvasTransform == old(canvasTransform) && editingElementId == old(editingElementId)
      ensures defaultStickyNoteColor == old(defaultStickyNoteColor)
      ensures Valid()
    {
      var newElement := BoardElement(freshId, data);
      elements := elements + [newElement];
      selectedElementIds := [newElement.id];
    }

    /** `updateElement(id, updates)`. */
    method UpdateElement(id: ElementId, updates: ElementPatch)
      modifies this
      ensures elements == UpdateAt(old(elements), id, updates)
      ensures selectedElementIds == old(selectedElementIds) && canvasTransform == old(canvasTransform)
      ensures editingElementId == old(editingElementId) && defaultStickyNoteColor == old(defaultStickyNoteColor)
    {
      var index := FindIndex(elements, id);
      if index != -1 {
        elements := elements[index := Merge(elements[index], updates)];
      }
    }

    /** `updateSelectedElementsColor(color)`: for each selected id in turn, the
        element `getElementById` finds is recoloured when it is a sticky note. */
    method UpdateSelectedElementsColor(color: string)
      modifies this
      ensures elements == ColorSelected(old(elements), old(selectedElementIds), color)
      ensures selectedElementIds == old(selectedElementIds) && canvasTransform == old(canvasTransform)
      ensures editingElementId == old(editingElementId) && defaultStickyNoteColor == old(defaultStickyNoteColor)
    {
      ghost var original := elements;
      var k := 0;
      while k < |selectedElementIds|
        invariant 0 <= k <= |selectedElementIds|
        invariant selectedElementIds == old(selectedElementIds) && canvasTransform == old(canvasTransform)
        invariant editingElementId == old(editingElementId)
        invariant defaultStickyNoteColor == old(defaultStickyNoteColor)
        invariant ColoredSoFar(original, elements, selectedElementIds[..k], color)
      {
        var id := selectedElementIds[k];
        ColoredSoFarStep(original, elements, selectedElementIds, k, color);
        var element := GetElementById(id);
        if element.Some? && element.value.data.kind == StickyNote {
          UpdateElement(id, ColorPatch(color));
        }
        k := k + 1;
      }
      assert selectedElementIds[..k] == selectedElementIds;
      ColoredSoFarComplete(original, elements, selectedElementIds, color);
    }

    /** `setDefaultStickyNoteColor(color)`. */
    method SetDefaultStickyNoteColor(color: string)
      modifies this
      ensures defaultStickyNoteColor == color
      ensures elements == old(elements) && selectedElementIds == old(selectedElementIds)
      ensures canvasTransform == old(canvasTransform) && editingElementId == old(editingElementId)
    {
      defaultStickyNoteColor := color;
    }

    /** `setEditingElement(id)`. */
    method SetEditingElement(id: Option<ElementId>)
      modifies this
      ensures editingElementId == id
      ensures elements == old(elements) && selectedElementIds == old(selectedElementIds)
      ensures canvasTransform == old(canvasTransform) && defaultStickyNoteColor == old(defaultStickyNoteColor)
    {
      editingElementId := id;
    }

    /** `deleteElements(ids)`: drops the elements with those ids and deselects them. */
    method DeleteElements(ids: seq<ElementId>)
      requires Valid()
      modifies this
      ensures elements == RemoveElements(old(elements), ids)
      ensures selectedElementIds == RemoveIds(old(selectedElementIds), ids)
      ensures canvasTransform == old(canvasTransform) && editingElementId == old(editingElementId)
      ensures defaultStickyNoteColor == old(defaultStickyNoteColor)
      ensures Valid()
    {
      RemoveIdsKeepsNoDuplicates(selectedElementIds, ids);
      elements := RemoveElements(elements, ids);
      selectedElementIds := RemoveIds(selectedElementIds, ids);
    }

    /** `selectElement(id, multiple)`. */
    method SelectElement(id: Option<ElementId>, multiple: bool)
      requires Valid()
      modifies this
      ensures selectedElementIds == Select(old(selectedElementIds), id, multiple)
      ensures elements == old(elements) && canvasTransform == old(canvasTransform)
      ensures editingElementId == old(editingElementId) && defaultStickyNoteColor == old(defaultStickyNoteColor)
      ensures Valid()
    {
      SelectKeepsNoDuplicates(selectedElementIds, id, multiple);
      if id.None? {
        selectedElementIds := [];
      } else {
        var index := IndexOf(selectedElementIds, id.value);
        if multiple {
          if index == -1 {
            selectedElementIds := selectedElementIds + [id.value];
          } else {
            selectedElementIds := selectedElementIds[..index] + selectedElementIds[index + 1..];
          }
        } else {
          selectedElementIds := [id.value];
        }
      }
    }

    /** `setCanvasTransform(transform)`. */
    method SetCanvasTransform(transform: TransformPatch)
      modifies this
      ensures canvasTransform == MergeTransform(old(canvasTransform), transform)
      ensures elements == old(elements) && selectedElementIds == old(selectedElementIds)
      ensures editingElementId == old(editingElementId) && defaultStickyNoteColor == old(defaultStickyNoteColor)
    {
      canvasTransform := MergeTransform(canvasTransform, transform);
    }

    /** `loadBoardState(state)`: replaces elements and transform, clears the selection. */
    method LoadBoardState(state: BoardState)
      modifies this
      ensures elements == state.elements && canvasTransform == state.canvasTransform
      ensures selectedElementIds == []
      ensures editingElementId == old(editingElementId) && defaultStickyNoteColor == old(defaultStickyNoteColor)
      ensures Valid()
    {
      elements := state.elements;
      canvasTransform := state.canvasTransform;
      selectedElementIds := [];
    }
  }

  // ---------------------------------------------------------------------------
  // Properties of the store's specification functions
  // ---------------------------------------------------------------------------

  /** `updateSelectedElementsColor` recolours selected sticky notes only: every
      unselected element and every text element is untouched, and the list
      keeps its length, ids and kinds. */
  lemma ColorSelectedTouchesOnlySelectedStickyNotes(elements: seq<BoardElement>, selected: seq<ElementId>,
                                                    color: string)
    ensures var r := ColorSelected(elements, selected, color);
      && |r| == |elements|
      && (forall i :: 0 <= i < |elements| && elements[i].id !in selected ==> r[i] == elements[i])
      && (forall i :: 0 <= i < |elements| && elements[i].data.kind == Text ==> r[i] == elements[i])
      && (forall i :: 0 <= i < |elements| ==> r[i].id == elements[i].id && r[i].data.kind == elements[i].data.kind)
      && (forall i :: 0 <= i < |elements| && Recolors(elements, selected, i) ==>
            r[i].data.backgroundColor == Some(color))
  {
    var r := ColorSelected(elements, selected, color);
    forall i | 0 <= i < |elements|
      ensures r[i].id == elements[i].id && r[i].data.kind == elements[i].data.kind
    {
      ColorPatchKeepsIdAndKind(elements[i], color);
    }
  }

  /** After `addElement` with an id no element carries, `getElementById` finds
      the new element and `getSelectedElements` is exactly it. */
  lemma AddedElementIsFoundAndSelected(elements: seq<BoardElement>, data: ElementData, freshId: ElementId)
    requires forall e :: e in elements ==> e.id != freshId
    ensures var els := elements + [BoardElement(freshId, data)];
      && FindElement(els, freshId) == Some(BoardElement(freshId, data))
      && SelectedElements(els, [freshId]) == [BoardElement(freshId, data)]
  {
    var added := BoardElement(freshId, data);
    var els := elements + [added];
    forall i | 0 <= i < |elements| ensures els[i].id != freshId {
      assert els[i] == elements[i];
      assert elements[i] in elements;
    }
    assert els[|elements|] == added;
    assert FindIndex(els, freshId) == |elements|;
    SelectedElementsAppend(elements, [added], [freshId]);
    SelectedElementsNone(elements, [freshId]);
    assert [added][1..] == [];
    assert SelectedElements([added], [freshId]) == [added];
  }

  /** No element is selected when no element's id is in the selection. */
  lemma {:induction false} SelectedElementsNone(elements: seq<BoardElement>, selection: seq<ElementId>)
    requires forall e :: e in elements ==> e.id !in selection
    ensures SelectedElements(elements, selection) == []
  {
    if elements != [] {
      assert elements[0] in elements;
      assert forall e :: e in elements[1..] ==> e in elements;
      SelectedElementsNone(elements[1..], selection);
    }
  }

  /** Selection filtering distributes over concatenation. */
  lemma {:induction false} SelectedElementsAppend(a: seq<BoardElement>, b: seq<BoardElement>, selection: seq<ElementId>)
    ensures SelectedElements(a + b, selection) == SelectedElements(a, selection) + SelectedElements(b, selection)
  {
    if a == [] {
      assert a + b == b;
    } else {
      assert (a + b)[1..] == a[1..] + b;
      SelectedElementsAppend(a[1..], b, selection);
    }
  }

  /** A snapshot taken with `getCurrentBoardState` and loaded back with
      `loadBoardState` restores elements and transform and clears the selection. */
  method SnapshotRoundTrip(board: BoardStore)
    modifies board
    ensures board.elements == old(board.elements) && board.canvasTransform == old(board.canvasTransform)
    ensures board.selectedElementIds == []
    ensures board.editingElementId == old(board.editingElementId)
    ensures board.defaultStickyNoteColor == old(board.defaultStickyNoteColor)
  {
    var snapshot := board.GetCurrentBoardState();
    board.LoadBoardState(snapshot);
  }
}
