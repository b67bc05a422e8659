/** frontend/src/stores/historyStore.ts: the undo/redo history of the board, a
    bounded list of board snapshots with a cursor.

    The list and the cursor are a `Cursor` value; `AddStep`, `UndoStep` and
    `RedoStep` say what the actions do to it, and the lemmas below prove the
    store's invariant (`-1 <= pointer < length`, pointer -1 exactly when empty,
    at most `maxHistory` entries) and the undo/redo laws about them. The store
    itself is the class `HistoryStore`, whose methods update its fields in
    place and load snapshots into the `BoardStore` they are given (the
    `useBoardStore()` singleton of the source). */
module HistoryStoreModel {
  import opened BoardStoreModel

  const DefaultMaxHistory := 100

  datatype Cursor = Cursor(entries: seq<BoardState>, pointer: int)

  /** The history store's invariant for a bound `max` on its length. */
  predicate Inv(c: Cursor, max: int) {
    && -1 <= c.pointer < |c.entries|
    && (c.pointer == -1 <==> c.entries == [])
    && |c.entries| <= max
  }

  /** Getter `canUndo`. */
  predicate CanUndo(c: Cursor) {
    c.pointer > 0
  }

  /** Getter `canRedo`. */
  predicate CanRedo(c: Cursor) {
    c.pointer < |c.entries| - 1
  }

  /** `addState` with snapshot `s`: the entries after the pointer are dropped,
      `s` is appended and becomes current, and the oldest entry goes when the
      list has outgrown `max`. */
  function AddStep(c: Cursor, s: BoardState, max: int): Cursor
    requires -1 <= c.pointer < |c.entries|
  {
    var pushed := c.entries[..c.pointer + 1] + [s];
    if |pushed| > max then Cursor(pushed[1..], |pushed| - 2) else Cursor(pushed, |pushed| - 1)
  }

  /** `undo`: one step back when possible. */
  function UndoStep(c: Cursor): Cursor {
    if CanUndo(c) then Cursor(c.entries, c.pointer - 1) else c
  }

  /** `redo`: one step forward when possible. */
  function RedoStep(c: Cursor): Cursor {
    if CanRedo(c) then Cursor(c.entries, c.pointer + 1) else c
  }

  // ---------------------------------------------------------------------------
  // Properties
  // ---------------------------------------------------------------------------

  /** `addState` keeps the invariant. Afterwards the current entry is the new
      snapshot, nothing is left to redo, and the entries are the newest ones of
      (the entries up to the old pointer, then the snapshot), at most `max` of
      them. */
  lemma AddStepEffect(c: Cursor, s: BoardState, max: int)
    requires Inv(c, max) && max >= 1
    ensures var r := AddStep(c, s, max);
            var full := c.entries[..c.pointer + 1] + [s];
      && Inv(r, max)
      && r.pointer == |r.entries| - 1
      && r.entries[r.pointer] == s
      && !CanRedo(r)
      && |r.entries| == (if |full| <= max then |full| else max)
      && r.entries == full[|full| - |r.entries|..]
  {
    var full := c.entries[..c.pointer + 1] + [s];
    assert |full| <= max + 1;
  }

  /** On overflow the oldest entry is dropped and the entry that was current
      keeps its place right below the new one. */
  lemma AddStepOverflowDropsOldest(c: Cursor, s: BoardState, max: int)
    requires Inv(c, max) && max >= 1
    requires c.pointer == |c.entries| - 1 && |c.entries| == max
    ensures var r := AddStep(c, s, max);
      && |r.entries| == max
      && r.entries == c.entries[1..] + [s]
  {
    assert c.entries[..c.pointer + 1] == c.entries;
  }

  /** `undo` and `redo` keep the invariant and never change the entries. */
  lemma UndoRedoKeepInv(c: Cursor, max: int)
    requires Inv(c, max)
    ensures Inv(UndoStep(c), max) && UndoStep(c).entries == c.entries
    ensures Inv(RedoStep(c), max) && RedoStep(c).entries == c.entries
    ensures CanUndo(c) ==> UndoStep(c).pointer == c.pointer - 1
    ensures CanRedo(c) ==> RedoStep(c).pointer == c.pointer + 1
    ensures !CanUndo(c) ==> UndoStep(c) == c
    ensures !CanRedo(c) ==> RedoStep(c) == c
  {
  }

  /** An `undo` followed by a `redo` comes back to where it started, and so
      does a `redo` followed by an `undo`. */
  lemma UndoThenRedoRestores(c: Cursor, max: int)
    requires Inv(c, max)
    ensures CanUndo(c) ==> RedoStep(UndoStep(c)) == c
    ensures CanRedo(c) ==> UndoStep(RedoStep(c)) == c
  {
  }

  /** After `addState` from a non-empty history with room for two entries,
      `undo` is possible and returns to the snapshot that was current before. */
  lemma UndoAfterAddRestoresPrevious(c: Cursor, s: BoardState, max: int)
    requires Inv(c, max) && max >= 2 && c.pointer >= 0
    ensures var a := AddStep(c, s, max);
      && CanUndo(a)
      && UndoStep(a).entries[UndoStep(a).pointer] == c.entries[c.pointer]
  {
    var pushed := c.entries[..c.pointer + 1] + [s];
    assert pushed[c.pointer] == c.entries[c.pointer];
    if |pushed| > max {
      assert pushed[1..][c.pointer - 1] == pushed[c.pointer];
    }
  }

  /** `initializeHistory` on a history that is not applying a step: exactly one
      entry, the pointer on it, nothing to undo or redo. */
  lemma InitializeGivesSingleEntry(s: BoardState, max: int)
    requires max >= 1
    ensures var r := AddStep(Cursor([], -1), s, max);
      && r == Cursor([s], 0)
      && !CanUndo(r) && !CanRedo(r)
  {
  }

  // ---------------------------------------------------------------------------
  // The store
  // ---------------------------------------------------------------------------

  class HistoryStore {
    var history: seq<BoardState>
    var historyPointer: int
    /** Maximum number of snapshots kept. */
    const maxHistory: int
    /** Set while `undo`/`redo` load a snapshot, so the load is not recorded. */
    var isApplyingHistory: bool

    function Position(): Cursor
      reads this
    {
      Cursor(history, historyPointer)
    }

    predicate Valid()
      reads this
    {
      maxHistory >= 1 && Inv(Position(), maxHistory)
    }

    /** The store's initial state. */
    constructor ()
      ensures history == [] && historyPointer == -1
      ensures maxHistory == DefaultMaxHistory && !isApplyingHistory
      ensures Valid()
    {
      history := [];
      historyPointer := -1;
      maxHistory := DefaultMaxHistory;
      isApplyingHistory := false;
    }

    /** `addState()`: record the board's current state, unless a step is being applied. */
    method AddState(board: BoardStore)
      requires Valid()
      modifies this
      ensures Valid()
      ensures isApplyingHistory == old(isApplyingHistory)
      ensures old(isApplyingHistory) ==> Position() == old(Position())
      ensures !old(isApplyingHistory) ==>
        Position() == AddStep(old(Position()), board.GetCurrentBoardState(), maxHistory)
    {
      if isApplyingHistory {
        return;
      }
      ghost var before := Position();
      var currentState := board.GetCurrentBoardState();
      if historyPointer < |history| - 1 {
        history := history[..historyPointer + 1];
      }
      assert history == before.entries[..before.pointer + 1];
      history := history + [currentState];
      historyPointer := |history| - 1;
      if |history| > maxHistory {
        history := history[1..];
        historyPointer := historyPointer - 1;
      }
      assert Position() == AddStep(before, currentState, maxHistory);
      AddStepEffect(before, currentState, maxHistory);
    }

    /** `undo()`: step back and load the snapshot there into the board. */
    method Undo(board: BoardStore)
      requires Valid()
      modifies this, board
      ensures Valid()
      ensures Position() == UndoStep(old(Position()))
      ensures old(CanUndo(Position())) ==>
        && !isApplyingHistory
        && board.elements == history[historyPointer].elements
        && board.canvasTransform == history[historyPointer].canvasTransform
        && board.selectedElementIds == []
        && board.editingElementId == old(board.editingElementId)
        && board.defaultStickyNoteColor == old(board.defaultStickyNoteColor)
      ensures !old(CanUndo(Position())) ==> unchanged(board) && isApplyingHistory == old(isApplyingHistory)
    {
      UndoRedoKeepInv(Position(), maxHistory);
      if !(historyPointer > 0) {
        return;
      }
      isApplyingHistory := true;
      historyPointer := historyPointer - 1;
      board.LoadBoardState(history[historyPointer]);
      isApplyingHistory := false;
    }

    /** `redo()`: step forward and load the snapshot there into the board. */
    method Redo(board: BoardStore)
      requires Valid()
      modifies this, board
      ensures Valid()
      ensures Position() == RedoStep(old(Position()))
      ensures old(CanRedo(Position())) ==>
        && !isApplyingHistory
        && board.elements == history[historyPointer].elements
        && board.canvasTransform == history[historyPointer].canvasTransform
        && board.selectedElementIds == []
        && board.editingElementId == old(board.editingElementId)
        && board.defaultStickyNoteColor == old(board.defaultStickyNoteColor)
      ensures !old(CanRedo(Position())) ==> unchanged(board) && isApplyingHistory == old(isApplyingHistory)
    {
      UndoRedoKeepInv(Position(), maxHistory);
      if !(historyPointer < |history| - 1) {
        return;
      }
      isApplyingHistory := true;
      historyPointer := historyPointer + 1;
      board.LoadBoardState(history[historyPointer]);
      isApplyingHistory := false;
    }

    /** `clearHistory()`. */
    method ClearHistory()
      requires maxHistory >= 1
      modifies this
      ensures history == [] && historyPointer == -1
      ensures isApplyingHistory == old(isApplyingHistory)
      ensures Valid()
    {
      history := [];
      historyPointer := -1;
    }

    /** `initializeHistory()`: clear, then record the board's current state. */
    method InitializeHistory(board: BoardStore)
      requires Valid()
      modifies this
      ensures Valid()
      ensures !old(isApplyingHistory) ==>
        && history == [board.GetCurrentBoardState()] && historyPointer == 0
        && !CanUndo(Position()) && !CanRedo(Position())
      ensures old(isApplyingHistory) ==> history == [] && historyPointer == -1
      ensures isApplyingHistory == old(isApplyingHistory)
    {
      ClearHistory();
      AddState(board);
      InitializeGivesSingleEntry(board.GetCurrentBoardState(), maxHistory);
    }
  }
}
