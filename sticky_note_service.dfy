/** backend/.../service/StickyNoteService.java: sticky notes on boards.

    A note belongs to one board and carries two points (`pos`, `geo`), a
    description, a color and a tag. Coordinates are Java `Double`s that the
    service only copies, so they are modelled as `real` values with no
    arithmetic on them. Description, color and tag are `nullable = false`
    columns of the entity (entity/StickyNote.java:40-47), so a stored note
    always has all three. The note store and the board store are maps; each
    state-changing operation is a method on the `NoteTable` whose postcondition
    ties the result and the new table to a specification function of the old
    one. */
module StickyNoteService {
  import opened Wrappers
  import opened Boards

  type NoteId = string
  type Coordinate = real

  datatype Point2D = Point2D(x: Coordinate, y: Coordinate)

  /** A stored note; `boardId` is the id of the board the entity references. */
  datatype StickyNote = StickyNote(id: NoteId, boardId: BoardId, pos: Point2D, geo: Point2D,
                                   description: string, color: string, tag: string)

  datatype StickyNoteDto = StickyNoteDto(id: NoteId, boardId: BoardId, posX: Coordinate, posY: Coordinate,
                                         geoX: Coordinate, geoY: Coordinate,
                                         description: string, color: string, tag: string)

  /** The creation request, with the target board it is read from. Bean
      validation has already required the four coordinates and the color;
      description and tag may be null. */
  datatype CreateStickyNoteRequest = CreateStickyNoteRequest(boardId: BoardId,
                                                             posX: Coordinate, posY: Coordinate,
                                                             geoX: Coordinate, geoY: Coordinate,
                                                             description: Option<string>, color: string,
                                                             tag: Option<string>)

  /** `UpdateStickyNoteRequest`: every field may be null. */
  datatype UpdateStickyNoteRequest = UpdateStickyNoteRequest(boardId: Option<BoardId>,
                                                             posX: Option<Coordinate>, posY: Option<Coordinate>,
                                                             geoX: Option<Coordinate>, geoY: Option<Coordinate>,
                                                             description: Option<string>, color: Option<string>,
                                                             tag: Option<string>)

  type NoteRows = map<NoteId, StickyNote>

  predicate KeysMatchIds(rows: NoteRows) {
    forall id :: id in rows ==> rows[id].id == id
  }

  /** Every note refers to a board that exists. */
  predicate NotesOnExistingBoards(rows: NoteRows, boards: BoardRows) {
    forall id :: id in rows ==> rows[id].boardId in boards
  }

  function NoteNotFound(id: NoteId): Exception {
    RuntimeException("StickyNote not found with id: " + id)
  }

  /** The save of a note with a null description. */
  const NullDescription := NotNullViolation("StickyNote.description")

  /** The save of a note with a null tag. */
  const NullTag := NotNullViolation("StickyNote.tag")

  /** The sticky-note repository: its contents change only through `Save` and `DeleteById`. */
  class NoteTable {
    var rows: NoteRows

    constructor ()
      ensures rows == map[]
    {
      rows := map[];
    }

    method Save(note: StickyNote)
      modifies this
      ensures rows == old(rows)[note.id := note]
    {
      rows := rows[note.id := note];
    }

    method DeleteById(id: NoteId)
      modifies this
      ensures rows == old(rows) - {id}
    {
      rows := rows - {id};
    }
  }

  /** `convertToDTO`. */
  function ToDto(note: StickyNote): (view: StickyNoteDto)
    ensures view.id == note.id && view.boardId == note.boardId
    ensures view.posX == note.pos.x && view.posY == note.pos.y
    ensures view.geoX == note.geo.x && view.geoY == note.geo.y
    ensures view.description == note.description && view.color == note.color && view.tag == note.tag
  {
    StickyNoteDto(note.id, note.boardId, note.pos.x, note.pos.y, note.geo.x, note.geo.y,
                  note.description, note.color, note.tag)
  }

  /** `getStickyNotesById`: an empty list for an unknown id, else the one note. */
  function GetStickyNotesById(rows: NoteRows, id: NoteId): (r: seq<StickyNoteDto>)
    ensures |r| <= 1
    ensures |r| == 1 <==> id in rows
    ensures id in rows ==> r == [ToDto(rows[id])]
  {
    if id in rows then [ToDto(rows[id])] else []
  }

  // ---------------------------------------------------------------------------
  // createStickyNote
  // ---------------------------------------------------------------------------

  /** What `createStickyNote` returns and leaves in the note table. */
  function CreateStickyNoteOutcome(rows: NoteRows, boards: BoardRows, request: CreateStickyNoteRequest,
                                   freshId: NoteId): Outcome<StickyNoteDto, NoteRows>
  {
    if request.boardId !in boards then Outcome(Err(BoardNotFound(request.boardId)), rows)
    else if request.description.None? then Outcome(Err(NullDescription), rows)
    else if request.tag.None? then Outcome(Err(NullTag), rows)
    else
      var note := StickyNote(freshId, boards[request.boardId].id,
                             Point2D(request.posX, request.posY), Point2D(request.geoX, request.geoY),
                             request.description.value, request.color, request.tag.value);
      Outcome(Ok(ToDto(note)), rows[freshId := note])
  }

  method CreateStickyNote(notes: NoteTable, boards: BoardRows, request: CreateStickyNoteRequest, freshId: NoteId)
    returns (r: Result<StickyNoteDto>)
    modifies notes
    ensures Outcome(r, notes.rows) == CreateStickyNoteOutcome(old(notes.rows), boards, request, freshId)
  {
    if request.boardId !in boards {
      return Err(BoardNotFound(request.boardId));
    }
    var board := boards[request.boardId];
    // `save` refuses the null columns; inside the transaction nothing is written.
    if request.description.None? {
      return Err(NullDescription);
    }
    if request.tag.None? {
      return Err(NullTag);
    }
    var note := StickyNote(freshId, board.id, Point2D(request.posX, request.posY),
                           Point2D(request.geoX, request.geoY), request.description.value, request.color,
                           request.tag.value);
    notes.Save(note);
    r := Ok(ToDto(note));
  }

  /** `createStickyNote` succeeds exactly when the board exists and the request
      has a description and a tag. A missing board is reported first, then a
      null description, then a null tag, and a failure writes nothing. A
      success adds one note under the fresh id carrying exactly the requested
      board, points, description, color and tag, which a read by id returns. */
  lemma CreateStickyNoteEffect(rows: NoteRows, boards: BoardRows, request: CreateStickyNoteRequest, freshId: NoteId)
    requires Boards.KeysMatchIds(boards)
    requires freshId !in rows
    ensures var o := CreateStickyNoteOutcome(rows, boards, request, freshId);
      && (o.result.Ok? <==> request.boardId in boards && request.description.Some? && request.tag.Some?)
      && (o.result.Err? ==> o.store == rows)
      && (request.boardId !in boards ==> o.result == Err(BoardNotFound(request.boardId)))
      && (request.boardId in boards && request.description.None? ==> o.result == Err(NullDescription))
      && (request.boardId in boards && request.description.Some? && request.tag.None? ==>
            o.result == Err(NullTag))
      && (o.result.Ok? ==>
            && o.store.Keys == rows.Keys + {freshId}
            && (forall id :: id in rows ==> o.store[id] == rows[id])
            && o.store[freshId] == StickyNote(freshId, request.boardId,
                                              Point2D(request.posX, request.posY),
                                              Point2D(request.geoX, request.geoY),
                                              request.description.value, request.color, request.tag.value)
            && GetStickyNotesById(o.store, freshId) == [o.result.value])
  {
  }

  /** Creating a note keeps every note on an existing board. */
  lemma CreateKeepsNotesOnExistingBoards(rows: NoteRows, boards: BoardRows, request: CreateStickyNoteRequest,
                                         freshId: NoteId)
    requires Boards.KeysMatchIds(boards)
    requires NotesOnExistingBoards(rows, boards)
    ensures NotesOnExistingBoards(CreateStickyNoteOutcome(rows, boards, request, freshId).store, boards)
  {
  }

  // ---------------------------------------------------------------------------
  // updateStickyNote
  // ---------------------------------------------------------------------------

  /** A point replaced only when both of its coordinates are supplied. */
  function PatchPoint(current: Point2D, x: Option<Coordinate>, y: Option<Coordinate>): (p: Point2D)
    ensures x.Some? && y.Some? ==> p == Point2D(x.value, y.value)
    ensures x.None? || y.None? ==> p == current
  {
    if x.Some? && y.Some? then Point2D(x.value, y.value) else current
  }

  /** The note after the field-by-field copy `updateStickyNote` performs, once the
      new board (if any) is known to exist. */
  function ApplyUpdate(note: StickyNote, request: UpdateStickyNoteRequest): StickyNote {
    note.(boardId := request.boardId.GetOr(note.boardId),
          pos := PatchPoint(note.pos, request.posX, request.posY),
          geo := PatchPoint(note.geo, request.geoX, request.geoY),
          description := request.description.GetOr(note.description),
          color := request.color.GetOr(note.color),
          tag := request.tag.GetOr(note.tag))
  }

  /** What `updateStickyNote(id, request)` returns and leaves in the note table. */
  function UpdateStickyNoteOutcome(rows: NoteRows, boards: BoardRows, id: NoteId, request: UpdateStickyNoteRequest)
    : Outcome<StickyNoteDto, NoteRows>
  {
    if id !in rows then Outcome(Err(NoteNotFound(id)), rows)
    else if request.boardId.Some? && request.boardId.value !in boards then
      Outcome(Err(BoardNotFound(request.boardId.value)), rows)
    else
      var updated := ApplyUpdate(rows[id], request);
      Outcome(Ok(ToDto(updated)), rows[updated.id := updated])
  }

  method UpdateStickyNote(notes: NoteTable, boards: BoardRows, id: NoteId, request: UpdateStickyNoteRequest)
    returns (r: Result<StickyNoteDto>)
    requires Boards.KeysMatchIds(boards)
    modifies notes
    ensures Outcome(r, notes.rows) == UpdateStickyNoteOutcome(old(notes.rows), boards, id, request)
  {
    if id !in notes.rows {
      return Err(NoteNotFound(id));
    }
    var note := notes.rows[id];
    ghost var original := note;
    if request.boardId.Some? {
      if request.boardId.value !in boards {
        return Err(BoardNotFound(request.boardId.value));
      }
      var board := boards[request.boardId.value];
      note := note.(boardId := board.id);
    }
    ghost var boardId := request.boardId.GetOr(original.boardId);
    assert note == original.(boardId := boardId);
    if request.posX.Some? && request.posY.Some? {
      note := note.(pos := Point2D(request.posX.value, request.posY.value));
    }
    ghost var pos := PatchPoint(original.pos, request.posX, request.posY);
    assert note == original.(boardId := boardId, pos := pos);
    if request.geoX.Some? && request.geoY.Some? {
      note := note.(geo := Point2D(request.geoX.value, request.geoY.value));
    }
    ghost var geo := PatchPoint(original.geo, request.geoX, request.geoY);
    assert note == original.(boardId := boardId, pos := pos, geo := geo);
    if request.description.Some? {
      note := note.(description := request.description.value);
    }
    ghost var description := request.description.GetOr(original.description);
    assert note == original.(boardId := boardId, pos := pos, geo := geo, description := description);
    if request.color.Some? {
      note := note.(color := request.color.value);
    }
    if request.tag.Some? {
      note := note.(tag := request.tag.value);
    }
    assert note == ApplyUpdate(original, request);
    notes.Save(note);
    r := Ok(ToDto(note));
  }

  /** `updateStickyNote` succeeds exactly when the note exists and the new board,
      if one is named, exists too; a failure writes nothing. A success rewrites
      only that note: the board is reassigned when named, each point is
      replaced only when both its coordinates are given, and description,
      color and tag only when supplied. */
  lemma UpdateStickyNoteEffect(rows: NoteRows, boards: BoardRows, id: NoteId, request: UpdateStickyNoteRequest)
    requires KeysMatchIds(rows)
    ensures var o := UpdateStickyNoteOutcome(rows, boards, id, request);
      && (o.result.Ok? <==> id in rows && (request.boardId.Some? ==> request.boardId.value in boards))
      && (id !in rows ==> o.result == Err(NoteNotFound(id)))
      && (o.result.Err? ==> o.store == rows)
      && (o.result.Ok? ==>
            var old_ := rows[id];
            var new_ := o.store[id];
            && o.store.Keys == rows.Keys
            && (forall k :: k in rows && k != id ==> o.store[k] == rows[k])
            && new_.id == id
            && new_.boardId == (if request.boardId.Some? then request.boardId.value else old_.boardId)
            && (request.posX.Some? && request.posY.Some? ==> new_.pos == Point2D(request.posX.value, request.posY.value))
            && (request.posX.None? || request.posY.None? ==> new_.pos == old_.pos)
            && (request.geoX.Some? && request.geoY.Some? ==> new_.geo == Point2D(request.geoX.value, request.geoY.value))
            && (request.geoX.None? || request.geoY.None? ==> new_.geo == old_.geo)
            && new_.description == (if request.description.Some? then request.description.value else old_.description)
            && new_.color == (if request.color.Some? then request.color.value else old_.color)
            && new_.tag == (if request.tag.Some? then request.tag.value else old_.tag)
            && o.result.value == ToDto(new_))
  {
  }

  /** An update that supplies nothing, or only one coordinate of each point,
      stores the note unchanged. */
  lemma UpdateWithNothingKeepsNote(rows: NoteRows, boards: BoardRows, id: NoteId, request: UpdateStickyNoteRequest)
    requires KeysMatchIds(rows) && id in rows
    requires request.boardId.None? && request.description.None? && request.color.None? && request.tag.None?
    requires request.posX.None? || request.posY.None?
    requires request.geoX.None? || request.geoY.None?
    ensures UpdateStickyNoteOutcome(rows, boards, id, request) == Outcome(Ok(ToDto(rows[id])), rows)
  {
    assert ApplyUpdate(rows[id], request) == rows[id];
    assert rows[id := rows[id]] == rows;
  }

  /** Updating a note keeps every note on an existing board. */
  lemma UpdateKeepsNotesOnExistingBoards(rows: NoteRows, boards: BoardRows, id: NoteId,
                                         request: UpdateStickyNoteRequest)
    requires KeysMatchIds(rows) && NotesOnExistingBoards(rows, boards)
    ensures NotesOnExistingBoards(UpdateStickyNoteOutcome(rows, boards, id, request).store, boards)
  {
  }

  // ---------------------------------------------------------------------------
  // deleteStickyNote
  // ---------------------------------------------------------------------------

  /** What `deleteStickyNote(id)` returns and leaves in the note table. */
  function DeleteStickyNoteOutcome(rows: NoteRows, id: NoteId): (o: Outcome<(), NoteRows>)
    ensures o.result.Ok? <==> id in rows
    ensures o.result.Err? ==> o.result.error == NoteNotFound(id) && o.store == rows
    ensures o.result.Ok? ==> o.store.Keys == rows.Keys - {id} && forall k :: k in o.store ==> o.store[k] == rows[k]
  {
    if id !in rows then Outcome(Err(NoteNotFound(id)), rows) else Outcome(Ok(()), rows - {id})
  }

  method DeleteStickyNote(notes: NoteTable, id: NoteId) returns (r: Result<()>)
    modifies notes
    ensures Outcome(r, notes.rows) == DeleteStickyNoteOutcome(old(notes.rows), id)
  {
    if id !in notes.rows {
      return Err(NoteNotFound(id));
    }
    notes.DeleteById(id);
    r := Ok(());
  }

  /** After a delete a read by id answers the empty list. */
  lemma DeleteThenGetIsEmpty(rows: NoteRows, id: NoteId)
    ensures GetStickyNotesById(DeleteStickyNoteOutcome(rows, id).store, id) == []
  {
  }
}
