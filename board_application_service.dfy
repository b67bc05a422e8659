/** backend/.../board/application/BoardApplicationService.java: the hexagonal
    board service. A board is created on behalf of an acting user, who must
    exist and becomes its owner; titles are stored trimmed and never blank; an
    update replaces only the fields the request carries and never the owner.

    Each state-changing operation is a method on the `BoardTable` whose
    postcondition ties its result and the new table to a specification function
    (`...Outcome`) of the old table; the lemmas state what the source promises
    about those functions. */
module BoardApplicationService {
  import opened Wrappers
  import opened JavaText
  import opened Boards
  import Users

  /** `CreateBoardRequest`; its title is required by bean validation. */
  datatype CreateBoardRequest = CreateBoardRequest(title: string, description: Option<string>)

  function ActorNotFound(actor: OwnerId): Exception {
    RuntimeException("User not found with id: " + LongToString(actor))
  }

  /** `toDTO`. */
  function ToDto(board: Board): (view: BoardDto)
    ensures view.id == board.id && view.title == board.title
    ensures view.description == board.description && view.ownerUserId == board.ownerId
  {
    BoardDto(board.id, board.title, board.description, board.ownerId)
  }

  /** `getBoardById`. */
  function GetBoardById(rows: BoardRows, id: BoardId): (r: Result<BoardDto>)
    ensures r.Ok? <==> id in rows
    ensures r.Ok? ==> r.value == ToDto(rows[id])
    ensures r.Err? ==> r.error == BoardNotFound(id)
  {
    if id in rows then Ok(ToDto(rows[id])) else Err(BoardNotFound(id))
  }

  /** Every stored title is non-empty and already trimmed. */
  predicate TitlesTrimmed(rows: BoardRows) {
    forall id :: id in rows ==> rows[id].title != [] && Trim(rows[id].title) == rows[id].title
  }

  // ---------------------------------------------------------------------------
  // createBoard
  // ---------------------------------------------------------------------------

  /** What `createBoard(actorUserId, request)` returns and leaves in the board
      table; `users` is the user table the acting user is looked up in. */
  function CreateBoardOutcome(users: Users.UserRows, rows: BoardRows, actor: OwnerId,
                              request: CreateBoardRequest, freshId: BoardId): Outcome<BoardDto, BoardRows>
  {
    if actor !in users then Outcome(Err(ActorNotFound(actor)), rows)
    else
      var title := Trim(request.title);
      if title == [] then Outcome(Err(BlankTitle), rows)
      else
        var board := Board(freshId, title, request.description, Some(actor));
        Outcome(Ok(ToDto(board)), rows[freshId := board])
  }

  method CreateBoard(users: Users.UserRows, boards: BoardTable, actor: OwnerId,
                     request: CreateBoardRequest, freshId: BoardId) returns (r: Result<BoardDto>)
    modifies boards
    ensures Outcome(r, boards.rows) == CreateBoardOutcome(users, old(boards.rows), actor, request, freshId)
  {
    if actor !in users {
      return Err(ActorNotFound(actor));
    }
    var title := Trim(request.title);
    if title == [] {
      return Err(BlankTitle);
    }
    var board := Board(freshId, title, request.description, Some(actor));
    boards.Save(board);
    r := Ok(ToDto(board));
  }

  /** `createBoard` succeeds exactly when the actor exists and the title is not
      blank; the actor is checked first. A success adds one row under the fresh
      id, owned by the actor, with the trimmed title; a failure writes nothing. */
  lemma CreateBoardEffect(users: Users.UserRows, rows: BoardRows, actor: OwnerId,
                          request: CreateBoardRequest, freshId: BoardId)
    requires freshId !in rows
    ensures var o := CreateBoardOutcome(users, rows, actor, request, freshId);
      && (o.result.Ok? <==> actor in users && !IsBlank(request.title))
      && (actor !in users ==> o.result == Err(ActorNotFound(actor)))
      && (actor in users && IsBlank(request.title) ==> o.result == Err(BlankTitle))
      && (o.result.Err? ==> o.store == rows)
      && (o.result.Ok? ==>
            && o.store.Keys == rows.Keys + {freshId}
            && (forall id :: id in rows ==> o.store[id] == rows[id])
            && o.store[freshId] == Board(freshId, Trim(request.title), request.description, Some(actor))
            && o.result.value.ownerUserId == Some(actor)
            && GetBoardById(o.store, freshId) == o.result)
  {
    TrimEmptyIffBlank(request.title);
  }

  /** `createBoard` keeps every stored title trimmed and non-empty. */
  lemma CreateBoardKeepsTitlesTrimmed(users: Users.UserRows, rows: BoardRows, actor: OwnerId,
                                      request: CreateBoardRequest, freshId: BoardId)
    requires TitlesTrimmed(rows)
    ensures TitlesTrimmed(CreateBoardOutcome(users, rows, actor, request, freshId).store)
  {
    if actor in users && Trim(request.title) != [] {
      TrimIdempotent(request.title);
      SaveKeepsTitlesTrimmed(rows, Board(freshId, Trim(request.title), request.description, Some(actor)));
    }
  }

  /** Saving a board whose title is trimmed and non-empty keeps `TitlesTrimmed`. */
  lemma SaveKeepsTitlesTrimmed(rows: BoardRows, board: Board)
    requires TitlesTrimmed(rows)
    requires board.title != [] && Trim(board.title) == board.title
    ensures TitlesTrimmed(rows[board.id := board])
  {
  }

  // ---------------------------------------------------------------------------
  // updateBoard
  // ---------------------------------------------------------------------------

  /** The title after an update: the trimmed new title, refused when blank, or
      the old one when the request carries none. */
  function NewTitle(current: string, requested: Option<string>): (r: Result<string>)
    ensures requested.None? ==> r == Ok(current)
    ensures requested.Some? ==> (r.Ok? <==> Trim(requested.value) != [])
    ensures requested.Some? && r.Ok? ==> r.value == Trim(requested.value)
    ensures r.Err? ==> r.error == BlankTitle
  {
    match requested
    case None => Ok(current)
    case Some(t) => if Trim(t) == [] then Err(BlankTitle) else Ok(Trim(t))
  }

  /** What `updateBoard(id, request)` returns and leaves in the board table. */
  function UpdateBoardOutcome(rows: BoardRows, id: BoardId, request: UpdateBoardRequest): Outcome<BoardDto, BoardRows>
  {
    if id !in rows then Outcome(Err(BoardNotFound(id)), rows)
    else
      var board := rows[id];
      match NewTitle(board.title, request.title)
      case Err(e) => Outcome(Err(e), rows)
      case Ok(title) =>
        var updated := board.(title := title,
                              description := if request.description.Some? then request.description
                                             else board.description);
        Outcome(Ok(ToDto(updated)), rows[updated.id := updated])
  }

  method UpdateBoard(boards: BoardTable, id: BoardId, request: UpdateBoardRequest) returns (r: Result<BoardDto>)
    modifies boards
    ensures Outcome(r, boards.rows) == UpdateBoardOutcome(old(boards.rows), id, request)
  {
    if id !in boards.rows {
      return Err(BoardNotFound(id));
    }
    var board := boards.rows[id];
    if request.title.Some? {
      var title := Trim(request.title.value);
      if title == [] {
        return Err(BlankTitle);
      }
      board := board.(title := title);
    }
    if request.description.Some? {
      board := board.(description := request.description);
    }
    boards.Save(board);
    r := Ok(ToDto(board));
  }

  /** `updateBoard` succeeds exactly when the board exists and the request's
      title, if any, is not blank. A success rewrites that one row with the new
      title and description and the same owner; a failure writes nothing. */
  lemma UpdateBoardEffect(rows: BoardRows, id: BoardId, request: UpdateBoardRequest)
    requires KeysMatchIds(rows)
    ensures var o := UpdateBoardOutcome(rows, id, request);
      && (o.result.Ok? <==> id in rows && (request.title.None? || !IsBlank(request.title.value)))
      && (o.result.Err? ==> o.store == rows)
      && (o.result.Ok? ==>
            && o.store == rows[id := Board(id,
                                           if request.title.Some? then Trim(request.title.value) else rows[id].title,
                                           if request.description.Some? then request.description
                                           else rows[id].description,
                                           rows[id].ownerId)]
            && o.result.value == ToDto(o.store[id]))
  {
    if request.title.Some? {
      TrimEmptyIffBlank(request.title.value);
    }
  }

  /** No update changes which boards exist or who owns any of them. */
  lemma UpdateBoardKeepsOwners(rows: BoardRows, id: BoardId, request: UpdateBoardRequest)
    requires KeysMatchIds(rows)
    ensures var store := UpdateBoardOutcome(rows, id, request).store;
      && store.Keys == rows.Keys
      && KeysMatchIds(store)
      && forall k :: k in store ==> store[k].ownerId == rows[k].ownerId
  {
  }

  /** `updateBoard` keeps every stored title trimmed and non-empty. */
  lemma UpdateBoardKeepsTitlesTrimmed(rows: BoardRows, id: BoardId, request: UpdateBoardRequest)
    requires KeysMatchIds(rows) && TitlesTrimmed(rows)
    ensures TitlesTrimmed(UpdateBoardOutcome(rows, id, request).store)
  {
    if id in rows && NewTitle(rows[id].title, request.title).Ok? {
      var board := rows[id];
      var title := NewTitle(board.title, request.title).value;
      NewTitleTrimmed(board.title, request.title);
      var updated := board.(title := title,
                            description := if request.description.Some? then request.description
                                           else board.description);
      assert UpdateBoardOutcome(rows, id, request).store == rows[updated.id := updated];
      SaveKeepsTitlesTrimmed(rows, updated);
    }
  }

  /** An accepted new title, like a stored one, is trimmed and non-empty. */
  lemma NewTitleTrimmed(current: string, requested: Option<string>)
    requires current != [] && Trim(current) == current
    requires NewTitle(current, requested).Ok?
    ensures NewTitle(current, requested).value != []
    ensures Trim(NewTitle(current, requested).value) == NewTitle(current, requested).value
  {
    if requested.Some? {
      TrimIdempotent(requested.value);
    }
  }

  /** A title the update accepted is accepted again, unchanged. */
  lemma NewTitleStable(current: string, requested: Option<string>)
    requires NewTitle(current, requested).Ok?
    ensures NewTitle(NewTitle(current, requested).value, requested) == NewTitle(current, requested)
  {
    if requested.Some? {
      TrimIdempotent(requested.value);
    }
  }

  /** Sending the same update twice leaves the table as sending it once, and
      the second call answers what the first did. */
  lemma UpdateBoardIdempotent(rows: BoardRows, id: BoardId, request: UpdateBoardRequest)
    requires KeysMatchIds(rows)
    ensures var once := UpdateBoardOutcome(rows, id, request);
      once.result.Ok? ==> UpdateBoardOutcome(once.store, id, request) == once
  {
    var once := UpdateBoardOutcome(rows, id, request);
    if once.result.Ok? {
      var board := rows[id];
      var title := NewTitle(board.title, request.title).value;
      var updated := board.(title := title,
                            description := if request.description.Some? then request.description
                                           else board.description);
      var store := rows[id := updated];
      assert once == Outcome(Ok(ToDto(updated)), store);
      NewTitleStable(board.title, request.title);
      assert NewTitle(updated.title, request.title) == Ok(title);
      assert store[id] == updated;
      assert store[id := updated] == store;
    }
  }

  // ---------------------------------------------------------------------------
  // deleteBoard
  // ---------------------------------------------------------------------------

  /** What `deleteBoard(id)` returns and leaves in the board table. */
  function DeleteBoardOutcome(rows: BoardRows, id: BoardId): (o: Outcome<(), BoardRows>)
    ensures o.result.Ok? <==> id in rows
    ensures o.result.Err? ==> o.result.error == BoardNotFound(id) && o.store == rows
    ensures o.result.Ok? ==> o.store.Keys == rows.Keys - {id} && forall k :: k in o.store ==> o.store[k] == rows[k]
  {
    if id !in rows then Outcome(Err(BoardNotFound(id)), rows) else Outcome(Ok(()), rows - {id})
  }

  method DeleteBoard(boards: BoardTable, id: BoardId) returns (r: Result<()>)
    modifies boards
    ensures Outcome(r, boards.rows) == DeleteBoardOutcome(old(boards.rows), id)
  {
    if id !in boards.rows {
      return Err(BoardNotFound(id));
    }
    boards.DeleteById(id);
    r := Ok(());
  }

  /** After a delete the board can no longer be read, and a second delete fails. */
  lemma DeleteThenGetFails(rows: BoardRows, id: BoardId)
    requires id in rows
    ensures var store := DeleteBoardOutcome(rows, id).store;
      && GetBoardById(store, id) == Err(BoardNotFound(id))
      && DeleteBoardOutcome(store, id) == Outcome(Err(BoardNotFound(id)), store)
  {
  }
}
