/** backend/.../service/BoardService.java: the older draft of the board
    service. Compared with `BoardApplicationService` it has no acting user:
    `createBoard` neither checks nor records an owner and does not refuse a
    blank title, and its DTO conversion leaves the owner out. Reads, updates
    and deletes write what the hexagonal service writes; the lemmas below prove
    where the two agree and where they part. */
module BoardServiceDraft {
  import opened Wrappers
  import opened JavaText
  import opened Boards
  import Users
  import App = BoardApplicationService

  /** `convertToDTO`: the owner is not passed, so the view's owner is null. */
  function ToDto(board: Board): (view: BoardDto)
    ensures view == App.ToDto(board).(ownerUserId := None)
  {
    BoardDto(board.id, board.title, board.description, None)
  }

  /** The hexagonal answer as the draft reports it: the same outcome with the
      owner dropped from the returned view. */
  function WithoutOwner(o: Outcome<BoardDto, BoardRows>): Outcome<BoardDto, BoardRows> {
    match o.result
    case Ok(view) => Outcome(Ok(view.(ownerUserId := None)), o.store)
    case Err(e) => o
  }

  /** `getBoardById`. */
  function GetBoardById(rows: BoardRows, id: BoardId): (r: Result<BoardDto>)
    ensures WithoutOwner(Outcome(App.GetBoardById(rows, id), rows)) == Outcome(r, rows)
  {
    if id in rows then Ok(ToDto(rows[id])) else Err(BoardNotFound(id))
  }

  /** What the draft's `createBoard(request)` returns and leaves in the board table. */
  function CreateBoardOutcome(rows: BoardRows, request: App.CreateBoardRequest, freshId: BoardId)
    : Outcome<BoardDto, BoardRows>
  {
    var board := Board(freshId, Trim(request.title), request.description, None);
    Outcome(Ok(ToDto(board)), rows[freshId := board])
  }

  method CreateBoard(boards: BoardTable, request: App.CreateBoardRequest, freshId: BoardId)
    returns (r: Result<BoardDto>)
    modifies boards
    ensures Outcome(r, boards.rows) == CreateBoardOutcome(old(boards.rows), request, freshId)
  {
    var board := Board(freshId, Trim(request.title), request.description, None);
    boards.Save(board);
    r := Ok(ToDto(board));
  }

  /** The draft's `createBoard` always succeeds. It stores the trimmed title,
      so a blank title is stored as the empty string, which the hexagonal
      service refuses; and the new board has no owner. */
  lemma CreateBoardAcceptsBlankTitle(rows: BoardRows, request: App.CreateBoardRequest, freshId: BoardId)
    requires IsBlank(request.title)
    ensures var o := CreateBoardOutcome(rows, request, freshId);
      && o.result.Ok?
      && o.store[freshId].title == []
      && o.store[freshId].ownerId.None?
      && !App.TitlesTrimmed(o.store)
  {
    TrimEmptyIffBlank(request.title);
  }

  /** When the hexagonal service would accept the request, the draft stores
      the same board except for the owner, which it leaves unset. */
  lemma CreateBoardDiffersOnlyInOwner(users: Users.UserRows, rows: BoardRows, actor: OwnerId,
                                      request: App.CreateBoardRequest, freshId: BoardId)
    requires App.CreateBoardOutcome(users, rows, actor, request, freshId).result.Ok?
    ensures var hex := App.CreateBoardOutcome(users, rows, actor, request, freshId);
            var draft := CreateBoardOutcome(rows, request, freshId);
      && draft.store == hex.store[freshId := hex.store[freshId].(ownerId := None)]
      && draft.result == Ok(hex.result.value.(ownerUserId := None))
  {
  }

  method UpdateBoard(boards: BoardTable, id: BoardId, request: UpdateBoardRequest) returns (r: Result<BoardDto>)
    modifies boards
    ensures Outcome(r, boards.rows) == WithoutOwner(App.UpdateBoardOutcome(old(boards.rows), id, request))
  {
    if id !in boards.rows {
      return Err(BoardNotFound(id));
    }
    var board := boards.rows[id];
    if request.title.Some? {
      var title := Trim(request.title.value);
      if title == [] {
        return Err(BlankTitle);
      }
      board := board.(title := title);
    }
    if request.description.Some? {
      board := board.(description := request.description);
    }
    boards.Save(board);
    r := Ok(ToDto(board));
  }

  method DeleteBoard(boards: BoardTable, id: BoardId) returns (r: Result<()>)
    modifies boards
    ensures Outcome(r, boards.rows) == App.DeleteBoardOutcome(old(boards.rows), id)
  {
    if id !in boards.rows {
      return Err(BoardNotFound(id));
    }
    boards.DeleteById(id);
    r := Ok(());
  }
}
