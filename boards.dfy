/** The board table both board services work on: the `Board` entity and the
    repository port `BoardRepositoryPort` / `BoardRepository`. Board ids are
    UUIDs generated by the database; a `BoardId` is the UUID's canonical text,
    which is also what the error messages print. */
module Boards {
  import opened Wrappers

  type BoardId = string
  type OwnerId = int

  /** A stored board. `ownerId` is nullable in the entity; creation and update
      timestamps are not modelled. */
  datatype Board = Board(id: BoardId, title: string, description: Option<string>, ownerId: Option<OwnerId>)

  /** The view returned to callers. */
  datatype BoardDto = BoardDto(id: BoardId, title: string, description: Option<string>, ownerUserId: Option<OwnerId>)

  /** `UpdateBoardRequest`: a null field leaves the board's value as it is. */
  datatype UpdateBoardRequest = UpdateBoardRequest(title: Option<string>, description: Option<string>)

  type BoardRows = map<BoardId, Board>

  /** Every row is stored under its own id. */
  predicate KeysMatchIds(rows: BoardRows) {
    forall id :: id in rows ==> rows[id].id == id
  }

  function BoardNotFound(id: BoardId): Exception {
    RuntimeException("Board not found with id: " + id)
  }

  const BlankTitle := RuntimeException("Board title cannot be blank")

  /** The board repository: its contents change only through `Save` and `DeleteById`. */
  class BoardTable {
    var rows: BoardRows

    constructor ()
      ensures rows == map[]
    {
      rows := map[];
    }

    /** `save(board)`: inserts or replaces the row with the board's id. */
    method Save(board: Board)
      modifies this
      ensures rows == old(rows)[board.id := board]
    {
      rows := rows[board.id := board];
    }

    /** `deleteById(id)`. */
    method DeleteById(id: BoardId)
      modifies this
      ensures rows == old(rows) - {id}
    {
      rows := rows - {id};
    }
  }
}
