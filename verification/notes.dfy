/** The note record held by the board (the fields of the note schema in models/note.js). */
module Notes {

  /** A point in time in milliseconds, as `new Date(t).valueOf()` yields it. */
  type Timestamp = int

  /**
   * One note. `createdBy` is an author id (not a display name), `priority` is a
   * free label that clients pick from the priority catalog, and `history` is an
   * opaque log that the board passes through unexamined.
   */
  datatype Note = Note(
    room: string,
    contributedBy: seq<string>,
    note: string,
    createdBy: string,
    history: seq<string>,
    priority: string,
    createdAt: Timestamp,
    updatedAt: Timestamp
  )
}
