/** What a `/filters` query can observe of the board after a socket event. */
module BoardQueries {
  import opened Notes
  import opened Board
  import opened Filters
  import opened Wrappers

  /** After `delete_note(id)` no query response contains a note created at `id`. */
  lemma DeletedNeverQueried(notes: seq<Note>, id: Timestamp, req: Request)
    ensures FilterNotes(req, Delete(notes, id)).Success? ==>
      forall x :: x in FilterNotes(req, Delete(notes, id)).value ==> x.createdAt != id
  {
  }

  /** After `add_note(d)` a query with no selection returns the new note. */
  lemma AddedNoteQueried(notes: seq<Note>, d: Note, sort: string)
    ensures FilterNotes(Request([], [], sort), Add(notes, d)).Success?
    ensures d in FilterNotes(Request([], [], sort), Add(notes, d)).value
  {
    var after := Add(notes, d);
    var req := Request([], [], sort);
    assert Preselect(req, after) == Success(after);
    assert d in multiset(after);
  }
}
