/**
 * The shared note list and its socket handlers (index.js:46, 97-118). Each event
 * is applied atomically by the single-threaded event loop, and the whole new list
 * is then emitted to the room as `list_note`.
 */
module Board {
  import opened Notes
  import opened Sequences

  /** The room every connection joins. */
  const Room: string := "app"

  /** The event that carries the note list to clients. */
  const ListNote: string := "list_note"

  /** Inbound socket events. A delete payload is used only through its `id`, matched against `createdAt`. */
  datatype Event = AddNote(data: Note) | EditNote(data: Note) | DeleteNote(id: Timestamp)

  /** `io.to(room).emit(name, payload)`. */
  datatype Emission = Emission(room: string, name: string, payload: seq<Note>)

  /** The list after one event, and what was emitted for it. */
  datatype Transition = Transition(notes: seq<Note>, sent: Emission)

  /** `add_note`: `notes.push(data)`. */
  function Add(notes: seq<Note>, d: Note): (r: seq<Note>)
    ensures |r| == |notes| + 1
    ensures r[..|notes|] == notes && r[|notes|] == d
  {
    notes + [d]
  }

  /** `notes.findIndex(note => note.createdAt === key)`: the first match, or -1. */
  function FindByCreatedAt(notes: seq<Note>, key: Timestamp): (k: int)
    ensures -1 <= k < |notes|
    ensures k == -1 <==> forall i :: 0 <= i < |notes| ==> notes[i].createdAt != key
    ensures k >= 0 ==> notes[k].createdAt == key && forall i :: 0 <= i < k ==> notes[i].createdAt != key
  {
    if |notes| == 0 then -1
    else if notes[0].createdAt == key then 0
    else
      var k := FindByCreatedAt(notes[1..], key);
      if k == -1 then -1 else k + 1
  }

  /**
   * `edit_note`: `notes[foundNoteIndex] = data`. With no match the index is -1;
   * assigning `notes[-1]` creates a property that is not an array element, so the
   * list (as iterated, filtered, spread or serialised) is unchanged.
   */
  function Edit(notes: seq<Note>, d: Note): (r: seq<Note>)
    ensures |r| == |notes|
    ensures forall i :: 0 <= i < |notes| ==> r[i].createdAt == notes[i].createdAt
    ensures (forall i :: 0 <= i < |notes| ==> notes[i].createdAt != d.createdAt) ==> r == notes
    ensures forall k ::
      (0 <= k < |notes| && notes[k].createdAt == d.createdAt
       && forall i :: 0 <= i < k ==> notes[i].createdAt != d.createdAt) ==> r == notes[k := d]
  {
    var k := FindByCreatedAt(notes, d.createdAt);
    if k >= 0 then notes[k := d] else notes
  }

  /** The keep-test of `delete_note`: `note => note.createdAt !== id`. */
  function CreatedAtOtherThan(id: Timestamp): Note -> bool {
    (n: Note) => n.createdAt != id
  }

  /** `delete_note`: `notes = notes.filter(note => note.createdAt !== data.id)`. */
  function Delete(notes: seq<Note>, id: Timestamp): (r: seq<Note>)
    ensures forall x :: x in r <==> x in notes && x.createdAt != id
  {
    Keep(notes, CreatedAtOtherThan(id))
  }

  /** One socket event: update the list, then emit all of it to the room. */
  function Step(notes: seq<Note>, e: Event): (t: Transition)
    ensures t.sent == Emission(Room, ListNote, t.notes)
    ensures e.AddNote? ==> |t.notes| == |notes| + 1
    ensures e.EditNote? ==> |t.notes| == |notes|
    ensures e.DeleteNote? ==> |t.notes| <= |notes|
  {
    var next := match e
      case AddNote(d) => Add(notes, d)
      case EditNote(d) => Edit(notes, d)
      case DeleteNote(id) => Delete(notes, id);
    Transition(next, Emission(Room, ListNote, next))
  }

  /** A sequence of events handled one after another. */
  datatype Trace = Trace(notes: seq<Note>, sent: seq<Emission>)

  /** Handles `events` in order, collecting one emission per event. */
  function Run(notes: seq<Note>, events: seq<Event>): (r: Trace)
    ensures |r.sent| == |events|
    ensures |events| > 0 ==> r.sent[|events| - 1].payload == r.notes
    ensures forall i :: 0 <= i < |r.sent| ==> r.sent[i].room == Room && r.sent[i].name == ListNote
    decreases |events|
  {
    if |events| == 0 then Trace(notes, [])
    else
      var t := Step(notes, events[0]);
      var rest := Run(t.notes, events[1..]);
      Trace(rest.notes, [t.sent] + rest.sent)
  }

  /** Every emission carries exactly the list as it stands after the event that caused it. */
  lemma {:induction false} EmissionIsStateAfterEvent(notes: seq<Note>, events: seq<Event>, i: nat)
    requires i < |events|
    ensures Run(notes, events).sent[i].payload == Run(notes, events[..i + 1]).notes
    decreases i
  {
    var t := Step(notes, events[0]);
    assert events[..i + 1][0] == events[0];
    if i > 0 {
      assert events[1..][..i] == events[..i + 1][1..];
      EmissionIsStateAfterEvent(t.notes, events[1..], i - 1);
    } else {
      assert events[..1][1..] == [];
    }
  }

  /** Replaying the same edit changes nothing more. */
  lemma EditIdempotent(notes: seq<Note>, d: Note)
    ensures Edit(Edit(notes, d), d) == Edit(notes, d)
  {
  }

  /** Replaying the same delete changes nothing more. */
  lemma DeleteIdempotent(notes: seq<Note>, id: Timestamp)
    ensures Delete(Delete(notes, id), id) == Delete(notes, id)
  {
    KeepIdempotent(notes, CreatedAtOtherThan(id));
  }

  /** Deleting by a freshly added note's key is the same as deleting from the list before the add. */
  lemma DeleteUndoesAdd(notes: seq<Note>, d: Note)
    ensures Delete(Add(notes, d), d.createdAt) == Delete(notes, d.createdAt)
  {
    var p := CreatedAtOtherThan(d.createdAt);
    KeepConcat(notes, [d], p);
    assert Keep([d], p) == [];
  }

  /** Delete keeps the surviving notes in order, with every occurrence of each survivor. */
  lemma DeleteKeepsOthers(notes: seq<Note>, id: Timestamp)
    ensures IsSubsequence(Delete(notes, id), notes)
    ensures forall x: Note :: x.createdAt != id ==> multiset(Delete(notes, id))[x] == multiset(notes)[x]
  {
    KeepSubsequence(notes, CreatedAtOtherThan(id));
    KeepCount(notes, CreatedAtOtherThan(id));
  }
}
