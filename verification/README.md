# Shared note board: filter/sort engine and note-list state machine

This project models the core of a real-time note board server in Dafny. Clients share one
room. The server keeps an in-memory list of notes. Socket events `add_note`, `edit_note` and
`delete_note` change that list, and after each one the whole list is emitted to the room as
`list_note`. A `POST /filters` request turns a selection into an ordered list of notes. It can
select author display names, priority labels and a sort mode.

The model is functional: a `Note` is an immutable datatype, the board state is a `seq<Note>`,
and every handler is a pure function.

- `Wrappers` (wrappers.dfy): `Option` and `Result`.
- `Sequences` (sequences.dfy): `Keep`, the model of `Array.prototype.filter`, with membership,
  multiplicity and subsequence lemmas.
- `StringOrder` (string_order.dfy): the order used for note bodies.
- `Notes` (notes.dfy): the `Note` record, with the fields of the note schema. Timestamps are
  integers in milliseconds.
- `Catalog` (catalog.dfy): the fixed author directory `USERS` and the priority labels
  `PRIORITIES`, plus name lookup.
- `Ordering` (ordering.dfy): the three comparators and a stable insertion sort. It is proved
  sorted and stable. It is also proved to be the only sorted arrangement that keeps tied notes
  in input order. So it agrees with any stable sort, and `Array.prototype.sort` is stable.
- `Filters` (filters.dfy): the `/filters` handler as written, plus the corrected selection
  described under Findings.
- `Board` (board.dfy): the socket handlers, a single step with its emission, and runs of
  events.
- `BoardQueries` (board_queries.dfy): what a query observes after an add or a delete.

Behaviour of the program that the model keeps as it is:
- Edit and delete find their target by `createdAt`; notes carry no separate id. The delete
  payload's `id` is compared with `createdAt`.
- An edit with no matching note is not an error. The list stays unchanged and the emission
  still happens.
- The emitted list is the stored list in insertion order, unsorted, with no count.
- A request carries no result limit.
- A non-empty priority selection replaces the author selection; the two are not combined
  (see Findings).
- An unknown author name makes the handler throw. The model shows this as a `Failure`
  result.

## Model

| member | source | states |
|---|---|---|
| Sequences.Keep | index.js:65-67 | the filtered list holds exactly the elements of the input that pass the test, and is no longer than the input |
| Sequences.KeepCount | index.js:71-73 | filtering keeps every occurrence of a passing value and no occurrence of a failing one |
| Sequences.KeepSubsequence | index.js:65-67 | filtering keeps the relative order of what it keeps |
| Sequences.KeepIdempotent | index.js:115 | filtering twice with the same test equals filtering once |
| Sequences.KeepConcat | index.js:115 | filtering a concatenation filters each part |
| Catalog.FindByName | index.js:60 | `find` returns the first entry with the given name, and nothing exactly when no entry has it |
| Catalog.FindUserExact | index.js:26-44 | a display name resolves to a directory entry exactly when that entry carries the name |
| Catalog.UserNamesUnique | index.js:26-44 | the four display names in the directory are distinct |
| StringOrder.LexLeTotal | index.js:77 | any two note bodies are comparable |
| StringOrder.LexLeTransitive | index.js:77 | the body order is transitive |
| StringOrder.LexLeAntisymmetric | index.js:77 | bodies that compare equal both ways are the same string |
| StringOrder.LexLeIsFirstDifference | index.js:77 | the recursive body order is the prefix-or-first-difference definition of lexicographic order, in both directions |
| Ordering.ParseSort | index.js:76-88 | each of the three literal sort values selects its comparator and no other string does |
| Ordering.TieIsEqualKey | index.js:77-87 | a comparator returns 0 exactly when the notes agree on the body, `createdAt` or `updatedAt` it reads |
| Ordering.Insert | index.js:77-87 | inserting adds exactly one occurrence of the note |
| Ordering.SortBy | index.js:77-87 | sorting is a permutation: the multiset of notes is unchanged |
| Ordering.InsertSorted | index.js:77-87 | insertion into a sorted list keeps it sorted |
| Ordering.SortBySorted | index.js:77-87 | sorted output: bodies ascending, or `createdAt`/`updatedAt` descending |
| Ordering.InsertTieClass | index.js:77-87 | insertion places a note at the front of its own tie class and leaves every other tie class as it was |
| Ordering.SortByStable | index.js:77-87 | the sort is stable: notes that tie keep their input order |
| Ordering.SortedTieClassesDetermine | index.js:77-87 | two sorted lists with the same tie classes are equal |
| Ordering.SortByUnique | index.js:77-87 | any sorted list with the input's tie classes in input order is the sort's output, so every stable sort gives this result |
| Filters.Translate | index.js:59-63 | translation fails exactly when some name is unknown and reports the first unknown name; on success each id is the id of the directory entry with that name |
| Filters.AuthorStageSelects | index.js:57-67 | the author stage keeps a note exactly when the selection is empty or some selected name resolves to its `createdBy`, with every occurrence, in input order |
| Filters.Preselect | index.js:57-74 | the selection fails exactly on an unknown author name; a non-empty priority selection yields the priority filter of the full list; the selection never adds notes |
| Filters.AuthorSelection | index.js:58-69 | with only author names selected, a note is kept exactly when one of the names resolves to its author, with every occurrence, in input order |
| Filters.PrioritySelection | index.js:70-74 | with priorities selected, the kept notes are exactly those with a selected label, with all their occurrences, in input order, whatever authors were selected |
| Filters.Order | index.js:76-88 | ordering is a permutation; it is sorted and stable for a recognised sort, and the identity otherwise |
| Filters.FilterNotes | index.js:52-90 | the request fails exactly when it names an unknown author; every returned note is on the board; for a recognised sort the response is sorted by that comparator and keeps tied notes in selection order; with nothing selected and an unrecognised sort the response is the board list unchanged |
| Filters.ResponseIsOrderedSelection | index.js:76-89 | the response has the selection's notes with the same multiplicities; for a recognised sort it is sorted and tied notes keep selection order; otherwise it is the selection itself |
| Filters.ResponseDrawnFromBoard | index.js:57-89 | the response contains no note more often than the board does |
| Filters.UnknownAuthorFails | index.js:59-63 | a request whose first unknown name is at position i fails with that name |
| Filters.PriorityOverridesAuthors | index.js:70-74 | as written, a request selecting "User 1" and "High" returns a "High" note by user02 |
| Filters.PreselectIntended | index.js:70-74 | corrected selection: fails exactly on an unknown author name |
| Filters.IntendedSelection | index.js:57-74 | corrected selection: a note is kept exactly when it passes both the author test and the priority test |
| Filters.IntendedSelectionOrder | index.js:57-74 | corrected selection: the kept notes stay in input order |
| Board.Add | index.js:97-100 | `add_note` appends: the old list is a prefix, the new note is last, and the length grows by one |
| Board.FindByCreatedAt | index.js:105-107 | `findIndex` returns the first index whose `createdAt` matches, or -1 exactly when none matches |
| Board.Edit | index.js:103-111 | `edit_note` keeps the length and every `createdAt`; it replaces only the first note with the payload's `createdAt`, and leaves the list unchanged when there is none |
| Board.Delete | index.js:113-118 | `delete_note` keeps exactly the notes whose `createdAt` differs from the payload's `id`, so none with that `createdAt` remains |
| Board.DeleteKeepsOthers | index.js:115 | survivors of a delete keep their relative order and all their occurrences |
| Board.Step | index.js:97-118 | every event emits `list_note` to room `app` with the whole new list; add grows the list by one, edit keeps its length, delete never grows it |
| Board.Run | index.js:97-118 | a run emits once per event, always to `app` as `list_note`, and the last emission is the final list |
| Board.EmissionIsStateAfterEvent | index.js:97-118 | the i-th emission carries exactly the list after the first i+1 events |
| Board.EditIdempotent | index.js:103-111 | repeating an edit changes nothing more |
| Board.DeleteIdempotent | index.js:113-118 | repeating a delete changes nothing more |
| Board.DeleteUndoesAdd | index.js:97-118 | deleting by a just-added note's `createdAt` gives the same list as deleting before the add |
| BoardQueries.DeletedNeverQueried | index.js:113-117 | after a delete, no query response contains a note with the deleted `createdAt` |
| BoardQueries.AddedNoteQueried | index.js:97-100 | after an add, a query with no selection succeeds and contains the new note |

## Left out

- Express, body-parser, CORS, the HTTP server, socket.io setup, dotenv and the mongoose connection (index.js:1-24, 120-130) are I/O plumbing. Connection and disconnect logging (index.js:92-95, 120) and the `console.log` calls are left out for the same reason.
- `GET /notes` (index.js:48-50) only echoes the list and the catalogs. `Catalog.Priorities` is kept as data, but no handler in the model reads it. The filter does not check selected labels against it.
- models/note.js is a schema declaration for a library. Only its field list is used, for `Note`. Its load-time `default: new Date()` is not modelled.
- Date parsing is left out. `new Date(x).valueOf()` is modelled as the integer timestamp itself. Invalid dates, which would give `NaN` comparisons, are not modelled.
- `localeCompare` collation is left out. Bodies are ordered lexicographically by Unicode code point. This is a total order, which a locale collation may not be on distinct strings.
- Malformed request bodies are left out, for example a missing `selectedUsers` array, which throws on `.length`. Payloads of other shapes are left out too.
- `createdAt` and the delete `id` are compared as timestamps. The source compares them with `===` on whatever the client sent. Two encodings of one instant would differ there.
- Concurrency is left out. Each socket event is one atomic transition of the single-threaded event loop. The HTTP query reads the list between events.
- Board.Edit: with no match, the source assigns `notes[-1]`. This adds a non-element property that no later iteration, `filter`, spread or serialisation sees. The model leaves the list unchanged and does not keep that property.

## Findings

| source | as written | input that shows it | evidently intended | confidence | as-written member | corrected member |
|---|---|---|---|---|---|---|
| index.js:70-74 | the priority stage filters the full `notes` list again, so a non-empty priority selection discards the author selection | `selectedUsers: ["User 1"]`, `selectedPriorities: ["High"]`, with one "High" note by `user02`: that note is returned | filter `filteredNotes`: it holds the author selection of lines 65-67, and re-reading `notes` throws that work away, which only makes sense if the two tests were meant to be combined | high; not executed | Filters.PriorityOverridesAuthors | Filters.IntendedSelection |

The handler's full model, `Filters.FilterNotes`, keeps the as-written selection, because it
describes what the server returns. `Filters.PreselectIntended` is the corrected selection.
`Filters.IntendedSelection` proves it is the conjunction of both tests.
`Filters.IntendedSelectionOrder` proves it keeps input order.
