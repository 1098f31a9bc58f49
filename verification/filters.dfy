/**
 * The `POST /filters` handler (index.js:52-90): translate selected author names
 * to ids, select notes by author or by priority, then order them.
 */
module Filters {
  import opened Wrappers
  import opened Notes
  import opened Sequences
  import opened Catalog
  import opened Ordering

  /** The request body: `{ selectedUsers, selectedPriorities, sort }`. */
  datatype Request = Request(selectedUsers: seq<string>, selectedPriorities: seq<string>, sort: string)

  /**
   * Why a request produced no result. An unknown display name makes `findUser`
   * undefined and reading its `id` throws; the request then fails.
   */
  datatype FilterError = UnknownAuthor(name: string)

  /** Some selected display name resolves to the author id `id`. */
  predicate SelectsAuthor(names: seq<string>, id: string) {
    exists i :: 0 <= i < |names| && FindUser(names[i]).Some? && FindUser(names[i]).value.id == id
  }

  /** `selectedUsers.map(user => USERS.find(el => el.name === user).id)`. */
  function Translate(names: seq<string>): (r: Result<seq<string>, FilterError>)
    ensures r.Failure? <==> exists i :: 0 <= i < |names| && FindUser(names[i]).None?
    ensures r.Failure? ==>
      exists i :: 0 <= i < |names| && names[i] == r.error.name && FindUser(names[i]).None?
        && forall j :: 0 <= j < i ==> FindUser(names[j]).Some?
    ensures r.Success? ==>
      |r.value| == |names|
      && forall i :: 0 <= i < |names| ==> FindUser(names[i]) == Some(User(names[i], r.value[i]))
  {
    if |names| == 0 then Success([])
    else
      match FindUser(names[0])
      case None => Failure(UnknownAuthor(names[0]))
      case Some(u) =>
        var rest :- Translate(names[1..]);
        Success([u.id] + rest)
  }

  /** The author test `note => ids.includes(note.createdBy)`. */
  function AuthorIn(ids: seq<string>): Note -> bool {
    (n: Note) => n.createdBy in ids
  }

  /** The priority test `note => labels.includes(note.priority)`. */
  function PriorityIn(labels: seq<string>): Note -> bool {
    (n: Note) => n.priority in labels
  }

  function ByAuthor(notes: seq<Note>, ids: seq<string>): seq<Note> {
    Keep(notes, AuthorIn(ids))
  }

  function ByPriority(notes: seq<Note>, labels: seq<string>): seq<Note> {
    Keep(notes, PriorityIn(labels))
  }

  /** Lines 57-69: the author stage, which translates names even when the priority stage will discard its output. */
  function AuthorStage(names: seq<string>, notes: seq<Note>): Result<seq<Note>, FilterError> {
    if |names| == 0 then Success(notes)
    else
      var ids :- Translate(names);
      Success(ByAuthor(notes, ids))
  }

  /**
   * Lines 57-74 as written: the priority stage filters the full `notes` again,
   * so a non-empty priority selection overrides the author selection.
   */
  function Preselect(req: Request, notes: seq<Note>): (r: Result<seq<Note>, FilterError>)
    ensures r.Failure? <==> exists i :: 0 <= i < |req.selectedUsers| && FindUser(req.selectedUsers[i]).None?
    ensures r.Success? && |req.selectedPriorities| > 0 ==> r.value == ByPriority(notes, req.selectedPriorities)
    ensures r.Success? ==> forall x :: x in r.value ==> x in notes
  {
    var byAuthor :- AuthorStage(req.selectedUsers, notes);
    if |req.selectedPriorities| > 0 then Success(ByPriority(notes, req.selectedPriorities))
    else Success(byAuthor)
  }

  /** Lines 76-88: sort by the selected comparator; an unrecognised `sort` keeps the order. */
  function Order(sort: string, s: seq<Note>): (r: seq<Note>)
    ensures multiset(r) == multiset(s)
    ensures ParseSort(sort).None? ==> r == s
    ensures ParseSort(sort).Some? ==> Sorted(ParseSort(sort).value, r)
    ensures ParseSort(sort).Some? ==>
      forall z :: TieClass(ParseSort(sort).value, r, z) == TieClass(ParseSort(sort).value, s, z)
  {
    match ParseSort(sort)
    case None => s
    case Some(c) =>
      SortBySorted(c, s);
      SortByStable(c, s);
      SortBy(c, s)
  }

  /** The whole handler: the notes sent back as `{ data: filteredNotes }`, or the failure. */
  function FilterNotes(req: Request, notes: seq<Note>): (r: Result<seq<Note>, FilterError>)
    ensures r.Failure? <==> exists i :: 0 <= i < |req.selectedUsers| && FindUser(req.selectedUsers[i]).None?
    ensures r.Success? ==> forall x :: x in r.value ==> x in notes
    ensures |req.selectedUsers| == 0 && |req.selectedPriorities| == 0 && ParseSort(req.sort).None? ==>
      r == Success(notes)
    ensures r.Success? && ParseSort(req.sort).Some? ==>
      && Sorted(ParseSort(req.sort).value, r.value)
      && forall z :: TieClass(ParseSort(req.sort).value, r.value, z)
                     == TieClass(ParseSort(req.sort).value, Preselect(req, notes).value, z)
  {
    var selected :- Preselect(req, notes);
    var ordered := Order(req.sort, selected);
    assert forall x :: x in ordered ==> x in multiset(ordered);
    Success(ordered)
  }

  /**
   * The author stage keeps a note exactly when the selection is empty or names its
   * author, with every occurrence, in input order.
   */
  lemma AuthorStageSelects(names: seq<string>, notes: seq<Note>)
    requires AuthorStage(names, notes).Success?
    ensures forall x :: x in AuthorStage(names, notes).value <==>
      x in notes && (|names| == 0 || SelectsAuthor(names, x.createdBy))
    ensures forall x ::
      multiset(AuthorStage(names, notes).value)[x] == (if |names| == 0 || SelectsAuthor(names, x.createdBy) then multiset(notes)[x] else 0)
    ensures IsSubsequence(AuthorStage(names, notes).value, notes)
  {
    if |names| == 0 {
      SubsequenceReflexive(notes);
    } else {
      var ids := Translate(names).value;
      KeepSubsequence(notes, AuthorIn(ids));
      KeepCount(notes, AuthorIn(ids));
      forall x | x in notes
        ensures x.createdBy in ids <==> SelectsAuthor(names, x.createdBy)
      {
        if x.createdBy in ids {
          var i :| 0 <= i < |ids| && ids[i] == x.createdBy;
          assert FindUser(names[i]) == Some(User(names[i], ids[i]));
        }
        if SelectsAuthor(names, x.createdBy) {
          var i :| 0 <= i < |names| && FindUser(names[i]).Some? && FindUser(names[i]).value.id == x.createdBy;
          assert ids[i] == x.createdBy;
        }
      }
    }
  }

  /**
   * With only an author selection, a note is kept exactly when one of the names
   * resolves to its author, with every occurrence, in input order.
   */
  lemma AuthorSelection(req: Request, notes: seq<Note>)
    requires |req.selectedUsers| > 0 && |req.selectedPriorities| == 0
    requires Preselect(req, notes).Success?
    ensures forall x :: x in Preselect(req, notes).value <==> x in notes && SelectsAuthor(req.selectedUsers, x.createdBy)
    ensures forall x ::
      multiset(Preselect(req, notes).value)[x] == (if SelectsAuthor(req.selectedUsers, x.createdBy) then multiset(notes)[x] else 0)
    ensures IsSubsequence(Preselect(req, notes).value, notes)
  {
    AuthorStageSelects(req.selectedUsers, notes);
  }

  /**
   * With a priority selection, the notes kept are exactly those whose label is
   * selected, in input order, whatever the author selection was.
   */
  lemma PrioritySelection(req: Request, notes: seq<Note>)
    requires |req.selectedPriorities| > 0
    requires Preselect(req, notes).Success?
    ensures forall x :: x in Preselect(req, notes).value <==> x in notes && x.priority in req.selectedPriorities
    ensures forall x ::
      multiset(Preselect(req, notes).value)[x] == (if x.priority in req.selectedPriorities then multiset(notes)[x] else 0)
    ensures IsSubsequence(Preselect(req, notes).value, notes)
  {
    KeepCount(notes, PriorityIn(req.selectedPriorities));
    KeepSubsequence(notes, PriorityIn(req.selectedPriorities));
  }

  /**
   * A successful response is the selection rearranged: the same notes with the
   * same multiplicities, sorted by the chosen comparator with ties in selection
   * order, or the selection itself when no comparator is chosen.
   */
  lemma ResponseIsOrderedSelection(req: Request, notes: seq<Note>)
    requires FilterNotes(req, notes).Success?
    ensures multiset(FilterNotes(req, notes).value) == multiset(Preselect(req, notes).value)
    ensures ParseSort(req.sort).None? ==> FilterNotes(req, notes).value == Preselect(req, notes).value
    ensures ParseSort(req.sort).Some? ==>
      && Sorted(ParseSort(req.sort).value, FilterNotes(req, notes).value)
      && forall z :: TieClass(ParseSort(req.sort).value, FilterNotes(req, notes).value, z)
                     == TieClass(ParseSort(req.sort).value, Preselect(req, notes).value, z)
  {
  }

  /** The response never contains a note more often than the board does. */
  lemma {:induction false} ResponseDrawnFromBoard(req: Request, notes: seq<Note>)
    requires FilterNotes(req, notes).Success?
    ensures multiset(FilterNotes(req, notes).value) <= multiset(notes)
  {
    var names, labels := req.selectedUsers, req.selectedPriorities;
    if |labels| > 0 {
      KeepCount(notes, PriorityIn(labels));
    } else if |names| > 0 {
      KeepCount(notes, AuthorIn(Translate(names).value));
    }
  }

  /** Requests that fail are exactly those naming an unknown author, and the first such name is reported. */
  lemma UnknownAuthorFails(req: Request, notes: seq<Note>, i: nat)
    requires i < |req.selectedUsers| && FindUser(req.selectedUsers[i]).None?
    requires forall j :: 0 <= j < i ==> FindUser(req.selectedUsers[j]).Some?
    ensures FilterNotes(req, notes) == Failure(UnknownAuthor(req.selectedUsers[i]))
  {
  }

  /**
   * The selection in which the priority stage filters the author stage's output:
   * the author test and the priority test together, each skipped when its
   * selection is empty.
   */
  function PreselectIntended(req: Request, notes: seq<Note>): (r: Result<seq<Note>, FilterError>)
    ensures r.Failure? <==> exists i :: 0 <= i < |req.selectedUsers| && FindUser(req.selectedUsers[i]).None?
  {
    var byAuthor :- AuthorStage(req.selectedUsers, notes);
    if |req.selectedPriorities| > 0 then Success(ByPriority(byAuthor, req.selectedPriorities))
    else Success(byAuthor)
  }

  /** The intended selection keeps a note exactly when it passes both tests. */
  lemma IntendedSelection(req: Request, notes: seq<Note>)
    requires PreselectIntended(req, notes).Success?
    ensures forall x :: x in PreselectIntended(req, notes).value <==>
      && x in notes
      && (|req.selectedUsers| == 0 || SelectsAuthor(req.selectedUsers, x.createdBy))
      && (|req.selectedPriorities| == 0 || x.priority in req.selectedPriorities)
  {
  }

  /** The intended selection keeps the notes in input order. */
  lemma IntendedSelectionOrder(req: Request, notes: seq<Note>)
    requires PreselectIntended(req, notes).Success?
    ensures IsSubsequence(PreselectIntended(req, notes).value, notes)
  {
    var byAuthor := AuthorStage(req.selectedUsers, notes).value;
    AuthorStageSelects(req.selectedUsers, notes);
    if |req.selectedPriorities| > 0 {
      KeepSubsequence(byAuthor, PriorityIn(req.selectedPriorities));
      SubsequenceTransitive(PreselectIntended(req, notes).value, byAuthor, notes);
    }
  }

  /**
   * As written, a priority selection discards the author selection: a "High" note
   * by user02 is returned for a request selecting "User 1" and "High", although
   * "User 1" does not resolve to user02; the intended selection returns nothing.
   */
  lemma PriorityOverridesAuthors()
    ensures
      var n := Note("app", [], "draft", "user02", [], "High", 1, 1);
      var req := Request(["User 1"], ["High"], "");
      && Preselect(req, [n]) == Success([n])
      && !SelectsAuthor(req.selectedUsers, n.createdBy)
      && PreselectIntended(req, [n]) == Success([])
  {
    var n := Note("app", [], "draft", "user02", [], "High", 1, 1);
    var req := Request(["User 1"], ["High"], "");
    FindUserExact("User 1", Users[0]);
    assert FindUser("User 1") == Some(User("User 1", "user01"));
    assert req.selectedUsers[0] == "User 1";
    assert req.selectedUsers[1..] == [];
    assert Translate([]) == Success([]);
    assert ["user01"] + [] == ["user01"];
    assert Translate(req.selectedUsers) == Success(["user01"]);
    assert AuthorStage(req.selectedUsers, [n]) == Success(ByAuthor([n], ["user01"]));
    assert [n][1..] == [];
    assert ByAuthor([n], ["user01"]) == [];
    assert ByPriority([n], ["High"]) == [n];
    assert ByPriority([], ["High"]) == [];
    assert !SelectsAuthor(req.selectedUsers, n.createdBy);
  }
}
