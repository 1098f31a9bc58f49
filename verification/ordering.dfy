/**
 * The three orderings of the `/filters` handler (index.js:76-88) and the sort
 * that applies them. `Array.prototype.sort` is stable, so with a consistent
 * comparator its result is fully determined; the model computes it with a
 * stable insertion sort and proves that the result is the only sorted
 * permutation that keeps tied notes in input order.
 */
module Ordering {
  import opened Wrappers
  import opened Notes
  import opened Sequences
  import StringOrder

  /** The comparators selected by the request's `sort` field. */
  datatype Comparator = Alphabetical | CreatedAtDesc | UpdatedAtDesc

  /** The handler's `sort ===` chain: any other value selects no comparator. */
  function ParseSort(sort: string): (r: Option<Comparator>)
    ensures r == Some(Alphabetical) <==> sort == "Alphabetical Order"
    ensures r == Some(CreatedAtDesc) <==> sort == "Created At"
    ensures r == Some(UpdatedAtDesc) <==> sort == "Updated At"
  {
    if sort == "Alphabetical Order" then Some(Alphabetical)
    else if sort == "Created At" then Some(CreatedAtDesc)
    else if sort == "Updated At" then Some(UpdatedAtDesc)
    else None
  }

  /**
   * `a` may be placed before `b`: the comparator returns a value `<= 0` for
   * `(a, b)`. Bodies ascend; creation and update times descend.
   */
  predicate Precedes(c: Comparator, a: Note, b: Note) {
    match c
    case Alphabetical => StringOrder.LexLe(a.note, b.note)
    case CreatedAtDesc => a.createdAt >= b.createdAt
    case UpdatedAtDesc => a.updatedAt >= b.updatedAt
  }

  /** The comparator returns 0: neither note has to come first. */
  predicate Tie(c: Comparator, a: Note, b: Note) {
    Precedes(c, a, b) && Precedes(c, b, a)
  }

  lemma PrecedesReflexive(c: Comparator, a: Note)
    ensures Precedes(c, a, a)
  {
    if c == Alphabetical {
      StringOrder.LexLeReflexive(a.note);
    }
  }

  lemma PrecedesTotal(c: Comparator, a: Note, b: Note)
    ensures Precedes(c, a, b) || Precedes(c, b, a)
  {
    if c == Alphabetical {
      StringOrder.LexLeTotal(a.note, b.note);
    }
  }

  lemma PrecedesTransitive(c: Comparator, a: Note, b: Note, d: Note)
    requires Precedes(c, a, b) && Precedes(c, b, d)
    ensures Precedes(c, a, d)
  {
    if c == Alphabetical {
      StringOrder.LexLeTransitive(a.note, b.note, d.note);
    }
  }

  /** Two notes tie exactly when they agree on the field the comparator reads. */
  lemma TieIsEqualKey(c: Comparator, a: Note, b: Note)
    ensures Tie(c, a, b) <==> match c
      case Alphabetical => a.note == b.note
      case CreatedAtDesc => a.createdAt == b.createdAt
      case UpdatedAtDesc => a.updatedAt == b.updatedAt
  {
    if c == Alphabetical {
      if Tie(c, a, b) {
        StringOrder.LexLeAntisymmetric(a.note, b.note);
      } else if a.note == b.note {
        StringOrder.LexLeReflexive(a.note);
      }
    }
  }

  /** Every earlier note may precede every later one. */
  ghost predicate Sorted(c: Comparator, s: seq<Note>) {
    forall i, j :: 0 <= i < j < |s| ==> Precedes(c, s[i], s[j])
  }

  /** The notes of `s` that tie with `z`, in their order in `s`. */
  function TieClass(c: Comparator, s: seq<Note>, z: Note): seq<Note> {
    Keep(s, n => Tie(c, n, z))
  }

  /** Places `x` before the first note it may precede: ties keep `x` ahead. */
  function Insert(c: Comparator, x: Note, t: seq<Note>): (r: seq<Note>)
    ensures multiset(r) == multiset(t) + multiset{x}
  {
    if |t| == 0 then [x]
    else if Precedes(c, x, t[0]) then [x] + t
    else
      assert t == [t[0]] + t[1..];
      [t[0]] + Insert(c, x, t[1..])
  }

  /** Stable insertion sort: the result of `notes.sort(compare)`. */
  function SortBy(c: Comparator, s: seq<Note>): (r: seq<Note>)
    ensures multiset(r) == multiset(s)
  {
    if |s| == 0 then []
    else
      assert s == [s[0]] + s[1..];
      Insert(c, s[0], SortBy(c, s[1..]))
  }

  lemma {:induction false} InsertSorted(c: Comparator, x: Note, t: seq<Note>)
    requires Sorted(c, t)
    ensures Sorted(c, Insert(c, x, t))
    decreases |t|
  {
    if |t| == 0 {
    } else if Precedes(c, x, t[0]) {
      forall j | 0 < j < |t|
        ensures Precedes(c, x, t[j])
      {
        PrecedesTransitive(c, x, t[0], t[j]);
      }
    } else {
      var rest := Insert(c, x, t[1..]);
      InsertSorted(c, x, t[1..]);
      PrecedesTotal(c, x, t[0]);
      forall k | 0 <= k < |rest|
        ensures Precedes(c, t[0], rest[k])
      {
        assert rest[k] in multiset(rest);
        if rest[k] != x {
          assert rest[k] in multiset(t[1..]);
          var j :| 0 <= j < |t[1..]| && t[1..][j] == rest[k];
          assert t[j + 1] == rest[k];
        }
      }
      var r := [t[0]] + rest;
      forall i, j | 0 <= i < j < |r|
        ensures Precedes(c, r[i], r[j])
      {
        if i > 0 {
          assert r[i] == rest[i - 1] && r[j] == rest[j - 1];
        } else {
          assert r[j] == rest[j - 1];
        }
      }
    }
  }

  /** The sort's output is ordered by the comparator. */
  lemma {:induction false} SortBySorted(c: Comparator, s: seq<Note>)
    ensures Sorted(c, SortBy(c, s))
    decreases |s|
  {
    if |s| > 0 {
      SortBySorted(c, s[1..]);
      InsertSorted(c, s[0], SortBy(c, s[1..]));
    }
  }

  lemma TieClassCons(c: Comparator, x: Note, t: seq<Note>, z: Note)
    ensures TieClass(c, [x] + t, z) == (if Tie(c, x, z) then [x] else []) + TieClass(c, t, z)
  {
  }

  /** Inserting `x` adds it at the front of its own tie class and disturbs no other class. */
  lemma {:induction false} InsertTieClass(c: Comparator, x: Note, t: seq<Note>, z: Note)
    ensures TieClass(c, Insert(c, x, t), z) == (if Tie(c, x, z) then [x] else []) + TieClass(c, t, z)
    decreases |t|
  {
    if |t| == 0 {
      assert [x] == [x] + t;
      TieClassCons(c, x, t, z);
    } else if Precedes(c, x, t[0]) {
      TieClassCons(c, x, t, z);
    } else {
      var t0, rest := t[0], t[1..];
      var h0 := if Tie(c, t0, z) then [t0] else [];
      var hx := if Tie(c, x, z) then [x] else [];
      if Tie(c, x, z) && Tie(c, t0, z) {
        PrecedesTransitive(c, x, z, t0);
        assert false;
      }
      calc {
        TieClass(c, Insert(c, x, t), z);
        TieClass(c, [t0] + Insert(c, x, rest), z);
        { TieClassCons(c, t0, Insert(c, x, rest), z); }
        h0 + TieClass(c, Insert(c, x, rest), z);
        { InsertTieClass(c, x, rest, z); }
        h0 + (hx + TieClass(c, rest, z));
        { assert h0 == [] || hx == []; }
        hx + (h0 + TieClass(c, rest, z));
        { assert t == [t0] + rest;
          TieClassCons(c, t0, rest, z); }
        hx + TieClass(c, t, z);
      }
    }
  }

  /** The sort is stable: the notes of every tie class appear in their input order. */
  lemma {:induction false} SortByStable(c: Comparator, s: seq<Note>)
    ensures forall z :: TieClass(c, SortBy(c, s), z) == TieClass(c, s, z)
    decreases |s|
  {
    if |s| > 0 {
      SortByStable(c, s[1..]);
      assert s == [s[0]] + s[1..];
      forall z
        ensures TieClass(c, SortBy(c, s), z) == TieClass(c, s, z)
      {
        InsertTieClass(c, s[0], SortBy(c, s[1..]), z);
        TieClassCons(c, s[0], s[1..], z);
      }
    }
  }

  /** In a sorted sequence the first note may precede every note that occurs in it. */
  lemma HeadPrecedesMembers(c: Comparator, s: seq<Note>, x: Note)
    requires Sorted(c, s) && x in s
    ensures Precedes(c, s[0], x)
  {
    var j :| 0 <= j < |s| && s[j] == x;
    if j == 0 {
      PrecedesReflexive(c, x);
    }
  }

  /** Every note belongs to its own tie class. */
  lemma InOwnTieClass(c: Comparator, s: seq<Note>, x: Note)
    requires x in s
    ensures x in TieClass(c, s, x)
  {
    PrecedesReflexive(c, x);
  }

  /** Equal heads and equal tie classes leave equal tie classes for the tails. */
  lemma TailTieClasses(c: Comparator, x: Note, a: seq<Note>, b: seq<Note>)
    requires forall z :: TieClass(c, [x] + a, z) == TieClass(c, [x] + b, z)
    ensures forall z :: TieClass(c, a, z) == TieClass(c, b, z)
  {
    forall z
      ensures TieClass(c, a, z) == TieClass(c, b, z)
    {
      TieClassCons(c, x, a, z);
      TieClassCons(c, x, b, z);
      var h := if Tie(c, x, z) then [x] else [];
      assert h + TieClass(c, a, z) == h + TieClass(c, b, z);
      assert TieClass(c, a, z) == (h + TieClass(c, a, z))[|h|..];
      assert TieClass(c, b, z) == (h + TieClass(c, b, z))[|h|..];
    }
  }

  /** Sorted sequences whose heads' tie classes agree start with the same note. */
  lemma HeadsAgree(c: Comparator, a: seq<Note>, b: seq<Note>)
    requires |a| > 0 && |b| > 0 && Sorted(c, a) && Sorted(c, b)
    requires TieClass(c, a, a[0]) == TieClass(c, b, a[0])
    requires TieClass(c, a, b[0]) == TieClass(c, b, b[0])
    ensures a[0] == b[0]
  {
    var x, y := a[0], b[0];
    InOwnTieClass(c, a, x);
    InOwnTieClass(c, b, y);
    HeadPrecedesMembers(c, b, x);
    HeadPrecedesMembers(c, a, y);
    assert a == [x] + a[1..];
    assert b == [y] + b[1..];
    PrecedesReflexive(c, x);
    TieClassCons(c, x, a[1..], x);
    TieClassCons(c, y, b[1..], x);
    assert Tie(c, y, x);
    assert TieClass(c, a, x)[0] == x;
    assert TieClass(c, b, x)[0] == y;
  }

  /** Two sorted sequences with the same tie classes are equal. */
  lemma {:induction false} SortedTieClassesDetermine(c: Comparator, a: seq<Note>, b: seq<Note>)
    requires Sorted(c, a) && Sorted(c, b)
    requires forall z :: TieClass(c, a, z) == TieClass(c, b, z)
    ensures a == b
    decreases |a|
  {
    if |a| == 0 && |b| > 0 {
      InOwnTieClass(c, b, b[0]);
      assert false;
    } else if |a| > 0 && |b| == 0 {
      InOwnTieClass(c, a, a[0]);
      assert false;
    } else if |a| > 0 {
      HeadsAgree(c, a, b);
      var x := a[0];
      assert a == [x] + a[1..];
      assert b == [x] + b[1..];
      TailTieClasses(c, x, a[1..], b[1..]);
      SortedTieClassesDetermine(c, a[1..], b[1..]);
    }
  }

  /**
   * The specification of a stable sort pins its result down: any sequence that is
   * sorted and keeps every tie class of `s` in order is `SortBy(c, s)`.
   */
  lemma SortByUnique(c: Comparator, s: seq<Note>, r: seq<Note>)
    requires Sorted(c, r)
    requires forall z :: TieClass(c, r, z) == TieClass(c, s, z)
    ensures r == SortBy(c, s)
  {
    SortBySorted(c, s);
    SortByStable(c, s);
    SortedTieClassesDetermine(c, r, SortBy(c, s));
  }
}
