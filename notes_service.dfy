/**
 * The notes service: every operation reads the whole persisted note list, and the
 * mutating ones write the whole list back. The persisted list is the `notes` field of
 * `NotesDb`; the clock and the id generator are parameters.
 */
module NotesService {
  import opened Common
  import opened Seqs
  import opened Text
  import opened Records

  const NotFound := "Note not found"
  const Untitled := "Untitled"
  const General := "General"

  /** The optional fields a caller may give when creating a note (an absent payload has none). */
  datatype Draft = Draft(title: Option<string>, content: Option<string>, category: Option<string>)

  /** The fields a caller may change on an existing note. */
  datatype Patch = Patch(title: Option<string>, content: Option<string>, category: Option<string>)

  /** JavaScript's `v || fallback` on an optional string: the fallback replaces absent and empty values. */
  function OrElse(v: Option<string>, fallback: string): string {
    if v.Some? && v.value != "" then v.value else fallback
  }

  function TrimOpt(v: Option<string>): Option<string> {
    if v.Some? then Some(Trim(v.value)) else None
  }

  // ---------------------------------------------------------------------------
  // Listing

  function OwnedBy(userId: string): Note -> bool {
    (n: Note) => n.userId == userId
  }

  predicate NewestFirst(s: seq<Note>) {
    forall i, j :: 0 <= i < j < |s| ==> s[i].updatedAt >= s[j].updatedAt
  }

  /** Inserts `n` before the first note that is not newer than it. */
  function InsertByRecency(n: Note, s: seq<Note>): (r: seq<Note>)
    requires NewestFirst(s)
    ensures NewestFirst(r)
    ensures multiset(r) == multiset(s) + multiset{n}
    decreases |s|
  {
    if s == [] || s[0].updatedAt <= n.updatedAt then [n] + s
    else
      var rest := InsertByRecency(n, s[1..]);
      PrependNewest(s, n, rest);
      [s[0]] + rest
  }

  lemma PrependNewest(s: seq<Note>, n: Note, rest: seq<Note>)
    requires NewestFirst(s) && s != [] && s[0].updatedAt > n.updatedAt
    requires NewestFirst(rest) && multiset(rest) == multiset(s[1..]) + multiset{n}
    ensures NewestFirst([s[0]] + rest)
    ensures multiset([s[0]] + rest) == multiset(s) + multiset{n}
  {
    assert s == [s[0]] + s[1..];
    forall j | 0 <= j < |rest| ensures rest[j].updatedAt <= s[0].updatedAt {
      assert rest[j] in multiset(rest);
      if rest[j] != n {
        assert rest[j] in multiset(s[1..]);
        var i :| 0 <= i < |s[1..]| && s[1..][i] == rest[j];
        assert s[i + 1] == rest[j];
      }
    }
    var r := [s[0]] + rest;
    forall i, j | 0 <= i < j < |r| ensures r[i].updatedAt >= r[j].updatedAt {
      assert r[j] == rest[j - 1];
      if i > 0 {
        assert r[i] == rest[i - 1];
      }
    }
  }

  /** A stable sort by `updatedAt`, newest first (the comparator `b.updatedAt - a.updatedAt`). */
  function SortByRecency(s: seq<Note>): (r: seq<Note>)
    ensures NewestFirst(r)
    ensures multiset(r) == multiset(s)
    decreases |s|
  {
    if s == [] then []
    else
      assert s == [s[0]] + s[1..];
      InsertByRecency(s[0], SortByRecency(s[1..]))
  }

  function AtTime(t: int): Note -> bool {
    (n: Note) => n.updatedAt == t
  }

  /** Inserting `n` puts it before every note with its own timestamp and keeps their order. */
  lemma {:induction false} InsertKeepsTies(n: Note, s: seq<Note>, t: int)
    requires NewestFirst(s)
    ensures Filter(InsertByRecency(n, s), AtTime(t)) ==
      if n.updatedAt == t then [n] + Filter(s, AtTime(t)) else Filter(s, AtTime(t))
    decreases |s|
  {
    if s == [] || s[0].updatedAt <= n.updatedAt {
      assert ([n] + s)[0] == n && ([n] + s)[1..] == s;
    } else {
      InsertKeepsTies(n, s[1..], t);
      var rest := InsertByRecency(n, s[1..]);
      assert ([s[0]] + rest)[0] == s[0] && ([s[0]] + rest)[1..] == rest;
    }
  }

  /** The sort is stable: notes with equal timestamps keep their stored order. */
  lemma {:induction false} SortByRecencyIsStable(s: seq<Note>, t: int)
    ensures Filter(SortByRecency(s), AtTime(t)) == Filter(s, AtTime(t))
    decreases |s|
  {
    if s != [] {
      SortByRecencyIsStable(s[1..], t);
      InsertKeepsTies(s[0], SortByRecency(s[1..]), t);
    }
  }

  /** `getNotes`: the notes of `userId`, each as often as it is stored, newest first. */
  function GetNotes(stored: seq<Note>, userId: string): (r: seq<Note>)
    ensures NewestFirst(r)
    ensures forall n :: multiset(r)[n] == if n.userId == userId then multiset(stored)[n] else 0
    ensures forall n :: n in r <==> n in stored && n.userId == userId
  {
    SortByRecency(Filter(stored, OwnedBy(userId)))
  }

  /** In a newest-first permutation of `s`, a note strictly newer than every other note of `s` comes first. */
  lemma StrictlyNewestFirst(s: seq<Note>, r: seq<Note>, n: Note)
    requires NewestFirst(r) && multiset(r) == multiset(s)
    requires n in s
    requires forall m :: m in s && m != n ==> m.updatedAt < n.updatedAt
    ensures |r| > 0 && r[0] == n
  {
    assert n in multiset(r);
    var k :| 0 <= k < |r| && r[k] == n;
    assert r[0] in multiset(s);
    assert k == 0 || r[0].updatedAt >= r[k].updatedAt;
  }

  /** A note of `userId` that is strictly newer than all the user's other notes heads `getNotes`. */
  lemma NewestNoteListedFirst(stored: seq<Note>, userId: string, n: Note)
    requires n in stored && n.userId == userId
    requires forall m :: m in stored && m.userId == userId && m != n ==> m.updatedAt < n.updatedAt
    ensures |GetNotes(stored, userId)| > 0 && GetNotes(stored, userId)[0] == n
  {
    var owned := Filter(stored, OwnedBy(userId));
    assert n in multiset(owned);
    StrictlyNewestFirst(owned, GetNotes(stored, userId), n);
  }

  // ---------------------------------------------------------------------------
  // Creating

  /** The note `createNote` builds from `draft`, with the defaults for absent or empty fields. */
  function NewNote(id: string, userId: string, draft: Draft, now: int): (n: Note)
    ensures n.id == id && n.userId == userId && n.createdAt == now && n.updatedAt == now
    ensures draft.title.Some? && Trim(draft.title.value) != "" ==> n.title == Trim(draft.title.value)
    ensures draft.title.None? || Trim(draft.title.value) == "" ==> n.title == Untitled
    ensures n.content == if draft.content.Some? then draft.content.value else ""
    ensures draft.category.Some? && draft.category.value != "" ==> n.category == draft.category.value
    ensures draft.category.None? || draft.category.value == "" ==> n.category == General
  {
    Note(id, userId, OrElse(TrimOpt(draft.title), Untitled), OrElse(draft.content, ""),
         OrElse(draft.category, General), now, now)
  }

  /** A note created later than every existing note of its owner heads the owner's listing. */
  lemma CreatedNoteListedFirst(stored: seq<Note>, userId: string, id: string, draft: Draft, now: int)
    requires forall m :: m in stored && m.userId == userId ==> m.updatedAt < now
    ensures var n := NewNote(id, userId, draft, now);
      |GetNotes(stored + [n], userId)| > 0 && GetNotes(stored + [n], userId)[0] == n
  {
    var n := NewNote(id, userId, draft, now);
    NewestNoteListedFirst(stored + [n], userId, n);
  }

  // ---------------------------------------------------------------------------
  // Updating

  function Addresses(userId: string, id: string): Note -> bool {
    (n: Note) => n.id == id && n.userId == userId
  }

  /** The index `updateNote` and `deleteNote` look for: the first note with this id and owner, or -1. */
  function Locate(stored: seq<Note>, userId: string, id: string): (r: int)
    ensures -1 <= r < |stored|
    ensures r == -1 <==> forall n :: n in stored ==> !(n.id == id && n.userId == userId)
    ensures r != -1 ==> stored[r].id == id && stored[r].userId == userId
    ensures r != -1 ==> forall i :: 0 <= i < r ==> !(stored[i].id == id && stored[i].userId == userId)
  {
    FindIndex(stored, Addresses(userId, id))
  }

  /** The note `updateNote` stores: the patched fields replaced, the identity kept, the time refreshed. */
  function Merge(n: Note, patch: Patch, now: int): (r: Note)
    ensures r.id == n.id && r.userId == n.userId && r.createdAt == n.createdAt
    ensures r.updatedAt == now
    ensures r.title == if patch.title.Some? then patch.title.value else n.title
    ensures r.content == if patch.content.Some? then patch.content.value else n.content
    ensures r.category == if patch.category.Some? then patch.category.value else n.category
  {
    n.(title := if patch.title.Some? then patch.title.value else n.title,
       content := if patch.content.Some? then patch.content.value else n.content,
       category := if patch.category.Some? then patch.category.value else n.category,
       updatedAt := now)
  }

  /** A note updated later than all other notes of its owner moves to the head of the owner's listing. */
  lemma UpdatedNoteListedFirst(stored: seq<Note>, userId: string, id: string, patch: Patch, now: int)
    requires Locate(stored, userId, id) != -1
    requires forall i :: 0 <= i < |stored| && i != Locate(stored, userId, id) && stored[i].userId == userId
               ==> stored[i].updatedAt < now
    ensures var k := Locate(stored, userId, id);
      var u := Merge(stored[k], patch, now);
      |GetNotes(stored[k := u], userId)| > 0 && GetNotes(stored[k := u], userId)[0] == u
  {
    var k := Locate(stored, userId, id);
    var u := Merge(stored[k], patch, now);
    var s := stored[k := u];
    assert s[k] == u;
    forall m | m in s && m.userId == userId && m != u ensures m.updatedAt < now {
      var i :| 0 <= i < |s| && s[i] == m;
      assert i != k;
    }
    NewestNoteListedFirst(s, userId, u);
  }

  // ---------------------------------------------------------------------------
  // Deleting

  function Spares(userId: string, id: string): Note -> bool {
    (n: Note) => !(n.id == id && n.userId == userId)
  }

  /** The list `deleteNote` writes back: every note except those with this id and owner, in order. */
  function Remaining(stored: seq<Note>, userId: string, id: string): (r: seq<Note>)
    ensures IsSubsequence(r, stored)
    ensures forall n :: n in r ==> !(n.id == id && n.userId == userId)
    ensures forall n :: multiset(r)[n] == if n.id == id && n.userId == userId then 0 else multiset(stored)[n]
  {
    FilterIsSubsequence(stored, Spares(userId, id));
    Filter(stored, Spares(userId, id))
  }

  /** Deleting a note that is not there (no error is raised) leaves the list as it was. */
  lemma DeleteMissingIsNoop(stored: seq<Note>, userId: string, id: string)
    requires Locate(stored, userId, id) == -1
    ensures Remaining(stored, userId, id) == stored
  {
    forall n | n in stored ensures Spares(userId, id)(n) {
      var i :| 0 <= i < |stored| && stored[i] == n;
    }
    FilterKeepsAll(stored, Spares(userId, id));
  }

  /** Deleting twice is deleting once. */
  lemma DeleteIdempotent(stored: seq<Note>, userId: string, id: string)
    ensures Remaining(Remaining(stored, userId, id), userId, id) == Remaining(stored, userId, id)
  {
    FilterIdempotent(stored, Spares(userId, id));
  }

  /** Deleting by another owner's id never changes a user's listing. */
  lemma DeleteByOtherOwnerKeepsListing(stored: seq<Note>, owner: string, other: string, id: string)
    requires other != owner
    ensures GetNotes(Remaining(stored, other, id), owner) == GetNotes(stored, owner)
  {
    FilterAbsorbs(stored, Spares(other, id), OwnedBy(owner));
  }

  // ---------------------------------------------------------------------------
  // Categories

  /** The category a note contributes: its own, or `General` when that is empty. */
  function CategoryOf(n: Note): (c: string)
    ensures c != ""
    ensures n.category == "" ==> c == General
    ensures n.category != "" ==> c == n.category
  {
    if n.category == "" then General else n.category
  }

  predicate StrictlySorted(s: seq<string>) {
    forall i, j :: 0 <= i < j < |s| ==> Less(s[i], s[j])
  }

  lemma StrictlySortedNoDups(s: seq<string>)
    requires StrictlySorted(s)
    ensures NoDups(s)
  {
    forall i, j | 0 <= i < j < |s| ensures s[i] != s[j] {
      LessIrreflexive(s[i]);
    }
  }

  lemma BelowHead(c: string, s: seq<string>)
    requires StrictlySorted(s) && s != [] && Less(c, s[0])
    ensures forall x :: x in s ==> Less(c, x)
  {
    forall x | x in s ensures Less(c, x) {
      if x != s[0] {
        var j :| 0 <= j < |s| && s[j] == x;
        LessTransitive(c, s[0], x);
      }
    }
  }

  /** Adds `c` to a strictly sorted list unless it is already there. */
  function InsertCategory(c: string, s: seq<string>): (r: seq<string>)
    requires StrictlySorted(s)
    ensures StrictlySorted(r)
    ensures forall x :: x in r <==> x == c || x in s
    decreases |s|
  {
    if s == [] then [c]
    else if c == s[0] then s
    else if Less(c, s[0]) then
      BelowHead(c, s);
      [c] + s
    else
      LessTotal(c, s[0]);
      var rest := InsertCategory(c, s[1..]);
      BelowHead(s[0], rest);
      [s[0]] + rest
  }

  /** The set of `General` and the notes' categories, as a sorted list. */
  function CollectCategories(notes: seq<Note>): (r: seq<string>)
    ensures StrictlySorted(r)
    ensures General in r
    ensures forall n :: n in notes ==> CategoryOf(n) in r
    ensures forall x :: x in r && x != General ==> exists n :: n in notes && CategoryOf(n) == x
    decreases |notes|
  {
    if notes == [] then [General]
    else
      var rest := CollectCategories(notes[1..]);
      assert forall n :: n in notes[1..] ==> n in notes;
      assert forall n :: n in notes ==> n == notes[0] || n in notes[1..];
      InsertCategory(CategoryOf(notes[0]), rest)
  }

  /** `getCategories`: `General` and every category of the user's notes, sorted, each once. */
  function GetCategories(stored: seq<Note>, userId: string): (r: seq<string>)
    ensures StrictlySorted(r) && NoDups(r)
    ensures General in r
    ensures forall n :: n in stored && n.userId == userId ==> CategoryOf(n) in r
    ensures forall x :: x in r && x != General ==>
              exists n :: n in stored && n.userId == userId && CategoryOf(n) == x
  {
    var r := CollectCategories(GetNotes(stored, userId));
    StrictlySortedNoDups(r);
    r
  }

  /** A user with no notes has exactly the category `General`. */
  lemma NoNotesOnlyGeneral(stored: seq<Note>, userId: string)
    requires forall n :: n in stored ==> n.userId != userId
    ensures GetCategories(stored, userId) == [General]
  {
    var r := GetCategories(stored, userId);
    forall x | x in r ensures x == General { }
    SortedListsWithSameElementsAgree(r, [General]);
  }

  /**
   * Sorting a set gives one list: every strictly sorted list with the same elements as
   * `getCategories` equals it, so building the list by sorted insertion is sorting the set.
   */
  lemma {:induction false} SortedListsWithSameElementsAgree(a: seq<string>, b: seq<string>)
    requires StrictlySorted(a) && StrictlySorted(b)
    requires forall x :: x in a <==> x in b
    ensures a == b
    decreases |a|
  {
    assert a != [] ==> a[0] in b;
    assert b != [] ==> b[0] in a;
    if a != [] && b != [] {
      if a[0] != b[0] {
        assert b[0] in a;
        assert a[0] in b;
        var i :| 0 <= i < |a| && a[i] == b[0];
        var j :| 0 <= j < |b| && b[j] == a[0];
        assert Less(a[0], b[0]);
        assert Less(b[0], a[0]);
        LessAsymmetric(a[0], b[0]);
      }
      forall x ensures x in a[1..] <==> x in b[1..] {
        if x in a[1..] {
          var i :| 0 <= i < |a[1..]| && a[1..][i] == x;
          assert Less(a[0], a[i + 1]);
          LessIrreflexive(x);
          assert a[i + 1] == x && x in a && x in b;
          var j :| 0 <= j < |b| && b[j] == x;
          assert j != 0;
          assert b[1..][j - 1] == x;
        }
        if x in b[1..] {
          var j :| 0 <= j < |b[1..]| && b[1..][j] == x;
          assert Less(b[0], b[j + 1]);
          LessIrreflexive(x);
          assert b[j + 1] == x && x in b && x in a;
          var i :| 0 <= i < |a| && a[i] == x;
          assert i != 0;
          assert a[1..][i - 1] == x;
        }
      }
      SortedListsWithSameElementsAgree(a[1..], b[1..]);
      assert a == [a[0]] + a[1..] && b == [b[0]] + b[1..];
    }
  }

  // ---------------------------------------------------------------------------
  // The persisted note list

  /** The storage slot holding every user's notes. */
  class NotesDb {
    var notes: seq<Note>

    /** The slot as found in storage (the empty list when it was absent or unreadable). */
    constructor(stored: seq<Note>)
      ensures notes == stored
    {
      notes := stored;
    }

    /** `createNote`: appends the new note; every earlier entry stays where it was. */
    method CreateNote(userId: string, draft: Draft, id: string, now: int) returns (n: Note)
      modifies this
      ensures n == NewNote(id, userId, draft, now)
      ensures notes == old(notes) + [n]
    {
      n := NewNote(id, userId, draft, now);
      notes := notes + [n];
    }

    /** `updateNote`: replaces the first note with this id and owner, or fails and writes nothing. */
    method UpdateNote(userId: string, id: string, patch: Patch, now: int) returns (r: Result<Note>)
      modifies this
      ensures var k := Locate(old(notes), userId, id);
        if k == -1 then r == Err(NotFound) && notes == old(notes)
        else r == Ok(Merge(old(notes)[k], patch, now)) && notes == old(notes)[k := r.value]
    {
      var idx := Locate(notes, userId, id);
      if idx == -1 {
        return Err(NotFound);
      }
      var updated := Merge(notes[idx], patch, now);
      notes := notes[idx := updated];
      r := Ok(updated);
    }

    /** `deleteNote`: drops every note with this id and owner; a missing note is not an error. */
    method DeleteNote(userId: string, id: string)
      modifies this
      ensures notes == Remaining(old(notes), userId, id)
    {
      notes := Remaining(notes, userId, id);
    }
  }
}
