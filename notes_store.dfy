/**
 * The notes store: the signed-in user's notes as the views see them, the category list,
 * the selection and the two filters. Actions call the notes service and then bring the
 * in-memory list in line with it.
 */
module NotesStore {
  import opened Common
  import opened Seqs
  import opened Text
  import opened Records
  import opened NotesService
  import opened AuthStore

  /** The synthetic category that switches the category filter off. */
  const All := "All"

  function HasId(id: string): Note -> bool {
    (n: Note) => n.id == id
  }

  function LacksId(id: string): Note -> bool {
    (n: Note) => n.id != id
  }

  function IsNotAll(c: string): bool {
    c != All
  }

  /** `selectedNote`: the first note whose id is the selected id; none when nothing is selected. */
  function SelectedIn(notes: seq<Note>, selected: Option<string>): (r: Option<Note>)
    ensures r.Some? ==> selected.Some? && r.value in notes && r.value.id == selected.value
    ensures r.Some? ==> r.value == notes[FindIndex(notes, HasId(selected.value))]
    ensures r.None? <==> selected.None? || forall n :: n in notes ==> n.id != selected.value
  {
    if selected.None? then None else Find(notes, HasId(selected.value))
  }

  /** The search text as matched: trimmed, then lower-cased. */
  function SearchKey(search: string): (key: string)
    ensures key == "" <==> forall i :: 0 <= i < |search| ==> IsSpace(search[i])
  {
    Lower(Trim(search))
  }

  /** The filter of `filteredNotes`: the category matches (or is `All`) and the key occurs in the title or content. */
  predicate Matches(n: Note, key: string, category: string)
    ensures Matches(n, key, category) ==> category == All || n.category == category
    ensures key == "" && category == All ==> Matches(n, key, category)
  {
    && (category == All || n.category == category)
    && (key == "" || Contains(Lower(n.title), key) || Contains(Lower(n.content), key))
  }

  function Shows(key: string, category: string): Note -> bool {
    (n: Note) => Matches(n, key, category)
  }

  /** `filteredNotes`: the notes passing the filter, as an order-preserving subsequence. */
  function Visible(notes: seq<Note>, search: string, category: string): (r: seq<Note>)
    ensures IsSubsequence(r, notes)
    ensures forall n :: n in r <==> n in notes && Matches(n, SearchKey(search), category)
    ensures forall n :: multiset(r)[n] == if Matches(n, SearchKey(search), category) then multiset(notes)[n] else 0
  {
    FilterIsSubsequence(notes, Shows(SearchKey(search), category));
    Filter(notes, Shows(SearchKey(search), category))
  }

  /** With the category `All` and a blank search, every note is shown, in order. */
  lemma NoFilterShowsAll(notes: seq<Note>, search: string)
    requires Trim(search) == ""
    ensures Visible(notes, search, All) == notes
  {
    assert SearchKey(search) == "";
    FilterKeepsAll(notes, Shows(SearchKey(search), All));
  }

  /** The category list `load` builds: `All`, then the service's list without any `All`. */
  function WithAll(cats: seq<string>): (r: seq<string>)
    ensures |r| > 0 && r[0] == All
    ensures forall c :: c in r <==> c == All || c in cats
    ensures forall i :: 0 < i < |r| ==> r[i] != All
  {
    var rest := Filter(cats, IsNotAll);
    assert forall i :: 0 <= i < |rest| ==> rest[i] in rest;
    [All] + rest
  }

  /** After `All`, the loaded list is the service list in its order, with every `All` left out. */
  lemma WithAllKeepsOrder(cats: seq<string>)
    ensures IsSubsequence(WithAll(cats)[1..], cats)
    ensures forall c :: multiset(WithAll(cats)[1..])[c] == if c == All then 0 else multiset(cats)[c]
  {
    assert WithAll(cats)[1..] == Filter(cats, IsNotAll);
    FilterIsSubsequence(cats, IsNotAll);
  }

  /** The list `load` builds from a sorted service list has no duplicates and keeps every other category. */
  lemma LoadedCategoriesDistinct(cats: seq<string>)
    requires StrictlySorted(cats)
    ensures NoDups(WithAll(cats))
    ensures forall c :: c in cats ==> c in WithAll(cats)
  {
    StrictlySortedNoDups(cats);
    FilterNoDups(cats, IsNotAll);
    var rest := Filter(cats, IsNotAll);
    var r := [All] + rest;
    forall i, j | 0 <= i < j < |r| ensures r[i] != r[j] {
      assert r[j] == rest[j - 1] && IsNotAll(rest[j - 1]);
      if i > 0 {
        assert r[i] == rest[i - 1];
      }
    }
    forall c | c in cats ensures c in r {
      if c != All {
        assert c in multiset(rest);
      }
    }
  }

  /** The categories after `addNew` or `save`: the list with `c` appended as by a `Set`, when it was missing. */
  function AddCategory(cats: seq<string>, c: string): (r: seq<string>)
    ensures forall x :: x in r <==> x == c || x in cats
  {
    if c in cats then cats else Distinct(cats + [c])
  }

  /** On a duplicate-free list, adding a category appends it once and keeps the rest. */
  lemma AddCategoryAppends(cats: seq<string>, c: string)
    requires NoDups(cats)
    ensures AddCategory(cats, c) == if c in cats then cats else cats + [c]
    ensures NoDups(AddCategory(cats, c)) && c in AddCategory(cats, c)
  {
    if c !in cats {
      var s := cats + [c];
      forall i, j | 0 <= i < j < |s| ensures s[i] != s[j] {
        if j == |cats| {
          assert s[i] in cats;
        }
      }
      DistinctOfNoDups(s);
    }
  }

  /** Overwriting the entry of a note with its update and then moving the update to the front is just the move. */
  lemma OverwriteThenMoveToFront(notes: seq<Note>, u: Note)
    ensures var k := FindIndex(notes, HasId(u.id));
      var written := if k == -1 then notes else notes[k := u];
      Filter(written, LacksId(u.id)) == Filter(notes, LacksId(u.id))
  {
    var k := FindIndex(notes, HasId(u.id));
    if k != -1 {
      assert HasId(u.id)(notes[k]);
      FilterOverwrite(notes, k, u, LacksId(u.id));
    }
  }

  /** The note `updateNote` returns for a note that exists. */
  function Saved(stored: seq<Note>, userId: string, id: string, patch: Patch, now: int): (u: Note)
    requires Locate(stored, userId, id) != -1
    ensures u.id == id && u.userId == userId && u.updatedAt == now
    ensures exists k :: 0 <= k < |stored| && stored[k].id == id && stored[k].userId == userId && u.createdAt == stored[k].createdAt
  {
    Merge(stored[Locate(stored, userId, id)], patch, now)
  }

  /** The ids of the notes in `notes`. */
  function NoteIds(notes: seq<Note>): (ids: set<string>)
    ensures forall id :: id in ids <==> FindIndex(notes, HasId(id)) != -1
  {
    set n | n in notes :: n.id
  }

  /**
   * `remove`'s splice at the index `findIndex` reports: the note's first entry is removed when
   * the id is listed, and the last note otherwise, since the index is then -1.
   */
  lemma SpliceAtFoundIndex(s: seq<Note>, id: string)
    ensures id in NoteIds(s) ==>
      var k := FindIndex(s, HasId(id));
      SpliceOne(s, k) == s[..k] + s[k + 1..]
    ensures id !in NoteIds(s) ==>
      SpliceOne(s, FindIndex(s, HasId(id))) == if s == [] then [] else s[..|s| - 1]
  {
    var k := FindIndex(s, HasId(id));
    assert id in NoteIds(s) <==> k != -1;
    if k == -1 && s != [] {
      assert s[|s| - 1 + 1..] == [];
    }
  }

  /** `notes[0]?.id ?? null`: the id of the first note, or none for an empty list. */
  function FirstId(notes: seq<Note>): (r: Option<string>)
    ensures r.None? <==> notes == []
    ensures r.Some? ==> r.value == notes[0].id
  {
    if notes == [] then None else Some(notes[0].id)
  }

  /** A selection that is absent or empty counts as no selection in `load`. */
  predicate Unset(selected: Option<string>) {
    selected.None? || selected.value == ""
  }

  class NotesState {
    var notes: seq<Note>
    var categories: seq<string>
    var selectedNoteId: Option<string>
    var search: string
    var activeCategory: string
    var loading: bool
    var error: Option<string>
    /** The auth store whose `user` the actions act for. */
    const auth: AuthState
    /** The persisted note list the notes service works on. */
    const db: NotesDb

    /** The category list never names a category twice. */
    ghost predicate Valid()
      reads this
    {
      NoDups(categories)
    }

    constructor(auth: AuthState, db: NotesDb)
      ensures Valid()
      ensures notes == [] && categories == [] && selectedNoteId == None
      ensures search == "" && activeCategory == All && !loading && error == None
      ensures this.auth == auth && this.db == db
    {
      this.auth := auth;
      this.db := db;
      notes := [];
      categories := [];
      selectedNoteId := None;
      search := "";
      activeCategory := All;
      loading := false;
      error := None;
    }

    function SelectedNote(): (r: Option<Note>)
      reads this
      ensures r.Some? ==> r.value in notes && selectedNoteId == Some(r.value.id)
      ensures r.None? <==> selectedNoteId.None? || forall n :: n in notes ==> n.id != selectedNoteId.value
    {
      SelectedIn(notes, selectedNoteId)
    }

    function FilteredNotes(): (r: seq<Note>)
      reads this
      ensures IsSubsequence(r, notes)
      ensures forall n :: n in r <==> n in notes && Matches(n, SearchKey(search), activeCategory)
    {
      Visible(notes, search, activeCategory)
    }

    /**
     * `load`: without a user, nothing. Otherwise the user's notes newest first, the category
     * list headed by `All`, and the newest note selected when nothing was.
     */
    method Load()
      requires Valid()
      modifies this`notes, this`categories, this`selectedNoteId, this`loading
      ensures Valid()
      ensures auth.user.None? ==> unchanged(this)
      ensures auth.user.Some? ==> notes == GetNotes(db.notes, auth.user.value.id)
      ensures auth.user.Some? ==> categories == WithAll(GetCategories(db.notes, auth.user.value.id))
      ensures auth.user.Some? && Unset(old(selectedNoteId)) && notes != [] ==> selectedNoteId == Some(notes[0].id)
      ensures !Unset(old(selectedNoteId)) || notes == [] ==> selectedNoteId == old(selectedNoteId)
      ensures auth.user.Some? ==> !loading
    {
      if auth.user.None? {
        return;
      }
      var uid := auth.user.value.id;
      loading := true;
      var cats := GetCategories(db.notes, uid);
      LoadedCategoriesDistinct(cats);
      Show(GetNotes(db.notes, uid), WithAll(cats));
      loading := false;
    }

    /** The assignments of a successful `load`: the lists, then the first note selected when nothing was. */
    method Show(listing: seq<Note>, cats: seq<string>)
      requires NoDups(cats)
      modifies this`notes, this`categories, this`selectedNoteId
      ensures Valid()
      ensures notes == listing && categories == cats
      ensures Unset(old(selectedNoteId)) && listing != [] ==> selectedNoteId == Some(listing[0].id)
      ensures !Unset(old(selectedNoteId)) || listing == [] ==> selectedNoteId == old(selectedNoteId)
    {
      notes := listing;
      categories := cats;
      if Unset(selectedNoteId) && |listing| > 0 {
        selectedNoteId := Some(listing[0].id);
      }
    }

    /** `addNew`: creates the note, puts it first and selects it, and adds its category if new. */
    method AddNew(draft: Draft, id: string, now: int)
      requires Valid()
      modifies this`notes, this`selectedNoteId, this`categories, db
      ensures Valid()
      ensures auth.user.None? ==> unchanged(this) && unchanged(db)
      ensures auth.user.Some? ==>
        var n := NewNote(id, auth.user.value.id, draft, now);
        && db.notes == old(db.notes) + [n]
        && notes == [n] + old(notes)
        && selectedNoteId == Some(n.id)
        && SelectedNote() == Some(n)
        && categories == (if n.category in old(categories) then old(categories) else old(categories) + [n.category])
    {
      if auth.user.None? {
        return;
      }
      var n := db.CreateNote(auth.user.value.id, draft, id, now);
      notes := [n] + notes;
      selectedNoteId := Some(n.id);
      assert HasId(n.id)(notes[0]);
      AddCategoryAppends(categories, n.category);
      if n.category !in categories {
        categories := Distinct(categories + [n.category]);
      }
    }

    /**
     * `save`: updates the note through the service; a failure propagates and changes nothing.
     * On success the update heads the list, followed by the other notes in their order.
     */
    method Save(id: string, patch: Patch, now: int) returns (r: Outcome)
      requires Valid()
      modifies this`notes, this`categories, db
      ensures Valid()
      ensures auth.user.None? ==> r == Pass && unchanged(this) && unchanged(db)
      ensures auth.user.Some? ==> (r == Pass <==> Locate(old(db.notes), auth.user.value.id, id) != -1)
      ensures r.Fail? ==> r.error == NotFound && notes == old(notes) && categories == old(categories)
      ensures r.Fail? ==> db.notes == old(db.notes)
      ensures auth.user.Some? && r == Pass ==>
        var k := Locate(old(db.notes), auth.user.value.id, id);
        db.notes == old(db.notes)[k := Saved(old(db.notes), auth.user.value.id, id, patch, now)]
      ensures auth.user.Some? && r == Pass ==>
        notes == [Saved(old(db.notes), auth.user.value.id, id, patch, now)] + Filter(old(notes), LacksId(id))
      ensures auth.user.Some? && r == Pass ==>
        categories == AddCategory(old(categories), Saved(old(db.notes), auth.user.value.id, id, patch, now).category)
    {
      if auth.user.None? {
        return Pass;
      }
      var res := db.UpdateNote(auth.user.value.id, id, patch, now);
      if res.Err? {
        return Fail(res.error);
      }
      MoveToFront(res.value);
      r := Pass;
    }

    /**
     * The reconciliation after a successful update: the updated note overwrites its entry,
     * then heads the list with every note of another id after it; its category is added.
     */
    method MoveToFront(u: Note)
      requires Valid()
      modifies this`notes, this`categories
      ensures Valid()
      ensures notes == [u] + Filter(old(notes), LacksId(u.id))
      ensures categories == AddCategory(old(categories), u.category)
    {
      OverwriteThenMoveToFront(notes, u);
      var idx := FindIndex(notes, HasId(u.id));
      if idx != -1 {
        notes := notes[idx := u];
      }
      notes := [u] + Filter(notes, LacksId(u.id));
      AddCategoryAppends(categories, u.category);
      if u.category !in categories {
        categories := Distinct(categories + [u.category]);
      }
    }

    /**
     * `remove`: deletes through the service, then splices the in-memory list at the note's
     * index. An id that is not in the list gives index -1, and `splice(-1, 1)` drops the
     * last note. A removed selection falls back to the new first note, or to none.
     */
    method Remove(id: string)
      modifies this`notes, this`selectedNoteId, db
      ensures auth.user.None? ==> unchanged(this) && unchanged(db)
      ensures auth.user.Some? ==> db.notes == Remaining(old(db.notes), auth.user.value.id, id)
      ensures auth.user.Some? ==> notes == SpliceOne(old(notes), FindIndex(old(notes), HasId(id)))
      ensures auth.user.Some? && id in NoteIds(old(notes)) ==>
        var k := FindIndex(old(notes), HasId(id));
        notes == old(notes)[..k] + old(notes)[k + 1..]
      ensures auth.user.Some? && id !in NoteIds(old(notes)) ==>
        notes == if old(notes) == [] then [] else old(notes)[..|old(notes)| - 1]
      ensures auth.user.Some? && old(selectedNoteId) == Some(id) ==> selectedNoteId == FirstId(notes)
      ensures auth.user.None? || old(selectedNoteId) != Some(id) ==> selectedNoteId == old(selectedNoteId)
    {
      if auth.user.None? {
        return;
      }
      ghost var before := notes;
      db.DeleteNote(auth.user.value.id, id);
      Drop(id);
      SpliceAtFoundIndex(before, id);
    }

    /** The in-memory half of `remove`: the splice at the note's index and the selection fallback. */
    method Drop(id: string)
      modifies this`notes, this`selectedNoteId
      ensures notes == SpliceOne(old(notes), FindIndex(old(notes), HasId(id)))
      ensures old(selectedNoteId) == Some(id) ==> selectedNoteId == FirstId(notes)
      ensures old(selectedNoteId) != Some(id) ==> selectedNoteId == old(selectedNoteId)
    {
      var idx := FindIndex(notes, HasId(id));
      var wasSelected := selectedNoteId == Some(id);
      var rest := SpliceOne(notes, idx);
      var first := FirstId(rest);
      notes := rest;
      if wasSelected {
        selectedNoteId := first;
      }
    }

    /** `setCategory`: sets the category filter and nothing else. */
    method SetCategory(category: string)
      modifies this`activeCategory
      ensures activeCategory == category
    {
      activeCategory := category;
    }

    /** `setSearch`: sets the search text and nothing else. */
    method SetSearch(query: string)
      modifies this`search
      ensures search == query
    {
      search := query;
    }

    /** `selectNote`: sets the selected id and nothing else. */
    method SelectNote(id: string)
      modifies this`selectedNoteId
      ensures selectedNoteId == Some(id)
    {
      selectedNoteId := Some(id);
    }
  }
}
