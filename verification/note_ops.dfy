/** The note handlers of the `App` component (src/index.jsx): each takes the
    current state and the handler's inputs and returns the next state. The
    `useState` form fields the handlers read (`title`, `body`, `editTitle`, ...)
    are parameters; the fresh id (`+new Date()`) and the current or edited
    instant are parameters too. */
module NoteOps {
  import opened Text
  import opened Seqs
  import opened Domain

  /** The `filter` callback of `deleteNote`. */
  function OtherThan(id: int): Note -> bool {
    (n: Note) => n.id != id
  }

  /** The `filter` callback of the folder queries. */
  function InFolder(folderId: Option<int>): Note -> bool {
    (n: Note) => n.folderId == folderId
  }

  /** The note `addNote` appends for accepted input. */
  function NewNote(title: string, body: string, selected: Option<int>, freshId: int, now: int): Note {
    Note(freshId, Trim(title), Trim(body), false, now, selected)
  }

  /** `addNote`: rejects a blank title or body; otherwise appends one unarchived
      note with the trimmed text in the selected folder, and bumps that folder's
      stored `noteCount` when the selection is truthy. */
  function AddNote(st: Store, title: string, body: string, selected: Option<int>, freshId: int, now: int): (r: Store)
    ensures Blank(title) || Blank(body) ==> r == st
    ensures !Blank(title) && !Blank(body) ==>
      && |r.notes| == |st.notes| + 1
      && r.notes[..|st.notes|] == st.notes
      && r.notes[|st.notes|] == NewNote(title, body, selected, freshId, now)
    ensures |r.folders| == |st.folders|
    ensures forall k :: 0 <= k < |st.folders| ==>
      && r.folders[k].(noteCount := st.folders[k].noteCount) == st.folders[k]
      && r.folders[k].noteCount == st.folders[k].noteCount +
           (if !Blank(title) && !Blank(body) && Truthy(selected) && st.folders[k].id == selected.value then 1 else 0)
  {
    if Blank(title) || Blank(body) then st
    else
      var notes := st.notes + [NewNote(title, body, selected, freshId, now)];
      if Truthy(selected) then
        var folders := seq(|st.folders|, k requires 0 <= k < |st.folders| =>
          if st.folders[k].id == selected.value
          then st.folders[k].(noteCount := st.folders[k].noteCount + 1)
          else st.folders[k]);
        Store(notes, folders)
      else
        Store(notes, st.folders)
  }

  /** `deleteNote`: drops every note with the given id and keeps the others in order. */
  function DeleteNote(notes: seq<Note>, id: int): (r: seq<Note>)
    ensures forall n :: multiset(r)[n] == if n.id == id then 0 else multiset(notes)[n]
    ensures forall k :: 0 <= k < |r| ==> r[k].id != id
    ensures IsSubsequence(r, notes)
  {
    Filter(notes, OtherThan(id))
  }

  /** `saveEditNote`: rejects a blank title or body; otherwise the note being
      edited gets the trimmed title and body and the edited date, and nothing
      else changes. */
  function SaveEditNote(notes: seq<Note>, editing: Option<int>, title: string, body: string, editedAt: int): (r: seq<Note>)
    ensures Blank(title) || Blank(body) ==> r == notes
    ensures |r| == |notes| && NoteIds(r) == NoteIds(notes)
    ensures forall k :: 0 <= k < |notes| ==>
      && r[k].archived == notes[k].archived
      && r[k].folderId == notes[k].folderId
      && (editing != Some(notes[k].id) ==> r[k] == notes[k])
      && (editing == Some(notes[k].id) && !Blank(title) && !Blank(body) ==>
            r[k].title == Trim(title) && r[k].body == Trim(body) && r[k].createdAt == editedAt)
  {
    if Blank(title) || Blank(body) then notes
    else
      seq(|notes|, k requires 0 <= k < |notes| =>
        if editing == Some(notes[k].id)
        then notes[k].(title := Trim(title), body := Trim(body), createdAt := editedAt)
        else notes[k])
  }

  /** Milliseconds in a day. */
  const DayMs: int := 86400000

  /** The instant `new Date(iso.split('T')[0])` denotes: a date-only ISO string
      is read as UTC midnight, so only the UTC day of the instant survives. */
  function UtcDayStart(t: int): (d: int)
    ensures d <= t < d + DayMs
    ensures d % DayMs == 0
  {
    t - t % DayMs
  }

  /** The edit form's fields: the note being edited, its title, body and date. */
  datatype EditForm = EditForm(editing: Option<int>, title: string, body: string, date: int)

  /** `startEditNote`: loads the note into the edit form; the date field holds
      only the UTC day of `createdAt`. */
  function StartEditNote(n: Note): (f: EditForm)
    ensures f.editing == Some(n.id) && f.title == n.title && f.body == n.body
    ensures f.date <= n.createdAt < f.date + DayMs && f.date % DayMs == 0
  {
    EditForm(Some(n.id), n.title, n.body, UtcDayStart(n.createdAt))
  }

  /** Opening a valid note for editing and saving at once keeps its text but
      moves `createdAt` back to UTC midnight of its day: strictly earlier unless
      it already was midnight. */
  lemma StartThenSaveTruncatesDate(notes: seq<Note>, k: int)
    requires 0 <= k < |notes| && NoteTextValid(notes[k])
    ensures
      var f := StartEditNote(notes[k]);
      var r := SaveEditNote(notes, f.editing, f.title, f.body, f.date);
      && |r| == |notes|
      && r[k] == notes[k].(createdAt := UtcDayStart(notes[k].createdAt))
      && (notes[k].createdAt % DayMs != 0 ==> r[k].createdAt < notes[k].createdAt)
  {
    var n := notes[k];
    TrimOfTrimmed(n.title);
    TrimOfTrimmed(n.body);
    var f := StartEditNote(n);
    var r := SaveEditNote(notes, f.editing, f.title, f.body, f.date);
    assert NoteIds(r)[k] == NoteIds(notes)[k];
  }

  /** `toggleArchiveNote`: flips `archived` on the matching note only. */
  function ToggleArchiveNote(notes: seq<Note>, id: int): (r: seq<Note>)
    ensures |r| == |notes| && NoteIds(r) == NoteIds(notes)
    ensures forall k :: 0 <= k < |notes| ==>
      && (r[k].archived <==> (if notes[k].id == id then !notes[k].archived else notes[k].archived))
      && r[k].(archived := notes[k].archived) == notes[k]
  {
    seq(|notes|, k requires 0 <= k < |notes| =>
      if notes[k].id == id then notes[k].(archived := !notes[k].archived) else notes[k])
  }

  /** `moveNoteToFolder`: the matching note's `folderId` becomes `folderId`. */
  function MoveNoteToFolder(notes: seq<Note>, noteId: int, folderId: Option<int>): (r: seq<Note>)
    ensures |r| == |notes| && NoteIds(r) == NoteIds(notes)
    ensures forall k :: 0 <= k < |notes| ==>
      && r[k].folderId == (if notes[k].id == noteId then folderId else notes[k].folderId)
      && r[k].(folderId := notes[k].folderId) == notes[k]
  {
    seq(|notes|, k requires 0 <= k < |notes| =>
      if notes[k].id == noteId then notes[k].(folderId := folderId) else notes[k])
  }

  /** `removeNoteFromFolder`: the matching note goes to "no folder". */
  function RemoveNoteFromFolder(notes: seq<Note>, noteId: int): (r: seq<Note>)
    ensures |r| == |notes| && NoteIds(r) == NoteIds(notes)
    ensures forall k :: 0 <= k < |notes| ==>
      && (notes[k].id == noteId ==> r[k].folderId == None)
      && (notes[k].id != noteId ==> r[k] == notes[k])
      && r[k].(folderId := notes[k].folderId) == notes[k]
  {
    seq(|notes|, k requires 0 <= k < |notes| =>
      if notes[k].id == noteId then notes[k].(folderId := None) else notes[k])
  }

  /** `getNotesInFolder`: the notes whose `folderId` strictly equals the argument,
      in order (with `null`, the notes in no folder). */
  function GetNotesInFolder(notes: seq<Note>, folderId: Option<int>): (r: seq<Note>)
    ensures forall n :: n in r <==> n in notes && n.folderId == folderId
    ensures forall n :: multiset(r)[n] == if n.folderId == folderId then multiset(notes)[n] else 0
    ensures IsSubsequence(r, notes)
  {
    Filter(notes, InFolder(folderId))
  }

  /** `getNoteCountInFolder`: counts the notes in the folder, one by one. */
  function GetNoteCountInFolder(notes: seq<Note>, folderId: Option<int>): (c: nat)
    ensures c == |GetNotesInFolder(notes, folderId)|
    ensures c <= |notes|
    decreases |notes|
  {
    if notes == [] then 0
    else
      assert notes == [notes[0]] + notes[1..];
      FilterCons(notes[0], notes[1..], InFolder(folderId));
      (if notes[0].folderId == folderId then 1 else 0) + GetNoteCountInFolder(notes[1..], folderId)
  }

  // ---------------------------------------------------------------------------
  // Relations between the handlers

  /** Removing a note from its folder is moving it to `null`. */
  lemma RemoveIsMoveToNoFolder(notes: seq<Note>, noteId: int)
    ensures RemoveNoteFromFolder(notes, noteId) == MoveNoteToFolder(notes, noteId, None)
  {
  }

  /** Archiving twice restores the notes. */
  lemma ToggleArchiveInvolution(notes: seq<Note>, id: int)
    ensures ToggleArchiveNote(ToggleArchiveNote(notes, id), id) == notes
  {
  }

  /** Deleting the note that `addNote` just created, when its id was fresh,
      restores the note list. */
  lemma AddThenDeleteRestores(st: Store, title: string, body: string, selected: Option<int>, freshId: int, now: int)
    requires freshId !in NoteIds(st.notes)
    ensures DeleteNote(AddNote(st, title, body, selected, freshId, now).notes, freshId) == st.notes
  {
    var p := OtherThan(freshId);
    forall k | 0 <= k < |st.notes| ensures p(st.notes[k]) {
      assert NoteIds(st.notes)[k] == st.notes[k].id;
    }
    if !Blank(title) && !Blank(body) {
      var n := NewNote(title, body, selected, freshId, now);
      var notes := AddNote(st, title, body, selected, freshId, now).notes;
      assert notes == st.notes + [n];
      calc {
        DeleteNote(notes, freshId);
        Filter(st.notes + [n], p);
        { FilterAppend(st.notes, [n], p); }
        Filter(st.notes, p) + Filter([n], p);
        { FilterKeepsAll(st.notes, p); }
        st.notes + Filter([n], p);
        st.notes;
      }
    } else {
      FilterKeepsAll(st.notes, p);
    }
  }

  /** After an accepted `addNote`, the selected folder holds one more note. */
  lemma AddNoteGrowsSelectedFolder(st: Store, title: string, body: string, selected: Option<int>, freshId: int, now: int)
    requires !Blank(title) && !Blank(body)
    ensures GetNoteCountInFolder(AddNote(st, title, body, selected, freshId, now).notes, selected)
         == GetNoteCountInFolder(st.notes, selected) + 1
  {
    var n := NewNote(title, body, selected, freshId, now);
    var p := InFolder(selected);
    FilterAppend(st.notes, [n], p);
    FilterCons(n, [], p);
  }

  /** The stored `noteCount` of every folder equals its live count. */
  ghost predicate CountsAgree(st: Store) {
    forall k :: 0 <= k < |st.folders| ==>
      st.folders[k].noteCount == GetNoteCountInFolder(st.notes, Some(st.folders[k].id))
  }

  /** `addNote` keeps stored counts in step with live counts, unless the
      selected folder has id 0: JavaScript's `if (selectedFolder)` then skips
      the bump although the note is filed in that folder. */
  lemma AddNoteKeepsCountsAgree(st: Store, title: string, body: string, selected: Option<int>, freshId: int, now: int)
    requires CountsAgree(st)
    requires selected != Some(0)
    ensures CountsAgree(AddNote(st, title, body, selected, freshId, now))
  {
    if !Blank(title) && !Blank(body) {
      var r := AddNote(st, title, body, selected, freshId, now);
      var n := NewNote(title, body, selected, freshId, now);
      forall k | 0 <= k < |st.folders|
        ensures r.folders[k].noteCount == GetNoteCountInFolder(r.notes, Some(st.folders[k].id))
      {
        var p := InFolder(Some(st.folders[k].id));
        FilterAppend(st.notes, [n], p);
        FilterCons(n, [], p);
      }
    }
  }

  /** A folder with id 0 is the exception: `addNote` files the note there but
      leaves the stored count alone. */
  lemma AddNoteToFolderZeroSkipsCount(st: Store, title: string, body: string, freshId: int, now: int)
    requires !Blank(title) && !Blank(body)
    requires CountsAgree(st)
    requires exists k :: 0 <= k < |st.folders| && st.folders[k].id == 0
    ensures !CountsAgree(AddNote(st, title, body, Some(0), freshId, now))
  {
    var k :| 0 <= k < |st.folders| && st.folders[k].id == 0;
    AddNoteGrowsSelectedFolder(st, title, body, Some(0), freshId, now);
  }

  /** `deleteNote` never adjusts a stored count: deleting a note filed in a folder
      lowers that folder's live count while its stored count stays, so stored
      counts that agreed with the live ones no longer do. */
  lemma DeleteNoteBreaksCountsAgree(st: Store, k: int, i: int)
    requires 0 <= k < |st.folders| && 0 <= i < |st.notes|
    requires st.notes[i].folderId == Some(st.folders[k].id)
    ensures GetNoteCountInFolder(DeleteNote(st.notes, st.notes[i].id), Some(st.folders[k].id))
          < GetNoteCountInFolder(st.notes, Some(st.folders[k].id))
    ensures CountsAgree(st) ==> !CountsAgree(Store(DeleteNote(st.notes, st.notes[i].id), st.folders))
  {
    var n := st.notes[i];
    var f := Some(st.folders[k].id);
    var before := GetNotesInFolder(st.notes, f);
    var after := GetNotesInFolder(DeleteNote(st.notes, n.id), f);
    assert n in before;
    assert n !in after;
    forall m ensures multiset(after)[m] <= multiset(before)[m] {
    }
    SmallerMultiset(after, before, n);
  }

  lemma SmallerMultiset<T>(a: seq<T>, b: seq<T>, x: T)
    requires forall m :: multiset(a)[m] <= multiset(b)[m]
    requires x !in a && x in b
    ensures |a| < |b|
  {
    var d := multiset(b) - multiset(a);
    assert multiset(b) == multiset(a) + d;
    assert x in d;
    assert |d| > 0;
  }

  /** `addNote` with a fresh id keeps the store invariant. */
  lemma AddNoteKeepsValidStore(st: Store, title: string, body: string, selected: Option<int>, freshId: int, now: int)
    requires ValidStore(st)
    requires freshId !in NoteIds(st.notes)
    ensures ValidStore(AddNote(st, title, body, selected, freshId, now))
  {
    var r := AddNote(st, title, body, selected, freshId, now);
    if !Blank(title) && !Blank(body) {
      forall i | 0 <= i < |st.notes| ensures st.notes[i].id != freshId {
        assert NoteIds(st.notes)[i] == st.notes[i].id;
      }
      forall i, j | 0 <= i < j < |r.notes| ensures r.notes[i].id != r.notes[j].id {
        assert r.notes[i] == st.notes[i];
      }
      forall i, j | 0 <= i < j < |r.folders| ensures r.folders[i].id != r.folders[j].id {
        assert r.folders[i].id == st.folders[i].id && r.folders[j].id == st.folders[j].id;
      }
      forall k | 0 <= k < |r.folders| ensures FolderNameValid(r.folders[k]) {
        assert r.folders[k].name == st.folders[k].name;
      }
    }
  }

  /** The in-place edits keep the notes invariant. */
  lemma EditsKeepNotesValid(notes: seq<Note>, editing: Option<int>, title: string, body: string, editedAt: int, id: int, folderId: Option<int>)
    requires NotesValid(notes)
    ensures NotesValid(SaveEditNote(notes, editing, title, body, editedAt))
    ensures NotesValid(ToggleArchiveNote(notes, id))
    ensures NotesValid(MoveNoteToFolder(notes, id, folderId))
    ensures NotesValid(RemoveNoteFromFolder(notes, id))
  {
    var r := SaveEditNote(notes, editing, title, body, editedAt);
    forall i, j | 0 <= i < j < |r| ensures r[i].id != r[j].id {
      assert NoteIds(r)[i] == NoteIds(notes)[i];
      assert NoteIds(r)[j] == NoteIds(notes)[j];
    }
  }

  /** Deleting keeps the notes invariant. */
  lemma DeleteKeepsNotesValid(notes: seq<Note>, id: int)
    requires NotesValid(notes)
    ensures NotesValid(DeleteNote(notes, id))
  {
    SubsequenceKeepsNotesValid(DeleteNote(notes, id), notes);
  }

  /** Deleting notes, whichever, keeps the notes invariant. */
  lemma SubsequenceKeepsNotesValid(r: seq<Note>, notes: seq<Note>)
    requires IsSubsequence(r, notes) && NotesValid(notes)
    ensures NotesValid(r)
  {
    var apart := (a: Note, b: Note) => a.id != b.id;
    assert Pairwise(notes, apart);
    SubsequenceKeepsPairwise(r, notes, apart);
    SubsequenceMembers(r, notes);
    forall k | 0 <= k < |r| ensures NoteTextValid(r[k]) {
      assert r[k] in notes;
    }
    forall i, j | 0 <= i < j < |r| ensures r[i].id != r[j].id {
      assert apart(r[i], r[j]);
    }
  }
}
