/** The folder handlers of the `App` component (src/index.jsx). The fresh id,
    the display date and the random colour a new folder receives are
    parameters, and so is the answer to the delete confirmation dialog. */
module FolderOps {
  import opened Text
  import opened Seqs
  import opened Domain
  import opened NoteOps

  /** The folder `createFolder` appends for an accepted name. */
  function NewFolder(name: string, freshId: int, date: string, color: Color): Folder {
    Folder(freshId, Trim(name), date, color, 0)
  }

  /** `createFolder`: rejects a blank name; otherwise appends a folder with the
      trimmed name and a stored count of zero. */
  function CreateFolder(folders: seq<Folder>, name: string, freshId: int, date: string, color: Color): (r: seq<Folder>)
    ensures Blank(name) ==> r == folders
    ensures !Blank(name) ==>
      && |r| == |folders| + 1
      && r[..|folders|] == folders
      && r[|folders|] == NewFolder(name, freshId, date, color)
  {
    if Blank(name) then folders else folders + [NewFolder(name, freshId, date, color)]
  }

  /** `saveEditFolder`: rejects a blank name; otherwise renames the folder being
      edited to the trimmed name and changes nothing else. */
  function SaveEditFolder(folders: seq<Folder>, editing: Option<int>, name: string): (r: seq<Folder>)
    ensures Blank(name) ==> r == folders
    ensures |r| == |folders|
    ensures forall k :: 0 <= k < |folders| ==>
      && r[k].(name := folders[k].name) == folders[k]
      && (editing != Some(folders[k].id) ==> r[k] == folders[k])
      && (editing == Some(folders[k].id) && !Blank(name) ==> r[k].name == Trim(name))
  {
    if Blank(name) then folders
    else
      seq(|folders|, k requires 0 <= k < |folders| =>
        if editing == Some(folders[k].id) then folders[k].(name := Trim(name)) else folders[k])
  }

  /** `folders.find(f => f.id === folderId)`: the first folder with that id. */
  function FindFolder(folders: seq<Folder>, folderId: int): (r: Option<Folder>)
    ensures r.None? <==> forall k :: 0 <= k < |folders| ==> folders[k].id != folderId
    ensures r.Some? ==> r.value in folders && r.value.id == folderId
    ensures r.Some? ==>
      exists k :: 0 <= k < |folders| && folders[k] == r.value
        && forall j :: 0 <= j < k ==> folders[j].id != folderId
    decreases |folders|
  {
    if folders == [] then None
    else if folders[0].id == folderId then Some(folders[0])
    else
      var r := FindFolder(folders[1..], folderId);
      assert forall k :: 1 <= k < |folders| ==> folders[k] == folders[1..][k - 1];
      r
  }

  /** The rename dialog's fields: the folder being edited and the typed name. */
  datatype FolderForm = FolderForm(editing: Option<int>, name: string)

  /** `editFolder`: for a known id, opens the rename dialog on the first folder
      with that id, showing its current name; an unknown id leaves the dialog
      as it was. */
  function EditFolder(folders: seq<Folder>, folderId: int, form: FolderForm): (r: FolderForm)
    ensures (forall k :: 0 <= k < |folders| ==> folders[k].id != folderId) ==> r == form
    ensures (exists k :: 0 <= k < |folders| && folders[k].id == folderId) ==>
      && r.editing == Some(folderId)
      && exists k :: 0 <= k < |folders| && folders[k].id == folderId && r.name == folders[k].name
           && forall j :: 0 <= j < k ==> folders[j].id != folderId
  {
    match FindFolder(folders, folderId)
    case None => form
    case Some(f) => FolderForm(Some(folderId), f.name)
  }

  /** Opening the rename dialog on a folder and saving without typing changes
      no folder. */
  lemma EditThenSaveKeepsFolders(folders: seq<Folder>, folderId: int, form: FolderForm)
    requires FoldersValid(folders)
    requires exists k :: 0 <= k < |folders| && folders[k].id == folderId
    ensures
      var r := EditFolder(folders, folderId, form);
      SaveEditFolder(folders, r.editing, r.name) == folders
  {
    var r := EditFolder(folders, folderId, form);
    var k :| 0 <= k < |folders| && folders[k].id == folderId && r.name == folders[k].name;
    TrimOfTrimmed(r.name);
    var saved := SaveEditFolder(folders, r.editing, r.name);
    assert forall j :: 0 <= j < |folders| && folders[j].id == folderId ==> j == k;
    assert forall j :: 0 <= j < |folders| ==> saved[j] == folders[j];
  }

  /** The cascade of `deleteFolder`: notes filed in the folder go to "no folder". */
  function ReleaseNotes(notes: seq<Note>, folderId: int): (r: seq<Note>)
    ensures |r| == |notes| && NoteIds(r) == NoteIds(notes)
    ensures forall k :: 0 <= k < |notes| ==>
      && r[k].(folderId := notes[k].folderId) == notes[k]
      && r[k].folderId == (if notes[k].folderId == Some(folderId) then None else notes[k].folderId)
  {
    seq(|notes|, k requires 0 <= k < |notes| =>
      if notes[k].folderId == Some(folderId) then notes[k].(folderId := None) else notes[k])
  }

  function OtherFolder(folderId: int): Folder -> bool {
    (f: Folder) => f.id != folderId
  }

  /** `deleteFolder`: when confirmed, removes the folder with that id and releases
      its notes; other folders keep their records, stored counts included. When
      declined, nothing changes. */
  function DeleteFolder(st: Store, folderId: int, confirmed: bool): (r: Store)
    ensures !confirmed ==> r == st
    ensures confirmed ==>
      && (forall f :: f in r.folders <==> f in st.folders && f.id != folderId)
      && (forall f :: multiset(r.folders)[f] == if f.id != folderId then multiset(st.folders)[f] else 0)
      && IsSubsequence(r.folders, st.folders)
      && r.notes == ReleaseNotes(st.notes, folderId)
  {
    if confirmed then
      Store(ReleaseNotes(st.notes, folderId), Filter(st.folders, OtherFolder(folderId)))
    else st
  }

  // ---------------------------------------------------------------------------
  // Relations between the handlers

  /** After deleting a folder, no note is filed in it, and the notes it held are
      now counted under "no folder": none is lost. */
  lemma {:induction false} ReleaseMovesCountToNoFolder(notes: seq<Note>, folderId: int)
    ensures GetNoteCountInFolder(ReleaseNotes(notes, folderId), Some(folderId)) == 0
    ensures GetNoteCountInFolder(ReleaseNotes(notes, folderId), None)
         == GetNoteCountInFolder(notes, None) + GetNoteCountInFolder(notes, Some(folderId))
    decreases |notes|
  {
    if notes != [] {
      var r := ReleaseNotes(notes, folderId);
      assert r[1..] == ReleaseNotes(notes[1..], folderId);
      ReleaseMovesCountToNoFolder(notes[1..], folderId);
    }
  }

  /** Deleting a folder just created under a fresh id, before any note was
      filed in it, restores the store. */
  lemma CreateThenDeleteRestores(st: Store, name: string, freshId: int, date: string, color: Color)
    requires forall k :: 0 <= k < |st.folders| ==> st.folders[k].id != freshId
    requires forall k :: 0 <= k < |st.notes| ==> st.notes[k].folderId != Some(freshId)
    ensures DeleteFolder(Store(st.notes, CreateFolder(st.folders, name, freshId, date, color)), freshId, true) == st
  {
    var p := OtherFolder(freshId);
    FilterKeepsAll(st.folders, p);
    if !Blank(name) {
      var f := NewFolder(name, freshId, date, color);
      calc {
        Filter(CreateFolder(st.folders, name, freshId, date, color), p);
        { assert CreateFolder(st.folders, name, freshId, date, color) == st.folders + [f]; }
        Filter(st.folders + [f], p);
        { FilterAppend(st.folders, [f], p); }
        Filter(st.folders, p) + Filter([f], p);
        st.folders;
      }
    }
    assert ReleaseNotes(st.notes, freshId) == st.notes;
  }

  /** Creating (with a fresh id) and renaming keep folder ids unique and names
      trimmed and non-blank. */
  lemma FolderEditsKeepFoldersValid(folders: seq<Folder>, name: string, freshId: int, date: string, color: Color, editing: Option<int>)
    requires FoldersValid(folders)
    requires forall k :: 0 <= k < |folders| ==> folders[k].id != freshId
    ensures FoldersValid(CreateFolder(folders, name, freshId, date, color))
    ensures FoldersValid(SaveEditFolder(folders, editing, name))
  {
    var c := CreateFolder(folders, name, freshId, date, color);
    if !Blank(name) {
      forall i, j | 0 <= i < j < |c| ensures c[i].id != c[j].id {
        assert c[i] == folders[i];
      }
    }
    var e := SaveEditFolder(folders, editing, name);
    forall i, j | 0 <= i < j < |e| ensures e[i].id != e[j].id {
      assert e[i].id == folders[i].id && e[j].id == folders[j].id;
    }
  }

  /** `deleteFolder` keeps the store invariant. */
  lemma DeleteFolderKeepsValidStore(st: Store, folderId: int, confirmed: bool)
    requires ValidStore(st)
    ensures ValidStore(DeleteFolder(st, folderId, confirmed))
  {
    if confirmed {
      var r := DeleteFolder(st, folderId, confirmed);
      forall i, j | 0 <= i < j < |r.notes| ensures r.notes[i].id != r.notes[j].id {
        assert NoteIds(r.notes)[i] == NoteIds(st.notes)[i];
        assert NoteIds(r.notes)[j] == NoteIds(st.notes)[j];
      }
      forall k | 0 <= k < |r.notes| ensures NoteTextValid(r.notes[k]) {
        assert r.notes[k].title == st.notes[k].title && r.notes[k].body == st.notes[k].body;
      }
      SubsequenceKeepsFoldersValid(r.folders, st.folders);
    }
  }

  /** Deleting folders, whichever, keeps the folders invariant. */
  lemma SubsequenceKeepsFoldersValid(r: seq<Folder>, folders: seq<Folder>)
    requires IsSubsequence(r, folders) && FoldersValid(folders)
    ensures FoldersValid(r)
  {
    var apart := (a: Folder, b: Folder) => a.id != b.id;
    assert Pairwise(folders, apart);
    SubsequenceKeepsPairwise(r, folders, apart);
    SubsequenceMembers(r, folders);
    forall k | 0 <= k < |r| ensures FolderNameValid(r[k]) {
      assert r[k] in folders;
    }
    forall i, j | 0 <= i < j < |r| ensures r[i].id != r[j].id {
      assert apart(r[i], r[j]);
    }
  }
}
