/** The entities the application keeps in memory: notes, folders, and the pair of
    collections the handlers update together. */
module Domain {
  import opened Text

  /** An optional value; `None` models JavaScript's `null`. */
  datatype Option<T> = None | Some(value: T)

  /** A note. `createdAt` is the instant its ISO-8601 timestamp denotes, in
      milliseconds; `folderId` is `None` for "no folder". */
  datatype Note = Note(
    id: int,
    title: string,
    body: string,
    archived: bool,
    createdAt: int,
    folderId: Option<int>)

  /** The folder palette a new folder's colour is drawn from. */
  datatype Color = Blue | Pink | Yellow

  /** A folder. `noteCount` is the stored counter shown in the note form's folder
      picker; it is maintained separately from the notes (see `NoteOps`). */
  datatype Folder = Folder(id: int, name: string, date: string, color: Color, noteCount: int)

  /** The two collections of application state that `addNote` and `deleteFolder`
      both update. */
  datatype Store = Store(notes: seq<Note>, folders: seq<Folder>)

  /** JavaScript truthiness of a nullable id: `null` and `0` are falsy. */
  predicate Truthy(id: Option<int>) {
    id.Some? && id.value != 0
  }

  /** The ids of the notes, in order. */
  function NoteIds(notes: seq<Note>): (r: seq<int>)
    ensures |r| == |notes|
  {
    seq(|notes|, k requires 0 <= k < |notes| => notes[k].id)
  }

  ghost predicate UniqueNoteIds(notes: seq<Note>) {
    forall i, j :: 0 <= i < j < |notes| ==> notes[i].id != notes[j].id
  }

  ghost predicate UniqueFolderIds(folders: seq<Folder>) {
    forall i, j :: 0 <= i < j < |folders| ==> folders[i].id != folders[j].id
  }

  /** What every accepted note satisfies: its title and body were trimmed and non-blank. */
  ghost predicate NoteTextValid(n: Note) {
    n.title != [] && Trimmed(n.title) && n.body != [] && Trimmed(n.body)
  }

  /** What every accepted folder name satisfies. */
  ghost predicate FolderNameValid(f: Folder) {
    f.name != [] && Trimmed(f.name)
  }

  /** The invariant the note and folder handlers keep: ids are unique and all
      text went through the handlers' trim-and-reject-blank validation. */
  ghost predicate ValidStore(st: Store) {
    NotesValid(st.notes) && FoldersValid(st.folders)
  }

  /** The notes part of the store invariant. */
  ghost predicate NotesValid(notes: seq<Note>) {
    && UniqueNoteIds(notes)
    && (forall k :: 0 <= k < |notes| ==> NoteTextValid(notes[k]))
  }

  /** The folders part of the store invariant. */
  ghost predicate FoldersValid(folders: seq<Folder>) {
    && UniqueFolderIds(folders)
    && (forall k :: 0 <= k < |folders| ==> FolderNameValid(folders[k]))
  }
}
