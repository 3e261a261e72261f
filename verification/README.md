# noto — a Dafny model of the note app's state logic

noto is a single-page note-taking app. All of its behaviour worth stating lives
in the `App` component of `src/index.jsx`: handlers that turn the current notes,
folders and UI id-sets into new ones, and the derived view that filters, sorts
and splits the notes for display. This project models that logic as pure
functions over immutable values and proves what the handlers promise.

- `text.dfy` (`Text`): JavaScript's `trim` (ECMAScript whitespace and line
  terminators), `toLowerCase` and `includes` over `string`.
- `seqs.dfy` (`Seqs`): `Array.prototype.filter` as `Filter`, with its
  multiplicity, membership and order-preservation (`IsSubsequence`) contract.
- `sorting.dfy` (`Sorting`): a stable sort by a comparator given as a total
  preorder, proved sorted, a permutation, stable, idempotent, and unique when
  no two elements tie.
- `domain.dfy` (`Domain`): `Note`, `Folder`, `Store` (notes and folders
  together) and the store invariant `ValidStore`, the conjunction of
  `NotesValid` and `FoldersValid`.
- `note_ops.dfy` (`NoteOps`): `addNote`, `deleteNote`, `startEditNote`, `saveEditNote`,
  `toggleArchiveNote`, `moveNoteToFolder`, `removeNoteFromFolder`,
  `getNotesInFolder`, `getNoteCountInFolder`.
- `folder_ops.dfy` (`FolderOps`): `createFolder`, `editFolder`, `saveEditFolder`,
  `deleteFolder` with its cascade to "no folder".
- `toggles.dfy` (`Toggles`): the independent toggles (`toggleMenu`,
  `toggleFolderMenu`, `toggleFavorite`), the exclusive `toggleExpandArchive`,
  and the folder-notes panel switch `showFolderNotesList`.
- `view.dfy` (`View`): `getFilteredAndSortedNotes` and the active/archived split.

Inputs the app reads from the environment are parameters: the fresh id
(`+new Date()`), the current instant and the edited date (as millisecond
instants), the local midnights of today, yesterday and a week ago, a new
folder's display date and random colour, the answer to the delete confirmation,
and the title collation (`localeCompare`, as an abstract total preorder
`titleLe`). The form fields a handler reads (`title`, `editTitle`,
`editingNote`, `selectedFolder`, ...) are parameters too.

Points where the model follows the code:

- `addNote` bumps the stored `noteCount` under `if (selectedFolder)`, which is
  false for a folder id of 0; the model keeps this truthiness test (`Truthy`),
  and `AddNoteToFolderZeroSkipsCount` shows its effect.
- The stored `noteCount` is only ever incremented. `DeleteNoteBreaksCountsAgree`
  shows that it then drifts from the live count of `getNoteCountInFolder`. The
  seed folders already start at 0 while seeded notes sit in them.
- `getNotesInFolder` compares with `===`, and the folder panel calls it with
  `selectedFolderId`, which may be `null`; `null` then selects the notes in no
  folder. The model takes an `Option<int>` argument for this reason.
- `deleteFolder` does not clear `selectedFolder`, so a later `addNote` can file
  a note under a folder id that no longer exists (`addNote` preserves the
  folder reference only when the selection names a live folder).
- `showFolderNotesList` is only ever called by the panel's close button, with
  `null`. From the initial state that call changes nothing, so the panel never
  opens (`CloseButtonKeepsInitialPanel`). On an open panel it would take the
  `else` branch and set the flag with no folder selected
  (`CloseButtonLeavesFlagSet`); the render guard `showFolderNotes &&
  selectedFolderId` hides the list all the same (`CloseButtonHidesList`).
- `startEditNote` fills the date field with `createdAt.split('T')[0]`, the UTC
  day, and `saveEditNote` stores `new Date(editDate)`, which reads a date-only
  string as UTC midnight. Saving an edit therefore moves `createdAt` back to
  00:00 UTC of its day even when the date was not touched
  (`StartThenSaveTruncatesDate`). This can move a note out of the "today"
  window (`EditingMovesNoteFromTodayToYesterday`), and it makes all edited notes
  of one day tie under newest-first and oldest-first.
- Unknown `sortBy` and `filterBy` values would fall to a `default` branch; the
  select elements offer only the listed values, so the model has exactly those.

## Model

| member | source | states |
|---|---|---|
| Text.TrimEmptyIffAllWhitespace | src/index.jsx:187 | the blank test `x.trim() === ''` holds exactly when every character is ECMAScript whitespace |
| Text.Trim | src/index.jsx:191-192 | trimming yields the infix of the input that starts right after its leading whitespace, is followed only by whitespace, and has no whitespace at either end: the result is determined |
| Text.TrimIdempotent | src/index.jsx:191-192 | trimming an already trimmed string changes nothing |
| Text.IncludesIffOccurs | src/index.jsx:466-467 | `includes` holds exactly when the keyword occurs at some position of the text |
| Text.IncludesSurvivesLower | src/index.jsx:466-467 | under the model's character-by-character lower-casing, an occurrence of the keyword remains an occurrence once text and keyword are both lower-cased |
| NoteOps.AddNote | src/index.jsx:184-210 | blank title or body leaves notes and folders unchanged; otherwise exactly one unarchived note with the trimmed text, the fresh id, the current instant and the selected folder is appended after the unchanged old notes, and only the truthy selected folder's stored count grows, by one |
| NoteOps.AddThenDeleteRestores | src/index.jsx:184-215 | deleting the note just added under a fresh id restores the previous notes |
| NoteOps.AddNoteGrowsSelectedFolder | src/index.jsx:195-198 | an accepted note raises the live count of the selected folder by exactly one |
| NoteOps.AddNoteKeepsCountsAgree | src/index.jsx:203-209 | when every stored count equals its live count, it still does after `addNote`, provided the selection is not folder 0 |
| NoteOps.AddNoteToFolderZeroSkipsCount | src/index.jsx:203 | with folder 0 selected, the truthiness test skips the bump and stored and live counts disagree afterwards |
| NoteOps.AddNoteKeepsValidStore | src/index.jsx:189-198 | with a fresh id, note ids stay unique, all note text stays trimmed and non-blank, and folders keep unique ids and valid names |
| NoteOps.DeleteNote | src/index.jsx:213-215 | every note with the id is removed and every other note keeps its multiplicity and relative order |
| NoteOps.DeleteNoteBreaksCountsAgree | src/index.jsx:213-215 | deleting a note filed in a folder lowers that folder's live count while its stored count stays, so counts that agreed before disagree after |
| NoteOps.DeleteKeepsNotesValid | src/index.jsx:213-215 | deleting keeps note ids unique and note text valid |
| NoteOps.SaveEditNote | src/index.jsx:226-241 | blank edited title or body is a no-op; otherwise length, order and ids are kept, only the edited note changes, and only its title, body and date |
| NoteOps.UtcDayStart | src/index.jsx:222 | the date kept by the edit form is the midnight that starts the instant's UTC day: at most the instant, less than a day before it, and a whole number of days |
| NoteOps.StartEditNote | src/index.jsx:218-223 | the form is loaded with the note's id, title and body, and with the UTC midnight of its `createdAt` as the date |
| NoteOps.StartThenSaveTruncatesDate | src/index.jsx:218-235 | opening a valid note and saving at once keeps every field except `createdAt`, which becomes UTC midnight of its day, strictly earlier unless it already was midnight |
| NoteOps.EditsKeepNotesValid | src/index.jsx:226-235 | saving an edit, toggling archive and moving or removing from a folder keep note ids unique and note text trimmed and non-blank |
| NoteOps.ToggleArchiveNote | src/index.jsx:409-413 | length, order and ids are kept; only the matching note's `archived` flips; every other field is unchanged |
| NoteOps.ToggleArchiveInvolution | src/index.jsx:409-413 | toggling archive twice restores the notes |
| NoteOps.MoveNoteToFolder | src/index.jsx:384-390 | length, order and ids are kept; only the matching note's `folderId` becomes the target, every other field and note unchanged |
| NoteOps.RemoveNoteFromFolder | src/index.jsx:393-399 | length, order and ids are kept; the matching note goes to no folder with every other field unchanged, and every other note is unchanged |
| NoteOps.RemoveIsMoveToNoFolder | src/index.jsx:384-399 | removing a note from its folder equals moving it to `null` |
| NoteOps.GetNotesInFolder | src/index.jsx:349-351 | the result holds exactly the notes whose `folderId` equals the argument, each as often as in the list, in their original order |
| NoteOps.GetNoteCountInFolder | src/index.jsx:354-356 | the count, computed note by note, equals the length of `getNotesInFolder` |
| FolderOps.CreateFolder | src/index.jsx:283-298 | blank name is a no-op; otherwise one folder with the fresh id, trimmed name and stored count 0 is appended after the unchanged folders |
| FolderOps.SaveEditFolder | src/index.jsx:320-331 | blank name is a no-op; otherwise only the edited folder changes, and only its name, to the trimmed name |
| FolderOps.FindFolder | src/index.jsx:312 | the lookup fails exactly when no folder has the id; otherwise it yields the first folder of the list with that id |
| FolderOps.EditFolder | src/index.jsx:311-317 | an unknown id leaves the rename dialog as it was; a known id opens it on that id with the name of the first folder carrying it |
| FolderOps.EditThenSaveKeepsFolders | src/index.jsx:311-331 | opening the rename dialog on a folder and saving without typing changes no folder |
| FolderOps.FolderEditsKeepFoldersValid | src/index.jsx:283-331 | creating with a fresh id and renaming keep folder ids unique and names trimmed and non-blank |
| FolderOps.ReleaseNotes | src/index.jsx:336-341 | length, order and ids are kept; exactly the notes filed in the folder lose their folder, and no other field changes |
| FolderOps.DeleteFolder | src/index.jsx:334-346 | declined: nothing changes; confirmed: exactly the folders with that id disappear, every other folder record (stored count included) stays as often as it was, in order, and the notes are released |
| FolderOps.ReleaseMovesCountToNoFolder | src/index.jsx:336-341 | after the cascade no note is in the deleted folder, and the no-folder count grows by exactly the folder's former count |
| FolderOps.CreateThenDeleteRestores | src/index.jsx:283-346 | deleting a folder just created under a fresh id, with no note filed in it, restores the store |
| FolderOps.DeleteFolderKeepsValidStore | src/index.jsx:334-346 | deleting a folder keeps the store invariant |
| Toggles.Flip | src/index.jsx:252-260 | the toggle flips membership of the id and of no other id |
| Toggles.ToggleMenu | src/index.jsx:252-260 | only the open-menu set changes, by flipping the id |
| Toggles.ToggleFolderMenu | src/index.jsx:263-271 | only the open-folder-menu set changes, by flipping the id |
| Toggles.ToggleFavorite | src/index.jsx:432-444 | only the favourites change, by flipping the id |
| Toggles.IndependentTogglesSelfInverse | src/index.jsx:252-271 | each independent toggle applied twice restores all four sets |
| Toggles.ExclusiveFlip | src/index.jsx:416-429 | the id's membership flips, no other id is added, opening leaves one member and closing removes one |
| Toggles.ToggleExpandArchive | src/index.jsx:416-429 | only the expanded set changes; collapsing removes just that card, and expanding a closed card leaves it as the only expanded one |
| Toggles.ExclusiveFlipReplaces | src/index.jsx:423-425 | expanding card b while card a is expanded yields `{b}`, never `{a, b}` |
| Toggles.TogglesKeepAtMostOneExpanded | src/index.jsx:416-429 | at most one archived card is expanded initially and after any toggle |
| Toggles.ShowFolderNotesList | src/index.jsx:372-380 | clicking the selected folder (`===`, so `null` matches `null`) closes the panel and clears the selection; any other argument sets the flag and selects it; for a folder id the flag is set exactly when a folder is selected |
| Toggles.CloseButtonLeavesFlagSet | src/index.jsx:893 | the close button's `null` on an open panel leaves the flag set with no folder, a state in which the list is still hidden |
| Toggles.CloseButtonHidesList | src/index.jsx:889 | after the close button's call the render guard hides the list, whatever the panel state was |
| Toggles.CloseButtonKeepsInitialPanel | src/index.jsx:893 | the close button's call changes nothing in the initial state, so the panel never opens |
| Toggles.ShowFolderNotesListTwice | src/index.jsx:372-380 | clicking the same folder twice restores a panel that was closed or open on that folder |
| View.KeywordFilter | src/index.jsx:463-469 | an empty keyword keeps the notes; otherwise exactly the notes whose lower-cased title or body contains the lower-cased keyword remain, in order |
| View.TagFilter | src/index.jsx:471-474 | under the favourites tag exactly the notes whose id is a favourite remain, in order; otherwise nothing changes |
| View.DateWindowFilter | src/index.jsx:476-498 | exactly the notes in the window remain, in order: today is `>= today`, yesterday is `[yesterday, today)`, week is `>= weekAgo` |
| View.FilterNotes | src/index.jsx:460-498 | the three stages together keep exactly the notes meeting all three conditions, with their multiplicities, in order |
| View.SortNotes | src/index.jsx:500-512 | the result is a permutation, ordered newest-first, oldest-first or by title, and stable: tied notes keep their relative order |
| View.GetFilteredAndSortedNotes | src/index.jsx:460-513 | a permutation of exactly the selected notes, ordered by the selected sort option, with tied notes in their filtered order |
| View.ActiveNotes | src/index.jsx:517 | only unarchived notes, each as often as in the list, in list order |
| View.ArchivedNotes | src/index.jsx:518 | only archived notes, each as often as in the list, in list order |
| View.ActiveArchivedPartition | src/index.jsx:516-518 | the two halves together hold the filtered list exactly: lengths and contents add up |
| View.DeriveView | src/index.jsx:516-518 | active and archived halves hold exactly the selected unarchived and archived notes, each in the order of the sorted list |
| View.KeywordInTitleIsShown | src/index.jsx:464-468 | under the model's character-by-character lower-casing, a note whose title contains the keyword is shown when no other filter is active |
| View.KeywordAbsentIsHidden | src/index.jsx:464-468 | a note in which the lower-cased keyword occurs in neither title nor body is not shown |
| View.NewestIsReversedOldest | src/index.jsx:503-506 | with distinct timestamps, newest-first is exactly oldest-first reversed |
| View.SortNotesIdempotent | src/index.jsx:501-512 | re-sorting a sorted view changes nothing |
| View.NoFilterShowsAll | src/index.jsx:460-513 | with every filter off, every note is shown exactly as often as it occurs |
| View.EditingMovesNoteFromTodayToYesterday | src/index.jsx:222-233 | in UTC+7, a note written at 05:00 local is in the "today" window, and after opening and saving it unchanged it is in "yesterday" instead |
| Sorting.SortStable | src/index.jsx:501-512 | a stable sort: among tied elements the original relative order survives |
| Sorting.SortedPermutationUnique | src/index.jsx:501-512 | when no two distinct elements tie, there is only one sorted arrangement |

## Left out

- Rendering: `Header`, `RecentFoldersSection`, `FilterControls`, `NoteInput`,
  `NoteSection`, `MyNotesSection`, `NoteCard`, `Footer`, `EditNoteForm`, and
  the 50-character title cap of the input fields; they are markup and event wiring.
- Browser effects: the theme attribute, `scrollToNote` (DOM query, smooth
  scroll, timed highlight), `exportNotes` (JSON download), `console.log`, and
  `window.confirm`, whose answer is the `confirmed` parameter of `DeleteFolder`.
- Form and modal state with no logic beyond assignment: `cancelEdit`,
  `selectFolder`, `openFolderPopup`, `closeFolderPopup`,
  `openCreateFolderModal`, and the clearing of input fields after a save;
  `handleNoteClick` is a `scrollToNote` call followed by closing the panel
  with the same two assignments as `showFolderNotesList`'s first branch.
- Date machinery: parsing ISO strings, local-midnight arithmetic and
  `toLocaleDateString`; instants are integers and the day bounds, the edited
  date and the folder's display date are parameters. An invalid date (which
  would make `toISOString` throw in `saveEditNote`, or make a sort comparison
  return `NaN`) is not modelled; the date input is `required`.
- NoteOps.SaveEditNote: takes `editedAt` as any instant. In the app it is always
  UTC midnight of the date in the field, whether or not the user changed the
  date; `StartEditNote` and `StartThenSaveTruncatesDate` cover the unchanged case.
- Text.Lower: lower-cases ASCII letters only, not the full Unicode case mapping
  of `toLowerCase`.
- Text.IncludesSurvivesLower: holds for a lower-casing that maps each character
  on its own. JavaScript's `toLowerCase` is context-sensitive: a capital sigma
  at the end of a word becomes a final sigma. So `"ΑΣ"` lower-cases to `"ας"`
  while `"ΑΣΒ"` lower-cases to `"ασβ"`, and the occurrence is lost.
- View.KeywordInTitleIsShown: follows the model's lower-casing, so it does not
  cover the final-sigma case above; under JavaScript a note titled `"ΑΣΒ"` is
  hidden by the keyword `"ΑΣ"`.
- View.SortNotes: `localeCompare` is abstracted as an arbitrary total preorder
  on titles, so no particular collation is stated.
- Randomness and clocks: the fresh ids from `+new Date()` (which may collide
  when two are taken in the same millisecond) and the random folder colour are
  parameters; the lemmas that need a fresh id say so in their requires.
- `Array.prototype.sort` sorts the filtered array in place, which with every
  filter off is the `notes` state array itself; the model's sort returns a new
  sequence and leaves the notes unchanged.
- The `icon` field that created folders carry and seed folders lack; nothing in
  the app reads it.
- Seed data (`initialNotes`, `getInitialData`, `showFormattedDate`):
  `./utils` is not part of this model; seed notes without a `folderId`
  (`undefined` rather than `null`) are not distinguished.
- Numbers are unbounded integers; JavaScript's double-precision ids and
  instants are not modelled.
