/** The id-sets of `App` (src/index.jsx) that record which menus are open,
    which notes are favourites and which archived card is expanded, and the
    folder-notes panel state. */
module Toggles {
  import opened Domain

  /** Independent toggle (`toggleMenu`, `toggleFolderMenu`, `toggleFavorite`):
      flips membership of `id` and of nothing else. */
  function Flip(s: set<int>, id: int): (r: set<int>)
    ensures id in r <==> id !in s
    ensures forall x :: x != id ==> (x in r <==> x in s)
  {
    if id in s then s - {id} else s + {id}
  }

  /** An independent toggle undoes itself. */
  lemma FlipInvolution(s: set<int>, id: int)
    ensures Flip(Flip(s, id), id) == s
  {
  }

  /** Exclusive toggle (`toggleExpandArchive`): closes `id` when it is open;
      otherwise clears the set and opens `id` alone. */
  function ExclusiveFlip(s: set<int>, id: int): (r: set<int>)
    ensures id in r <==> id !in s
    ensures r <= s + {id}
    ensures id !in s ==> |r| == 1
    ensures id in s ==> |r| == |s| - 1
  {
    if id in s then s - {id} else {id}
  }

  /** The exclusive toggle keeps at most one card expanded. */
  lemma ExclusiveFlipAtMostOne(s: set<int>, id: int)
    requires |s| <= 1
    ensures |ExclusiveFlip(s, id)| <= 1
    ensures id in s ==> ExclusiveFlip(s, id) == {}
  {
  }

  /** Expanding another card replaces the expanded one: never `{a, b}`. */
  lemma ExclusiveFlipReplaces(a: int, b: int)
    requires a != b
    ensures ExclusiveFlip({a}, b) == {b}
  {
  }

  /** The four id-sets. */
  datatype UiSets = UiSets(menus: set<int>, folderMenus: set<int>, favorites: set<int>, expanded: set<int>)

  /** `toggleMenu`: flips `id` in the open note menus and touches no other set. */
  function ToggleMenu(ui: UiSets, id: int): (r: UiSets)
    ensures r.folderMenus == ui.folderMenus && r.favorites == ui.favorites && r.expanded == ui.expanded
    ensures id in r.menus <==> id !in ui.menus
    ensures forall x :: x != id ==> (x in r.menus <==> x in ui.menus)
  {
    ui.(menus := Flip(ui.menus, id))
  }

  /** `toggleFolderMenu`: flips `id` in the open folder menus only. */
  function ToggleFolderMenu(ui: UiSets, id: int): (r: UiSets)
    ensures r.menus == ui.menus && r.favorites == ui.favorites && r.expanded == ui.expanded
    ensures id in r.folderMenus <==> id !in ui.folderMenus
    ensures forall x :: x != id ==> (x in r.folderMenus <==> x in ui.folderMenus)
  {
    ui.(folderMenus := Flip(ui.folderMenus, id))
  }

  /** `toggleFavorite`: flips `id` in the favourites only. */
  function ToggleFavorite(ui: UiSets, id: int): (r: UiSets)
    ensures r.menus == ui.menus && r.folderMenus == ui.folderMenus && r.expanded == ui.expanded
    ensures id in r.favorites <==> id !in ui.favorites
    ensures forall x :: x != id ==> (x in r.favorites <==> x in ui.favorites)
  {
    ui.(favorites := Flip(ui.favorites, id))
  }

  /** `toggleExpandArchive`: the exclusive toggle on the expanded archive cards. */
  function ToggleExpandArchive(ui: UiSets, id: int): (r: UiSets)
    ensures r.menus == ui.menus && r.folderMenus == ui.folderMenus && r.favorites == ui.favorites
    ensures id in r.expanded <==> id !in ui.expanded
    ensures id !in ui.expanded ==> r.expanded == {id}
    ensures id in ui.expanded ==> r.expanded == ui.expanded - {id}
  {
    ui.(expanded := ExclusiveFlip(ui.expanded, id))
  }

  /** Applying any of the independent toggles twice restores the sets. */
  lemma IndependentTogglesSelfInverse(ui: UiSets, id: int)
    ensures ToggleMenu(ToggleMenu(ui, id), id) == ui
    ensures ToggleFolderMenu(ToggleFolderMenu(ui, id), id) == ui
    ensures ToggleFavorite(ToggleFavorite(ui, id), id) == ui
  {
    FlipInvolution(ui.menus, id);
    FlipInvolution(ui.folderMenus, id);
    FlipInvolution(ui.favorites, id);
  }

  /** The state starts with every set empty. */
  function InitialUiSets(): UiSets {
    UiSets({}, {}, {}, {})
  }

  /** At most one archived card is expanded. */
  ghost predicate AtMostOneExpanded(ui: UiSets) {
    |ui.expanded| <= 1
  }

  /** Every toggle preserves `AtMostOneExpanded`, which holds initially. */
  lemma TogglesKeepAtMostOneExpanded(ui: UiSets, id: int)
    requires AtMostOneExpanded(ui)
    ensures AtMostOneExpanded(InitialUiSets())
    ensures AtMostOneExpanded(ToggleMenu(ui, id))
    ensures AtMostOneExpanded(ToggleFolderMenu(ui, id))
    ensures AtMostOneExpanded(ToggleFavorite(ui, id))
    ensures AtMostOneExpanded(ToggleExpandArchive(ui, id))
  {
    ExclusiveFlipAtMostOne(ui.expanded, id);
  }

  /** Whether the folder-notes list is shown, and for which folder. */
  datatype FolderPanel = FolderPanel(show: bool, selectedFolderId: Option<int>)

  /** The panel starts closed with no folder selected. */
  function InitialPanel(): FolderPanel {
    FolderPanel(false, None)
  }

  /** The panel is open exactly when a folder is selected. */
  predicate PanelConsistent(p: FolderPanel) {
    p.show <==> p.selectedFolderId.Some?
  }

  /** The render guard `showFolderNotes && selectedFolderId`: the list appears
      only when the flag is set and the selected id is truthy. */
  predicate PanelVisible(p: FolderPanel) {
    p.show && Truthy(p.selectedFolderId)
  }

  /** `showFolderNotesList`: clicking the selected folder (compared with `===`,
      so `null` matches `null`) closes the panel; any other argument, `null`
      included, sets the flag and selects that argument. */
  function ShowFolderNotesList(p: FolderPanel, folderId: Option<int>): (r: FolderPanel)
    ensures r.show <==> p.selectedFolderId != folderId
    ensures r.show ==> r.selectedFolderId == folderId
    ensures !r.show ==> r.selectedFolderId == None
    ensures folderId.Some? ==> PanelConsistent(r)
  {
    if p.selectedFolderId == folderId then FolderPanel(false, None)
    else FolderPanel(true, folderId)
  }

  /** Clicking the same folder twice returns a consistent panel that was closed,
      or open on that folder, to where it was. */
  lemma ShowFolderNotesListTwice(p: FolderPanel, folderId: Option<int>)
    requires PanelConsistent(p)
    requires p.selectedFolderId == None || p.selectedFolderId == folderId
    ensures ShowFolderNotesList(ShowFolderNotesList(p, folderId), folderId) == p
  {
  }

  /** The close button passes `null`. On an open panel this sets the flag rather
      than clearing it, leaving a flag set with no folder; the render guard still
      hides the list. */
  lemma CloseButtonLeavesFlagSet(p: FolderPanel)
    requires PanelConsistent(p) && p.show
    ensures ShowFolderNotesList(p, None) == FolderPanel(true, None)
    ensures !PanelConsistent(ShowFolderNotesList(p, None))
    ensures !PanelVisible(ShowFolderNotesList(p, None))
  {
  }

  /** Whatever the panel state, the close button leaves the list hidden. */
  lemma CloseButtonHidesList(p: FolderPanel)
    ensures !PanelVisible(ShowFolderNotesList(p, None))
  {
  }

  /** The close button is the handler's only caller, and from the initial state
      it changes nothing: the panel never opens. */
  lemma CloseButtonKeepsInitialPanel()
    ensures ShowFolderNotesList(InitialPanel(), None) == InitialPanel()
    ensures !PanelVisible(InitialPanel())
  {
  }
}
