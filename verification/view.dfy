/** The derived note view of `App` (src/index.jsx): `getFilteredAndSortedNotes`
    (keyword filter, favourites filter, date window, sort) and the split of its
    result into active and archived notes. The local-midnight instants the
    date window compares against and the title collation are parameters. */
module View {
  import opened Text
  import opened Seqs
  import opened Sorting
  import opened Domain
  import opened NoteOps

  /** The tag selector's two options. */
  datatype Tag = AllNotes | FavoritesOnly

  /** The date selector's four options. */
  datatype DateFilter = AnyDate | Today | Yesterday | ThisWeek

  /** The sort selector's three options. */
  datatype SortOrder = Newest | Oldest | TitleAZ

  /** Local midnight of today, of yesterday and of seven days ago, in milliseconds. */
  datatype DayBounds = DayBounds(today: int, yesterday: int, weekAgo: int)

  /** The filter controls and the favourites set the view reads. */
  datatype ViewSettings = ViewSettings(
    keyword: string,
    tag: Tag,
    favorites: set<int>,
    dateFilter: DateFilter,
    sortBy: SortOrder)

  /** The lower-cased keyword occurs in the lower-cased title or body. */
  predicate MatchesKeyword(n: Note, keyword: string) {
    Includes(Lower(n.title), Lower(keyword)) || Includes(Lower(n.body), Lower(keyword))
  }

  /** The date window a note must fall in. */
  predicate InWindow(n: Note, f: DateFilter, b: DayBounds) {
    match f
    case AnyDate => true
    case Today => n.createdAt >= b.today
    case Yesterday => b.yesterday <= n.createdAt < b.today
    case ThisWeek => n.createdAt >= b.weekAgo
  }

  /** Everything a note must satisfy to be shown: the three filter stages together. */
  predicate Selected(n: Note, v: ViewSettings, b: DayBounds) {
    && (v.keyword == [] || MatchesKeyword(n, v.keyword))
    && (v.tag == FavoritesOnly ==> n.id in v.favorites)
    && InWindow(n, v.dateFilter, b)
  }

  /** Stage 1, only when the keyword is non-empty. */
  function KeywordFilter(notes: seq<Note>, keyword: string): (r: seq<Note>)
    ensures keyword == [] ==> r == notes
    ensures forall n :: multiset(r)[n] == if keyword == [] || MatchesKeyword(n, keyword) then multiset(notes)[n] else 0
    ensures IsSubsequence(r, notes)
  {
    if keyword == [] then
      assert IsSubsequence(notes, notes) by { SubsequenceReflexive(notes); }
      notes
    else Filter(notes, (n: Note) => MatchesKeyword(n, keyword))
  }

  /** Stage 2, only when the favourites tag is selected. */
  function TagFilter(notes: seq<Note>, tag: Tag, favorites: set<int>): (r: seq<Note>)
    ensures tag == AllNotes ==> r == notes
    ensures forall n :: multiset(r)[n] == if tag == AllNotes || n.id in favorites then multiset(notes)[n] else 0
    ensures IsSubsequence(r, notes)
  {
    if tag == AllNotes then
      assert IsSubsequence(notes, notes) by { SubsequenceReflexive(notes); }
      notes
    else Filter(notes, (n: Note) => n.id in favorites)
  }

  /** Stage 3, only when a date window is selected. */
  function DateWindowFilter(notes: seq<Note>, f: DateFilter, b: DayBounds): (r: seq<Note>)
    ensures f == AnyDate ==> r == notes
    ensures forall n :: multiset(r)[n] == if InWindow(n, f, b) then multiset(notes)[n] else 0
    ensures IsSubsequence(r, notes)
  {
    if f == AnyDate then
      assert IsSubsequence(notes, notes) by { SubsequenceReflexive(notes); }
      notes
    else Filter(notes, (n: Note) => InWindow(n, f, b))
  }

  /** Stages 1 to 3: exactly the selected notes, with their multiplicities, in
      their original order. */
  function FilterNotes(notes: seq<Note>, v: ViewSettings, b: DayBounds): (r: seq<Note>)
    ensures forall n :: multiset(r)[n] == if Selected(n, v, b) then multiset(notes)[n] else 0
    ensures forall n :: n in r <==> n in notes && Selected(n, v, b)
    ensures IsSubsequence(r, notes)
  {
    var s1 := KeywordFilter(notes, v.keyword);
    var s2 := TagFilter(s1, v.tag, v.favorites);
    var s3 := DateWindowFilter(s2, v.dateFilter, b);
    SubsequenceTransitive(s2, s1, notes);
    SubsequenceTransitive(s3, s2, notes);
    assert forall n :: n in s3 <==> multiset(s3)[n] > 0;
    s3
  }

  /** "`a` may come before `b`" for each sort option: the JavaScript comparator
      returns a value `<= 0`. `titleLe` stands for `a.title.localeCompare(b.title) <= 0`. */
  function NoteOrder(sortBy: SortOrder, titleLe: (string, string) -> bool): (Note, Note) -> bool {
    match sortBy
    case Newest => (a: Note, b: Note) => a.createdAt >= b.createdAt
    case Oldest => (a: Note, b: Note) => a.createdAt <= b.createdAt
    case TitleAZ => (a: Note, b: Note) => titleLe(a.title, b.title)
  }

  /** Each sort option orders notes by a total preorder. */
  lemma NoteOrderIsTotalPreorder(sortBy: SortOrder, titleLe: (string, string) -> bool)
    requires TotalPreorder(titleLe)
    ensures TotalPreorder(NoteOrder(sortBy, titleLe))
  {
    var le := NoteOrder(sortBy, titleLe);
    if sortBy == TitleAZ {
      forall a: Note, b: Note ensures le(a, b) || le(b, a) {
        assert titleLe(a.title, b.title) || titleLe(b.title, a.title);
      }
      forall a: Note, b: Note, c: Note | le(a, b) && le(b, c) ensures le(a, c) {
        assert titleLe(a.title, b.title) && titleLe(b.title, c.title);
      }
    }
  }

  /** Stage 4: a stable sort by the selected option. */
  function SortNotes(notes: seq<Note>, sortBy: SortOrder, titleLe: (string, string) -> bool): (r: seq<Note>)
    requires TotalPreorder(titleLe)
    ensures multiset(r) == multiset(notes)
    ensures Sorted(r, NoteOrder(sortBy, titleLe))
    ensures forall y :: TiedWith(r, NoteOrder(sortBy, titleLe), y) == TiedWith(notes, NoteOrder(sortBy, titleLe), y)
  {
    var le := NoteOrder(sortBy, titleLe);
    NoteOrderIsTotalPreorder(sortBy, titleLe);
    SortSorted(notes, le);
    forall y ensures TiedWith(Sort(notes, le), le, y) == TiedWith(notes, le, y) {
      SortStable(notes, le, y);
    }
    Sort(notes, le)
  }

  /** `getFilteredAndSortedNotes`: a permutation of exactly the selected notes,
      ordered by the selected sort option. */
  function GetFilteredAndSortedNotes(notes: seq<Note>, v: ViewSettings, b: DayBounds, titleLe: (string, string) -> bool): (r: seq<Note>)
    requires TotalPreorder(titleLe)
    ensures forall n :: multiset(r)[n] == if Selected(n, v, b) then multiset(notes)[n] else 0
    ensures forall n :: n in r <==> n in notes && Selected(n, v, b)
    ensures |r| <= |notes|
    ensures Sorted(r, NoteOrder(v.sortBy, titleLe))
    ensures forall y :: TiedWith(r, NoteOrder(v.sortBy, titleLe), y)
                     == TiedWith(FilterNotes(notes, v, b), NoteOrder(v.sortBy, titleLe), y)
  {
    var f := FilterNotes(notes, v, b);
    var r := SortNotes(f, v.sortBy, titleLe);
    assert forall n :: n in r <==> n in multiset(f);
    assert |r| <= |notes| by {
      assert |f| <= |notes| by { SubsequenceLength(f, notes); }
    }
    r
  }

  function IsActive(): Note -> bool {
    (n: Note) => !n.archived
  }

  function IsArchived(): Note -> bool {
    (n: Note) => n.archived
  }

  /** `activeNotes`: the unarchived notes, in order. */
  function ActiveNotes(all: seq<Note>): (r: seq<Note>)
    ensures forall k :: 0 <= k < |r| ==> !r[k].archived
    ensures forall n: Note :: !n.archived ==> multiset(r)[n] == multiset(all)[n]
    ensures IsSubsequence(r, all)
  {
    var r := Filter(all, IsActive());
    assert forall k :: 0 <= k < |r| ==> r[k] in r;
    r
  }

  /** `archivedNotes`: the archived notes, in order. */
  function ArchivedNotes(all: seq<Note>): (r: seq<Note>)
    ensures forall k :: 0 <= k < |r| ==> r[k].archived
    ensures forall n: Note :: n.archived ==> multiset(r)[n] == multiset(all)[n]
    ensures IsSubsequence(r, all)
  {
    var r := Filter(all, IsArchived());
    assert forall k :: 0 <= k < |r| ==> r[k] in r;
    r
  }

  /** The two halves partition the list: together they hold every note of it
      exactly as often as it occurs there. */
  lemma ActiveArchivedPartition(all: seq<Note>)
    ensures multiset(ActiveNotes(all)) + multiset(ArchivedNotes(all)) == multiset(all)
    ensures |ActiveNotes(all)| + |ArchivedNotes(all)| == |all|
  {
    FilterSplits(all, IsActive(), IsArchived());
  }

  /** The view the page renders: both halves keep the sort order. */
  function DeriveView(notes: seq<Note>, v: ViewSettings, b: DayBounds, titleLe: (string, string) -> bool): (r: (seq<Note>, seq<Note>))
    requires TotalPreorder(titleLe)
    ensures forall n :: multiset(r.0)[n] == if Selected(n, v, b) && !n.archived then multiset(notes)[n] else 0
    ensures forall n :: multiset(r.1)[n] == if Selected(n, v, b) && n.archived then multiset(notes)[n] else 0
    ensures Sorted(r.0, NoteOrder(v.sortBy, titleLe)) && Sorted(r.1, NoteOrder(v.sortBy, titleLe))
    ensures IsSubsequence(r.0, GetFilteredAndSortedNotes(notes, v, b, titleLe))
    ensures IsSubsequence(r.1, GetFilteredAndSortedNotes(notes, v, b, titleLe))
  {
    var all := GetFilteredAndSortedNotes(notes, v, b, titleLe);
    var r := (ActiveNotes(all), ArchivedNotes(all));
    SubsequenceSorted(r.0, all, NoteOrder(v.sortBy, titleLe));
    SubsequenceSorted(r.1, all, NoteOrder(v.sortBy, titleLe));
    r
  }

  // ---------------------------------------------------------------------------
  // Properties of the view

  /** A note whose title contains the keyword is shown (when no other filter is
      active): case-folding never hides a literal match. */
  lemma KeywordInTitleIsShown(notes: seq<Note>, v: ViewSettings, b: DayBounds, titleLe: (string, string) -> bool, n: Note)
    requires TotalPreorder(titleLe)
    requires n in notes && Includes(n.title, v.keyword)
    requires v.tag == AllNotes && v.dateFilter == AnyDate
    ensures n in GetFilteredAndSortedNotes(notes, v, b, titleLe)
  {
    IncludesSurvivesLower(n.title, v.keyword);
  }

  /** A note in which the lower-cased keyword occurs neither in the title nor in
      the body is never shown. */
  lemma KeywordAbsentIsHidden(notes: seq<Note>, v: ViewSettings, b: DayBounds, titleLe: (string, string) -> bool, n: Note)
    requires TotalPreorder(titleLe)
    requires v.keyword != []
    requires !Includes(Lower(n.title), Lower(v.keyword)) && !Includes(Lower(n.body), Lower(v.keyword))
    ensures n !in GetFilteredAndSortedNotes(notes, v, b, titleLe)
  {
  }

  /** With pairwise distinct timestamps, "newest" is "oldest" reversed. */
  lemma NewestIsReversedOldest(notes: seq<Note>, titleLe: (string, string) -> bool)
    requires TotalPreorder(titleLe)
    requires forall i, j :: 0 <= i < j < |notes| ==> notes[i].createdAt != notes[j].createdAt
    ensures SortNotes(notes, Newest, titleLe) == Reverse(SortNotes(notes, Oldest, titleLe))
  {
    var le := NoteOrder(Oldest, titleLe);
    var ge := NoteOrder(Newest, titleLe);
    NoteOrderIsTotalPreorder(Oldest, titleLe);
    forall x, y | x in notes && y in notes && Tied(le, x, y) ensures x == y {
      var i :| 0 <= i < |notes| && notes[i] == x;
      var j :| 0 <= j < |notes| && notes[j] == y;
      assert notes[i].createdAt == notes[j].createdAt;
      assert i == j;
    }
    MirrorSortIsReverse(notes, le, ge);
  }

  /** Re-sorting an already sorted view changes nothing. */
  lemma SortNotesIdempotent(notes: seq<Note>, sortBy: SortOrder, titleLe: (string, string) -> bool)
    requires TotalPreorder(titleLe)
    ensures SortNotes(SortNotes(notes, sortBy, titleLe), sortBy, titleLe) == SortNotes(notes, sortBy, titleLe)
  {
    NoteOrderIsTotalPreorder(sortBy, titleLe);
    SortIdempotent(notes, NoteOrder(sortBy, titleLe));
  }

  /** With every filter off, the view shows every note exactly once. */
  lemma NoFilterShowsAll(notes: seq<Note>, v: ViewSettings, b: DayBounds, titleLe: (string, string) -> bool)
    requires TotalPreorder(titleLe)
    requires v.keyword == [] && v.tag == AllNotes && v.dateFilter == AnyDate
    ensures multiset(GetFilteredAndSortedNotes(notes, v, b, titleLe)) == multiset(notes)
  {
    var r := GetFilteredAndSortedNotes(notes, v, b, titleLe);
    assert forall n :: multiset(r)[n] == multiset(notes)[n];
  }

  /** Saving an edit without touching the date can move a note between date
      windows. In UTC+7, local midnight of 1970-01-02 is 17:00 UTC on
      1970-01-01; a note written at 05:00 local (22:00 UTC) is in "today", and
      after opening and saving it sits at 00:00 UTC, which is in "yesterday". */
  lemma EditingMovesNoteFromTodayToYesterday()
    ensures
      var b := DayBounds(61200000, 61200000 - DayMs, 61200000 - 7 * DayMs);
      var n := Note(1, "a", "b", false, 79200000, None);
      var f := StartEditNote(n);
      var r := SaveEditNote([n], f.editing, f.title, f.body, f.date);
      && InWindow(n, Today, b)
      && |r| == 1
      && !InWindow(r[0], Today, b)
      && InWindow(r[0], Yesterday, b)
  {
    var n := Note(1, "a", "b", false, 79200000, None);
    StartThenSaveTruncatesDate([n], 0);
  }
}
