/**
 * The statistics of services/analytics_service.py: counts over the lost and
 * found table, per-key histograms filled by dict-updating loops, and the
 * per-user activity list. Averages and the match rate are floating point and
 * are not modelled.
 */
module Analytics {
  import opened Text
  import opened Ordering
  import opened Tally
  import opened LostFoundDb
  import opened LostFoundService
  import opened NotesDb
  import opened NotesService
  import opened UsersDb

  // ---------------------------------------------------------------- lost and found counts

  /** The integer fields of `get_lost_found_stats`. */
  datatype LostFoundCounts = LostFoundCounts(
    totalItems: int, lostCount: int, foundCount: int, openCount: int, claimedCount: int)

  /**
   * `get_lost_found_stats`: the number of rows, and how many of them are
   * lost, found, open and claimed; each count is what the matching list
   * query returns, and the disjoint pairs never add up to more than the total.
   */
  function GetLostFoundStats(table: ItemTable): (r: LostFoundCounts)
    requires table.Valid()
    reads table
    ensures r.totalItems == |table.rows|
    ensures r.lostCount == |GetLostItems(table)| && r.foundCount == |GetFoundItems(table)|
    ensures r.openCount == |GetItemsByStatus(table, "open")| && r.claimedCount == |GetItemsByStatus(table, "claimed")|
    ensures r.lostCount + r.foundCount <= r.totalItems
    ensures (forall id :: id in table.rows ==> table.rows[id].kind == "lost" || table.rows[id].kind == "found")
      ==> r.lostCount + r.foundCount == r.totalItems
    ensures r.openCount + r.claimedCount <= r.totalItems
  {
    var items := table.GetAllItems();
    CountDisjoint(items, KindIs("lost"), KindIs("found"));
    CountDisjoint(items, StatusIs("open"), StatusIs("claimed"));
    LostFoundCounts(|items|, Count(items, KindIs("lost")), Count(items, KindIs("found")),
                    Count(items, StatusIs("open")), Count(items, StatusIs("claimed")))
  }

  // ---------------------------------------------------------------- notes counts

  /** The integer fields of `get_notes_stats`. */
  datatype NotesCounts = NotesCounts(totalNotes: int, totalSubjects: int, totalDownloads: int, contributors: int)

  function Subject(n: Note): string {
    n.subject
  }

  function Semester(n: Note): string {
    n.semester
  }

  /** The counts of `get_notes_stats` over a list of notes. */
  function NotesCountsOf(all: seq<Note>): (r: NotesCounts)
    ensures r.totalNotes == |all|
    ensures r.totalSubjects == |Keys(all, Subject)| <= r.totalNotes
    ensures r.contributors == |Keys(all, Uploader)| <= r.totalNotes
  {
    KeysCard(all, Subject);
    KeysCard(all, Uploader);
    NotesCounts(|all|, |ValueSet(all, Subject)|, SumOf(all, Downloads), |ValueSet(all, Uploader)|)
  }

  /**
   * `get_notes_stats`: the number of notes, the sizes of the sets of their
   * subjects and of their uploaders, and the sum of their downloads.
   */
  function GetNotesStats(store: NotesStore): (r: NotesCounts)
    requires store.Valid()
    reads store
    ensures r.totalNotes == TotalLength(store.subjects, store.notes)
    ensures r.totalSubjects == |Keys(store.AllNotes(), Subject)| <= r.totalNotes
    ensures r.totalSubjects <= |store.subjects|
    ensures r.contributors == |Keys(store.AllNotes(), Uploader)| <= r.totalNotes
    ensures r.totalDownloads == SumOf(store.AllNotes(), Downloads)
  {
    NoteSubjectsListed(store);
    NotesCountsOf(store.AllNotes())
  }

  /** The subjects of the stored notes are among the store's keys. */
  lemma NoteSubjectsListed(store: NotesStore)
    requires store.Valid()
    ensures |ValueSet(store.AllNotes(), Subject)| <= |store.subjects|
  {
    var used := ValueSet(store.AllNotes(), Subject);
    var keys := set s | s in store.subjects;
    assert used <= keys;
    DistinctCard(store.subjects);
    SubsetCard(used, keys);
  }

  lemma SubsetCard<T>(a: set<T>, b: set<T>)
    requires a <= b
    ensures |a| <= |b|
  {
    assert b == a + (b - a);
  }

  // ---------------------------------------------------------------- histograms

  /**
   * The (key, count) pairs of a dict filled by `d[k] = d.get(k, 0) + 1` over
   * `s`, in the dict's insertion order.
   */
  function Histogram<T>(s: seq<T>, key: T -> string): seq<(string, int)> {
    Tallies(s, key, One, Keys(s, key))
  }

  function Fst(p: (string, int)): string {
    p.0
  }

  /**
   * A histogram's counts are how often each key occurs, each at least once,
   * and they add up to the length of `s`.
   */
  lemma HistogramCounts<T>(s: seq<T>, key: T -> string)
    ensures var h := Histogram(s, key);
      && SumOf(h, Snd) == |s|
      && (forall i :: 0 <= i < |h| ==> h[i].1 == KeyedSum(s, key, h[i].0, One) && h[i].1 >= 1)
  {
    var ks := Keys(s, key);
    var h := Histogram(s, key);
    TalliesTotal(s, key, One);
    SumOfOne(s);
    forall i | 0 <= i < |h| ensures h[i].1 >= 1 {
      KeyedCountPositive(s, key, ks[i]);
    }
  }

  /** Every pair of a histogram names a key that occurs in `s`. */
  lemma HistogramKeysOccur<T>(s: seq<T>, key: T -> string)
    ensures var h := Histogram(s, key);
      forall i :: 0 <= i < |h| ==> exists j :: 0 <= j < |s| && key(s[j]) == h[i].0
  {
    var ks := Keys(s, key);
    var h := Histogram(s, key);
    forall i | 0 <= i < |h| ensures exists j :: 0 <= j < |s| && key(s[j]) == h[i].0 {
      assert h[i].0 == ks[i] && ks[i] in ks;
    }
  }

  /** Every key that occurs in `s` has a pair in its histogram. */
  lemma HistogramKeysCovered<T>(s: seq<T>, key: T -> string)
    ensures var h := Histogram(s, key);
      forall j :: 0 <= j < |s| ==> exists i :: 0 <= i < |h| && h[i].0 == key(s[j])
  {
    var ks := Keys(s, key);
    var h := Histogram(s, key);
    forall j | 0 <= j < |s| ensures exists i :: 0 <= i < |h| && h[i].0 == key(s[j]) {
      assert key(s[j]) in ks;
      var i :| 0 <= i < |ks| && ks[i] == key(s[j]);
      assert h[i].0 == ks[i];
    }
  }

  /** A histogram names each key once. */
  lemma HistogramKeysDistinct<T>(s: seq<T>, key: T -> string)
    ensures var h := Histogram(s, key);
      forall i, j :: 0 <= i < j < |h| ==> h[i].0 != h[j].0
  {
    var ks := Keys(s, key);
    var h := Histogram(s, key);
    assert forall i :: 0 <= i < |h| ==> h[i].0 == ks[i];
  }

  /** Every pair of a reordered histogram is a pair of the histogram, with its count and its key. */
  lemma ReorderedPairs<T>(s: seq<T>, key: T -> string, d: seq<(string, int)>)
    requires multiset(d) == multiset(Histogram(s, key))
    ensures forall i :: 0 <= i < |d| ==> d[i].1 == KeyedSum(s, key, d[i].0, One) && d[i].1 >= 1
    ensures forall i :: 0 <= i < |d| ==> exists j :: 0 <= j < |s| && key(s[j]) == d[i].0
  {
    var h := Histogram(s, key);
    HistogramCounts(s, key);
    HistogramKeysOccur(s, key);
    forall i | 0 <= i < |d| ensures d[i] in h {
      assert d[i] in multiset(d);
    }
  }

  /** A reordered histogram still has a pair for every key that occurs. */
  lemma ReorderedCovers<T>(s: seq<T>, key: T -> string, d: seq<(string, int)>)
    requires multiset(d) == multiset(Histogram(s, key))
    ensures forall j :: 0 <= j < |s| ==> exists i :: 0 <= i < |d| && d[i].0 == key(s[j])
  {
    var h := Histogram(s, key);
    HistogramKeysCovered(s, key);
    forall j | 0 <= j < |s| ensures exists i :: 0 <= i < |d| && d[i].0 == key(s[j]) {
      var i :| 0 <= i < |h| && h[i].0 == key(s[j]);
      assert h[i] in multiset(d);
    }
  }

  /** A reordered histogram still names each key once. */
  lemma ReorderedDistinct<T>(s: seq<T>, key: T -> string, d: seq<(string, int)>)
    requires multiset(d) == multiset(Histogram(s, key))
    ensures forall i, j :: 0 <= i < j < |d| ==> d[i].0 != d[j].0
  {
    var h := Histogram(s, key);
    HistogramKeysDistinct(s, key);
    ReorderedPairs(s, key, d);
    assert Distinct(h);
    DistinctPermutation(h, d);
  }

  /** The dict-filling loop followed by `.items()`. */
  method CountBy<T>(s: seq<T>, key: T -> string) returns (h: seq<(string, int)>)
    ensures h == Histogram(s, key)
  {
    var order, totals := TallyLoop(s, key, One);
    h := seq(|order|, i requires 0 <= i < |order| => (order[i], totals[order[i]]));
  }

  /**
   * A histogram sorted by count, most first, with a stable sort: sorted,
   * still summing to `|s|`, and keeping first-appearance order among equal counts.
   */
  lemma DistributionOrder<T>(s: seq<T>, key: T -> string, d: seq<(string, int)>)
    requires d == SortBy(Histogram(s, key), Snd, IntGreater)
    ensures Sorted(d, Snd, IntGreater)
    ensures SumOf(d, Snd) == |s|
    ensures forall c :: WithKey(d, Snd, c) == WithKey(Histogram(s, key), Snd, c)
  {
    var h := Histogram(s, key);
    HistogramCounts(s, key);
    IntGreaterIsStrictWeak();
    SortBySorted(h, Snd, IntGreater);
    SortBySum(h, Snd, IntGreater, Snd);
    SortByStableAll(h, Snd, IntGreater);
  }

  /** A reordered histogram names each key once with its count, and every key that occurs. */
  lemma DistributionSpec<T>(s: seq<T>, key: T -> string, r: seq<(string, int)>)
    requires multiset(r) == multiset(Histogram(s, key))
    ensures forall i :: 0 <= i < |r| ==> r[i].1 == KeyedSum(s, key, r[i].0, One) && r[i].1 >= 1
    ensures forall j :: 0 <= j < |s| ==> exists i :: 0 <= i < |r| && r[i].0 == key(s[j])
    ensures forall i, j :: 0 <= i < j < |r| ==> r[i].0 != r[j].0
  {
    ReorderedPairs(s, key, r);
    ReorderedCovers(s, key, r);
    ReorderedDistinct(s, key, r);
  }

  /** A key every listed item has a pair for is also one every row of the table has a pair for. */
  lemma RowsCovered(items: seq<Item>, rows: map<int, Item>, key: Item -> string, r: seq<(string, int)>)
    requires forall id :: id in rows ==> rows[id] in items
    requires forall j :: 0 <= j < |items| ==> exists i :: 0 <= i < |r| && r[i].0 == key(items[j])
    ensures forall id :: id in rows ==> exists i :: 0 <= i < |r| && r[i].0 == key(rows[id])
  {
    forall id | id in rows ensures exists i :: 0 <= i < |r| && r[i].0 == key(rows[id]) {
      var j :| 0 <= j < |items| && items[j] == rows[id];
    }
  }

  function Category(it: Item): string {
    it.category
  }

  function Location(it: Item): string {
    it.location
  }

  /**
   * `get_category_distribution`: one pair per distinct category, each with
   * how many rows carry it; most frequent first, ties in order of first
   * appearance; the counts add up to the number of rows.
   */
  method GetCategoryDistribution(table: ItemTable) returns (r: seq<(string, int)>)
    requires table.Valid()
    ensures r == SortBy(Histogram(table.GetAllItems(), Category), Snd, IntGreater)
    ensures Sorted(r, Snd, IntGreater)
    ensures SumOf(r, Snd) == |table.rows|
    ensures forall i :: 0 <= i < |r| ==> r[i].1 == KeyedSum(table.GetAllItems(), Category, r[i].0, One) && r[i].1 >= 1
    ensures forall id :: id in table.rows ==> exists i :: 0 <= i < |r| && r[i].0 == table.rows[id].category
    ensures forall i, j :: 0 <= i < j < |r| ==> r[i].0 != r[j].0
  {
    var items := table.GetAllItems();
    var h := CountBy(items, Category);
    r := SortBy(h, Snd, IntGreater);
    DistributionOrder(items, Category, r);
    DistributionSpec(items, Category, r);
    RowsCovered(items, table.rows, Category, r);
  }

  /** `get_location_distribution`: the same histogram over locations. */
  method GetLocationDistribution(table: ItemTable) returns (r: seq<(string, int)>)
    requires table.Valid()
    ensures r == SortBy(Histogram(table.GetAllItems(), Location), Snd, IntGreater)
    ensures Sorted(r, Snd, IntGreater)
    ensures SumOf(r, Snd) == |table.rows|
    ensures forall i :: 0 <= i < |r| ==> r[i].1 == KeyedSum(table.GetAllItems(), Location, r[i].0, One) && r[i].1 >= 1
    ensures forall id :: id in table.rows ==> exists i :: 0 <= i < |r| && r[i].0 == table.rows[id].location
    ensures forall i, j :: 0 <= i < j < |r| ==> r[i].0 != r[j].0
  {
    var items := table.GetAllItems();
    var h := CountBy(items, Location);
    r := SortBy(h, Snd, IntGreater);
    DistributionOrder(items, Location, r);
    DistributionSpec(items, Location, r);
    RowsCovered(items, table.rows, Location, r);
  }

  /**
   * `get_daily_activity`: one pair per distinct report date, each with how
   * many rows carry it, in strictly ascending date order; the counts add up
   * to the number of rows.
   */
  method GetDailyActivity(table: ItemTable) returns (r: seq<(string, int)>)
    requires table.Valid()
    ensures r == SortBy(Histogram(table.GetAllItems(), ItemDate), Fst, StrLess)
    ensures forall i, j :: 0 <= i < j < |r| ==> StrLess(r[i].0, r[j].0)
    ensures SumOf(r, Snd) == |table.rows|
    ensures forall i :: 0 <= i < |r| ==> r[i].1 == KeyedSum(table.GetAllItems(), ItemDate, r[i].0, One) && r[i].1 >= 1
    ensures forall id :: id in table.rows ==> exists i :: 0 <= i < |r| && r[i].0 == table.rows[id].date
  {
    var items := table.GetAllItems();
    var h := CountBy(items, ItemDate);
    r := SortBy(h, Fst, StrLess);
    DailyAscending(items, r);
    DailySum(items, r);
    DistributionSpec(items, ItemDate, r);
    RowsCovered(items, table.rows, ItemDate, r);
  }

  /** The date histogram sorted by date is in strictly ascending date order. */
  lemma DailyAscending(items: seq<Item>, r: seq<(string, int)>)
    requires r == SortBy(Histogram(items, ItemDate), Fst, StrLess)
    ensures forall i, j :: 0 <= i < j < |r| ==> StrLess(r[i].0, r[j].0)
  {
    var h := Histogram(items, ItemDate);
    ReorderedDistinct(items, ItemDate, r);
    StrLessIsStrictWeak();
    SortBySorted(h, Fst, StrLess);
    forall i, j | 0 <= i < j < |r| ensures StrLess(r[i].0, r[j].0) {
      StrLessTotal(r[i].0, r[j].0);
    }
  }

  /** The counts of the date histogram sorted by date add up to the number of rows. */
  lemma DailySum(items: seq<Item>, r: seq<(string, int)>)
    requires r == SortBy(Histogram(items, ItemDate), Fst, StrLess)
    ensures SumOf(r, Snd) == |items|
  {
    HistogramCounts(items, ItemDate);
    SortBySum(Histogram(items, ItemDate), Fst, StrLess, Snd);
  }

  /**
   * `get_semester_wise_notes`: one pair per distinct semester in order of
   * first appearance, each with its number of notes; the counts add up to
   * the number of notes.
   */
  method GetSemesterWiseNotes(store: NotesStore) returns (r: seq<(string, int)>)
    requires store.Valid()
    ensures r == Histogram(store.AllNotes(), Semester)
    ensures SumOf(r, Snd) == |store.AllNotes()|
    ensures forall i :: 0 <= i < |r| ==> r[i].1 == KeyedSum(store.AllNotes(), Semester, r[i].0, One) && r[i].1 >= 1
    ensures forall n :: n in store.AllNotes() ==> exists i :: 0 <= i < |r| && r[i].0 == n.semester
  {
    var all := store.GetAllNotes();
    r := CountBy(all, Semester);
    SemesterSpec(all, r);
  }

  /** The semester histogram counts every note once and has a pair for every semester that occurs. */
  lemma SemesterSpec(all: seq<Note>, r: seq<(string, int)>)
    requires r == Histogram(all, Semester)
    ensures SumOf(r, Snd) == |all|
    ensures forall i :: 0 <= i < |r| ==> r[i].1 == KeyedSum(all, Semester, r[i].0, One) && r[i].1 >= 1
    ensures forall n :: n in all ==> exists i :: 0 <= i < |r| && r[i].0 == n.semester
  {
    HistogramCounts(all, Semester);
    HistogramKeysCovered(all, Semester);
  }


  // ---------------------------------------------------------------- top downloads

  /**
   * `get_top_downloaded_notes`: a stable sort on downloads, most first, cut
   * to `limit`. No note left out has more downloads than a note kept.
   */
  function GetTopDownloadedNotes(store: NotesStore, limit: int := 10): (r: seq<Note>)
    requires store.Valid()
    reads store
    ensures r == SliceTo(SortBy(store.AllNotes(), Downloads, IntGreater), limit)
    ensures Sorted(r, Downloads, IntGreater)
    ensures limit >= 0 ==> |r| <= limit
    ensures 0 <= limit <= |store.AllNotes()| ==> |r| == limit
    ensures multiset(r) <= multiset(store.AllNotes())
    ensures limit >= |store.AllNotes()| ==> multiset(r) == multiset(store.AllNotes())
    ensures forall x, y :: x in multiset(store.AllNotes()) - multiset(r) && y in r ==> x.downloads <= y.downloads
  {
    var r := SliceTo(SortBy(store.AllNotes(), Downloads, IntGreater), limit);
    PopularCut(store.AllNotes(), limit, r);
    r
  }

  // ---------------------------------------------------------------- per-subject totals

  /** The integer fields of one subject's entry in `get_subject_wise_stats`. */
  datatype SubjectTotals = SubjectTotals(totalNotes: int, totalDownloads: int)

  function NotesIn(stats: map<string, SubjectTotals>): string -> int {
    (k: string) => if k in stats then stats[k].totalNotes else 0
  }

  function DownloadsIn(stats: map<string, SubjectTotals>): string -> int {
    (k: string) => if k in stats then stats[k].totalDownloads else 0
  }

  /** The loop of `get_subject_wise_stats`: one record per subject, bumped by each of its notes. */
  method SubjectLoop(all: seq<Note>) returns (order: seq<string>, stats: map<string, SubjectTotals>)
    ensures order == Keys(all, Subject)
    ensures forall k :: k in stats <==> k in order
    ensures forall k :: k in stats ==>
      stats[k] == SubjectTotals(KeyedSum(all, Subject, k, One), KeyedSum(all, Subject, k, Downloads))
  {
    order := [];
    stats := map[];
    for i := 0 to |all|
      invariant TotalsSeen(all[..i], order, stats)
    {
      var note := all[i];
      TakeNext(all, i);
      ghost var order0, stats0 := order, stats;
      var subject := note.subject;
      if subject !in stats {
        stats := stats[subject := SubjectTotals(0, 0)];
        order := order + [subject];
      }
      var t := stats[subject];
      stats := stats[subject := SubjectTotals(t.totalNotes + 1, t.totalDownloads + note.downloads)];
      SubjectStep(all[..i], note, order0, stats0, order, stats);
    }
    assert all[..|all|] == all;
  }

  /** The dict of the per-subject loop after seeing `seen`: keys in first-appearance order, each with its totals. */
  ghost predicate TotalsSeen(seen: seq<Note>, order: seq<string>, stats: map<string, SubjectTotals>) {
    && order == Keys(seen, Subject)
    && (forall k :: k in stats <==> k in order)
    && (forall k :: k in stats ==>
          stats[k] == SubjectTotals(KeyedSum(seen, Subject, k, One), KeyedSum(seen, Subject, k, Downloads)))
  }

  /** One pass of the per-subject loop keeps the dict equal to the totals of the notes seen. */
  lemma SubjectStep(seen: seq<Note>, note: Note, order: seq<string>, stats: map<string, SubjectTotals>,
                    order': seq<string>, stats': map<string, SubjectTotals>)
    requires TotalsSeen(seen, order, stats)
    requires order' == if note.subject in stats then order else order + [note.subject]
    requires forall k :: k in stats' <==> k in stats || k == note.subject
    requires forall k :: k in stats && k != note.subject ==> stats'[k] == stats[k]
    requires
      var t := if note.subject in stats then stats[note.subject] else SubjectTotals(0, 0);
      stats'[note.subject] == SubjectTotals(t.totalNotes + 1, t.totalDownloads + note.downloads)
    ensures TotalsSeen(seen + [note], order', stats')
  {
    SubjectOrderStep(seen, note, order, stats, order', stats');
    SubjectTotalsStep(seen, note, stats, stats');
  }

  /** The keys of the dict after one pass are the subjects seen, in first-appearance order. */
  lemma SubjectOrderStep(seen: seq<Note>, note: Note, order: seq<string>, stats: map<string, SubjectTotals>,
                         order': seq<string>, stats': map<string, SubjectTotals>)
    requires order == Keys(seen, Subject)
    requires forall k :: k in stats <==> k in order
    requires order' == if note.subject in stats then order else order + [note.subject]
    requires forall k :: k in stats' <==> k in stats || k == note.subject
    ensures order' == Keys(seen + [note], Subject)
    ensures forall k :: k in stats' <==> k in order'
  {
    var seen' := seen + [note];
    assert seen'[..|seen|] == seen && seen'[|seen|] == note;
  }

  /** After one pass every total in the dict counts the notes seen, the new one included. */
  lemma SubjectTotalsStep(seen: seq<Note>, note: Note, stats: map<string, SubjectTotals>,
                          stats': map<string, SubjectTotals>)
    requires forall k :: k in stats ==>
      stats[k] == SubjectTotals(KeyedSum(seen, Subject, k, One), KeyedSum(seen, Subject, k, Downloads))
    requires forall k :: k in stats <==> k in Keys(seen, Subject)
    requires forall k :: k in stats' <==> k in stats || k == note.subject
    requires forall k :: k in stats && k != note.subject ==> stats'[k] == stats[k]
    requires
      var t := if note.subject in stats then stats[note.subject] else SubjectTotals(0, 0);
      stats'[note.subject] == SubjectTotals(t.totalNotes + 1, t.totalDownloads + note.downloads)
    ensures forall k :: k in stats' ==>
      stats'[k] == SubjectTotals(KeyedSum(seen + [note], Subject, k, One), KeyedSum(seen + [note], Subject, k, Downloads))
  {
    forall k | k in stats'
      ensures stats'[k] == SubjectTotals(KeyedSum(seen + [note], Subject, k, One), KeyedSum(seen + [note], Subject, k, Downloads))
    {
      if k !in stats {
        KeyedSumAbsent(seen, Subject, k, One);
        KeyedSumAbsent(seen, Subject, k, Downloads);
      }
      var before := if k in stats then stats[k] else SubjectTotals(0, 0);
      SubjectTotalAt(seen, note, k, before, stats'[k]);
    }
  }

  /** One subject's totals after one pass: bumped for the note's own subject, unchanged for the others. */
  lemma SubjectTotalAt(seen: seq<Note>, note: Note, k: string, before: SubjectTotals, after: SubjectTotals)
    requires before == SubjectTotals(KeyedSum(seen, Subject, k, One), KeyedSum(seen, Subject, k, Downloads))
    requires after == if note.subject == k then SubjectTotals(before.totalNotes + 1, before.totalDownloads + note.downloads)
      else before
    ensures after == SubjectTotals(KeyedSum(seen + [note], Subject, k, One), KeyedSum(seen + [note], Subject, k, Downloads))
  {
    KeyedSumSnoc(seen, note, Subject, k, One);
    KeyedSumSnoc(seen, note, Subject, k, Downloads);
  }

  /** The per-subject totals add up to the number of notes and to all downloads. */
  lemma SubjectTotalsConserved(all: seq<Note>, order: seq<string>, stats: map<string, SubjectTotals>)
    requires order == Keys(all, Subject)
    requires forall k :: k in order ==> k in stats
    requires forall k :: k in stats ==>
      stats[k] == SubjectTotals(KeyedSum(all, Subject, k, One), KeyedSum(all, Subject, k, Downloads))
    ensures SumOf(order, NotesIn(stats)) == |all|
    ensures SumOf(order, DownloadsIn(stats)) == SumOf(all, Downloads)
  {
    SumOfPointwise(order, NotesIn(stats), Tallies(all, Subject, One, order), Snd);
    TalliesTotal(all, Subject, One);
    SumOfOne(all);
    SumOfPointwise(order, DownloadsIn(stats), Tallies(all, Subject, Downloads, order), Snd);
    TalliesTotal(all, Subject, Downloads);
  }

  /**
   * `get_subject_wise_stats`: for each subject, in order of first appearance,
   * its number of notes and their downloads; summed over the subjects they
   * give the note count and the download total of `get_notes_stats`.
   */
  method GetSubjectWiseStats(store: NotesStore) returns (order: seq<string>, stats: map<string, SubjectTotals>)
    requires store.Valid()
    ensures order == Keys(store.AllNotes(), Subject)
    ensures forall k :: k in stats <==> k in order
    ensures forall k :: k in stats ==>
      stats[k] == SubjectTotals(KeyedSum(store.AllNotes(), Subject, k, One),
                                KeyedSum(store.AllNotes(), Subject, k, Downloads))
    ensures SumOf(order, NotesIn(stats)) == GetNotesStats(store).totalNotes
    ensures SumOf(order, DownloadsIn(stats)) == GetNotesStats(store).totalDownloads
  {
    var all := store.GetAllNotes();
    order, stats := SubjectLoop(all);
    SubjectTotalsConserved(all, order, stats);
  }

  // ---------------------------------------------------------------- user activity

  /** One entry of `get_user_activity_stats`. */
  datatype ActivityRow = ActivityRow(
    name: string, rollNo: string, itemsReported: int, notesUploaded: int, notesDownloaded: int, totalActivity: int)

  function TotalActivity(row: ActivityRow): int {
    row.totalActivity
  }

  function ReportedBy(name: string): Item -> bool {
    (it: Item) => it.reporterName == name
  }

  /**
   * A user's entry: the rows reported under the user's name, the notes the
   * note store counts for that name, the downloads of the activity row, and
   * their sum.
   */
  function ActivityRowOf(u: UserStats, items: seq<Item>, notesCountByUser: string -> int): (r: ActivityRow)
    ensures r.name == u.name && r.rollNo == u.rollNo
    ensures r.itemsReported == |Filter(items, ReportedBy(u.name))|
    ensures r.notesUploaded == notesCountByUser(u.name) && r.notesDownloaded == u.notesDownloaded
    ensures r.totalActivity == r.itemsReported + r.notesUploaded + r.notesDownloaded
  {
    var itemsCount := Count(items, ReportedBy(u.name));
    var notesCount := notesCountByUser(u.name);
    ActivityRow(u.name, u.rollNo, itemsCount, notesCount, u.notesDownloaded, itemsCount + notesCount + u.notesDownloaded)
  }

  function ActivityRows(users: seq<UserStats>, items: seq<Item>, notesCountByUser: string -> int): (r: seq<ActivityRow>)
    ensures |r| == |users|
    ensures forall i :: 0 <= i < |users| ==> r[i] == ActivityRowOf(users[i], items, notesCountByUser)
  {
    seq(|users|, i requires 0 <= i < |users| => ActivityRowOf(users[i], items, notesCountByUser))
  }

  /** The loop of `get_user_activity_stats`: one entry per user, appended in user order. */
  method CollectActivity(users: seq<UserStats>, items: seq<Item>, notesCountByUser: string -> int)
    returns (rows: seq<ActivityRow>)
    ensures rows == ActivityRows(users, items, notesCountByUser)
  {
    rows := [];
    for i := 0 to |users|
      invariant |rows| == i
      invariant forall j :: 0 <= j < i ==> rows[j] == ActivityRowOf(users[j], items, notesCountByUser)
    {
      rows := rows + [ActivityRowOf(users[i], items, notesCountByUser)];
    }
  }

  /**
   * `get_user_activity_stats`: one entry per user, sorted by total activity,
   * most first, with users of equal total in id order; every entry's total
   * is the sum of its three counts. The note count per uploader name is a
   * parameter, since the note store does not define it.
   */
  method GetUserActivityStats(users: UserTable, table: ItemTable, notesCountByUser: string -> int)
    returns (r: seq<ActivityRow>)
    requires users.Valid() && table.Valid()
    ensures var rows := ActivityRows(users.AllUserStats(), table.GetAllItems(), notesCountByUser);
      && r == SortBy(rows, TotalActivity, IntGreater)
      && |r| == |users.users|
      && Sorted(r, TotalActivity, IntGreater)
      && multiset(r) == multiset(rows)
      && (forall i :: 0 <= i < |r| ==> r[i].totalActivity == r[i].itemsReported + r[i].notesUploaded + r[i].notesDownloaded)
      && (forall t :: WithKey(r, TotalActivity, t) == WithKey(rows, TotalActivity, t))
  {
    var stats := users.GetAllUsers();
    var items := table.GetAllItems();
    var rows := CollectActivity(stats, items, notesCountByUser);
    r := SortBy(rows, TotalActivity, IntGreater);
    ActivityOrder(rows);
  }

  /**
   * Sorting the entries by total activity keeps them all, each with its
   * total the sum of its three counts, and keeps equal totals in input order.
   */
  lemma ActivityOrder(rows: seq<ActivityRow>)
    requires forall i :: 0 <= i < |rows| ==>
      rows[i].totalActivity == rows[i].itemsReported + rows[i].notesUploaded + rows[i].notesDownloaded
    ensures var r := SortBy(rows, TotalActivity, IntGreater);
      && |r| == |rows| && multiset(r) == multiset(rows)
      && Sorted(r, TotalActivity, IntGreater)
      && (forall i :: 0 <= i < |r| ==> r[i].totalActivity == r[i].itemsReported + r[i].notesUploaded + r[i].notesDownloaded)
      && (forall t :: WithKey(r, TotalActivity, t) == WithKey(rows, TotalActivity, t))
  {
    var r := SortBy(rows, TotalActivity, IntGreater);
    IntGreaterIsStrictWeak();
    SortBySorted(rows, TotalActivity, IntGreater);
    SortByStableAll(rows, TotalActivity, IntGreater);
    assert |r| == |rows| by {
      assert |multiset(r)| == |multiset(rows)|;
    }
    forall i | 0 <= i < |r|
      ensures r[i].totalActivity == r[i].itemsReported + r[i].notesUploaded + r[i].notesDownloaded
    {
      assert r[i] in multiset(rows);
    }
  }
}
