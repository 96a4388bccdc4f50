/**
 * The read side of services/notes_service.py over the notes store, and the
 * record `upload_note` builds. Every read starts from
 * `NotesStore.GetAllNotes`; none of them changes the store.
 */
module NotesService {
  import opened Text
  import opened Ordering
  import opened Tally
  import opened NotesDb

  // ---------------------------------------------------------------- upload

  /**
   * `upload_note`: the six given fields, the id the store assigned (passed
   * in, since the store operation that assigns it is not part of this model),
   * today's date, no downloads and a zero rating.
   */
  function UploadNote(subject: string, topic: string, semester: string, uploadedBy: string,
                      fileName: string, description: string, noteId: int, today: string): (r: Note)
    ensures r.id == noteId && r.uploadDate == today && r.downloads == 0 && r.rating == 0.0
    ensures r.subject == subject && r.topic == topic && r.semester == semester
    ensures r.uploadedBy == uploadedBy && r.fileName == fileName && r.description == description
  {
    Note(noteId, subject, topic, semester, uploadedBy, fileName, description, today, 0, 0.0)
  }

  /** An uploaded note is found again by searching for its own subject, topic or uploader. */
  lemma UploadFoundBySearch(subject: string, topic: string, semester: string, uploadedBy: string,
                            fileName: string, description: string, noteId: int, today: string)
    ensures NoteMatchesQuery(UploadNote(subject, topic, semester, uploadedBy, fileName, description, noteId, today), Lower(subject))
    ensures NoteMatchesQuery(UploadNote(subject, topic, semester, uploadedBy, fileName, description, noteId, today), Lower(topic))
    ensures NoteMatchesQuery(UploadNote(subject, topic, semester, uploadedBy, fileName, description, noteId, today), Lower(uploadedBy))
  {
    assert Lower(subject) <= Lower(subject);
    assert Lower(topic) <= Lower(topic);
    assert Lower(uploadedBy) <= Lower(uploadedBy);
  }

  // ---------------------------------------------------------------- subjects

  /**
   * `get_subjects`: the set of the notes' subjects turned into a list. A
   * set's iteration order is not fixed, so each step takes any remaining
   * subject.
   */
  method GetSubjects(store: NotesStore) returns (r: seq<string>)
    requires store.Valid()
    ensures Distinct(r)
    ensures forall s :: s in r <==> exists i :: 0 <= i < |store.AllNotes()| && store.AllNotes()[i].subject == s
  {
    var all := store.GetAllNotes();
    r := DistinctSubjects(all);
  }

  /** `list(set(...))` over the subjects of `all`: each subject once, in no particular order. */
  method DistinctSubjects(all: seq<Note>) returns (r: seq<string>)
    ensures Distinct(r)
    ensures forall s :: s in r <==> exists i :: 0 <= i < |all| && all[i].subject == s
  {
    var remaining := set i | 0 <= i < |all| :: all[i].subject;
    r := [];
    while remaining != {}
      invariant Distinct(r)
      invariant forall s :: s in r ==> s !in remaining
      invariant forall s :: s in r || s in remaining <==> exists i :: 0 <= i < |all| && all[i].subject == s
      decreases |remaining|
    {
      var s :| s in remaining;
      r := r + [s];
      remaining := remaining - {s};
    }
  }


  // ---------------------------------------------------------------- contributors

  /** One entry of `get_top_contributors`; the subject list is kept as the set it was built from. */
  datatype Contributor = Contributor(name: string, uploads: int, totalDownloads: int, subjects: set<string>)

  function Uploader(n: Note): string {
    n.uploadedBy
  }

  function Downloads(n: Note): int {
    n.downloads
  }

  function Uploads(c: Contributor): int {
    c.uploads
  }

  function TotalDownloads(c: Contributor): int {
    c.totalDownloads
  }

  /** The subjects `u` has uploaded notes for. */
  function SubjectsBy(notes: seq<Note>, u: string): set<string> {
    if notes == [] then {}
    else
      var last := notes[|notes| - 1];
      SubjectsBy(notes[..|notes| - 1], u) + (if last.uploadedBy == u then {last.subject} else {})
  }

  /** A subject is listed for `u` exactly when `u` uploaded a note of that subject. */
  lemma {:induction false} SubjectsBySpec(notes: seq<Note>, u: string)
    ensures forall s :: s in SubjectsBy(notes, u) <==>
      exists i :: 0 <= i < |notes| && notes[i].uploadedBy == u && notes[i].subject == s
  {
    if notes != [] {
      var init := notes[..|notes| - 1];
      SubjectsBySpec(init, u);
      assert forall i :: 0 <= i < |init| ==> init[i] == notes[i];
    }
  }

  /** What the loop has gathered for uploader `u` once it has seen `notes`. */
  function ContributorOf(notes: seq<Note>, u: string): Contributor {
    Contributor(u, KeyedSum(notes, Uploader, u, One), KeyedSum(notes, Uploader, u, Downloads), SubjectsBy(notes, u))
  }

  /** One entry per distinct uploader, in order of first appearance. */
  function ContributorTable(notes: seq<Note>): (r: seq<Contributor>)
    ensures |r| == |Keys(notes, Uploader)|
    ensures forall i :: 0 <= i < |r| ==> r[i] == ContributorOf(notes, Keys(notes, Uploader)[i])
  {
    var us := Keys(notes, Uploader);
    seq(|us|, i requires 0 <= i < |us| => ContributorOf(notes, us[i]))
  }

  /** No uploader is named twice. */
  lemma ContributorNamesDistinct(notes: seq<Note>)
    ensures var table := ContributorTable(notes);
      forall i, j :: 0 <= i < j < |table| ==> table[i].name != table[j].name
  {
    var us := Keys(notes, Uploader);
    var table := ContributorTable(notes);
    assert forall i :: 0 <= i < |table| ==> table[i].name == us[i];
  }

  /** Every uploader of a note is named. */
  lemma ContributorNamesCover(notes: seq<Note>)
    ensures var table := ContributorTable(notes);
      forall k :: 0 <= k < |notes| ==> exists i :: 0 <= i < |table| && table[i].name == notes[k].uploadedBy
  {
    var us := Keys(notes, Uploader);
    var table := ContributorTable(notes);
    forall k | 0 <= k < |notes|
      ensures exists i :: 0 <= i < |table| && table[i].name == notes[k].uploadedBy
    {
      assert Uploader(notes[k]) == notes[k].uploadedBy;
      assert notes[k].uploadedBy in us;
      var i :| 0 <= i < |us| && us[i] == notes[k].uploadedBy;
      assert table[i].name == notes[k].uploadedBy;
    }
  }

  /** Every name is the uploader of some note. */
  lemma ContributorNamesUploaded(notes: seq<Note>)
    ensures var table := ContributorTable(notes);
      forall i :: 0 <= i < |table| ==> exists k :: 0 <= k < |notes| && notes[k].uploadedBy == table[i].name
  {
    var us := Keys(notes, Uploader);
    var table := ContributorTable(notes);
    forall i | 0 <= i < |table|
      ensures exists k :: 0 <= k < |notes| && notes[k].uploadedBy == table[i].name
    {
      assert table[i].name == us[i] && us[i] in us;
    }
  }

  /** Every entry counts at least one upload. */
  lemma ContributorUploadsPositive(notes: seq<Note>)
    ensures forall i :: 0 <= i < |ContributorTable(notes)| ==> ContributorTable(notes)[i].uploads >= 1
  {
    var us := Keys(notes, Uploader);
    forall i | 0 <= i < |us|
      ensures KeyedSum(notes, Uploader, us[i], One) >= 1
    {
      KeyedCountPositive(notes, Uploader, us[i]);
    }
  }

  /** Conservation: the uploads add up to the number of notes, the downloads to all downloads. */
  lemma ContributorTableSums(notes: seq<Note>)
    ensures SumOf(ContributorTable(notes), Uploads) == |notes|
    ensures SumOf(ContributorTable(notes), TotalDownloads) == SumOf(notes, Downloads)
  {
    ContributorUploadsSum(notes);
    ContributorDownloadsSum(notes);
  }

  lemma ContributorUploadsSum(notes: seq<Note>)
    ensures SumOf(ContributorTable(notes), Uploads) == |notes|
  {
    var us := Keys(notes, Uploader);
    var tallies := Tallies(notes, Uploader, One, us);
    TalliesTotal(notes, Uploader, One);
    SumOfOne(notes);
    SumOfPointwise(ContributorTable(notes), Uploads, tallies, Snd);
  }

  lemma ContributorDownloadsSum(notes: seq<Note>)
    ensures SumOf(ContributorTable(notes), TotalDownloads) == SumOf(notes, Downloads)
  {
    var us := Keys(notes, Uploader);
    var tallies := Tallies(notes, Uploader, Downloads, us);
    TalliesTotal(notes, Uploader, Downloads);
    SumOfPointwise(ContributorTable(notes), TotalDownloads, tallies, Snd);
  }

  lemma {:induction false} SubjectsByAbsent(notes: seq<Note>, u: string)
    requires forall i :: 0 <= i < |notes| ==> notes[i].uploadedBy != u
    ensures SubjectsBy(notes, u) == {}
  {
    if notes != [] {
      SubjectsByAbsent(notes[..|notes| - 1], u);
    }
  }

  /** Seeing one more note updates the record of its uploader only. */
  lemma ContributorOfSnoc(notes: seq<Note>, x: Note, u: string)
    ensures ContributorOf(notes + [x], u) ==
      if x.uploadedBy == u then
        ContributorOf(notes, u).(uploads := ContributorOf(notes, u).uploads + 1,
                                 totalDownloads := ContributorOf(notes, u).totalDownloads + x.downloads,
                                 subjects := ContributorOf(notes, u).subjects + {x.subject})
      else ContributorOf(notes, u)
  {
    assert (notes + [x])[..|notes|] == notes;
  }

  /** The record a first sighting of `u` creates. */
  function EmptyRecord(u: string): Contributor {
    Contributor(u, 0, 0, {})
  }

  /** The dict of the contributor loop after seeing `seen`: keys in first-appearance order, each with its record. */
  ghost predicate RecordsSeen(seen: seq<Note>, order: seq<string>, records: map<string, Contributor>) {
    && order == Keys(seen, Uploader)
    && (forall u :: u in records <==> u in order)
    && (forall u :: u in records ==> records[u] == ContributorOf(seen, u))
  }

  /** One pass of the gathering loop keeps the dict equal to the records of the notes seen. */
  lemma GatherStep(seen: seq<Note>, note: Note, order: seq<string>, records: map<string, Contributor>,
                   order': seq<string>, records': map<string, Contributor>)
    requires RecordsSeen(seen, order, records)
    requires order' == if note.uploadedBy in records then order else order + [note.uploadedBy]
    requires forall v :: v in records' <==> v in records || v == note.uploadedBy
    requires forall u :: u in records && u != note.uploadedBy ==> records'[u] == records[u]
    requires
      var c := if note.uploadedBy in records then records[note.uploadedBy] else EmptyRecord(note.uploadedBy);
      records'[note.uploadedBy]
        == c.(uploads := c.uploads + 1, totalDownloads := c.totalDownloads + note.downloads,
              subjects := c.subjects + {note.subject})
    ensures RecordsSeen(seen + [note], order', records')
  {
    assert (seen + [note])[..|seen|] == seen;
    GatherRecords(seen, note, order, records, records');
  }

  /** The record of the note's uploader after one pass, the others unchanged. */
  lemma GatherRecords(seen: seq<Note>, note: Note, order: seq<string>, records: map<string, Contributor>,
                      records': map<string, Contributor>)
    requires order == Keys(seen, Uploader)
    requires forall u :: u in records <==> u in order
    requires forall u :: u in records ==> records[u] == ContributorOf(seen, u)
    requires forall v :: v in records' <==> v in records || v == note.uploadedBy
    requires forall u :: u in records && u != note.uploadedBy ==> records'[u] == records[u]
    requires
      var c := if note.uploadedBy in records then records[note.uploadedBy] else EmptyRecord(note.uploadedBy);
      records'[note.uploadedBy]
        == c.(uploads := c.uploads + 1, totalDownloads := c.totalDownloads + note.downloads,
              subjects := c.subjects + {note.subject})
    ensures forall u :: u in records' ==> records'[u] == ContributorOf(seen + [note], u)
  {
    var u := note.uploadedBy;
    if u !in records {
      FirstSighting(seen, u);
    }
    forall v | v in records' ensures records'[v] == ContributorOf(seen + [note], v) {
      ContributorOfSnoc(seen, note, v);
      if v != u {
        assert v in records;
        assert records'[v] == records[v] == ContributorOf(seen, v);
      }
    }
  }

  /** An uploader not among the keys seen so far has the empty record. */
  lemma FirstSighting(seen: seq<Note>, u: string)
    requires u !in Keys(seen, Uploader)
    ensures ContributorOf(seen, u) == EmptyRecord(u)
  {
    assert forall k :: 0 <= k < |seen| ==> Uploader(seen[k]) != u;
    KeyedSumAbsent(seen, Uploader, u, One);
    KeyedSumAbsent(seen, Uploader, u, Downloads);
    SubjectsByAbsent(seen, u);
  }

  /**
   * The first loop of `get_top_contributors`: fills a dict keyed by uploader,
   * creating an empty record on first sight and then counting the note, adding
   * its downloads and its subject.
   */
  method GatherContributors(all: seq<Note>) returns (order: seq<string>, records: map<string, Contributor>)
    ensures order == Keys(all, Uploader)
    ensures forall u :: u in records <==> u in order
    ensures forall u :: u in records ==> records[u] == ContributorOf(all, u)
  {
    order := [];
    records := map[];
    for i := 0 to |all|
      invariant RecordsSeen(all[..i], order, records)
    {
      var note := all[i];
      TakeNext(all, i);
      ghost var order0, records0 := order, records;
      var uploader := note.uploadedBy;
      if uploader !in records {
        records := records[uploader := EmptyRecord(uploader)];
        order := order + [uploader];
      }
      var c := records[uploader];
      records := records[uploader := c.(uploads := c.uploads + 1,
                                        totalDownloads := c.totalDownloads + note.downloads,
                                        subjects := c.subjects + {note.subject})];
      GatherStep(all[..i], note, order0, records0, order, records);
    }
    assert all[..|all|] == all;
  }

  /**
   * `get_top_contributors`: the contributor table, stable-sorted by uploads
   * with the most first, cut to `limit` entries.
   */
  method GetTopContributors(store: NotesStore, limit: int := 10) returns (r: seq<Contributor>)
    requires store.Valid()
    ensures r == SliceTo(SortBy(ContributorTable(store.AllNotes()), Uploads, IntGreater), limit)
    ensures Sorted(r, Uploads, IntGreater)
    ensures limit >= 0 ==> |r| <= limit
    ensures multiset(r) <= multiset(ContributorTable(store.AllNotes()))
    ensures limit >= |ContributorTable(store.AllNotes())| ==> multiset(r) == multiset(ContributorTable(store.AllNotes()))
    ensures forall x, y :: x in multiset(ContributorTable(store.AllNotes())) - multiset(r) && y in r ==> x.uploads <= y.uploads
    ensures forall n :: WithKey(r, Uploads, n) <= WithKey(ContributorTable(store.AllNotes()), Uploads, n)
  {
    var all := store.GetAllNotes();
    var order, records := GatherContributors(all);
    var contributorList := RecordsInOrder(all, order, records);
    r := SliceTo(SortBy(contributorList, Uploads, IntGreater), limit);
    ContributorsCut(contributorList, limit, r);
    ContributorsStable(contributorList, limit, r);
  }

  /** The cut of `get_top_contributors` over a table: sorted, and the records with the most uploads in it. */
  lemma ContributorsCut(table: seq<Contributor>, limit: int, r: seq<Contributor>)
    requires r == SliceTo(SortBy(table, Uploads, IntGreater), limit)
    ensures Sorted(r, Uploads, IntGreater)
    ensures multiset(r) <= multiset(table)
    ensures forall x, y :: x in multiset(table) - multiset(r) && y in r ==> x.uploads <= y.uploads
  {
    var sorted := SortBy(table, Uploads, IntGreater);
    UploadsSorted(table);
    SortedPrefix(r, sorted, Uploads, IntGreater);
    SortedCut(r, sorted, Uploads, IntGreater);
    forall x, y | x in multiset(table) - multiset(r) && y in r ensures x.uploads <= y.uploads {
      assert !IntGreater(Uploads(x), Uploads(y));
    }
  }

  /**
   * The sort is stable: among records with the same upload count, the cut
   * keeps the first ones of the table, in the table's order.
   */
  lemma ContributorsStable(table: seq<Contributor>, limit: int, r: seq<Contributor>)
    requires r == SliceTo(SortBy(table, Uploads, IntGreater), limit)
    ensures forall n :: WithKey(r, Uploads, n) <= WithKey(table, Uploads, n)
  {
    var sorted := SortBy(table, Uploads, IntGreater);
    SortByStableAll(table, Uploads, IntGreater);
    forall n ensures WithKey(r, Uploads, n) <= WithKey(table, Uploads, n) {
      WithKeyPrefix(r, sorted, Uploads, n);
    }
  }

  /** Sorting contributors on uploads, most first, leaves them in that order. */
  lemma UploadsSorted(table: seq<Contributor>)
    ensures Sorted(SortBy(table, Uploads, IntGreater), Uploads, IntGreater)
  {
    IntGreaterIsStrictWeak();
    SortBySorted(table, Uploads, IntGreater);
  }

  /** The second loop of `get_top_contributors`: the gathered records in key order, which is the contributor table. */
  method RecordsInOrder(all: seq<Note>, order: seq<string>, records: map<string, Contributor>)
    returns (contributorList: seq<Contributor>)
    requires order == Keys(all, Uploader)
    requires forall u :: u in records <==> u in order
    requires forall u :: u in records ==> records[u] == ContributorOf(all, u)
    ensures contributorList == ContributorTable(all)
  {
    ghost var table := ContributorTable(all);
    contributorList := [];
    for j := 0 to |order|
      invariant contributorList == table[..j]
    {
      TakeNext(table, j);
      contributorList := contributorList + [records[order[j]]];
    }
    assert table[..|order|] == table;
  }


  // ---------------------------------------------------------------- search

  /** Whether the lower-cased query occurs in the lower-cased subject, topic, description or uploader. */
  predicate NoteMatchesQuery(n: Note, queryLower: string) {
    || Contains(Lower(n.subject), queryLower)
    || Contains(Lower(n.topic), queryLower)
    || Contains(Lower(n.description), queryLower)
    || Contains(Lower(n.uploadedBy), queryLower)
  }

  /** The matching notes, in listing order. */
  function NoteHits(notes: seq<Note>, queryLower: string): seq<Note> {
    if notes == [] then []
    else
      var last := notes[|notes| - 1];
      NoteHits(notes[..|notes| - 1], queryLower) + (if NoteMatchesQuery(last, queryLower) then [last] else [])
  }

  /** The hits are every occurrence of a matching note and nothing else. */
  lemma {:induction false} NoteHitsSpec(notes: seq<Note>, queryLower: string)
    ensures forall n ::
      multiset(NoteHits(notes, queryLower))[n] == if NoteMatchesQuery(n, queryLower) then multiset(notes)[n] else 0
  {
    if notes != [] {
      var init := notes[..|notes| - 1];
      NoteHitsSpec(init, queryLower);
      assert notes == init + [notes[|notes| - 1]];
    }
  }

  /** `search_notes`: appends each matching note in turn. */
  method SearchNotes(store: NotesStore, query: string) returns (results: seq<Note>)
    requires store.Valid()
    ensures results == NoteHits(store.AllNotes(), Lower(query))
    ensures forall n ::
      multiset(results)[n] == if NoteMatchesQuery(n, Lower(query)) then multiset(store.AllNotes())[n] else 0
  {
    var queryLower := Lower(query);
    var all := store.GetAllNotes();
    results := ScanNotes(all, queryLower);
    NoteHitsSpec(all, queryLower);
  }

  /** The filtering loop of `search_notes` over the listed notes. */
  method ScanNotes(all: seq<Note>, queryLower: string) returns (results: seq<Note>)
    ensures results == NoteHits(all, queryLower)
  {
    results := [];
    for i := 0 to |all|
      invariant results == NoteHits(all[..i], queryLower)
    {
      TakeNext(all, i);
      assert all[..i + 1][..i] == all[..i];
      if NoteMatchesQuery(all[i], queryLower) {
        results := results + [all[i]];
      }
    }
    assert all[..|all|] == all;
  }

  // ---------------------------------------------------------------- semester

  /** The notes of one semester, in listing order. */
  function InSemester(notes: seq<Note>, semester: string): seq<Note> {
    if notes == [] then []
    else
      var last := notes[|notes| - 1];
      InSemester(notes[..|notes| - 1], semester) + (if last.semester == semester then [last] else [])
  }

  /** The semester's notes are every occurrence of a note with that semester and nothing else. */
  lemma {:induction false} InSemesterSpec(notes: seq<Note>, semester: string)
    ensures forall n ::
      multiset(InSemester(notes, semester))[n] == if n.semester == semester then multiset(notes)[n] else 0
  {
    if notes != [] {
      var init := notes[..|notes| - 1];
      InSemesterSpec(init, semester);
      assert notes == init + [notes[|notes| - 1]];
    }
  }

  /** `get_notes_by_semester`: appends each note whose semester is equal. */
  method GetNotesBySemester(store: NotesStore, semester: string) returns (results: seq<Note>)
    requires store.Valid()
    ensures results == InSemester(store.AllNotes(), semester)
    ensures forall n ::
      multiset(results)[n] == if n.semester == semester then multiset(store.AllNotes())[n] else 0
  {
    var all := store.GetAllNotes();
    results := [];
    for i := 0 to |all|
      invariant results == InSemester(all[..i], semester)
    {
      assert all[..i + 1][..i] == all[..i];
      if all[i].semester == semester {
        results := results + [all[i]];
      }
    }
    assert all[..|all|] == all;
    InSemesterSpec(all, semester);
  }

  // ---------------------------------------------------------------- top lists

  function UploadDate(n: Note): string {
    n.uploadDate
  }

  /**
   * `get_recent_notes`: a stable sort on upload date, latest first, cut to
   * `limit`. No note left out was uploaded later than a note kept.
   */
  method GetRecentNotes(store: NotesStore, limit: int := 10) returns (r: seq<Note>)
    requires store.Valid()
    ensures r == SliceTo(SortBy(store.AllNotes(), UploadDate, StrGreater), limit)
    ensures Sorted(r, UploadDate, StrGreater)
    ensures limit >= 0 ==> |r| <= limit
    ensures multiset(r) <= multiset(store.AllNotes())
    ensures limit >= |store.AllNotes()| ==> multiset(r) == multiset(store.AllNotes())
    ensures forall x, y :: x in multiset(store.AllNotes()) - multiset(r) && y in r ==> !StrLess(y.uploadDate, x.uploadDate)
  {
    var all := store.GetAllNotes();
    r := SliceTo(SortBy(all, UploadDate, StrGreater), limit);
    LatestCut(all, limit, r);
  }

  /** The cut of `get_recent_notes` over a listing: sorted, and the latest notes of it. */
  lemma LatestCut(all: seq<Note>, limit: int, r: seq<Note>)
    requires r == SliceTo(SortBy(all, UploadDate, StrGreater), limit)
    ensures Sorted(r, UploadDate, StrGreater)
    ensures multiset(r) <= multiset(all)
    ensures forall x, y :: x in multiset(all) - multiset(r) && y in r ==> !StrLess(y.uploadDate, x.uploadDate)
  {
    var sorted := SortBy(all, UploadDate, StrGreater);
    UploadDatesSorted(all);
    SortedPrefix(r, sorted, UploadDate, StrGreater);
    SortedCut(r, sorted, UploadDate, StrGreater);
    forall x, y | x in multiset(all) - multiset(r) && y in r ensures !StrLess(y.uploadDate, x.uploadDate) {
      assert !StrGreater(UploadDate(x), UploadDate(y));
    }
  }

  /** Sorting notes on upload date, latest first, leaves them in that order. */
  lemma UploadDatesSorted(all: seq<Note>)
    ensures Sorted(SortBy(all, UploadDate, StrGreater), UploadDate, StrGreater)
  {
    StrGreaterIsStrictWeak();
    SortBySorted(all, UploadDate, StrGreater);
  }

  /**
   * `get_popular_notes`: a stable sort on downloads, most first, cut to
   * `limit`. No note left out has more downloads than a note kept.
   */
  method GetPopularNotes(store: NotesStore, limit: int := 10) returns (r: seq<Note>)
    requires store.Valid()
    ensures r == SliceTo(SortBy(store.AllNotes(), Downloads, IntGreater), limit)
    ensures Sorted(r, Downloads, IntGreater)
    ensures limit >= 0 ==> |r| <= limit
    ensures multiset(r) <= multiset(store.AllNotes())
    ensures limit >= |store.AllNotes()| ==> multiset(r) == multiset(store.AllNotes())
    ensures forall x, y :: x in multiset(store.AllNotes()) - multiset(r) && y in r ==> x.downloads <= y.downloads
  {
    var all := store.GetAllNotes();
    r := SliceTo(SortBy(all, Downloads, IntGreater), limit);
    PopularCut(all, limit, r);
  }

  /** The cut of `get_popular_notes` over a listing: sorted, and the most downloaded notes of it. */
  lemma PopularCut(all: seq<Note>, limit: int, r: seq<Note>)
    requires r == SliceTo(SortBy(all, Downloads, IntGreater), limit)
    ensures Sorted(r, Downloads, IntGreater)
    ensures multiset(r) <= multiset(all)
    ensures forall x, y :: x in multiset(all) - multiset(r) && y in r ==> x.downloads <= y.downloads
  {
    var sorted := SortBy(all, Downloads, IntGreater);
    DownloadsSorted(all);
    SortedPrefix(r, sorted, Downloads, IntGreater);
    SortedCut(r, sorted, Downloads, IntGreater);
    forall x, y | x in multiset(all) - multiset(r) && y in r ensures x.downloads <= y.downloads {
      assert !IntGreater(Downloads(x), Downloads(y));
    }
  }

  /** Sorting notes on downloads, most first, leaves them in that order. */
  lemma DownloadsSorted(all: seq<Note>)
    ensures Sorted(SortBy(all, Downloads, IntGreater), Downloads, IntGreater)
  {
    IntGreaterIsStrictWeak();
    SortBySorted(all, Downloads, IntGreater);
  }
}
