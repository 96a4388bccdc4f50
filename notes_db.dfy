/**
 * The in-memory notes store of database/notes_db.py: a dict from subject
 * name to the list of that subject's notes, kept in insertion order, and a
 * global id counter.
 */
module NotesDb {
  import opened Ordering

  /** One note's metadata dict. */
  datatype Note = Note(
    id: int,
    subject: string,
    topic: string,
    semester: string,
    uploadedBy: string,
    fileName: string,
    description: string,
    uploadDate: string,
    downloads: int,
    rating: real)

  /** The notes listed under `keys`, one list after another in key order. */
  function Concat(keys: seq<string>, lists: map<string, seq<Note>>): seq<Note>
    requires forall k :: k in keys ==> k in lists
  {
    if keys == [] then []
    else Concat(keys[..|keys| - 1], lists) + lists[keys[|keys| - 1]]
  }

  /** The sum of the list lengths under `keys`. */
  function TotalLength(keys: seq<string>, lists: map<string, seq<Note>>): nat
    requires forall k :: k in keys ==> k in lists
  {
    if keys == [] then 0
    else TotalLength(keys[..|keys| - 1], lists) + |lists[keys[|keys| - 1]]|
  }

  /** The concatenation is as long as all the lists together. */
  lemma {:induction false} ConcatLength(keys: seq<string>, lists: map<string, seq<Note>>)
    requires forall k :: k in keys ==> k in lists
    ensures |Concat(keys, lists)| == TotalLength(keys, lists)
  {
    if keys != [] {
      ConcatLength(keys[..|keys| - 1], lists);
    }
  }

  /** A note is in the concatenation exactly when it is in the list of one of the keys. */
  lemma {:induction false} ConcatMembers(keys: seq<string>, lists: map<string, seq<Note>>, n: Note)
    requires forall k :: k in keys ==> k in lists
    ensures n in Concat(keys, lists) <==> exists k :: k in keys && n in lists[k]
  {
    if keys != [] {
      var init := keys[..|keys| - 1];
      ConcatMembers(init, lists, n);
      assert forall k :: k in keys <==> k in init || k == keys[|keys| - 1];
    }
  }

  /**
   * The shape the store keeps: the key order lists each key of the dict
   * once, the counter is positive and above every stored id, and every note
   * sits under its own subject.
   */
  ghost predicate WellKeyed(subjects: seq<string>, lists: map<string, seq<Note>>, counter: int) {
    && Distinct(subjects)
    && (forall s :: s in lists <==> s in subjects)
    && counter >= 1
    && (forall s, n :: s in lists && n in lists[s] ==> n.subject == s && n.id < counter)
  }

  const SeedSubjects: seq<string> :=
    ["Data Structures", "Database Management", "Operating Systems", "Web Development"]

  /** The five notes the module starts with. */
  const SeedNotes: map<string, seq<Note>> := map[
    "Data Structures" := [
      Note(1, "Data Structures", "Arrays and Linked Lists", "Semester 3", "Ankit Verma",
           "DS_Arrays_LinkedLists.pdf", "Comprehensive notes on arrays and linked lists with examples",
           "2026-01-05", 45, 4.5),
      Note(2, "Data Structures", "Trees and Graphs", "Semester 3", "Priya Gupta",
           "DS_Trees_Graphs.pdf", "Detailed explanation of tree and graph algorithms",
           "2026-01-07", 32, 4.8)],
    "Database Management" := [
      Note(3, "Database Management", "SQL Queries", "Semester 4", "Rohan Mehta",
           "DBMS_SQL_Queries.pdf", "Complete SQL query reference with practice problems",
           "2026-01-06", 67, 4.7)],
    "Operating Systems" := [
      Note(4, "Operating Systems", "Process Scheduling", "Semester 4", "Neha Sharma",
           "OS_Process_Scheduling.pdf", "Process scheduling algorithms with diagrams",
           "2026-01-08", 28, 4.3)],
    "Web Development" := [
      Note(5, "Web Development", "JavaScript Fundamentals", "Semester 5", "Karan Singh",
           "WebDev_JavaScript.pdf", "JavaScript basics to advanced concepts",
           "2026-01-09", 53, 4.6)]]

  const SeedCounter := 6

  /** Listing the seed state gives ids 1 to 5 in order: distinct, and all below the counter. */
  lemma SeedListing()
    ensures |Concat(SeedSubjects, SeedNotes)| == 5
    ensures forall i :: 0 <= i < 5 ==> Concat(SeedSubjects, SeedNotes)[i].id == i + 1
  {
    var k := SeedSubjects;
    assert k[..|k| - 1] == k[..3] && k[..3][..2] == k[..2] && k[..2][..1] == k[..1] && k[..1][..0] == [];
    assert Concat(k[..1], SeedNotes) == SeedNotes["Data Structures"];
    assert Concat(k[..2], SeedNotes) == Concat(k[..1], SeedNotes) + SeedNotes["Database Management"];
    assert Concat(k[..3], SeedNotes) == Concat(k[..2], SeedNotes) + SeedNotes["Operating Systems"];
    assert Concat(k, SeedNotes) == Concat(k[..3], SeedNotes) + SeedNotes["Web Development"];
  }

  /** The seed subjects are distinct and are exactly the keys of the seed notes. */
  lemma SeedSubjectsListed()
    ensures Distinct(SeedSubjects)
    ensures forall s :: s in SeedNotes <==> s in SeedSubjects
  {
  }

  /** Every seeded note sits under its own subject, with an id below the counter. */
  lemma SeedNotesKeyed()
    ensures forall s, n :: s in SeedNotes && n in SeedNotes[s] ==> n.subject == s && n.id < SeedCounter
  {
    forall s | s in SeedNotes
      ensures forall i :: 0 <= i < |SeedNotes[s]| ==> SeedNotes[s][i].subject == s && SeedNotes[s][i].id < SeedCounter
    {
    }
  }

  /** The seed state has the store's shape. */
  lemma SeedWellKeyed()
    ensures WellKeyed(SeedSubjects, SeedNotes, SeedCounter)
  {
    SeedSubjectsListed();
    SeedNotesKeyed();
  }

  class NotesStore {
    /** The dict's keys, in insertion order. */
    var subjects: seq<string>
    /** `notes_data`. */
    var notes: map<string, seq<Note>>
    /** `note_id_counter`. */
    var counter: int

    ghost predicate Valid()
      reads this
    {
      WellKeyed(subjects, notes, counter)
    }

    /** The module's initial state. */
    constructor ()
      ensures Valid()
      ensures subjects == SeedSubjects && notes == SeedNotes && counter == SeedCounter
    {
      SeedWellKeyed();
      subjects := SeedSubjects;
      notes := SeedNotes;
      counter := SeedCounter;
    }

    /** Every stored note, list after list in key order. */
    function AllNotes(): (r: seq<Note>)
      requires Valid()
      reads this
      ensures |r| == TotalLength(subjects, notes)
      ensures forall n :: n in r ==> n.id < counter && n.subject in subjects && n in notes[n.subject]
    {
      ConcatLength(subjects, notes);
      assert forall n :: n in Concat(subjects, notes) ==> exists k :: k in subjects && n in notes[k] by {
        forall n | n in Concat(subjects, notes) {
          ConcatMembers(subjects, notes, n);
        }
      }
      Concat(subjects, notes)
    }

    /**
     * `get_next_note_id`: hands out the counter and moves it up by one, so
     * the id is above every stored one and the next call returns a larger id.
     */
    method GetNextNoteId() returns (id: int)
      requires Valid()
      modifies this
      ensures Valid()
      ensures id == old(counter) && counter == id + 1
      ensures subjects == old(subjects) && notes == old(notes)
      ensures forall n :: n in AllNotes() ==> n.id < id
    {
      id := counter;
      counter := counter + 1;
    }

    /** `get_all_subjects`: the keys, once each, in insertion order. */
    function GetAllSubjects(): (r: seq<string>)
      requires Valid()
      reads this
      ensures Distinct(r)
      ensures forall s :: s in r <==> s in notes
      ensures r == subjects
    {
      subjects
    }

    /** `get_all_notes`: extends an empty list by each subject's list in key order. */
    method GetAllNotes() returns (all: seq<Note>)
      requires Valid()
      ensures all == AllNotes()
    {
      all := [];
      for i := 0 to |subjects|
        invariant all == Concat(subjects[..i], notes)
      {
        assert subjects[..i + 1][..i] == subjects[..i];
        all := all + notes[subjects[i]];
      }
      assert subjects[..|subjects|] == subjects;
    }

    /** `reset_database`: empties the dict in place and restarts the counter at 1. */
    method ResetDatabase()
      requires Valid()
      modifies this
      ensures Valid()
      ensures subjects == [] && notes == map[] && counter == 1
      ensures AllNotes() == []
    {
      subjects := [];
      notes := map[];
      counter := 1;
    }
  }
}
