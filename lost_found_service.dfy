/**
 * The lost-and-found business logic of services/lost_found_service.py:
 * reporting items, suggesting matches of the opposite type, claiming, and
 * the list filters. Every read goes through `ItemTable.GetAllItems`.
 */
module LostFoundService {
  import opened Wrappers
  import opened Text
  import opened Ordering
  import opened LostFoundDb

  // ---------------------------------------------------------------- verification codes

  /** A five-digit decimal string, as `str(random.randint(10000, 99999))` yields. */
  ghost predicate IsVerificationCode(code: string) {
    && |code| == 5
    && (forall i :: 0 <= i < 5 ==> IsDigit(code[i]))
    && 10000 <= DecimalValue(code) <= 99999
  }

  /** `generate_verification_code`: the random draw is an arbitrary choice in [10000, 99999]. */
  method GenerateVerificationCode() returns (code: string)
    ensures IsVerificationCode(code)
    ensures code[0] != '0'
  {
    var n :| 10000 <= n <= 99999;
    assert Pow10(4) == 10000 && Pow10(5) == 100000;
    DecimalLength(n, 5);
    DecimalRoundTrip(n);
    code := NatToDecimal(n);
  }

  // ---------------------------------------------------------------- reporting

  /** The dict `add_lost_item` and `add_found_item` build before storing it. */
  function Report(kind: string, itemName: string, category: string, location: string,
                  description: string, reporterName: string, reporterContact: string,
                  imagePath: Option<string>, today: string, code: string): NewItem
  {
    NewItem(kind, itemName, category, location, description, reporterName, reporterContact,
            Some(today), Some("open"), None, Some(code), imagePath)
  }

  /** Stores a report of the given kind and returns it with the id the table assigned. */
  method AddReport(table: ItemTable, kind: string, itemName: string, category: string, location: string,
                   description: string, reporterName: string, reporterContact: string,
                   imagePath: Option<string>, today: string) returns (item: Item)
    requires table.Valid()
    modifies table
    ensures table.Valid()
    ensures item.id == old(table.nextId) && item.id !in old(table.rows)
    ensures table.rows == old(table.rows)[item.id := item]
    ensures item.kind == kind && item.status == "open" && item.matchedWith == None && item.date == today
    ensures item.itemName == itemName && item.category == category && item.location == location
    ensures item.description == description && item.imagePath == imagePath
    ensures item.reporterName == reporterName && item.reporterContact == reporterContact
    ensures item.verificationCode.Some? && IsVerificationCode(item.verificationCode.value)
  {
    var code := GenerateVerificationCode();
    var report := Report(kind, itemName, category, location, description, reporterName,
                         reporterContact, imagePath, today, code);
    var id := table.AddItem(report, today);
    item := RowFor(id, report, today);
  }

  /** `add_lost_item`. */
  method AddLostItem(table: ItemTable, itemName: string, category: string, location: string,
                     description: string, reporterName: string, reporterContact: string,
                     imagePath: Option<string>, today: string) returns (item: Item)
    requires table.Valid()
    modifies table
    ensures table.Valid()
    ensures item.id == old(table.nextId) && item.id !in old(table.rows)
    ensures table.rows == old(table.rows)[item.id := item]
    ensures item.kind == "lost" && item.status == "open" && item.matchedWith == None && item.date == today
    ensures item.itemName == itemName && item.category == category && item.location == location
    ensures item.description == description && item.imagePath == imagePath
    ensures item.reporterName == reporterName && item.reporterContact == reporterContact
    ensures item.verificationCode.Some? && IsVerificationCode(item.verificationCode.value)
  {
    item := AddReport(table, "lost", itemName, category, location, description,
                      reporterName, reporterContact, imagePath, today);
  }

  /** `add_found_item`. */
  method AddFoundItem(table: ItemTable, itemName: string, category: string, location: string,
                      description: string, reporterName: string, reporterContact: string,
                      imagePath: Option<string>, today: string) returns (item: Item)
    requires table.Valid()
    modifies table
    ensures table.Valid()
    ensures item.id == old(table.nextId) && item.id !in old(table.rows)
    ensures table.rows == old(table.rows)[item.id := item]
    ensures item.kind == "found" && item.status == "open" && item.matchedWith == None && item.date == today
    ensures item.itemName == itemName && item.category == category && item.location == location
    ensures item.description == description && item.imagePath == imagePath
    ensures item.reporterName == reporterName && item.reporterContact == reporterContact
    ensures item.verificationCode.Some? && IsVerificationCode(item.verificationCode.value)
  {
    item := AddReport(table, "found", itemName, category, location, description,
                      reporterName, reporterContact, imagePath, today);
  }

  // ---------------------------------------------------------------- list filters

  /** A listing names each row at most once, since its ids strictly increase. */
  lemma {:induction false} ListedOnce(items: seq<Item>, it: Item)
    requires forall i, j :: 0 <= i < j < |items| ==> items[i].id < items[j].id
    ensures multiset(items)[it] == if it in items then 1 else 0
  {
    if items != [] {
      ListedOnce(items[1..], it);
      assert items == [items[0]] + items[1..];
      if it == items[0] {
        assert it !in items[1..];
      }
    }
  }

  function KindIs(kind: string): Item -> bool {
    (it: Item) => it.kind == kind
  }

  function StatusIs(status: string): Item -> bool {
    (it: Item) => it.status == status
  }

  function ItemId(it: Item): int {
    it.id
  }

  /**
   * `get_lost_items`: the rows of type 'lost', in listing order. The two
   * ensures together fix the result: a sequence in increasing id order is
   * determined by its elements (`Ordering.IncreasingUnique`).
   */
  function GetLostItems(table: ItemTable): (r: seq<Item>)
    requires table.Valid()
    reads table
    ensures forall it :: multiset(r)[it] == if it.kind == "lost" then multiset(table.GetAllItems())[it] else 0
    ensures forall i, j :: 0 <= i < j < |r| ==> r[i].id < r[j].id
  {
    FilterMultiset(table.GetAllItems(), KindIs("lost"));
    FilterIncreasing(table.GetAllItems(), KindIs("lost"), ItemId);
    Filter(table.GetAllItems(), KindIs("lost"))
  }

  /** `get_found_items`: the rows of type 'found', in listing order. */
  function GetFoundItems(table: ItemTable): (r: seq<Item>)
    requires table.Valid()
    reads table
    ensures forall it :: multiset(r)[it] == if it.kind == "found" then multiset(table.GetAllItems())[it] else 0
    ensures forall i, j :: 0 <= i < j < |r| ==> r[i].id < r[j].id
  {
    FilterMultiset(table.GetAllItems(), KindIs("found"));
    FilterIncreasing(table.GetAllItems(), KindIs("found"), ItemId);
    Filter(table.GetAllItems(), KindIs("found"))
  }

  /** `get_items_by_status`: the rows whose status equals `status` exactly, in listing order. */
  function GetItemsByStatus(table: ItemTable, status: string): (r: seq<Item>)
    requires table.Valid()
    reads table
    ensures forall it :: multiset(r)[it] == if it.status == status then multiset(table.GetAllItems())[it] else 0
    ensures forall i, j :: 0 <= i < j < |r| ==> r[i].id < r[j].id
  {
    FilterMultiset(table.GetAllItems(), StatusIs(status));
    FilterIncreasing(table.GetAllItems(), StatusIs(status), ItemId);
    Filter(table.GetAllItems(), StatusIs(status))
  }

  /**
   * `get_recent_items`: the first `limit` rows after a stable sort on date,
   * latest first. No row left out is later than a row kept.
   */
  function GetRecentItems(table: ItemTable, limit: int := 10): (r: seq<Item>)
    requires table.Valid()
    reads table
    ensures r == SliceTo(SortBy(table.GetAllItems(), ItemDate, StrGreater), limit)
    ensures Sorted(r, ItemDate, StrGreater)
    ensures limit >= 0 ==> |r| == if limit < |table.GetAllItems()| then limit else |table.GetAllItems()|
    ensures multiset(r) <= multiset(table.GetAllItems())
    ensures forall x, y :: x in multiset(table.GetAllItems()) - multiset(r) && y in r ==> !StrLess(y.date, x.date)
  {
    var r := SliceTo(SortBy(table.GetAllItems(), ItemDate, StrGreater), limit);
    RecentCut(table.GetAllItems(), limit, r);
    r
  }

  /** The cut of `get_recent_items` over a listing: sorted, and the latest rows of it. */
  lemma RecentCut(items: seq<Item>, limit: int, r: seq<Item>)
    requires r == SliceTo(SortBy(items, ItemDate, StrGreater), limit)
    ensures Sorted(r, ItemDate, StrGreater)
    ensures multiset(r) <= multiset(items)
    ensures forall x, y :: x in multiset(items) - multiset(r) && y in r ==> !StrLess(y.date, x.date)
  {
    var sorted := SortBy(items, ItemDate, StrGreater);
    DatesSorted(items);
    SortedPrefix(r, sorted, ItemDate, StrGreater);
    SortedCut(r, sorted, ItemDate, StrGreater);
    forall x, y | x in multiset(items) - multiset(r) && y in r ensures !StrLess(y.date, x.date) {
      assert !StrGreater(ItemDate(x), ItemDate(y));
    }
  }

  /** Sorting rows on date, latest first, leaves them in that order. */
  lemma DatesSorted(items: seq<Item>)
    ensures Sorted(SortBy(items, ItemDate, StrGreater), ItemDate, StrGreater)
  {
    StrGreaterIsStrictWeak();
    SortBySorted(items, ItemDate, StrGreater);
  }

  function ItemDate(it: Item): string {
    it.date
  }

  // ---------------------------------------------------------------- matching

  /** The type matches are drawn from: 'found' for 'lost', 'lost' for anything else. */
  function OppositeType(itemType: string): (r: string)
    ensures itemType == "lost" ==> r == "found"
    ensures itemType != "lost" ==> r == "lost"
  {
    if itemType == "lost" then "found" else "lost"
  }

  /** A row qualifies: the opposite type, still open, and the same category up to case. */
  predicate IsCandidate(it: Item, itemType: string, category: string) {
    it.kind == OppositeType(itemType) && it.status == "open" && Lower(it.category) == Lower(category)
  }

  /** 20 when the locations agree up to case, 10 otherwise. */
  function ScoreOf(it: Item, location: string): int {
    if Lower(it.location) == Lower(location) then 20 else 10
  }

  /** A suggested match: a copy of the row carrying its `match_score`. */
  datatype Match = Match(item: Item, matchScore: int)

  function MatchScore(m: Match): int {
    m.matchScore
  }

  /** The qualifying rows of `items`, scored, in their listing order (before sorting). */
  function Candidates(items: seq<Item>, itemType: string, category: string, location: string): seq<Match> {
    if items == [] then []
    else
      var last := items[|items| - 1];
      Candidates(items[..|items| - 1], itemType, category, location)
      + (if IsCandidate(last, itemType, category) then [Match(last, ScoreOf(last, location))] else [])
  }

  /** Candidates carry exactly the qualifying rows, each with its score. */
  lemma {:induction false} CandidatesSpec(items: seq<Item>, itemType: string, category: string, location: string)
    ensures forall m :: m in Candidates(items, itemType, category, location) ==>
      m.item in items && IsCandidate(m.item, itemType, category) && m.matchScore == ScoreOf(m.item, location)
    ensures forall it ::
      multiset(Candidates(items, itemType, category, location))[Match(it, ScoreOf(it, location))]
      == if IsCandidate(it, itemType, category) then multiset(items)[it] else 0
  {
    if items != [] {
      var init := items[..|items| - 1];
      var last := items[|items| - 1];
      CandidatesSpec(init, itemType, category, location);
      assert items == init + [last];
    }
  }

  /** The scan of `find_potential_matches`: the qualifying rows, scored, in listing order. */
  method ScanCandidates(items: seq<Item>, itemType: string, category: string, location: string)
    returns (found: seq<Match>)
    ensures found == Candidates(items, itemType, category, location)
  {
    found := [];
    var i := 0;
    while i < |items|
      invariant 0 <= i <= |items|
      invariant found == Candidates(items[..i], itemType, category, location)
    {
      var item := items[i];
      if item.kind == OppositeType(itemType) && item.status == "open" {
        if Lower(item.category) == Lower(category) {
          var score := 10;
          if Lower(item.location) == Lower(location) {
            score := 20;
          }
          found := found + [Match(item, score)];
        }
      }
      assert items[..i + 1][..i] == items[..i];
      i := i + 1;
    }
    assert items[..i] == items;
  }

  /** Every sorted match is a qualifying row of the listing, with its score. */
  lemma MatchesSound(items: seq<Item>, itemType: string, category: string, location: string, matches: seq<Match>)
    requires matches == SortBy(Candidates(items, itemType, category, location), MatchScore, IntGreater)
    ensures forall m :: m in matches ==>
      m.item in items && IsCandidate(m.item, itemType, category) && m.matchScore == ScoreOf(m.item, location)
  {
    var found := Candidates(items, itemType, category, location);
    CandidatesSpec(items, itemType, category, location);
    assert multiset(matches) == multiset(found);
    forall m | m in matches
      ensures m.item in items && IsCandidate(m.item, itemType, category) && m.matchScore == ScoreOf(m.item, location)
    {
      assert m in multiset(matches);
      assert m in found;
    }
  }

  /** Every qualifying row of a listing appears exactly once among the sorted matches. */
  lemma MatchesComplete(items: seq<Item>, itemType: string, category: string, location: string, matches: seq<Match>)
    requires forall i, j :: 0 <= i < j < |items| ==> items[i].id < items[j].id
    requires matches == SortBy(Candidates(items, itemType, category, location), MatchScore, IntGreater)
    ensures forall it :: it in items && IsCandidate(it, itemType, category) ==>
      multiset(matches)[Match(it, ScoreOf(it, location))] == 1
  {
    var found := Candidates(items, itemType, category, location);
    CandidatesSpec(items, itemType, category, location);
    assert multiset(matches) == multiset(found);
    forall it | it in items && IsCandidate(it, itemType, category)
      ensures multiset(matches)[Match(it, ScoreOf(it, location))] == 1
    {
      ListedOnce(items, it);
      assert multiset(found)[Match(it, ScoreOf(it, location))] == 1;
    }
  }

  /** The sorted matches descend by score and keep listing order among equal scores. */
  lemma MatchesOrdered(found: seq<Match>, matches: seq<Match>)
    requires matches == SortBy(found, MatchScore, IntGreater)
    ensures forall i, j :: 0 <= i < j < |matches| ==> matches[i].matchScore >= matches[j].matchScore
    ensures forall score :: WithKey(matches, MatchScore, score) == WithKey(found, MatchScore, score)
  {
    IntGreaterIsStrictWeak();
    SortBySorted(found, MatchScore, IntGreater);
    SortByStableAll(found, MatchScore, IntGreater);
    forall i, j | 0 <= i < j < |matches| ensures matches[i].matchScore >= matches[j].matchScore {
      assert !IntGreater(MatchScore(matches[j]), MatchScore(matches[i]));
    }
  }

  /**
   * `find_potential_matches`: scores the qualifying rows and sorts them by
   * score, highest first, with Python's stable sort. It reads the table and
   * changes nothing: the scores live on copies.
   */
  method FindPotentialMatches(table: ItemTable, itemType: string, category: string, location: string)
    returns (matches: seq<Match>)
    requires table.Valid()
    ensures forall m :: m in matches ==>
      && m.item in table.GetAllItems()
      && m.item.kind == OppositeType(itemType) && m.item.status == "open"
      && Lower(m.item.category) == Lower(category)
      && m.matchScore == (if Lower(m.item.location) == Lower(location) then 20 else 10)
    ensures forall it :: it in table.GetAllItems() && IsCandidate(it, itemType, category) ==>
      multiset(matches)[Match(it, ScoreOf(it, location))] == 1
    ensures forall i, j :: 0 <= i < j < |matches| ==> matches[i].matchScore >= matches[j].matchScore
    ensures forall score ::
      WithKey(matches, MatchScore, score) == WithKey(Candidates(table.GetAllItems(), itemType, category, location), MatchScore, score)
  {
    var items := table.GetAllItems();
    var found := ScanCandidates(items, itemType, category, location);
    matches := SortBy(found, MatchScore, IntGreater);
    MatchesSound(items, itemType, category, location, matches);
    MatchesComplete(items, itemType, category, location, matches);
    MatchesOrdered(found, matches);
  }

  // ---------------------------------------------------------------- claiming

  /**
   * `claim_item`: False and no change for an absent id; otherwise the row's
   * status becomes 'claimed', whatever it was, and nothing else changes. The
   * claimer's details are accepted and dropped, as the source drops them.
   */
  method ClaimItem(table: ItemTable, itemId: int, claimerName: string, verificationDetail: string := "",
                   claimerEmail: string := "", claimerContact: string := "") returns (ok: bool)
    requires table.Valid()
    modifies table
    ensures table.Valid() && table.nextId == old(table.nextId)
    ensures ok <==> itemId in old(table.rows)
    ensures ok ==> table.rows == old(table.rows)[itemId := old(table.rows)[itemId].(status := "claimed")]
    ensures !ok ==> table.rows == old(table.rows)
  {
    var item := table.GetItemById(itemId);
    if item.None? {
      return false;
    }
    table.UpdateItemStatus(itemId, "claimed");
    ok := true;
  }

  // ---------------------------------------------------------------- search

  /** Whether the lower-cased query occurs in the lower-cased name, category, location or description. */
  predicate ItemMatchesQuery(it: Item, queryLower: string) {
    || Contains(Lower(it.itemName), queryLower)
    || Contains(Lower(it.category), queryLower)
    || Contains(Lower(it.location), queryLower)
    || Contains(Lower(it.description), queryLower)
  }

  /** The rows of `items` that match the lower-cased query, in their listing order. */
  function SearchHits(items: seq<Item>, queryLower: string): seq<Item> {
    if items == [] then []
    else
      var last := items[|items| - 1];
      SearchHits(items[..|items| - 1], queryLower) + (if ItemMatchesQuery(last, queryLower) then [last] else [])
  }

  /** The hits are every occurrence of a matching row and nothing else. */
  lemma {:induction false} SearchHitsSpec(items: seq<Item>, queryLower: string)
    ensures forall it ::
      multiset(SearchHits(items, queryLower))[it] == if ItemMatchesQuery(it, queryLower) then multiset(items)[it] else 0
  {
    if items != [] {
      var init := items[..|items| - 1];
      SearchHitsSpec(init, queryLower);
      assert items == init + [items[|items| - 1]];
    }
  }

  /** The loop of `search_items` over one listing: keeps the matching rows in order. */
  method SearchListing(items: seq<Item>, queryLower: string) returns (results: seq<Item>)
    ensures results == SearchHits(items, queryLower)
    ensures forall it ::
      multiset(results)[it] == if ItemMatchesQuery(it, queryLower) then multiset(items)[it] else 0
  {
    results := [];
    for i := 0 to |items|
      invariant results == SearchHits(items[..i], queryLower)
    {
      var item := items[i];
      assert items[..i + 1][..i] == items[..i];
      if ItemMatchesQuery(item, queryLower) {
        results := results + [item];
      }
    }
    assert items[..|items|] == items;
    SearchHitsSpec(items, queryLower);
  }

  /** `search_items`: the matching rows in listing order; reads the table and changes nothing. */
  method SearchItems(table: ItemTable, query: string) returns (results: seq<Item>)
    requires table.Valid()
    ensures results == SearchHits(table.GetAllItems(), Lower(query))
    ensures forall it ::
      multiset(results)[it] == if ItemMatchesQuery(it, Lower(query)) then multiset(table.GetAllItems())[it] else 0
  {
    results := SearchListing(table.GetAllItems(), Lower(query));
  }

  /** An empty query occurs in every text, so it returns every row. */
  lemma {:induction false} SearchEmptyQueryKeepsAll(items: seq<Item>)
    ensures SearchHits(items, Lower("")) == items
  {
    if items != [] {
      var init := items[..|items| - 1];
      SearchEmptyQueryKeepsAll(init);
      assert Lower("") <= Lower(items[|items| - 1].itemName);
      assert items == init + [items[|items| - 1]];
    }
  }
}
