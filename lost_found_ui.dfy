/**
 * The decision logic of ui/lost_found_ui.py: the report forms' validation
 * order, the all-items browser's filters and sort, and the claim form's
 * ladder of checks. Rendering and session state are not modelled; each form
 * is reduced to the outcome it reaches and, on success, the store call it
 * makes.
 */
module LostFoundUi {
  import opened Wrappers
  import opened Text
  import opened Ordering
  import opened Validators
  import opened LostFoundDb
  import opened LostFoundService

  // ---------------------------------------------------------------- report forms

  /** Where a submitted lost or found report form ends. */
  datatype ReportCheck =
    | MissingFields
    | BadName(message: string)
    | BadDescription(message: string)
    | Passed

  /** The checks of the report forms, in the order they run. */
  function CheckReport(category: string, location: string, reporterName: string,
                       reporterContact: string, description: string): (r: ReportCheck)
    ensures r.BadName? ==> r.message != ""
    ensures r.BadDescription? ==> r.message != ""
  {
    if category == "" || location == "" || reporterName == "" || reporterContact == "" || description == ""
    then MissingFields
    else if !ValidateName(reporterName).valid then BadName(ValidateName(reporterName).message)
    else if !ValidateDescription(description).valid then BadDescription(ValidateDescription(description).message)
    else Passed
  }

  /**
   * A report passes exactly when every field is filled, the reporter's name
   * has at least two non-blank characters and at most 100 in all, and the
   * stripped description has 10 to 500 characters; a missing field is
   * reported before the name, and the name before the description.
   */
  lemma ReportPassesIff(category: string, location: string, reporterName: string,
                        reporterContact: string, description: string)
    ensures CheckReport(category, location, reporterName, reporterContact, description).Passed? <==>
      && category != "" && location != "" && reporterName != "" && reporterContact != "" && description != ""
      && |Strip(reporterName)| >= 2 && |reporterName| <= 100
      && 10 <= |Strip(description)| <= 500
    ensures (category == "" || location == "" || reporterName == "" || reporterContact == "" || description == "")
      ==> CheckReport(category, location, reporterName, reporterContact, description) == MissingFields
    ensures CheckReport(category, location, reporterName, reporterContact, description).BadDescription? ==>
      ValidateName(reporterName).valid
  {
    StripEmptyIff(reporterName);
    DescriptionDefaultBounds(description);
  }

  /**
   * Submitting the lost (`kind` "lost") or found report form: on a failed
   * check the table is untouched; otherwise the report is stored through
   * `add_lost_item` or `add_found_item` with the category as the item name.
   */
  method SubmitReport(table: ItemTable, kind: string, category: string, location: string,
                      reporterName: string, reporterContact: string, description: string,
                      imagePath: Option<string>, today: string) returns (check: ReportCheck, stored: Option<Item>)
    requires table.Valid()
    requires kind == "lost" || kind == "found"
    modifies table
    ensures table.Valid()
    ensures check == CheckReport(category, location, reporterName, reporterContact, description)
    ensures stored.Some? <==> check.Passed?
    ensures !check.Passed? ==> table.rows == old(table.rows) && table.nextId == old(table.nextId)
    ensures stored.Some? ==>
      && table.rows == old(table.rows)[stored.value.id := stored.value]
      && stored.value.id !in old(table.rows)
      && stored.value.kind == kind && stored.value.status == "open"
      && stored.value.itemName == category && stored.value.category == category
      && stored.value.location == location && stored.value.description == description
      && stored.value.reporterName == reporterName && stored.value.reporterContact == reporterContact
  {
    check := CheckReport(category, location, reporterName, reporterContact, description);
    if !check.Passed? {
      return check, None;
    }
    var item;
    if kind == "lost" {
      item := AddLostItem(table, category, category, location, description, reporterName,
                          reporterContact, imagePath, today);
    } else {
      item := AddFoundItem(table, category, category, location, description, reporterName,
                           reporterContact, imagePath, today);
    }
    stored := Some(item);
  }

  // ---------------------------------------------------------------- browsing

  /** Whether a row survives the three select boxes of the all-items view. */
  predicate Shown(it: Item, filterType: string, filterCategory: string, filterStatus: string) {
    && (filterType == "Lost" ==> it.kind == "lost")
    && (filterType == "Found" ==> it.kind == "found")
    && (filterCategory != "All" ==> it.category == filterCategory)
    && (filterStatus != "All" ==> Lower(it.status) == Lower(filterStatus))
  }

  function CategoryIs(category: string): Item -> bool {
    (it: Item) => it.category == category
  }

  function StatusLike(status: string): Item -> bool {
    (it: Item) => Lower(it.status) == Lower(status)
  }

  /**
   * The rows the view keeps, in listing order, before sorting. As with the
   * service's lists, the two ensures together fix the result.
   */
  function BrowseFilter(table: ItemTable, filterType: string, filterCategory: string, filterStatus: string): (r: seq<Item>)
    requires table.Valid()
    reads table
    ensures forall it ::
      multiset(r)[it] == if Shown(it, filterType, filterCategory, filterStatus) then multiset(table.GetAllItems())[it] else 0
    ensures forall i, j :: 0 <= i < j < |r| ==> r[i].id < r[j].id
  {
    var byType :=
      if filterType == "Lost" then GetLostItems(table)
      else if filterType == "Found" then GetFoundItems(table)
      else table.GetAllItems();
    NarrowMultiset(byType, filterCategory, filterStatus);
    IdsIncreasing(byType);
    NarrowIncreasing(byType, filterCategory, filterStatus);
    Narrow(byType, filterCategory, filterStatus)
  }

  /** The category and status select boxes, applied to the rows of the chosen type. */
  function Narrow(byType: seq<Item>, filterCategory: string, filterStatus: string): seq<Item> {
    var byCategory := if filterCategory != "All" then Filter(byType, CategoryIs(filterCategory)) else byType;
    if filterStatus != "All" then Filter(byCategory, StatusLike(filterStatus)) else byCategory
  }

  lemma NarrowMultiset(byType: seq<Item>, filterCategory: string, filterStatus: string)
    ensures forall it ::
      multiset(Narrow(byType, filterCategory, filterStatus))[it] ==
        if (filterCategory != "All" ==> it.category == filterCategory) &&
           (filterStatus != "All" ==> Lower(it.status) == Lower(filterStatus))
        then multiset(byType)[it] else 0
  {
    var byCategory := if filterCategory != "All" then Filter(byType, CategoryIs(filterCategory)) else byType;
    FilterMultiset(byType, CategoryIs(filterCategory));
    FilterMultiset(byCategory, StatusLike(filterStatus));
  }

  /** Increasing ids, stated through the key function the ordering lemmas take. */
  lemma IdsIncreasing(items: seq<Item>)
    requires forall i, j :: 0 <= i < j < |items| ==> items[i].id < items[j].id
    ensures IncreasingBy(items, ItemId)
  {
  }

  lemma NarrowIncreasing(byType: seq<Item>, filterCategory: string, filterStatus: string)
    requires IncreasingBy(byType, ItemId)
    ensures IncreasingBy(Narrow(byType, filterCategory, filterStatus), ItemId)
  {
    var byCategory := if filterCategory != "All" then Filter(byType, CategoryIs(filterCategory)) else byType;
    FilterIncreasing(byType, CategoryIs(filterCategory), ItemId);
    FilterIncreasing(byCategory, StatusLike(filterStatus), ItemId);
  }

  /**
   * The all-items view: the filtered rows sorted by date, latest first. Every
   * shown row appears as often as in the table and no other row appears; rows
   * with the same date keep their listing order, which is increasing id order.
   */
  function BrowseItems(table: ItemTable, filterType: string, filterCategory: string, filterStatus: string): (r: seq<Item>)
    requires table.Valid()
    reads table
    ensures Sorted(r, ItemDate, StrGreater)
    ensures forall it ::
      multiset(r)[it] == if Shown(it, filterType, filterCategory, filterStatus) then multiset(table.GetAllItems())[it] else 0
    ensures forall d :: WithKey(r, ItemDate, d) == WithKey(BrowseFilter(table, filterType, filterCategory, filterStatus), ItemDate, d)
    ensures forall i, j :: 0 <= i < j < |r| && r[i].date == r[j].date ==> r[i].id < r[j].id
  {
    var kept := BrowseFilter(table, filterType, filterCategory, filterStatus);
    StrGreaterIsStrictWeak();
    SortBySorted(kept, ItemDate, StrGreater);
    SortByStableAll(kept, ItemDate, StrGreater);
    IdsIncreasing(kept);
    SameKeyIncreasing(SortBy(kept, ItemDate, StrGreater), kept, ItemDate, ItemId);
    SortBy(kept, ItemDate, StrGreater)
  }

  // ---------------------------------------------------------------- claiming

  /** The logged-in user held in the session. */
  datatype SessionUser = SessionUser(name: string, email: string)

  /** Whether an item card offers the claim form: the item is open and someone is logged in. */
  predicate ClaimOffered(item: Item, user: Option<SessionUser>) {
    item.status == "open" && user.Some?
  }

  /** `str(item['verification_code'])`: a stored `None` renders as "None". */
  function CodeText(code: Option<string>): (r: string)
    ensures code.Some? ==> r == code.value
    ensures code.None? ==> r == "None"
  {
    match code
    case None => "None"
    case Some(c) => c
  }

  /** Where a submitted claim form ends. */
  datatype ClaimStep =
    | NotOffered
    | MissingClaimFields
    | WrongCode
    | ProofTooShort
    | MissingContact
    | Claim(itemId: int, claimerName: string, verificationDetail: string, claimerEmail: string, claimerContact: string)

  /** The claim form's checks, in the order they run, ending in the `claim_item` call. */
  function CheckClaim(item: Item, user: Option<SessionUser>, codeInput: string, proof: string, contact: string): (r: ClaimStep)
    ensures r.Claim? ==> r.itemId == item.id
  {
    if !ClaimOffered(item, user) then NotOffered
    else if codeInput == "" || proof == "" || contact == "" then MissingClaimFields
    else if Strip(codeInput) != Strip(CodeText(item.verificationCode)) then WrongCode
    else if |Strip(proof)| < 10 then ProofTooShort
    else if Strip(contact) == "" then MissingContact
    else Claim(item.id, user.value.name, Strip(proof), user.value.email, Strip(contact))
  }

  /**
   * A claim goes through exactly when the item is open, a user is logged in,
   * all three fields are filled, the stripped codes agree, the stripped proof
   * has at least 10 characters and the contact has a non-blank character; it
   * then carries the session user's name and e-mail and the stripped proof
   * and contact.
   */
  lemma ClaimIff(item: Item, user: Option<SessionUser>, codeInput: string, proof: string, contact: string)
    ensures CheckClaim(item, user, codeInput, proof, contact).Claim? <==>
      && item.status == "open" && user.Some?
      && codeInput != "" && proof != "" && contact != ""
      && Strip(codeInput) == Strip(CodeText(item.verificationCode))
      && |Strip(proof)| >= 10
      && (exists i :: 0 <= i < |contact| && !IsSpace(contact[i]))
    ensures CheckClaim(item, user, codeInput, proof, contact).Claim? ==>
      CheckClaim(item, user, codeInput, proof, contact)
        == Claim(item.id, user.value.name, Strip(proof), user.value.email, Strip(contact))
  {
    StripEmptyIff(contact);
  }

  /** An empty field is reported before the code is compared, whatever the code. */
  lemma EmptyFieldBeforeCode(item: Item, user: SessionUser, codeInput: string, proof: string, contact: string)
    requires item.status == "open"
    requires codeInput == "" || proof == "" || contact == ""
    ensures CheckClaim(item, Some(user), codeInput, proof, contact) == MissingClaimFields
  {
  }

  /** A wrong code is reported whatever the proof and the contact hold. */
  lemma WrongCodeBeforeProof(item: Item, user: SessionUser, codeInput: string, proof: string, contact: string)
    requires item.status == "open" && codeInput != "" && proof != "" && contact != ""
    requires Strip(codeInput) != Strip(CodeText(item.verificationCode))
    ensures CheckClaim(item, Some(user), codeInput, proof, contact) == WrongCode
  {
  }

  /** With the right code, a short proof is never reported as a wrong code. */
  lemma ShortProofNotWrongCode(item: Item, user: SessionUser, codeInput: string, proof: string, contact: string)
    requires item.status == "open" && codeInput != "" && proof != "" && contact != ""
    requires Strip(codeInput) == Strip(CodeText(item.verificationCode))
    requires |Strip(proof)| < 10
    ensures CheckClaim(item, Some(user), codeInput, proof, contact) == ProofTooShort
  {
  }

  /** A whitespace-only contact passes the emptiness check and fails the stripped one. */
  lemma BlankContactRejected(item: Item, user: SessionUser, codeInput: string, proof: string, contact: string)
    requires item.status == "open" && codeInput != "" && proof != ""
    requires Strip(codeInput) == Strip(CodeText(item.verificationCode))
    requires |Strip(proof)| >= 10
    requires contact != "" && forall i :: 0 <= i < |contact| ==> IsSpace(contact[i])
    ensures CheckClaim(item, Some(user), codeInput, proof, contact) == MissingContact
  {
    StripEmptyIff(contact);
  }

  /** An item whose stored code is `None` is claimed only by typing "None". */
  lemma MissingCodeNeedsNoneText(item: Item, user: Option<SessionUser>, codeInput: string, proof: string, contact: string)
    requires item.verificationCode.None?
    requires CheckClaim(item, user, codeInput, proof, contact).Claim?
    ensures Strip(codeInput) == "None"
  {
    ClaimCodeAgrees(item, user, codeInput, proof, contact);
    assert CodeText(item.verificationCode) == "None";
    StripNone();
  }

  /** A claim that goes through has a code agreeing with the stored one. */
  lemma ClaimCodeAgrees(item: Item, user: Option<SessionUser>, codeInput: string, proof: string, contact: string)
    requires CheckClaim(item, user, codeInput, proof, contact).Claim?
    ensures Strip(codeInput) == Strip(CodeText(item.verificationCode))
  {
    assert ClaimOffered(item, user);
    assert codeInput != "" && proof != "" && contact != "";
  }

  /** The text "None" has no surrounding whitespace. */
  lemma StripNone()
    ensures Strip("None") == "None"
  {
    assert !IsSpace('N') && !IsSpace('e');
    StripNoSurroundingSpace("None");
  }

  /**
   * Submitting the claim form on an item card: `claim_item` is called only
   * when every check passes, with the arguments the ladder settled on;
   * otherwise the table is untouched.
   */
  method SubmitClaim(table: ItemTable, item: Item, user: Option<SessionUser>,
                     codeInput: string, proof: string, contact: string) returns (step: ClaimStep, ok: bool)
    requires table.Valid()
    modifies table
    ensures table.Valid() && table.nextId == old(table.nextId)
    ensures step == CheckClaim(item, user, codeInput, proof, contact)
    ensures !step.Claim? ==> !ok && table.rows == old(table.rows)
    ensures step.Claim? ==> (ok <==> item.id in old(table.rows))
    ensures ok ==> table.rows == old(table.rows)[item.id := old(table.rows)[item.id].(status := "claimed")]
    ensures step.Claim? && !ok ==> table.rows == old(table.rows)
  {
    step := CheckClaim(item, user, codeInput, proof, contact);
    ok := false;
    if step.Claim? {
      ok := ClaimItem(table, step.itemId, step.claimerName, step.verificationDetail,
                      step.claimerEmail, step.claimerContact);
    }
  }
}
