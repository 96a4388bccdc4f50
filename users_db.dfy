/**
 * The user store of database/users_db.py: a `users` table whose roll number
 * and email columns are UNIQUE, and a `user_activity` table holding three
 * counters per user. Both tables are maps from id to row; the password hash
 * is a function the store is built with.
 */
module UsersDb {
  import opened Wrappers
  import opened Tables
  import opened Validators

  /** A row of `users`. */
  datatype User = User(id: int, name: string, rollNo: string, email: string, passwordHash: string)

  /** A row of `user_activity`, keyed by the user's id. */
  datatype Activity = Activity(itemsReported: int, notesUploaded: int, notesDownloaded: int)

  /** What a successful login hands back: the user without the hash. */
  datatype UserSummary = UserSummary(id: int, name: string, rollNo: string, email: string)

  /** One user's entry in `get_all_users`. */
  datatype UserStats = UserStats(
    id: int, name: string, rollNo: string, email: string,
    itemsReported: int, notesUploaded: int, notesDownloaded: int)

  function Summary(u: User): (r: UserSummary)
    ensures r.id == u.id && r.name == u.name && r.rollNo == u.rollNo && r.email == u.email
  {
    UserSummary(u.id, u.name, u.rollNo, u.email)
  }

  /** The login query's condition: the key is the row's email or its roll number. */
  predicate Matches(u: User, key: string) {
    u.email == key || u.rollNo == key
  }

  /** The position of the first row matching `key`, or -1 when none does. */
  function FirstMatch(rows: seq<User>, key: string): (r: int)
    ensures -1 <= r < |rows|
    ensures r >= 0 ==> Matches(rows[r], key)
    ensures forall i :: 0 <= i < |rows| && (r == -1 || i < r) ==> !Matches(rows[i], key)
  {
    if rows == [] then -1
    else if Matches(rows[0], key) then 0
    else var r := FirstMatch(rows[1..], key); if r == -1 then -1 else r + 1
  }

  lemma {:induction false} FirstMatchAppend(rows: seq<User>, u: User, key: string)
    requires forall i :: 0 <= i < |rows| ==> !Matches(rows[i], key)
    requires Matches(u, key)
    ensures FirstMatch(rows + [u], key) == |rows|
  {
    if rows != [] {
      assert (rows + [u])[1..] == rows[1..] + [u];
      FirstMatchAppend(rows[1..], u, key);
    }
  }

  /**
   * `login_user` on a given table: the first row, in id order, whose email or
   * roll number is the key; its summary when its hash is the password's hash.
   */
  function Login(users: map<int, User>, nextId: int, hash: string -> string, key: string, password: string)
    : (r: Option<UserSummary>)
    ensures r.Some? ==>
      exists id :: id in users && Matches(users[id], key) &&
        users[id].passwordHash == hash(password) && r == Some(Summary(users[id]))
  {
    var rows := Listing(users, 1, nextId);
    var k := FirstMatch(rows, key);
    if k >= 0 && rows[k].passwordHash == hash(password) then Some(Summary(rows[k])) else None
  }

  /** The shape of the two tables. */
  ghost predicate TablesValid(users: map<int, User>, activity: map<int, Activity>, nextId: int) {
    && nextId >= 1
    && (forall id :: id in users ==> 1 <= id < nextId && users[id].id == id)
    && (forall id :: id in activity ==> 1 <= id < nextId)
    && (forall a, b :: a in users && b in users && a != b ==>
          users[a].rollNo != users[b].rollNo && users[a].email != users[b].email)
  }

  /** `signup_user`'s success condition: the UNIQUE columns leave room for the new row. */
  ghost predicate Fresh(users: map<int, User>, rollNo: string, email: string) {
    forall id :: id in users ==> users[id].rollNo != rollNo && users[id].email != email
  }

  /**
   * Signing up and then logging in with the new email and the same password
   * returns the new user, provided no earlier user has that email as roll
   * number (the login query matches either column).
   */
  lemma LoginAfterSignup(users: map<int, User>, activity: map<int, Activity>, nextId: int,
                         hash: string -> string, name: string, rollNo: string, email: string, password: string)
    requires TablesValid(users, activity, nextId)
    requires Fresh(users, rollNo, email)
    requires forall id :: id in users ==> users[id].rollNo != email
    ensures Login(users[nextId := User(nextId, name, rollNo, email, hash(password))], nextId + 1, hash, email, password)
         == Some(UserSummary(nextId, name, rollNo, email))
  {
    var u := User(nextId, name, rollNo, email, hash(password));
    ListingAppend(users, 1, nextId, u);
    var rows := Listing(users, 1, nextId);
    forall i | 0 <= i < |rows| ensures !Matches(rows[i], email) {
      assert rows[i] == users[Ids(users, 1, nextId)[i]];
    }
    FirstMatchAppend(rows, u, email);
  }

  /**
   * When every stored roll number passes `validate_roll_no` and the new email
   * passes `validate_email`, no roll number can equal the email, so the new
   * user can always log in by email.
   */
  lemma LoginAfterValidatedSignup(users: map<int, User>, activity: map<int, Activity>, nextId: int,
                                  hash: string -> string, name: string, rollNo: string, email: string, password: string)
    requires TablesValid(users, activity, nextId)
    requires Fresh(users, rollNo, email)
    requires forall id :: id in users ==> ValidateRollNo(users[id].rollNo).valid
    requires ValidateEmail(email).valid
    ensures Login(users[nextId := User(nextId, name, rollNo, email, hash(password))], nextId + 1, hash, email, password)
         == Some(UserSummary(nextId, name, rollNo, email))
  {
    forall id | id in users ensures users[id].rollNo != email {
      RollNoIsNeverEmail(users[id].rollNo);
    }
    LoginAfterSignup(users, activity, nextId, hash, name, rollNo, email, password);
  }

  /** The same through the roll number, when no earlier user has it as email. */
  lemma LoginAfterSignupByRollNo(users: map<int, User>, activity: map<int, Activity>, nextId: int,
                                 hash: string -> string, name: string, rollNo: string, email: string, password: string)
    requires TablesValid(users, activity, nextId)
    requires Fresh(users, rollNo, email)
    requires forall id :: id in users ==> users[id].email != rollNo
    ensures Login(users[nextId := User(nextId, name, rollNo, email, hash(password))], nextId + 1, hash, rollNo, password)
         == Some(UserSummary(nextId, name, rollNo, email))
  {
    var u := User(nextId, name, rollNo, email, hash(password));
    ListingAppend(users, 1, nextId, u);
    var rows := Listing(users, 1, nextId);
    forall i | 0 <= i < |rows| ensures !Matches(rows[i], rollNo) {
      assert rows[i] == users[Ids(users, 1, nextId)[i]];
    }
    FirstMatchAppend(rows, u, rollNo);
  }

  /** The activity types `update_user_activity` counts. */
  const ActivityTypes: set<string> := {"item_reported", "note_uploaded", "note_downloaded"}

  function ActivityTotal(a: Activity): int {
    a.itemsReported + a.notesUploaded + a.notesDownloaded
  }

  /**
   * One counted activity: the counter the type names goes up by one and the
   * others stay; an unknown type leaves the row as it is.
   */
  function Bump(a: Activity, activityType: string): (r: Activity)
    ensures ActivityTotal(r) == ActivityTotal(a) + (if activityType in ActivityTypes then 1 else 0)
    ensures r.itemsReported >= a.itemsReported && r.notesUploaded >= a.notesUploaded
      && r.notesDownloaded >= a.notesDownloaded
    ensures activityType !in ActivityTypes ==> r == a
  {
    if activityType == "item_reported" then a.(itemsReported := a.itemsReported + 1)
    else if activityType == "note_uploaded" then a.(notesUploaded := a.notesUploaded + 1)
    else if activityType == "note_downloaded" then a.(notesDownloaded := a.notesDownloaded + 1)
    else a
  }

  /** Each counted type raises exactly its own counter. */
  lemma BumpNamesItsCounter(a: Activity)
    ensures Bump(a, "item_reported").itemsReported == a.itemsReported + 1
    ensures Bump(a, "note_uploaded").notesUploaded == a.notesUploaded + 1
    ensures Bump(a, "note_downloaded").notesDownloaded == a.notesDownloaded + 1
  {
  }

  /** A user's row of `get_all_users`: the LEFT JOIN reads a missing activity row as zeros. */
  function StatsOf(u: User, activity: map<int, Activity>): (r: UserStats)
    ensures r.id == u.id && r.name == u.name && r.rollNo == u.rollNo && r.email == u.email
    ensures u.id !in activity ==> r.itemsReported == 0 && r.notesUploaded == 0 && r.notesDownloaded == 0
    ensures u.id in activity ==>
      && r.itemsReported == activity[u.id].itemsReported
      && r.notesUploaded == activity[u.id].notesUploaded
      && r.notesDownloaded == activity[u.id].notesDownloaded
  {
    var a := if u.id in activity then activity[u.id] else Activity(0, 0, 0);
    UserStats(u.id, u.name, u.rollNo, u.email, a.itemsReported, a.notesUploaded, a.notesDownloaded)
  }

  /** The row `Login` picks is the matching user with the smallest id. */
  lemma LoginFirstMatch(users: map<int, User>, activity: map<int, Activity>, nextId: int,
                        hash: string -> string, key: string, password: string)
    requires TablesValid(users, activity, nextId)
    ensures var r := Login(users, nextId, hash, key, password);
      r.Some? ==>
        && r.value.id in users
        && Matches(users[r.value.id], key)
        && users[r.value.id].passwordHash == hash(password)
        && r.value == Summary(users[r.value.id])
        && (forall id :: id in users && id < r.value.id ==> !Matches(users[id], key))
    ensures Login(users, nextId, hash, key, password).None? ==>
      forall id :: id in users && Matches(users[id], key)
        && (forall j :: j in users && j < id ==> !Matches(users[j], key))
        ==> users[id].passwordHash != hash(password)
  {
    FirstMatchSmallest(users, nextId, key);
    SmallestIsFirstMatch(users, nextId, key);
  }

  /** The first match of the listing is the matching user with the smallest id. */
  lemma FirstMatchSmallest(users: map<int, User>, nextId: int, key: string)
    requires forall id :: id in users ==> 1 <= id < nextId && users[id].id == id
    ensures var rows := Listing(users, 1, nextId);
      var k := FirstMatch(rows, key);
      k >= 0 ==>
        && rows[k].id in users && rows[k] == users[rows[k].id]
        && (forall j :: j in users && j < rows[k].id ==> !Matches(users[j], key))
  {
    var rows := Listing(users, 1, nextId);
    var ids := Ids(users, 1, nextId);
    var k := FirstMatch(rows, key);
    if k >= 0 {
      assert rows[k] == users[ids[k]];
      forall j | j in users && j < ids[k] ensures !Matches(users[j], key) {
        var i :| 0 <= i < |ids| && ids[i] == j;
        assert rows[i] == users[j];
      }
    }
  }

  /** A matching user with no smaller matching id is the first match of the listing. */
  lemma SmallestIsFirstMatch(users: map<int, User>, nextId: int, key: string)
    requires forall id :: id in users ==> 1 <= id < nextId && users[id].id == id
    ensures var rows := Listing(users, 1, nextId);
      var k := FirstMatch(rows, key);
      forall id :: id in users && Matches(users[id], key) && (forall j :: j in users && j < id ==> !Matches(users[j], key))
        ==> k >= 0 && rows[k] == users[id]
  {
    var rows := Listing(users, 1, nextId);
    UserListing(users, nextId);
    forall id | id in users && Matches(users[id], key) && (forall j :: j in users && j < id ==> !Matches(users[j], key))
      ensures FirstMatch(rows, key) >= 0 && rows[FirstMatch(rows, key)] == users[id]
    {
      UserListed(users, nextId, id);
      var i :| 0 <= i < |rows| && rows[i].id == id;
      forall j | 0 <= j < |rows| && rows[j].id < rows[i].id ensures !Matches(rows[j], key) {
        assert rows[j] == users[rows[j].id];
      }
      FirstMatchOfIncreasing(rows, key, i);
    }
  }

  /** The users listing holds users under their own ids, in increasing id order. */
  lemma UserListing(users: map<int, User>, nextId: int)
    requires forall id :: id in users ==> 1 <= id < nextId && users[id].id == id
    ensures var rows := Listing(users, 1, nextId);
      && (forall a :: 0 <= a < |rows| ==> rows[a].id in users && users[rows[a].id] == rows[a])
      && (forall a, b :: 0 <= a < b < |rows| ==> rows[a].id < rows[b].id)
  {
    var rows := Listing(users, 1, nextId);
    var ids := Ids(users, 1, nextId);
    assert forall a :: 0 <= a < |rows| ==> rows[a] == users[ids[a]] && rows[a].id == ids[a];
  }

  /** Every user appears in the users listing. */
  lemma UserListed(users: map<int, User>, nextId: int, id: int)
    requires forall id :: id in users ==> 1 <= id < nextId && users[id].id == id
    requires id in users
    ensures exists a :: 0 <= a < |Listing(users, 1, nextId)| && Listing(users, 1, nextId)[a].id == id
  {
    var rows := Listing(users, 1, nextId);
    var ids := Ids(users, 1, nextId);
    var a :| 0 <= a < |ids| && ids[a] == id;
    assert rows[a] == users[id];
  }


  /** In rows of increasing id, a match with no matching row of smaller id is the first match. */
  lemma FirstMatchOfIncreasing(rows: seq<User>, key: string, i: int)
    requires forall a, b :: 0 <= a < b < |rows| ==> rows[a].id < rows[b].id
    requires 0 <= i < |rows| && Matches(rows[i], key)
    requires forall j :: 0 <= j < |rows| && rows[j].id < rows[i].id ==> !Matches(rows[j], key)
    ensures FirstMatch(rows, key) == i
  {
    forall a | 0 <= a < i ensures !Matches(rows[a], key) {
      assert rows[a].id < rows[i].id;
    }
  }



  /** The entry of each row in `rows`, in the same order. */
  function StatsOfRows(rows: seq<User>, activity: map<int, Activity>): (r: seq<UserStats>)
    ensures |r| == |rows|
    ensures forall i :: 0 <= i < |r| ==> r[i] == StatsOf(rows[i], activity)
  {
    seq(|rows|, i requires 0 <= i < |rows| => StatsOf(rows[i], activity))
  }

  /** The loop of `get_all_users` over the joined rows. */
  method CollectStats(rows: seq<User>, activity: map<int, Activity>) returns (result: seq<UserStats>)
    ensures result == StatsOfRows(rows, activity)
  {
    result := [];
    for i := 0 to |rows|
      invariant |result| == i
      invariant forall j :: 0 <= j < i ==> result[j] == StatsOf(rows[j], activity)
    {
      result := result + [StatsOf(rows[i], activity)];
    }
  }

  /** The entries of `get_all_users` on a given table, in id order. */
  function StatsListing(users: map<int, User>, activity: map<int, Activity>, nextId: int): (r: seq<UserStats>)
    ensures |r| == |Listing(users, 1, nextId)|
    ensures forall i :: 0 <= i < |r| ==> r[i] == StatsOf(Listing(users, 1, nextId)[i], activity)
  {
    StatsOfRows(Listing(users, 1, nextId), activity)
  }

  /** Each user has exactly one entry, carrying its own counters. */
  lemma StatsListingSpec(users: map<int, User>, activity: map<int, Activity>, nextId: int)
    requires TablesValid(users, activity, nextId)
    ensures var r := StatsListing(users, activity, nextId);
      && |r| == |users|
      && (forall i :: 0 <= i < |r| ==> r[i].id in users && r[i] == StatsOf(users[r[i].id], activity))
      && (forall id :: id in users ==> exists i :: 0 <= i < |r| && r[i].id == id)
  {
    var r := StatsListing(users, activity, nextId);
    var rows := Listing(users, 1, nextId);
    var ids := Ids(users, 1, nextId);
    ListingLength(users, 1, nextId);
    forall i | 0 <= i < |r| ensures r[i].id in users && r[i] == StatsOf(users[r[i].id], activity) {
      assert rows[i] == users[ids[i]];
    }
    forall id | id in users ensures exists i :: 0 <= i < |r| && r[i].id == id {
      var i :| 0 <= i < |ids| && ids[i] == id;
      assert rows[i] == users[id];
      assert r[i].id == id;
    }
  }

  class UserTable {
    /** `hash_password`: a fixed function of the password. */
    const hash: string -> string
    var users: map<int, User>
    var activity: map<int, Activity>
    /** The next AUTOINCREMENT id. */
    var nextId: int

    ghost predicate Valid()
      reads this
    {
      TablesValid(users, activity, nextId)
    }

    constructor (hash: string -> string)
      ensures Valid()
      ensures this.hash == hash && users == map[] && activity == map[] && nextId == 1
    {
      this.hash := hash;
      users := map[];
      activity := map[];
      nextId := 1;
    }

    /**
     * `signup_user`: inserts the user with the password's hash and an activity
     * row of zeros under the next id, unless the roll number or the email is
     * taken, in which case nothing changes and the answer is false.
     */
    method SignupUser(name: string, rollNo: string, email: string, password: string) returns (ok: bool)
      requires Valid()
      modifies this
      ensures Valid()
      ensures ok <==> Fresh(old(users), rollNo, email)
      ensures ok ==>
        && users == old(users)[old(nextId) := User(old(nextId), name, rollNo, email, hash(password))]
        && activity == old(activity)[old(nextId) := Activity(0, 0, 0)]
        && nextId == old(nextId) + 1
      ensures !ok ==> users == old(users) && activity == old(activity) && nextId == old(nextId)
    {
      if exists id :: id in users && (users[id].rollNo == rollNo || users[id].email == email) {
        return false;
      }
      var id := nextId;
      users := users[id := User(id, name, rollNo, email, hash(password))];
      activity := activity[id := Activity(0, 0, 0)];
      nextId := nextId + 1;
      ok := true;
    }

    /**
     * `login_user`: the summary of the first user, in id order, whose email
     * or roll number is the key, when that user's hash is the password's hash.
     */
    function LoginUser(emailOrRoll: string, password: string): (r: Option<UserSummary>)
      requires Valid()
      reads this
      ensures r.Some? ==>
        && r.value.id in users
        && Matches(users[r.value.id], emailOrRoll)
        && users[r.value.id].passwordHash == hash(password)
        && r.value == Summary(users[r.value.id])
        && (forall id :: id in users && id < r.value.id ==> !Matches(users[id], emailOrRoll))
      ensures r.None? ==>
        forall id :: id in users && Matches(users[id], emailOrRoll)
          && (forall j :: j in users && j < id ==> !Matches(users[j], emailOrRoll))
          ==> users[id].passwordHash != hash(password)
    {
      LoginFirstMatch(users, activity, nextId, hash, emailOrRoll, password);
      Login(users, nextId, hash, emailOrRoll, password)
    }

    /**
     * `update_user_activity`: one counted activity for the user; a missing
     * activity row or an unknown type changes nothing, and no other user's
     * row moves.
     */
    method UpdateUserActivity(userId: int, activityType: string)
      requires Valid()
      modifies this
      ensures Valid()
      ensures users == old(users) && nextId == old(nextId)
      ensures userId in old(activity) ==> activity == old(activity)[userId := Bump(old(activity)[userId], activityType)]
      ensures userId !in old(activity) || activityType !in ActivityTypes ==> activity == old(activity)
    {
      if userId in activity {
        activity := activity[userId := Bump(activity[userId], activityType)];
      }
    }

    /** Every user's entry, in id order. */
    function AllUserStats(): (r: seq<UserStats>)
      requires Valid()
      reads this
      ensures |r| == |users|
      ensures forall i :: 0 <= i < |r| ==> r[i].id in users && r[i] == StatsOf(users[r[i].id], activity)
      ensures forall id :: id in users ==> exists i :: 0 <= i < |r| && r[i].id == id
    {
      StatsListingSpec(users, activity, nextId);
      StatsListing(users, activity, nextId)
    }

    /** `get_all_users`: the joined rows, each entry keyed by its id. */
    method GetAllUsers() returns (result: seq<UserStats>)
      requires Valid()
      ensures result == AllUserStats()
    {
      result := CollectStats(Listing(users, 1, nextId), activity);
    }
  }
}
