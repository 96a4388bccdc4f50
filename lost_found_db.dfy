/**
 * The `lost_found_items` table of database/lost_found_db.py, held as a map
 * from AUTOINCREMENT id to row. SQL itself is not modelled: each operation
 * is its effect on the map.
 */
module LostFoundDb {
  import opened Wrappers
  import Tables

  /** One row, with the 13 keys `get_all_items` and `get_item_by_id` return. */
  datatype Item = Item(
    id: int,
    kind: string,
    itemName: string,
    category: string,
    location: string,
    description: string,
    reporterName: string,
    reporterContact: string,
    date: string,
    status: string,
    matchedWith: Option<int>,
    verificationCode: Option<string>,
    imagePath: Option<string>)

  /**
   * The dict handed to `add_item`: seven keys it indexes directly, and five it
   * reads with `.get` (an absent key is `None`).
   */
  datatype NewItem = NewItem(
    kind: string,
    itemName: string,
    category: string,
    location: string,
    description: string,
    reporterName: string,
    reporterContact: string,
    date: Option<string>,
    status: Option<string>,
    matchedWith: Option<int>,
    verificationCode: Option<string>,
    imagePath: Option<string>)

  /** The row `add_item` inserts for `item` under `id` on day `today`. */
  function RowFor(id: int, item: NewItem, today: string): (r: Item)
    ensures r.id == id && r.kind == item.kind && r.category == item.category
    ensures r.itemName == item.itemName && r.location == item.location && r.description == item.description
    ensures r.reporterName == item.reporterName && r.reporterContact == item.reporterContact
    ensures r.status == if item.status.Some? then item.status.value else "open"
    ensures r.date == if item.date.Some? then item.date.value else today
    ensures r.matchedWith == item.matchedWith && r.verificationCode == item.verificationCode
    ensures r.imagePath == item.imagePath
  {
    Item(id, item.kind, item.itemName, item.category, item.location, item.description,
         item.reporterName, item.reporterContact, item.date.GetOr(today),
         item.status.GetOr("open"), item.matchedWith, item.verificationCode, item.imagePath)
  }

  /** The row with status replaced and, when given, `matched_with` replaced. */
  function WithStatus(row: Item, status: string, matchedWith: Option<int>): (r: Item)
    ensures r.status == status
    ensures r.matchedWith == if matchedWith.Some? then matchedWith else row.matchedWith
    ensures r.(status := row.status, matchedWith := row.matchedWith) == row
  {
    if matchedWith.Some? then row.(status := status, matchedWith := matchedWith)
    else row.(status := status)
  }

  /**
   * The listing of a table whose rows carry their own ids below `nextId`:
   * one entry per row, each the row stored under its id, ids increasing.
   */
  lemma ListingEntries(rows: map<int, Item>, nextId: int)
    requires forall id :: id in rows ==> 1 <= id < nextId && rows[id].id == id
    ensures var r := Tables.Listing(rows, 1, nextId);
      && |r| == |rows|
      && (forall i :: 0 <= i < |r| ==> r[i].id in rows && rows[r[i].id] == r[i])
      && (forall i, j :: 0 <= i < j < |r| ==> r[i].id < r[j].id)
  {
    Tables.ListingLength(rows, 1, nextId);
    var r := Tables.Listing(rows, 1, nextId);
    var ids := Tables.Ids(rows, 1, nextId);
    assert forall i :: 0 <= i < |r| ==> r[i].id == ids[i];
  }

  /** Every row of the table appears in its listing. */
  lemma ListingCovers(rows: map<int, Item>, nextId: int)
    requires forall id :: id in rows ==> 1 <= id < nextId
    ensures forall id :: id in rows ==> rows[id] in Tables.Listing(rows, 1, nextId)
  {
    var r := Tables.Listing(rows, 1, nextId);
    var ids := Tables.Ids(rows, 1, nextId);
    forall id | id in rows ensures rows[id] in r {
      var i :| 0 <= i < |ids| && ids[i] == id;
      assert r[i] == rows[id];
    }
  }

  class ItemTable {
    /** The rows, by id. */
    var rows: map<int, Item>
    /** One above the largest id ever handed out: AUTOINCREMENT never reuses an id. */
    var nextId: int

    ghost predicate Valid()
      reads this
    {
      && nextId >= 1
      && forall id :: id in rows ==> 1 <= id < nextId && rows[id].id == id
    }

    /** The empty table `_init_db` creates. */
    constructor ()
      ensures Valid() && rows == map[] && nextId == 1
    {
      rows := map[];
      nextId := 1;
    }

    /** `get_all_items`: every row, in ascending id order. */
    function GetAllItems(): (r: seq<Item>)
      requires Valid()
      reads this
      ensures |r| == |rows|
      ensures forall i :: 0 <= i < |r| ==> r[i].id in rows && rows[r[i].id] == r[i]
      ensures forall id :: id in rows ==> rows[id] in r
      ensures forall i, j :: 0 <= i < j < |r| ==> r[i].id < r[j].id
    {
      ListingEntries(rows, nextId);
      ListingCovers(rows, nextId);
      Tables.Listing(rows, 1, nextId)
    }

    /** `get_item_by_id`: the row, or `None` when the id is absent. */
    function GetItemById(id: int): (r: Option<Item>)
      reads this
      ensures r.None? <==> id !in rows
      ensures r.Some? ==> r.value == rows[id]
    {
      if id in rows then Some(rows[id]) else None
    }

    /** `add_item`: inserts one row under a fresh id and returns that id. */
    method AddItem(item: NewItem, today: string) returns (id: int)
      requires Valid()
      modifies this
      ensures Valid()
      ensures id == old(nextId) && id !in old(rows)
      ensures forall other :: other in old(rows) ==> other < id
      ensures rows == old(rows)[id := RowFor(id, item, today)]
      ensures nextId == id + 1
      ensures GetItemById(id) == Some(RowFor(id, item, today))
      ensures GetAllItems() == old(GetAllItems()) + [RowFor(id, item, today)]
    {
      id := nextId;
      Tables.ListingAppend(rows, 1, id, RowFor(id, item, today));
      rows := rows[id := RowFor(id, item, today)];
      nextId := nextId + 1;
    }

    /**
     * `update_item_status`: sets the status of row `id`, and its `matched_with`
     * when one is given; an absent id changes nothing.
     */
    method UpdateItemStatus(id: int, status: string, matchedWith: Option<int> := None)
      requires Valid()
      modifies this
      ensures Valid() && nextId == old(nextId)
      ensures id in old(rows) ==> rows == old(rows)[id := WithStatus(old(rows)[id], status, matchedWith)]
      ensures id !in old(rows) ==> rows == old(rows)
    {
      if id in rows {
        rows := rows[id := WithStatus(rows[id], status, matchedWith)];
      }
    }

    /** `delete_item`: removes row `id`, if present; the id is never handed out again. */
    method DeleteItem(id: int)
      requires Valid()
      modifies this
      ensures Valid() && nextId == old(nextId)
      ensures rows == old(rows) - {id}
    {
      rows := rows - {id};
    }
  }
}
