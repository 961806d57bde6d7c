/** scripts/cloud-stub.py: rows kept in memory, upserted and tombstoned, and read
    back in pages that start strictly after a compound (created_at, item_id) cursor. */
module KeysetPages {
  import opened Options
  import opened StringOrder

  type ItemId = string

  datatype Row = Row(itemId: ItemId, createdAt: Option<int>, ciphertext: string, nonce: string,
                     contentType: string, deleted: bool, origin: string)

  /** Fields a PATCH body may carry; it never renames a row. */
  datatype Patch = Patch(createdAt: Option<int>, contentType: Option<string>, origin: Option<string>)

  datatype Key = Key(createdAt: int, itemId: ItemId)

  type Table = t: map<ItemId, Row> | forall id :: id in t ==> t[id].itemId == id witness map[]

  // ----- the keyset order

  predicate Before(x: Key, y: Key) {
    x.createdAt < y.createdAt || (x.createdAt == y.createdAt && Precedes(x.itemId, y.itemId))
  }

  lemma {:induction false} BeforeTransitive(x: Key, y: Key, z: Key)
    requires Before(x, y) && Before(y, z)
    ensures Before(x, z)
  {
    if x.createdAt == z.createdAt {
      PrecedesTransitive(x.itemId, y.itemId, z.itemId);
    }
  }

  lemma {:induction false} BeforeTotal(x: Key, y: Key)
    ensures x == y || Before(x, y) || Before(y, x)
    ensures !(Before(x, y) && Before(y, x)) && !Before(x, x)
  {
    PrecedesTotal(x.itemId, y.itemId);
    PrecedesTotal(x.itemId, x.itemId);
  }

  function KeyOf(row: Row): Key {
    Key(if row.createdAt.Some? then row.createdAt.value else 0, row.itemId)
  }

  ghost predicate Sorted(s: seq<Row>) {
    forall i, j :: 0 <= i < j < |s| ==> Before(KeyOf(s[i]), KeyOf(s[j]))
  }

  // ----- where a page starts

  datatype Cursor = From(since: int) | After(key: Key)

  predicate Beyond(c: Cursor, k: Key) {
    match c
    case From(since) => k.createdAt >= since
    case After(key) => Before(key, k)
  }

  /** The rows of `t` a page may draw from. */
  ghost predicate Selected(t: Table, c: Cursor, row: Row) {
    row.itemId in t && t[row.itemId] == row && Beyond(c, KeyOf(row))
  }

  /** `s` lists exactly the rows selected from `t`, in keyset order. */
  ghost predicate Lists(t: Table, c: Cursor, s: seq<Row>) {
    Sorted(s) && forall row :: row in s <==> Selected(t, c, row)
  }

  /** Python's `rows[:limit]`. */
  function Slice(s: seq<Row>, limit: int): seq<Row> {
    if limit >= |s| then s
    else if limit >= 0 then s[..limit]
    else if |s| + limit > 0 then s[..|s| + limit]
    else []
  }

  ghost predicate IsPage(t: Table, c: Cursor, limit: int, page: seq<Row>) {
    exists s :: Lists(t, c, s) && page == Slice(s, limit)
  }

  /** A table has one listing. */
  lemma {:induction false} ListingUnique(s: seq<Row>, r: seq<Row>)
    requires Sorted(s) && Sorted(r) && forall row :: row in s <==> row in r
    ensures s == r
    decreases |s|
  {
    if s == [] {
      if r != [] {
        HasElement(r);
      }
    } else {
      assert s[0] in r && |r| > 0 && r[0] in s;
      HeadIsLeast(s, r[0]);
      HeadIsLeast(r, s[0]);
      BeforeTotal(KeyOf(s[0]), KeyOf(r[0]));
      assert s == [s[0]] + s[1..] && r == [r[0]] + r[1..];
      HeadNotInTail(s);
      HeadNotInTail(r);
      assert s[0] == r[0];
      forall row ensures row in s[1..] <==> row in r[1..] {
        assert row in s <==> row == s[0] || row in s[1..];
        assert row in r <==> row == r[0] || row in r[1..];
      }
      ListingUnique(s[1..], r[1..]);
    }
  }

  lemma {:induction false} HasElement(s: seq<Row>)
    requires s != []
    ensures exists row :: row in s
  {
    assert s[0] in s;
  }

  lemma {:induction false} HeadIsLeast(s: seq<Row>, row: Row)
    requires Sorted(s) && row in s
    ensures row == s[0] || Before(KeyOf(s[0]), KeyOf(row))
  {
  }

  lemma {:induction false} HeadNotInTail(s: seq<Row>)
    requires Sorted(s) && |s| > 0
    ensures s[0] !in s[1..]
  {
    BeforeTotal(KeyOf(s[0]), KeyOf(s[0]));
  }

  // ----- the handlers

  /** A request's cursor parameters, already split. */
  datatype Bound = Absent | Gte(since: int) | Gt | Other
  datatype Query = Query(authorized: bool, keyset: Option<Keyset>, bound: Bound, keysetOrder: bool, limit: int)
  datatype Keyset = Unparseable | Keyset(gt: int, eq: int, itemId: ItemId)

  datatype Reply = Unauthorized | BadRequest | Rows(rows: seq<Row>)

  /** The position a well-formed request asks for. */
  function Position(q: Query): Option<Cursor> {
    match q.keyset
    case Some(Unparseable) => None
    case Some(Keyset(gt, eq, itemId)) => if gt == eq then Some(After(Key(gt, itemId))) else None
    case None =>
      match q.bound
      case Gte(since) => Some(From(since))
      case Gt => None
      case _ => Some(From(0))
  }

  function Tombstoned(row: Row, p: Patch): Row {
    row.(createdAt := if p.createdAt.Some? then p.createdAt else row.createdAt,
         contentType := if p.contentType.Some? then p.contentType.value else row.contentType,
         origin := if p.origin.Some? then p.origin.value else row.origin,
         ciphertext := "", nonce := "", deleted := true)
  }

  function Unseen(id: ItemId): Row {
    Row(id, None, "", "", "text", false, "unknown")
  }

  function UpsertOne(t: Table, row: Row): Table {
    t[row.itemId := row]
  }

  /** A tombstone also for an id this table never saw. */
  function DeleteOne(t: Table, id: ItemId, p: Patch): Table {
    t[id := Tombstoned(if id in t then t[id] else Unseen(id), p)]
  }

  /** The table after the rows are stored in order. */
  function Upserted(t: Table, rows: seq<Row>): Table {
    if rows == [] then t else UpsertOne(Upserted(t, rows[..|rows| - 1]), rows[|rows| - 1])
  }

  /** The table after each id is tombstoned in order. */
  function Deleted(t: Table, ids: seq<ItemId>, p: Patch): Table {
    if ids == [] then t else DeleteOne(Deleted(t, ids[..|ids| - 1], p), ids[|ids| - 1], p)
  }

  lemma {:induction false} DeletedStep(t: Table, ids: seq<ItemId>, i: nat, p: Patch)
    requires i < |ids|
    ensures Deleted(t, ids[..i + 1], p) == DeleteOne(Deleted(t, ids[..i], p), ids[i], p)
  {
    assert ids[..i + 1][..i] == ids[..i];
  }

  /** The last of the rows posted under its id. */
  ghost predicate LastPosted(rows: seq<Row>, i: nat) {
    i < |rows| && forall j :: i < j < |rows| ==> rows[j].itemId != rows[i].itemId
  }

  /** The last row posted under an id is what the table holds there. */
  lemma {:induction false} LastPostedHeld(t: Table, rows: seq<Row>, i: nat)
    requires LastPosted(rows, i)
    ensures rows[i].itemId in Upserted(t, rows) && Upserted(t, rows)[rows[i].itemId] == rows[i]
  {
    var n := |rows| - 1;
    if i < n {
      LastPostedHeld(t, rows[..n], i);
    }
  }

  lemma {:induction false} NotPostedStays(t: Table, rows: seq<Row>, id: ItemId)
    requires forall i :: 0 <= i < |rows| ==> rows[i].itemId != id
    ensures SameAt(t, Upserted(t, rows), id)
  {
    if rows != [] {
      NotPostedStays(t, rows[..|rows| - 1], id);
    }
  }

  ghost predicate SameAt(t: Table, u: Table, id: ItemId) {
    (id in t <==> id in u) && (id in t ==> t[id] == u[id])
  }

  /** What a tombstone leaves of a row: no content, and each other field as the patch
      or else the row had it. */
  ghost predicate Emptied(was: Option<Row>, p: Patch, row: Row) {
    && row.deleted && row.ciphertext == [] && row.nonce == []
    && (p.createdAt.Some? ==> row.createdAt == p.createdAt)
    && (p.contentType.Some? ==> row.contentType == p.contentType.value)
    && (p.origin.Some? ==> row.origin == p.origin.value)
    && (p.createdAt.None? ==> row.createdAt == if was.Some? then was.value.createdAt else None)
    && (p.contentType.None? ==> row.contentType == if was.Some? then was.value.contentType else "text")
    && (p.origin.None? ==> row.origin == if was.Some? then was.value.origin else "unknown")
  }

  ghost function RowAt(t: Table, id: ItemId): Option<Row> {
    if id in t then Some(t[id]) else None
  }

  /** Between two tables an id was tombstoned, or nothing happened to it. */
  ghost predicate DeletedAt(t: Table, u: Table, p: Patch, id: ItemId, given: bool) {
    if given then id in u && Emptied(RowAt(t, id), p, u[id]) else SameAt(t, u, id)
  }

  lemma {:induction false} DeleteOneHolds(t: Table, u: Table, p: Patch, id: ItemId, given: bool, last: ItemId)
    requires DeletedAt(t, u, p, id, given)
    ensures DeletedAt(t, DeleteOne(u, last, p), p, id, given || id == last)
  {
  }

  /** Every given id has an emptied row marked as deleted, and nothing else changes. */
  lemma {:induction false} DeletedHolds(t: Table, ids: seq<ItemId>, p: Patch, id: ItemId)
    ensures DeletedAt(t, Deleted(t, ids, p), p, id, id in ids)
  {
    if ids != [] {
      var n := |ids| - 1;
      assert id in ids <==> id in ids[..n] || id == ids[n];
      DeletedHolds(t, ids[..n], p, id);
      DeleteOneHolds(t, Deleted(t, ids[..n], p), p, id, id in ids[..n], ids[n]);
    }
  }

  /** Where a page starts: strictly after the pair of a cursor, or else at the inclusive
      bound, or else at zero. */
  ghost predicate Ahead(q: Query, row: Row) {
    var stamp := if row.createdAt.Some? then row.createdAt.value else 0;
    if q.keyset.Some? && q.keyset.value.Keyset? then
      var after := q.keyset.value;
      after.gt < stamp || (after.gt == stamp && Precedes(after.itemId, row.itemId))
    else
      stamp >= if q.bound.Gte? then q.bound.since else 0
  }

  /** A page holds rows of the table that are ahead, by stamp and then by id; one that is
      not full holds all of them. */
  lemma {:induction false} PageReads(t: Table, q: Query, page: seq<Row>)
    requires Position(q).Some? && IsPage(t, Position(q).value, q.limit, page)
    ensures forall row :: row in page ==> row.itemId in t && t[row.itemId] == row && Ahead(q, row)
    ensures |page| < q.limit ==> forall id :: id in t && Ahead(q, t[id]) ==> t[id] in page
    ensures exists s :: Lists(t, Position(q).value, s) && page <= s
                        && |page| == if 0 <= q.limit <= |s| then q.limit else if q.limit > |s| then |s| else if |s| > -q.limit then |s| + q.limit else 0
    ensures forall i, j :: 0 <= i < j < |page| && page[i].createdAt.Some? && page[j].createdAt.Some? ==>
              page[i].createdAt.value < page[j].createdAt.value
              || (page[i].createdAt.value == page[j].createdAt.value && Precedes(page[i].itemId, page[j].itemId))
  {
    var s :| Lists(t, Position(q).value, s) && page == Slice(s, q.limit);
    assert page == s[..|page|];
    forall row ensures Beyond(Position(q).value, KeyOf(row)) <==> Ahead(q, row) {
    }
    forall row | row in page ensures Selected(t, Position(q).value, row) {
      assert row in s;
    }
    forall id | |page| < q.limit && id in t && Ahead(q, t[id]) ensures t[id] in page {
      assert Selected(t, Position(q).value, t[id]) && page == s;
    }
  }

  /** A cursor whose two stamps differ, or that cannot be read, has no position, and
      neither has an exclusive bound. */
  lemma {:induction false} PositionIff(q: Query)
    ensures Position(q).None? <==> if q.keyset.None? then q.bound.Gt?
                                   else q.keyset.value.Unparseable? || q.keyset.value.gt != q.keyset.value.eq
  {
  }

  class Stub {
    var rows: Table

    constructor ()
      ensures rows == map[]
    {
      rows := map[];
    }

    method Post(incoming: seq<Row>)
      modifies this
      ensures rows == Upserted(old(rows), incoming)
    {
      var i := 0;
      while i < |incoming|
        invariant 0 <= i <= |incoming| && rows == Upserted(old(rows), incoming[..i])
      {
        rows := UpsertOne(rows, incoming[i]);
        i := i + 1;
        assert incoming[..i][..i - 1] == incoming[..i - 1];
      }
      assert incoming[..i] == incoming;
    }

    method Tombstone(ids: seq<ItemId>, p: Patch)
      modifies this
      ensures rows == Deleted(old(rows), ids, p)
    {
      var i := 0;
      while i < |ids|
        invariant 0 <= i <= |ids| && rows == Deleted(old(rows), ids[..i], p)
      {
        DeletedStep(old(rows), ids, i, p);
        rows := DeleteOne(rows, ids[i], p);
        i := i + 1;
      }
      assert ids[..i] == ids;
    }

    /** A page is the first `limit` rows of the one listing that starts at the
        requested position. */
    method Get(q: Query) returns (r: Reply)
      ensures r.Unauthorized? <==> !q.authorized
      ensures r.BadRequest? <==> q.authorized && (Position(q).None? || !q.keysetOrder)
      ensures q.authorized && q.keyset.Some? && (q.keyset.value.Unparseable? || q.keyset.value.gt != q.keyset.value.eq) ==> r.BadRequest?
      ensures q.authorized && q.keyset.None? && q.bound.Gt? ==> r.BadRequest?
      ensures r.Rows? ==> IsPage(rows, Position(q).value, q.limit, r.rows)
    {
      if !q.authorized {
        return Unauthorized;
      }
      var position := Position(q);
      if position.None? || !q.keysetOrder {
        return BadRequest;
      }
      var sorted := Listing(rows, position.value);
      return Rows(Slice(sorted, q.limit));
    }
  }

  /** Filter and sort: `rows.sort(key=key)` over the selected rows. */
  method Listing(t: Table, c: Cursor) returns (s: seq<Row>)
    ensures Lists(t, c, s)
  {
    s := [];
    var rest := t.Keys;
    while rest != {}
      invariant rest <= t.Keys && Sorted(s)
      invariant forall row :: row in s <==> Selected(t, c, row) && row.itemId !in rest
    {
      var id :| id in rest;
      rest := rest - {id};
      if Beyond(c, KeyOf(t[id])) {
        s := Insert(s, t[id]);
      }
    }
  }

  /** Adds a row with a new key at its place. */
  method Insert(s: seq<Row>, row: Row) returns (r: seq<Row>)
    requires Sorted(s) && forall x :: x in s ==> KeyOf(x) != KeyOf(row)
    ensures Sorted(r) && forall x :: x in r <==> x == row || x in s
  {
    var i := 0;
    while i < |s| && Before(KeyOf(s[i]), KeyOf(row))
      invariant 0 <= i <= |s|
      invariant forall j :: 0 <= j < i ==> Before(KeyOf(s[j]), KeyOf(row))
    {
      i := i + 1;
    }
    r := s[..i] + [row] + s[i..];
    InsertedAscending(s, row, i);
    assert s == s[..i] + s[i..];
  }

  lemma {:induction false} InsertedAscending(s: seq<Row>, row: Row, i: nat)
    requires Sorted(s) && i <= |s| && forall x :: x in s ==> KeyOf(x) != KeyOf(row)
    requires forall j :: 0 <= j < i ==> Before(KeyOf(s[j]), KeyOf(row))
    requires i < |s| ==> !Before(KeyOf(s[i]), KeyOf(row))
    ensures Sorted(s[..i] + [row] + s[i..])
  {
    forall j | i <= j < |s| ensures Before(KeyOf(row), KeyOf(s[j])) {
      assert s[i] in s;
      BeforeTotal(KeyOf(row), KeyOf(s[i]));
      if j > i {
        BeforeTransitive(KeyOf(row), KeyOf(s[i]), KeyOf(s[j]));
      }
    }
  }
}
