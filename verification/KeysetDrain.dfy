/** Draining the stub of scripts/cloud-stub.py page by page while other requests change
    it: each page is requested after the last row of the full page before it. */
module KeysetDrain {
  import opened Options
  import opened KeysetPages

  /** A drain that ran to its end: one table per request, each page requested after
      the last row of the full page before it, the last page short. */
  ghost predicate Drains(tables: seq<Table>, c: Cursor, limit: int, pages: seq<seq<Row>>)
    decreases |pages|
  {
    && 0 < |pages| <= |tables|
    && IsPage(tables[0], c, limit, pages[0])
    && (if |pages| == 1 then |pages[0]| < limit
        else |pages[0]| == limit && limit > 0
             && Drains(tables[1..], After(KeyOf(pages[0][limit - 1])), limit, pages[1..]))
  }

  function Concat(pages: seq<seq<Row>>): seq<Row> {
    if pages == [] then [] else pages[0] + Concat(pages[1..])
  }

  /** In every table the drain reads, row `k.itemId` has key `k`. */
  ghost predicate Stable(tables: seq<Table>, k: Key) {
    forall i :: 0 <= i < |tables| ==> k.itemId in tables[i] && KeyOf(tables[i][k.itemId]) == k
  }

  lemma {:induction false} PageFacts(t: Table, c: Cursor, limit: int, page: seq<Row>)
    requires IsPage(t, c, limit, page) && limit > 0
    ensures Sorted(page) && (forall row :: row in page ==> Selected(t, c, row))
    ensures |page| <= limit
    ensures |page| < limit ==> Lists(t, c, page)
    ensures |page| == limit ==>
      forall row :: Selected(t, c, row) ==> row in page || Before(KeyOf(page[limit - 1]), KeyOf(row))
  {
    var s :| Lists(t, c, s) && page == Slice(s, limit);
    if |page| == limit {
      forall row | Selected(t, c, row) ensures row in page || Before(KeyOf(page[limit - 1]), KeyOf(row)) {
        var i :| 0 <= i < |s| && s[i] == row;
        if i < limit {
          assert page[i] == row;
        }
      }
    }
  }

  lemma {:induction false} BeyondLater(c: Cursor, x: Key, y: Key)
    requires Beyond(c, x) && Before(x, y)
    ensures Beyond(c, y)
  {
    if c.After? {
      BeforeTransitive(c.key, x, y);
    }
  }

  /** Everything drained lies beyond the starting position, in strictly ascending
      order: no key is returned twice, whatever happens between the pages. */
  lemma {:induction false} DrainAscends(tables: seq<Table>, c: Cursor, limit: int, pages: seq<seq<Row>>)
    requires limit > 0 && Drains(tables, c, limit, pages)
    ensures Sorted(Concat(pages)) && forall row :: row in Concat(pages) ==> Beyond(c, KeyOf(row))
    decreases |pages|
  {
    PageFacts(tables[0], c, limit, pages[0]);
    if |pages| == 1 {
      assert Concat(pages[1..]) == [] && Concat(pages) == pages[0];
    } else {
      var last := KeyOf(pages[0][limit - 1]);
      DrainAscends(tables[1..], After(last), limit, pages[1..]);
      forall row | row in Concat(pages[1..]) ensures Beyond(c, KeyOf(row)) {
        BeyondLater(c, last, KeyOf(row));
      }
      forall x, y | x in pages[0] && y in Concat(pages[1..]) ensures Before(KeyOf(x), KeyOf(y)) {
        if x != pages[0][limit - 1] {
          BeforeTransitive(KeyOf(x), last, KeyOf(y));
        }
      }
      JoinAscending(pages[0], Concat(pages[1..]));
    }
  }

  lemma {:induction false} JoinAscending(s: seq<Row>, r: seq<Row>)
    requires Sorted(s) && Sorted(r)
    requires forall x, y :: x in s && y in r ==> Before(KeyOf(x), KeyOf(y))
    ensures Sorted(s + r)
  {
  }

  /** A full page splits what is left into its own rows and those beyond its last. */
  lemma {:induction false} FullPageSplits(t: Table, c: Cursor, limit: int, page: seq<Row>)
    requires IsPage(t, c, limit, page) && |page| == limit > 0
    ensures forall row :: Selected(t, c, row) <==> row in page || Selected(t, After(KeyOf(page[limit - 1])), row)
    ensures forall x, y :: x in page && Selected(t, After(KeyOf(page[limit - 1])), y) ==> Before(KeyOf(x), KeyOf(y))
  {
    PageFacts(t, c, limit, page);
    var last := page[limit - 1];
    assert last in page;
    forall y | Selected(t, After(KeyOf(last)), y) ensures Selected(t, c, y) {
      BeyondLater(c, KeyOf(last), KeyOf(y));
    }
    forall x, y | x in page && Selected(t, After(KeyOf(last)), y) ensures Before(KeyOf(x), KeyOf(y)) {
      if x != last {
        BeforeTransitive(KeyOf(x), KeyOf(last), KeyOf(y));
      }
    }
  }

  /** A row whose key stays put is returned, by a page that shows it as it was then. */
  lemma {:induction false} DrainFindsStable(tables: seq<Table>, c: Cursor, limit: int, pages: seq<seq<Row>>, k: Key)
    returns (at: nat, i: nat)
    requires limit > 0 && Drains(tables, c, limit, pages) && Stable(tables, k) && Beyond(c, k)
    ensures at < |pages| && at < |tables| && k.itemId in tables[at]
    ensures i < |Concat(pages)| && Concat(pages)[i] == tables[at][k.itemId] && KeyOf(Concat(pages)[i]) == k
    decreases |pages|
  {
    var row := tables[0][k.itemId];
    assert Selected(tables[0], c, row);
    PageFacts(tables[0], c, limit, pages[0]);
    if row in pages[0] {
      at := 0;
      i :| 0 <= i < |pages[0]| && pages[0][i] == row;
    } else {
      var n, j := DrainFindsStable(tables[1..], After(KeyOf(pages[0][limit - 1])), limit, pages[1..], k);
      at, i := n + 1, |pages[0]| + j;
    }
  }

  /** Every row whose key stays unchanged during a drain is returned exactly once. */
  lemma {:induction false} StableRowExactlyOnce(tables: seq<Table>, c: Cursor, limit: int, pages: seq<seq<Row>>, k: Key)
    requires limit > 0 && Drains(tables, c, limit, pages) && Stable(tables, k) && Beyond(c, k)
    ensures exists i :: 0 <= i < |Concat(pages)| && KeyOf(Concat(pages)[i]) == k
    ensures forall i, j :: 0 <= i < j < |Concat(pages)| ==> !(KeyOf(Concat(pages)[i]) == KeyOf(Concat(pages)[j]) == k)
  {
    var _, i := DrainFindsStable(tables, c, limit, pages, k);
    DrainAscends(tables, c, limit, pages);
    BeforeTotal(k, k);
  }

  /** On a frozen table the pages concatenate to the one sorted listing. */
  lemma {:induction false} FrozenDrainLists(t: Table, tables: seq<Table>, c: Cursor, limit: int, pages: seq<seq<Row>>)
    requires limit > 0 && Drains(tables, c, limit, pages)
    requires forall i :: 0 <= i < |tables| ==> tables[i] == t
    ensures Lists(t, c, Concat(pages))
    decreases |pages|
  {
    DrainAscends(tables, c, limit, pages);
    PageFacts(t, c, limit, pages[0]);
    if |pages| == 1 {
      assert Concat(pages[1..]) == [] && Concat(pages) == pages[0];
    } else {
      var last := KeyOf(pages[0][limit - 1]);
      FrozenDrainLists(t, tables[1..], After(last), limit, pages[1..]);
      FullPageSplits(t, c, limit, pages[0]);
    }
  }

  // ----- requests between pages

  datatype Request = Post(rows: seq<Row>) | Tombstone(ids: seq<ItemId>, patch: Patch)

  function Handle(t: Table, r: Request): Table {
    match r
    case Post(rows) => Upserted(t, rows)
    case Tombstone(ids, patch) => Deleted(t, ids, patch)
  }

  ghost predicate Mentions(r: Request, id: ItemId) {
    match r
    case Post(rows) => exists i :: 0 <= i < |rows| && rows[i].itemId == id
    case Tombstone(ids, _) => id in ids
  }

  /** A request leaves the last row posted under an id, or an emptied row under each id it
      tombstones. */
  lemma {:induction false} HandledHolds(t: Table, r: Request)
    ensures r.Post? ==> forall i: nat :: LastPosted(r.rows, i) ==> RowAt(Handle(t, r), r.rows[i].itemId) == Some(r.rows[i])
    ensures r.Tombstone? ==> forall id :: DeletedAt(t, Handle(t, r), r.patch, id, id in r.ids)
  {
    if r.Post? {
      forall i: nat | LastPosted(r.rows, i) ensures RowAt(Handle(t, r), r.rows[i].itemId) == Some(r.rows[i]) {
        LastPostedHeld(t, r.rows, i);
      }
    } else {
      forall id ensures DeletedAt(t, Handle(t, r), r.patch, id, id in r.ids) {
        DeletedHolds(t, r.ids, r.patch, id);
      }
    }
  }

  /** The tables the successive page requests read when `between[i]` is handled
      after request `i`. */
  function Tables(t: Table, between: seq<seq<Request>>): seq<Table>
    decreases |between|
  {
    [t] + if between == [] then [] else Tables(HandleAll(t, between[0]), between[1..])
  }

  function HandleAll(t: Table, requests: seq<Request>): Table
    decreases |requests|
  {
    if requests == [] then t else HandleAll(Handle(t, requests[0]), requests[1..])
  }

  /** Each page reads the table the requests before it left, handled one after another. */
  lemma {:induction false} TablesStep(t: Table, between: seq<seq<Request>>, i: nat)
    requires i < |between|
    ensures |Tables(t, between)| == |between| + 1 && Tables(t, between)[0] == t
    ensures Tables(t, between)[i + 1] == HandleAll(Tables(t, between)[i], between[i])
    decreases |between|
  {
    var later := Tables(HandleAll(t, between[0]), between[1..]);
    TablesLength(HandleAll(t, between[0]), between[1..]);
    if i > 0 {
      TablesStep(HandleAll(t, between[0]), between[1..], i - 1);
      assert Tables(t, between)[i + 1] == later[i] && Tables(t, between)[i] == later[i - 1];
    }
  }

  lemma {:induction false} TablesLength(t: Table, between: seq<seq<Request>>)
    ensures |Tables(t, between)| == |between| + 1 && Tables(t, between)[0] == t
    decreases |between|
  {
    if between != [] {
      TablesLength(HandleAll(t, between[0]), between[1..]);
    }
  }

  lemma {:induction false} HandleAllSnoc(t: Table, requests: seq<Request>, r: Request)
    ensures HandleAll(t, []) == t && HandleAll(t, requests + [r]) == Handle(HandleAll(t, requests), r)
    decreases |requests|
  {
    if requests == [] {
      assert ([r])[1..] == [] && requests + [r] == [r];
    } else {
      HandleAllSnoc(Handle(t, requests[0]), requests[1..], r);
      assert (requests + [r])[1..] == requests[1..] + [r];
    }
  }

  lemma {:induction false} UntouchedByAll(t: Table, requests: seq<Request>, id: ItemId)
    requires forall r :: r in requests ==> !Mentions(r, id)
    ensures (id in HandleAll(t, requests) <==> id in t) && (id in t ==> HandleAll(t, requests)[id] == t[id])
    decreases |requests|
  {
    if requests != [] {
      var r := requests[0];
      assert r in requests;
      match r {
        case Post(rows) => NotPostedStays(t, rows, id);
        case Tombstone(ids, p) => DeletedHolds(t, ids, p, id);
      }
      UntouchedByAll(Handle(t, r), requests[1..], id);
    }
  }

  /** Traffic about other rows keeps a row's key in every table of the drain. */
  lemma {:induction false} UntouchedStable(t: Table, between: seq<seq<Request>>, id: ItemId)
    requires id in t && forall i, r :: 0 <= i < |between| && r in between[i] ==> !Mentions(r, id)
    ensures Stable(Tables(t, between), KeyOf(t[id]))
    decreases |between|
  {
    if between != [] {
      UntouchedByAll(t, between[0], id);
      UntouchedStable(HandleAll(t, between[0]), between[1..], id);
    }
  }

  /** Whatever is posted or tombstoned about other rows between the pages, the drain
      returns row `id` exactly once, as it is in the table. */
  lemma {:induction false} UntouchedRowDrained(t: Table, between: seq<seq<Request>>, c: Cursor, limit: int,
                                               pages: seq<seq<Row>>, id: ItemId)
    requires limit > 0 && Drains(Tables(t, between), c, limit, pages)
    requires id in t && Beyond(c, KeyOf(t[id]))
    requires forall i, r :: 0 <= i < |between| && r in between[i] && r.Post? ==> forall j :: 0 <= j < |r.rows| ==> r.rows[j].itemId != id
    requires forall i, r :: 0 <= i < |between| && r in between[i] && r.Tombstone? ==> id !in r.ids
    ensures multiset(Concat(pages))[t[id]] == 1
  {
    var k := KeyOf(t[id]);
    UntouchedStable(t, between, id);
    var at, i := DrainFindsStable(Tables(t, between), c, limit, pages, k);
    UntouchedAt(t, between, id, at);
    DrainAscends(Tables(t, between), c, limit, pages);
    OnceInAscending(Concat(pages), i);
  }

  lemma {:induction false} UntouchedAt(t: Table, between: seq<seq<Request>>, id: ItemId, at: nat)
    requires id in t && at < |Tables(t, between)|
    requires forall i, r :: 0 <= i < |between| && r in between[i] ==> !Mentions(r, id)
    ensures id in Tables(t, between)[at] && Tables(t, between)[at][id] == t[id]
    decreases |between|
  {
    if at > 0 {
      UntouchedByAll(t, between[0], id);
      UntouchedAt(HandleAll(t, between[0]), between[1..], id, at - 1);
    }
  }

  lemma {:induction false} OnceInAscending(s: seq<Row>, i: nat)
    requires Sorted(s) && i < |s|
    ensures multiset(s)[s[i]] == 1
  {
    BeforeTotal(KeyOf(s[i]), KeyOf(s[i]));
    var head, tail := s[..i], s[i + 1..];
    assert s == head + [s[i]] + tail;
    assert s[i] !in head && s[i] !in tail;
    assert multiset(s) == multiset(head) + multiset([s[i]]) + multiset(tail);
  }

  // ----- a drain exists and ends

  /** Rows of `t` still ahead of the cursor. */
  ghost function Ahead(t: Table, c: Cursor): set<ItemId> {
    set id | id in t && Beyond(c, KeyOf(t[id]))
  }

  /** Paging through a table nobody changes, until a page is short: it stops, and has
      read the listing. */
  method Drain(t: Table, start: Cursor, limit: int) returns (rows: seq<Row>)
    requires limit > 0
    ensures Lists(t, start, rows)
  {
    rows := [];
    var c := start;
    while true
      invariant Sorted(rows)
      invariant forall row :: Selected(t, start, row) <==> row in rows || Selected(t, c, row)
      invariant forall x, y :: x in rows && Selected(t, c, y) ==> Before(KeyOf(x), KeyOf(y))
      decreases Ahead(t, c)
    {
      var sorted := Listing(t, c);
      var page := Slice(sorted, limit);
      PageFacts(t, c, limit, page);
      JoinAscending(rows, page);
      if |page| < limit {
        rows := rows + page;
        return;
      }
      FullPageSplits(t, c, limit, page);
      var next := After(KeyOf(page[limit - 1]));
      assert Ahead(t, next) < Ahead(t, c) by {
        Progress(t, c, limit, page);
      }
      rows, c := rows + page, next;
    }
  }

  lemma {:induction false} Progress(t: Table, c: Cursor, limit: int, page: seq<Row>)
    requires IsPage(t, c, limit, page) && |page| == limit > 0
    ensures Ahead(t, After(KeyOf(page[limit - 1]))) < Ahead(t, c)
  {
    PageFacts(t, c, limit, page);
    FullPageSplits(t, c, limit, page);
    var last := page[limit - 1];
    assert last in page;
    BeforeTotal(KeyOf(last), KeyOf(last));
    assert last.itemId in Ahead(t, c) && last.itemId !in Ahead(t, After(KeyOf(last)));
    forall id | id in t && Beyond(After(KeyOf(last)), KeyOf(t[id])) ensures Beyond(c, KeyOf(t[id])) {
      BeyondLater(c, KeyOf(last), KeyOf(t[id]));
    }
  }
}
