/** How far the client of crates/copypaste-cloud/src/sync/pull.rs gets on a table nobody
    changes, when no row is stamped ahead of its clock: page by page through the listing,
    5000 rows to a pull. */
module CloudCatchUp {
  import opened Options
  import opened KeysetPages
  import opened KeysetDrain
  import opened CloudPull
  import StringOrder

  /** The cursor after the first `k` rows of a listing. */
  function Position(start: Cursor, listing: seq<Row>, k: nat): Cursor
    requires k <= |listing|
  {
    if k == 0 then start else After(KeyOf(listing[k - 1]))
  }

  /** The acceptable rows among the first `k`. */
  function Acceptable(rows: seq<Row>, k: nat, accepts: Verdict): seq<Row>
    requires k <= |rows|
  {
    if k == 0 then [] else Acceptable(rows, k - 1, accepts) + if accepts(rows[k - 1]) then [rows[k - 1]] else []
  }

  /** Rows downloaded in the first `n` rounds. */
  function Downloaded(rounds: seq<Round>, n: nat): nat
    requires n <= |rounds|
  {
    if n == 0 then 0 else Downloaded(rounds, n - 1) + |rounds[n - 1].page|
  }

  /** Every request reads this table, at a time no row in it is ahead of. */
  ghost predicate Frozen(t: Table, rounds: seq<Round>) {
    forall i :: 0 <= i < |rounds| ==> rounds[i].table == t && Current(t, rounds[i].now)
  }

  ghost predicate Current(t: Table, now: int) {
    forall id :: id in t ==> Stamp(t[id]) <= now
  }

  /** From a position in a listing, the rest of it is listed. */
  lemma {:induction false} RestLists(t: Table, start: Cursor, listing: seq<Row>, k: nat)
    requires Lists(t, start, listing) && k <= |listing|
    ensures Lists(t, Position(start, listing, k), listing[k..])
  {
    if k > 0 {
      var last := listing[k - 1];
      forall row ensures row in listing[k..] <==> Selected(t, After(KeyOf(last)), row) {
        assert last in listing;
        if row in listing[k..] {
          assert row in listing;
        }
        if Selected(t, After(KeyOf(last)), row) {
          BeyondLater(start, KeyOf(last), KeyOf(row));
          assert Selected(t, start, row) && row in listing;
          var i :| 0 <= i < |listing| && listing[i] == row;
          NotBefore(listing, i, k - 1);
          assert listing[k..][i - k] == row;
        }
      }
    }
  }

  lemma {:induction false} NotBefore(listing: seq<Row>, i: nat, k: nat)
    requires Sorted(listing) && i < |listing| && k < |listing| && Before(KeyOf(listing[k]), KeyOf(listing[i]))
    ensures k < i
  {
    BeforeTotal(KeyOf(listing[k]), KeyOf(listing[i]));
    BeforeTotal(KeyOf(listing[k]), KeyOf(listing[k]));
  }

  /** A page is the next piece of the listing. */
  lemma {:induction false} PageOfListing(t: Table, start: Cursor, listing: seq<Row>, k: nat, limit: int, page: seq<Row>)
    requires Lists(t, start, listing) && k <= |listing| && limit > 0 && IsPage(t, Position(start, listing, k), limit, page)
    ensures page == Slice(listing[k..], limit)
  {
    RestLists(t, start, listing, k);
    var s :| Lists(t, Position(start, listing, k), s) && page == Slice(s, limit);
    ListingUnique(s, listing[k..]);
  }

  /** On a page without rows ahead of the clock nothing is from the future, and the cursor
      moves past the last row. */
  lemma {:induction false} WholePage(c: Cursor, r: Round, limit: int, accepts: Verdict)
    requires limit > 0 && RoundFrom(c, r, limit, accepts) && Current(r.table, r.now)
    ensures r.batch == Acceptable(r.page, |r.page|, accepts)
    ensures r.after == if r.page == [] then c else After(KeyOf(r.page[|r.page| - 1]))
  {
    PageFacts(r.table, c, limit, r.page);
    forall row | row in r.page ensures Stamp(row) <= r.now {
      assert Selected(r.table, c, row);
    }
    OfferedIsAcceptable(r.page, |r.page|, r.now, accepts);
    if r.page != [] {
      var last := r.page[|r.page| - 1];
      assert last in r.page && Beyond(c, KeyOf(last)) && !Beyond(r.after, KeyOf(last));
      var i :| 0 <= i < |r.page| && r.after == After(KeyOf(r.page[i]));
      BeforeTotal(KeyOf(r.page[i]), KeyOf(last));
    }
  }

  lemma {:induction false} OfferedIsAcceptable(rows: seq<Row>, n: nat, now: int, accepts: Verdict)
    requires n <= |rows| && forall row :: row in rows ==> Stamp(row) <= now
    ensures Offered(rows, n, now, accepts) == Acceptable(rows, n, accepts)
  {
    if n > 0 {
      OfferedIsAcceptable(rows, n - 1, now, accepts);
      assert rows[n - 1] in rows;
    }
  }

  lemma {:induction false} AcceptableJoins(rows: seq<Row>, k: nat, piece: seq<Row>, n: nat, accepts: Verdict)
    requires k + |piece| <= |rows| && n <= |piece| && forall i :: 0 <= i < |piece| ==> piece[i] == rows[k + i]
    ensures Acceptable(rows, k + n, accepts) == Acceptable(rows, k, accepts) + Acceptable(piece, n, accepts)
  {
    if n > 0 {
      AcceptableJoins(rows, k, piece, n - 1, accepts);
    }
  }

  function Least(a: int, b: int): int {
    if a <= b then a else b
  }

  /** After `n` rounds the listing has been read as far as downloaded: the cursor stands
      there, and the acceptable rows up to there were offered. */
  ghost predicate Along(start: Cursor, listing: seq<Row>, rounds: seq<Round>, n: nat, accepts: Verdict)
    requires n <= |rounds|
  {
    var k := Downloaded(rounds, n);
    && k <= |listing| && CursorAt(start, rounds, n) == Position(start, listing, k)
    && Taken(rounds, n) == Acceptable(listing, k, accepts)
  }

  /** Over any number of rounds, in any number of pulls. */
  lemma {:induction false} ThroughTheListing(t: Table, start: Cursor, listing: seq<Row>, rounds: seq<Round>, limit: int, accepts: Verdict, n: nat)
    requires limit > 0 && Chain(start, rounds, limit, accepts) && Frozen(t, rounds) && Lists(t, start, listing) && n <= |rounds|
    ensures Along(start, listing, rounds, n, accepts)
  {
    if n > 0 {
      ThroughTheListing(t, start, listing, rounds, limit, accepts, n - 1);
      assert RoundAt(start, rounds, n - 1, limit, accepts);
      AlongRound(t, start, listing, rounds, limit, accepts, n - 1);
    }
  }

  lemma {:induction false} AlongRound(t: Table, start: Cursor, listing: seq<Row>, rounds: seq<Round>, limit: int, accepts: Verdict, n: nat)
    requires limit > 0 && Lists(t, start, listing) && n < |rounds| && Along(start, listing, rounds, n, accepts)
    requires RoundFrom(CursorAt(start, rounds, n), rounds[n], limit, accepts) && rounds[n].table == t && Current(t, rounds[n].now)
    ensures Along(start, listing, rounds, n + 1, accepts)
  {
    NextPiece(t, start, listing, Downloaded(rounds, n), rounds[n], limit, accepts);
    AlongNext(start, listing, rounds, n, accepts);
  }

  /** A page is full unless the listing ends on it. */
  lemma {:induction false} PageLength(t: Table, start: Cursor, listing: seq<Row>, rounds: seq<Round>, limit: int, accepts: Verdict, n: nat)
    requires limit > 0 && Chain(start, rounds, limit, accepts) && Frozen(t, rounds) && Lists(t, start, listing) && n < |rounds|
    ensures Downloaded(rounds, n) <= |listing| && |rounds[n].page| == Least(limit, |listing| - Downloaded(rounds, n))
  {
    ThroughTheListing(t, start, listing, rounds, limit, accepts, n);
    assert RoundAt(start, rounds, n, limit, accepts);
    PageOfListing(t, start, listing, Downloaded(rounds, n), limit, rounds[n].page);
  }

  lemma {:induction false} NextPiece(t: Table, start: Cursor, listing: seq<Row>, k: nat, r: Round, limit: int, accepts: Verdict)
    requires limit > 0 && Lists(t, start, listing) && k <= |listing| && r.table == t && Current(t, r.now)
    requires RoundFrom(Position(start, listing, k), r, limit, accepts)
    ensures k + |r.page| <= |listing| && r.after == Position(start, listing, k + |r.page|)
    ensures Acceptable(listing, k, accepts) + r.batch == Acceptable(listing, k + |r.page|, accepts)
  {
    NextPage(t, start, listing, k, limit, r.page);
    WholePage(Position(start, listing, k), r, limit, accepts);
    PieceRead(start, listing, k, r, accepts);
  }

  lemma {:induction false} NextPage(t: Table, start: Cursor, listing: seq<Row>, k: nat, limit: int, page: seq<Row>)
    requires Lists(t, start, listing) && k <= |listing| && limit > 0 && IsPage(t, Position(start, listing, k), limit, page)
    ensures k + |page| <= |listing| && page == listing[k..k + |page|]
  {
    PageOfListing(t, start, listing, k, limit, page);
    PieceAt(listing, k, limit, page);
  }

  lemma {:induction false} PieceRead(start: Cursor, listing: seq<Row>, k: nat, r: Round, accepts: Verdict)
    requires k + |r.page| <= |listing| && r.page == listing[k..k + |r.page|]
    requires r.batch == Acceptable(r.page, |r.page|, accepts)
    requires r.after == if r.page == [] then Position(start, listing, k) else After(KeyOf(r.page[|r.page| - 1]))
    ensures r.after == Position(start, listing, k + |r.page|)
    ensures Acceptable(listing, k, accepts) + r.batch == Acceptable(listing, k + |r.page|, accepts)
  {
    AcceptablePiece(listing, k, r.page, accepts);
    assert r.page != [] ==> r.page[|r.page| - 1] == listing[k + |r.page| - 1];
  }

  lemma {:induction false} AlongNext(start: Cursor, listing: seq<Row>, rounds: seq<Round>, n: nat, accepts: Verdict)
    requires n < |rounds| && Along(start, listing, rounds, n, accepts)
    requires var k, r := Downloaded(rounds, n), rounds[n];
             && k + |r.page| <= |listing| && r.after == Position(start, listing, k + |r.page|)
             && Acceptable(listing, k, accepts) + r.batch == Acceptable(listing, k + |r.page|, accepts)
    ensures Along(start, listing, rounds, n + 1, accepts)
  {
  }

  lemma {:induction false} AcceptablePiece(listing: seq<Row>, k: nat, page: seq<Row>, accepts: Verdict)
    requires k + |page| <= |listing| && page == listing[k..k + |page|]
    ensures Acceptable(listing, k, accepts) + Acceptable(page, |page|, accepts) == Acceptable(listing, k + |page|, accepts)
  {
    AcceptableJoins(listing, k, page, |page|, accepts);
  }

  lemma {:induction false} PieceAt(listing: seq<Row>, k: nat, limit: int, page: seq<Row>)
    requires k <= |listing| && limit > 0 && page == Slice(listing[k..], limit)
    ensures k + |page| <= |listing| && page == listing[k..k + |page|]
    ensures page != [] ==> page[|page| - 1] == listing[k + |page| - 1]
  {
  }

  // ----- one pull

  const PULL_ROWS: nat := 5000

  /** A pull that is not interrupted, of a table nobody changes and no row of which is
      stamped ahead of the clock. */
  ghost predicate QuietPull(t: Table, start: Cursor, accepts: Verdict, stop: Stop, rounds: seq<Round>) {
    && Chain(start, rounds, PULL_PAGE_LIMIT, accepts) && |rounds| <= MAX_PAGES_PER_PULL && StoppedBy(start, rounds, stop)
    && !stop.Interrupted? && Frozen(t, rounds)
  }

  lemma {:induction false} PullIsQuiet(t: Table, tables: seq<Table>, clocks: seq<int>, start: Cursor, accepts: Verdict, stop: Stop, rounds: seq<Round>)
    requires PullOf(tables, clocks, start, accepts, stop, rounds) && |tables| >= MAX_PAGES_PER_PULL
    requires (forall i :: 0 <= i < |tables| ==> tables[i] == t) && forall i :: 0 <= i < |clocks| ==> Current(t, clocks[i])
    ensures QuietPull(t, start, accepts, stop, rounds)
  {
  }

  lemma {:induction false} AtMostFullPages(t: Table, start: Cursor, listing: seq<Row>, rounds: seq<Round>, accepts: Verdict, n: nat)
    requires Chain(start, rounds, PULL_PAGE_LIMIT, accepts) && Frozen(t, rounds) && Lists(t, start, listing) && n <= |rounds|
    ensures Downloaded(rounds, n) <= PULL_PAGE_LIMIT * n
    ensures (forall i :: 0 <= i < n ==> Full(rounds[i])) ==> Downloaded(rounds, n) == PULL_PAGE_LIMIT * n
  {
    if n > 0 {
      AtMostFullPages(t, start, listing, rounds, accepts, n - 1);
      PageLength(t, start, listing, rounds, PULL_PAGE_LIMIT, accepts, n - 1);
    }
  }

  /** A full page of rows that are not ahead of the clock moves the cursor. */
  lemma {:induction false} NeverStalls(t: Table, start: Cursor, listing: seq<Row>, rounds: seq<Round>, accepts: Verdict)
    requires Chain(start, rounds, PULL_PAGE_LIMIT, accepts) && Frozen(t, rounds) && Lists(t, start, listing)
    ensures !StoppedBy(start, rounds, Stalled)
  {
    if |rounds| > 0 && Full(rounds[|rounds| - 1]) {
      var n := |rounds| - 1;
      var c, r := CursorAt(start, rounds, n), rounds[n];
      assert RoundAt(start, rounds, n, PULL_PAGE_LIMIT, accepts);
      WholePage(c, r, PULL_PAGE_LIMIT, accepts);
      PageFacts(t, c, PULL_PAGE_LIMIT, r.page);
      var last := r.page[|r.page| - 1];
      assert last in r.page && Beyond(c, KeyOf(last));
      BeforeTotal(KeyOf(last), KeyOf(last));
    }
  }

  /** Such a pull catches up if and only if fewer than 5000 rows lie ahead, and is capped
      otherwise; either way it has offered the acceptable ones of the first 5000. */
  lemma {:induction false} QuietPullReads(t: Table, start: Cursor, listing: seq<Row>, accepts: Verdict, stop: Stop, rounds: seq<Round>)
    requires QuietPull(t, start, accepts, stop, rounds) && Lists(t, start, listing)
    ensures stop.CaughtUp? <==> |listing| < PULL_ROWS
    ensures stop.Capped? <==> |listing| >= PULL_ROWS
    ensures var k := Least(|listing|, PULL_ROWS);
            && Taken(rounds, |rounds|) == Acceptable(listing, k, accepts)
            && CursorAt(start, rounds, |rounds|) == Position(start, listing, k)
  {
    var n := |rounds|;
    NeverStalls(t, start, listing, rounds, accepts);
    ThroughTheListing(t, start, listing, rounds, PULL_PAGE_LIMIT, accepts, n);
    AtMostFullPages(t, start, listing, rounds, accepts, n);
    if stop.CaughtUp? {
      PageLength(t, start, listing, rounds, PULL_PAGE_LIMIT, accepts, n - 1);
      AtMostFullPages(t, start, listing, rounds, accepts, n - 1);
      assert Downloaded(rounds, n) == |listing| < PULL_ROWS;
    } else {
      forall i | 0 <= i < n ensures Full(rounds[i]) {
        assert Continues(start, rounds, i);
      }
      assert Downloaded(rounds, n) == PULL_ROWS;
    }
  }

  // ----- a series of pulls

  datatype Session = Session(stop: Stop, rounds: seq<Round>)

  /** Where the `j`th pull starts. */
  ghost function StartOf(start: Cursor, sessions: seq<Session>, j: nat): Cursor
    requires j <= |sessions|
  {
    if j == 0 then start
    else CursorAt(StartOf(start, sessions, j - 1), sessions[j - 1].rounds, |sessions[j - 1].rounds|)
  }

  /** One quiet pull after another, each from the cursor the one before it left. */
  ghost predicate Sessions(t: Table, start: Cursor, accepts: Verdict, sessions: seq<Session>) {
    forall j {:trigger StartOf(start, sessions, j)} :: 0 <= j < |sessions| ==>
      QuietPull(t, StartOf(start, sessions, j), accepts, sessions[j].stop, sessions[j].rounds)
  }

  /** Every pull but one reads 5000 rows, and the one that catches up is the first after
      as many as fit: `|listing| / 5000 + 1` pulls drain the table. */
  lemma {:induction false} SessionsDrain(t: Table, start: Cursor, listing: seq<Row>, accepts: Verdict, sessions: seq<Session>, j: nat)
    requires Sessions(t, start, accepts, sessions) && Lists(t, start, listing) && j < |sessions| && PULL_ROWS * j <= |listing|
    ensures StartOf(start, sessions, j) == Position(start, listing, PULL_ROWS * j)
    ensures sessions[j].stop.CaughtUp? <==> j == |listing| / PULL_ROWS
    ensures var k := Least(|listing| - PULL_ROWS * j, PULL_ROWS);
            Taken(sessions[j].rounds, |sessions[j].rounds|) == Acceptable(listing[PULL_ROWS * j..], k, accepts)
  {
    var done := PULL_ROWS * j;
    if j > 0 {
      SessionsDrain(t, start, listing, accepts, sessions, j - 1);
      SessionEnds(t, start, listing, accepts, sessions[j - 1], done - PULL_ROWS, done);
    }
    assert QuietPull(t, StartOf(start, sessions, j), accepts, sessions[j].stop, sessions[j].rounds);
    SessionReads(t, start, listing, accepts, sessions[j], done);
    WhichPull(|listing|, j);
  }

  lemma {:induction false} SessionReads(t: Table, start: Cursor, listing: seq<Row>, accepts: Verdict, s: Session, from: nat)
    requires Lists(t, start, listing) && from <= |listing| && QuietPull(t, Position(start, listing, from), accepts, s.stop, s.rounds)
    ensures s.stop.CaughtUp? <==> |listing| - from < PULL_ROWS
    ensures Taken(s.rounds, |s.rounds|) == Acceptable(listing[from..], Least(|listing| - from, PULL_ROWS), accepts)
  {
    RestLists(t, start, listing, from);
    QuietPullReads(t, Position(start, listing, from), listing[from..], accepts, s.stop, s.rounds);
  }

  lemma {:induction false} WhichPull(n: nat, j: nat)
    requires PULL_ROWS * j <= n
    ensures n - PULL_ROWS * j < PULL_ROWS <==> j == n / PULL_ROWS
  {
  }

  lemma {:induction false} SessionEnds(t: Table, start: Cursor, listing: seq<Row>, accepts: Verdict, s: Session, from: nat, to: nat)
    requires Lists(t, start, listing) && to == from + PULL_ROWS <= |listing|
    requires QuietPull(t, Position(start, listing, from), accepts, s.stop, s.rounds)
    ensures CursorAt(Position(start, listing, from), s.rounds, |s.rounds|) == Position(start, listing, to)
  {
    var rest := listing[from..];
    RestLists(t, start, listing, from);
    QuietPullReads(t, Position(start, listing, from), rest, accepts, s.stop, s.rounds);
    assert rest[PULL_ROWS - 1] == listing[to - 1];
  }

  // ----- inputs of which a pull leaves something

  /** `n` rows of one stamp, told apart by the length of their ids. */
  function Crowd(n: nat): seq<Row> {
    seq(n, (i: nat) => Row(seq(i, _ => 'a'), Some(0), "", "", "text", false, "device"))
  }

  ghost function CrowdTable(n: nat): Table {
    map id | id in (set i | 0 <= i < n :: Crowd(n)[i].itemId) :: Row(id, Some(0), "", "", "text", false, "device")
  }

  lemma {:induction false} LongerLater(i: nat, j: nat)
    requires i < j
    ensures StringOrder.Precedes(seq(i, _ => 'a'), seq(j, _ => 'a'))
    decreases i
  {
    if i > 0 {
      LongerLater(i - 1, j - 1);
      assert seq(i, _ => 'a')[1..] == seq(i - 1, _ => 'a') && seq(j, _ => 'a')[1..] == seq(j - 1, _ => 'a');
    }
  }

  lemma {:induction false} CrowdLists(n: nat)
    ensures Lists(CrowdTable(n), From(0), Crowd(n)) && Current(CrowdTable(n), 0)
  {
    var rows, t := Crowd(n), CrowdTable(n);
    forall i, j | 0 <= i < j < n ensures Before(KeyOf(rows[i]), KeyOf(rows[j])) {
      LongerLater(i, j);
    }
    forall row ensures row in rows <==> Selected(t, From(0), row) {
      if row in rows {
        var i :| 0 <= i < n && rows[i] == row;
        assert row.itemId in t;
      }
      if Selected(t, From(0), row) {
        var i :| 0 <= i < n && rows[i].itemId == row.itemId;
        assert rows[i] == row;
      }
    }
  }

  /** The cap leaves rows behind: of 5001 rows a first pull reads all but the last. */
  lemma {:induction false} CappedPullLeavesRow(accepts: Verdict, stop: Stop, rounds: seq<Round>)
    requires QuietPull(CrowdTable(PULL_ROWS + 1), From(0), accepts, stop, rounds)
    ensures stop.Capped? && Beyond(CursorAt(From(0), rounds, |rounds|), KeyOf(Crowd(PULL_ROWS + 1)[PULL_ROWS]))
  {
    var rows := Crowd(PULL_ROWS + 1);
    CrowdLists(PULL_ROWS + 1);
    QuietPullReads(CrowdTable(PULL_ROWS + 1), From(0), rows, accepts, stop, rounds);
    assert Before(KeyOf(rows[PULL_ROWS - 1]), KeyOf(rows[PULL_ROWS]));
  }

  /** A row stamped more than a day ahead of the clock at `now`. */
  function FutureRow(now: int): Row {
    Row("r", Some(now + MAX_FUTURE_SKEW_MS + 1), "", "", "text", false, "device")
  }

  lemma {:induction false} ShortPage(t: Table, c: Cursor, limit: int, page: seq<Row>, row: Row)
    requires limit > 0 && IsPage(t, c, limit, page) && forall id :: id in t ==> t[id] == row
    ensures |page| <= 1
  {
    PageFacts(t, c, limit, page);
    BeforeTotal(KeyOf(row), KeyOf(row));
    forall i | 0 <= i < |page| ensures page[i] == row {
      assert page[i] in page;
    }
    if |page| > 1 {
      NeighboursDiffer(page);
    }
  }

  lemma {:induction false} NeighboursDiffer(page: seq<Row>)
    requires Sorted(page) && |page| > 1
    ensures page[0] != page[1]
  {
    BeforeTotal(KeyOf(page[0]), KeyOf(page[1]));
    BeforeTotal(KeyOf(page[0]), KeyOf(page[0]));
  }

  /** A table of that row alone: a pull catches up without it, however acceptable. */
  lemma {:induction false} FutureRowLeft(now: int, accepts: Verdict, stop: Stop, rounds: seq<Round>)
    requires now >= 0 && PullOf([map["r" := FutureRow(now)]], [now], From(0), accepts, stop, rounds)
    ensures stop.CaughtUp? && Beyond(CursorAt(From(0), rounds, |rounds|), KeyOf(FutureRow(now)))
  {
    var t: Table, row := map["r" := FutureRow(now)], FutureRow(now);
    if |rounds| > 0 {
      var r := rounds[0];
      assert RoundAt(From(0), rounds, 0, PULL_PAGE_LIMIT, accepts) && r.table == t;
      ShortPage(t, From(0), PULL_PAGE_LIMIT, r.page, row);
      assert stop.Interrupted? ==> Continues(From(0), rounds, 0);
      StaysBehind(From(0), r, accepts, row);
    }
  }

  lemma {:induction false} StaysBehind(c: Cursor, r: Round, accepts: Verdict, row: Row)
    requires RoundFrom(c, r, PULL_PAGE_LIMIT, accepts) && row.itemId in r.table && r.table[row.itemId] == row
    requires Beyond(c, KeyOf(row)) && FromFuture(row, r.now)
    ensures Beyond(r.after, KeyOf(row))
  {
    if !Beyond(r.after, KeyOf(row)) {
      PassedIsShown(c, r, PULL_PAGE_LIMIT, accepts, row);
    }
  }
}
