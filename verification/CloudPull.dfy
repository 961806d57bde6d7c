/** crates/copypaste-cloud/src/sync/pull.rs: the client's pull, over pages of the table
    in scripts/cloud-stub.py. It stops after a number of pages, does not follow rows into
    the future, and gives up on a full page that brings no progress. */
module CloudPull {
  import opened KeysetPages
  import opened KeysetDrain

  const MAX_FUTURE_SKEW_MS: int := 24 * 60 * 60 * 1000

  /** `Accepts` of a row: signed, within the size limit and decryptable. */
  type Verdict = Row -> bool

  function Stamp(row: Row): int {
    KeyOf(row).createdAt
  }

  predicate FromFuture(row: Row, now: int) {
    Stamp(row) > now + MAX_FUTURE_SKEW_MS
  }

  /** `advance_past`: forward only. */
  function Advance(c: Cursor, k: Key): Cursor {
    if Beyond(c, k) then After(k) else c
  }

  /** One cursor is at or past another. */
  ghost predicate Reached(c: Cursor, d: Cursor) {
    forall k :: Beyond(d, k) ==> Beyond(c, k)
  }

  lemma {:induction false} AdvanceReaches(c: Cursor, k: Key)
    ensures Reached(c, Advance(c, k)) && !Beyond(Advance(c, k), k)
  {
    BeforeTotal(k, k);
    if Beyond(c, k) {
      forall x | Before(k, x) ensures Beyond(c, x) {
        BeyondLater(c, k, x);
      }
    }
  }

  /** Which rows of a page are offered to the store, and where the cursor moves: not
      past a row from the future, and past everything that was offered. */
  ghost predicate Judged(rows: seq<Row>, c: Cursor, now: int, accepts: Verdict, batch: seq<Row>, d: Cursor) {
    && batch == Offered(rows, |rows|, now, accepts)
    && Reached(c, d)
    && (d == c || exists i :: 0 <= i < |rows| && d == After(KeyOf(rows[i])) && !FromFuture(rows[i], now))
    && (forall row :: row in batch ==> !Beyond(d, KeyOf(row)))
    && (forall row :: row in rows && Stamp(row) <= now ==> !Beyond(d, KeyOf(row)))
  }

  /** The accepted rows among the first `n` that are not from the future. */
  function Offered(rows: seq<Row>, n: nat, now: int, accepts: Verdict): seq<Row>
    requires n <= |rows|
  {
    if n == 0 then []
    else Offered(rows, n - 1, now, accepts) + if !FromFuture(rows[n - 1], now) && accepts(rows[n - 1]) then [rows[n - 1]] else []
  }

  lemma {:induction false} ReachedTransitive(c: Cursor, d: Cursor, e: Cursor)
    requires Reached(c, d) && Reached(d, e)
    ensures Reached(c, e)
  {
  }

  lemma {:induction false} OfferedFrom(rows: seq<Row>, n: nat, now: int, accepts: Verdict)
    requires n <= |rows| && Sorted(rows)
    ensures forall row :: row in Offered(rows, n, now, accepts) <==> (row in rows[..n] && !FromFuture(row, now) && accepts(row))
    ensures Sorted(Offered(rows, n, now, accepts))
  {
    if n > 0 {
      OfferedFrom(rows, n - 1, now, accepts);
      assert rows[..n] == rows[..n - 1] + [rows[n - 1]];
      var before := Offered(rows, n - 1, now, accepts);
      forall x | x in before ensures Before(KeyOf(x), KeyOf(rows[n - 1])) {
        var i :| 0 <= i < n - 1 && rows[..n - 1][i] == x;
      }
      JoinAscending(before, [rows[n - 1]]);
      assert before + [] == before;
    }
  }

  /** Moving past the last row of a sorted page moves past all of them. */
  lemma {:induction false} PastLast(batch: seq<Row>, d: Cursor)
    requires Sorted(batch) && batch != [] && !Beyond(d, KeyOf(batch[|batch| - 1]))
    ensures forall row :: row in batch ==> !Beyond(d, KeyOf(row))
  {
    var last := batch[|batch| - 1];
    forall row | row in batch ensures !Beyond(d, KeyOf(row)) {
      if Beyond(d, KeyOf(row)) && row != last {
        BeyondLater(d, KeyOf(row), KeyOf(last));
      }
    }
  }

  /** Where refusals alone have moved the cursor. */
  ghost predicate Refused(rows: seq<Row>, n: nat, c: Cursor, now: int, accepts: Verdict, d: Cursor)
    requires n <= |rows|
  {
    && Reached(c, d)
    && (d == c || exists i :: 0 <= i < n && d == After(KeyOf(rows[i])) && Stamp(rows[i]) <= now)
    && (forall i :: 0 <= i < n && Stamp(rows[i]) <= now && !accepts(rows[i]) ==> !Beyond(d, KeyOf(rows[i])))
  }

  lemma {:induction false} RefuseOne(rows: seq<Row>, n: nat, c: Cursor, now: int, accepts: Verdict, d: Cursor)
    requires n < |rows| && Refused(rows, n, c, now, accepts, d) && Stamp(rows[n]) <= now
    ensures Refused(rows, n + 1, c, now, accepts, Advance(d, KeyOf(rows[n])))
  {
    AdvanceReaches(d, KeyOf(rows[n]));
    ReachedTransitive(c, d, Advance(d, KeyOf(rows[n])));
  }

  lemma {:induction false} PageJudged(rows: seq<Row>, c: Cursor, now: int, accepts: Verdict, d: Cursor)
    requires Sorted(rows) && Refused(rows, |rows|, c, now, accepts, d)
    ensures var batch := Offered(rows, |rows|, now, accepts);
            Judged(rows, c, now, accepts, batch, if batch == [] then d else Advance(d, KeyOf(batch[|batch| - 1])))
  {
    var batch := Offered(rows, |rows|, now, accepts);
    OfferedFrom(rows, |rows|, now, accepts);
    assert rows[..|rows|] == rows;
    var e := d;
    if batch != [] {
      var last := batch[|batch| - 1];
      assert last in batch;
      e := Advance(d, KeyOf(last));
      AdvanceReaches(d, KeyOf(last));
      ReachedTransitive(c, d, e);
      PastLast(batch, e);
      var i :| 0 <= i < |rows| && rows[i] == last;
    }
    forall row | row in rows && Stamp(row) <= now ensures !Beyond(e, KeyOf(row)) {
      assert row in batch || !accepts(row);
    }
  }

  /** The row loop of one page. */
  method JudgePage(rows: seq<Row>, c: Cursor, now: int, accepts: Verdict) returns (batch: seq<Row>, advanced: Cursor)
    requires Sorted(rows)
    ensures Judged(rows, c, now, accepts, batch, advanced)
  {
    batch, advanced := [], c;
    for n := 0 to |rows|
      invariant batch == Offered(rows, n, now, accepts) && Refused(rows, n, c, now, accepts, advanced)
    {
      var row := rows[n];
      if FromFuture(row, now) {
        continue;
      }
      if !accepts(row) {
        if Stamp(row) <= now {
          RefuseOne(rows, n, c, now, accepts, advanced);
          advanced := Advance(advanced, KeyOf(row));
        }
        continue;
      }
      batch := batch + [row];
    }
    PageJudged(rows, c, now, accepts, advanced);
    if batch != [] {
      advanced := Advance(advanced, KeyOf(batch[|batch| - 1]));
    }
  }

  // ----- any number of pages, over any number of pulls

  /** One page as it was requested, judged and left. */
  datatype Round = Round(table: Table, now: int, page: seq<Row>, batch: seq<Row>, after: Cursor)

  ghost function CursorAt(start: Cursor, rounds: seq<Round>, n: nat): Cursor
    requires n <= |rounds|
  {
    if n == 0 then start else rounds[n - 1].after
  }

  ghost predicate RoundAt(start: Cursor, rounds: seq<Round>, n: nat, limit: int, accepts: Verdict)
    requires n < |rounds|
  {
    RoundFrom(CursorAt(start, rounds, n), rounds[n], limit, accepts)
  }

  ghost predicate RoundFrom(c: Cursor, r: Round, limit: int, accepts: Verdict) {
    IsPage(r.table, c, limit, r.page) && Judged(r.page, c, r.now, accepts, r.batch, r.after)
  }

  ghost predicate Chain(start: Cursor, rounds: seq<Round>, limit: int, accepts: Verdict) {
    forall n {:trigger RoundAt(start, rounds, n, limit, accepts)} :: 0 <= n < |rounds| ==> RoundAt(start, rounds, n, limit, accepts)
  }

  /** Everything offered to the store in the first `n` rounds. */
  function Taken(rounds: seq<Round>, n: nat): seq<Row>
    requires n <= |rounds|
  {
    if n == 0 then [] else Taken(rounds, n - 1) + rounds[n - 1].batch
  }

  lemma {:induction false} Separates(c: Cursor, x: Key, y: Key)
    requires !Beyond(c, x) && Beyond(c, y)
    ensures Before(x, y)
  {
    if c.After? {
      BeforeTotal(c.key, x);
      if c.key != x {
        BeforeTransitive(x, c.key, y);
      }
    }
  }

  lemma {:induction false} BatchFacts(c: Cursor, r: Round, limit: int, accepts: Verdict)
    requires limit > 0 && RoundFrom(c, r, limit, accepts)
    ensures Sorted(r.batch) && Reached(c, r.after)
    ensures forall row :: row in r.batch <==> row in r.page && !FromFuture(row, r.now) && accepts(row)
    ensures forall row :: row in r.batch ==> Selected(r.table, c, row) && !Beyond(r.after, KeyOf(row))
  {
    PageFacts(r.table, c, limit, r.page);
    OfferedFrom(r.page, |r.page|, r.now, accepts);
    assert r.page[..|r.page|] == r.page;
  }

  /** Whatever happens between the pages, what is offered is strictly ascending and lies
      between the start and where the cursor is. */
  lemma {:induction false} TakenAscends(start: Cursor, rounds: seq<Round>, limit: int, accepts: Verdict, n: nat)
    requires limit > 0 && Chain(start, rounds, limit, accepts) && n <= |rounds|
    ensures Sorted(Taken(rounds, n)) && Reached(start, CursorAt(start, rounds, n))
    ensures forall row :: row in Taken(rounds, n) ==> Beyond(start, KeyOf(row)) && !Beyond(CursorAt(start, rounds, n), KeyOf(row))
  {
    if n > 0 {
      TakenAscends(start, rounds, limit, accepts, n - 1);
      assert RoundAt(start, rounds, n - 1, limit, accepts);
      AppendBatch(start, Taken(rounds, n - 1), CursorAt(start, rounds, n - 1), rounds[n - 1], limit, accepts);
    }
  }

  lemma {:induction false} AppendBatch(start: Cursor, taken: seq<Row>, c: Cursor, r: Round, limit: int, accepts: Verdict)
    requires limit > 0 && RoundFrom(c, r, limit, accepts) && Sorted(taken) && Reached(start, c)
    requires forall row :: row in taken ==> Beyond(start, KeyOf(row)) && !Beyond(c, KeyOf(row))
    ensures Sorted(taken + r.batch) && Reached(start, r.after)
    ensures forall row :: row in taken + r.batch ==> Beyond(start, KeyOf(row)) && !Beyond(r.after, KeyOf(row))
  {
    BatchFacts(c, r, limit, accepts);
    forall x, y | x in taken && y in r.batch ensures Before(KeyOf(x), KeyOf(y)) {
      Separates(c, KeyOf(x), KeyOf(y));
    }
    JoinAscending(taken, r.batch);
    ReachedTransitive(start, c, r.after);
  }

  /** The cursor passes a row of the table only on a page that shows it, and then the
      row is not from the future. */
  lemma {:induction false} PassedIsShown(c: Cursor, r: Round, limit: int, accepts: Verdict, row: Row)
    requires limit > 0 && RoundFrom(c, r, limit, accepts) && Selected(r.table, c, row) && !Beyond(r.after, KeyOf(row))
    ensures row in r.page && !FromFuture(row, r.now)
  {
    PageFacts(r.table, c, limit, r.page);
    var i :| 0 <= i < |r.page| && r.after == After(KeyOf(r.page[i])) && !FromFuture(r.page[i], r.now);
    var k := KeyOf(r.page[i]);
    BeforeTotal(k, KeyOf(row));
    if row !in r.page {
      AfterFullPage(r.table, c, limit, r.page, row, i);
    }
  }

  lemma {:induction false} AfterFullPage(t: Table, c: Cursor, limit: int, page: seq<Row>, row: Row, i: nat)
    requires limit > 0 && IsPage(t, c, limit, page) && Selected(t, c, row) && row !in page && i < |page|
    ensures Before(KeyOf(page[i]), KeyOf(row))
  {
    PageFacts(t, c, limit, page);
    var last := page[limit - 1];
    if i < limit - 1 {
      BeforeTransitive(KeyOf(page[i]), KeyOf(last), KeyOf(row));
    }
  }

  /** In one round: a row of the table is offered exactly when it is acceptable and the
      cursor passes it. */
  lemma {:induction false} RoundTakes(c: Cursor, r: Round, limit: int, accepts: Verdict, row: Row)
    requires limit > 0 && RoundFrom(c, r, limit, accepts) && row.itemId in r.table && r.table[row.itemId] == row
    ensures row in r.batch <==> accepts(row) && Beyond(c, KeyOf(row)) && !Beyond(r.after, KeyOf(row))
    ensures Beyond(r.after, KeyOf(row)) ==> Beyond(c, KeyOf(row))
  {
    BatchFacts(c, r, limit, accepts);
    if Beyond(c, KeyOf(row)) && !Beyond(r.after, KeyOf(row)) {
      PassedIsShown(c, r, limit, accepts, row);
    }
  }

  /** The row is in the table whenever a page is read, and does not change. */
  ghost predicate Untouched(rounds: seq<Round>, row: Row) {
    forall i :: 0 <= i < |rounds| ==> row.itemId in rounds[i].table && rounds[i].table[row.itemId] == row
  }

  /** An untouched row has been offered if and only if it is acceptable and the cursor
      is past it; nothing is passed over, whatever the clock said. */
  lemma {:induction false} TakenIffPassed(start: Cursor, rounds: seq<Round>, limit: int, accepts: Verdict, n: nat, row: Row)
    requires limit > 0 && Chain(start, rounds, limit, accepts) && n <= |rounds| && Untouched(rounds, row) && Beyond(start, KeyOf(row))
    ensures row in Taken(rounds, n) <==> accepts(row) && !Beyond(CursorAt(start, rounds, n), KeyOf(row))
  {
    if n > 0 {
      TakenIffPassed(start, rounds, limit, accepts, n - 1, row);
      assert RoundAt(start, rounds, n - 1, limit, accepts);
      RoundTakes(CursorAt(start, rounds, n - 1), rounds[n - 1], limit, accepts, row);
    }
  }

  /** Over any series of pulls an untouched acceptable row is offered exactly once when
      the cursor is past it, and not at all before. */
  lemma {:induction false} OfferedExactlyOnce(start: Cursor, rounds: seq<Round>, limit: int, accepts: Verdict, row: Row)
    requires limit > 0 && Chain(start, rounds, limit, accepts) && Beyond(start, KeyOf(row))
    requires forall i :: 0 <= i < |rounds| ==> row.itemId in rounds[i].table && rounds[i].table[row.itemId] == row
    ensures multiset(Taken(rounds, |rounds|))[row] ==
            if accepts(row) && !Beyond(CursorAt(start, rounds, |rounds|), KeyOf(row)) then 1 else 0
  {
    var taken := Taken(rounds, |rounds|);
    TakenIffPassed(start, rounds, limit, accepts, |rounds|, row);
    TakenAscends(start, rounds, limit, accepts, |rounds|);
    if row in taken {
      var i :| 0 <= i < |taken| && taken[i] == row;
      OnceInAscending(taken, i);
    }
  }

  /** A later pull starts where the one before it stopped: together they are one chain. */
  lemma {:induction false} PullsJoin(start: Cursor, a: seq<Round>, b: seq<Round>, limit: int, accepts: Verdict)
    requires Chain(start, a, limit, accepts) && Chain(CursorAt(start, a, |a|), b, limit, accepts)
    ensures Chain(start, a + b, limit, accepts)
  {
    var both := a + b;
    forall n | 0 <= n < |both| ensures RoundAt(start, both, n, limit, accepts) {
      JoinedRound(start, a, b, n);
      if n < |a| {
        assert RoundAt(start, a, n, limit, accepts);
      } else {
        assert RoundAt(CursorAt(start, a, |a|), b, n - |a|, limit, accepts);
      }
    }
  }

  lemma {:induction false} JoinedRound(start: Cursor, a: seq<Round>, b: seq<Round>, n: nat)
    requires n < |a| + |b|
    ensures CursorAt(start, a + b, n) == if n < |a| then CursorAt(start, a, n) else CursorAt(CursorAt(start, a, |a|), b, n - |a|)
    ensures (a + b)[n] == if n < |a| then a[n] else b[n - |a|]
  {
  }

  // ----- one pull

  const PULL_PAGE_LIMIT: int := 100
  const MAX_PAGES_PER_PULL: nat := 50

  datatype Stop = CaughtUp | Stalled | Capped | Interrupted

  ghost predicate Full(r: Round) {
    |r.page| == PULL_PAGE_LIMIT
  }

  /** The page was full and moved the cursor, so that the pull goes on. */
  ghost predicate Continues(start: Cursor, rounds: seq<Round>, n: nat)
    requires n < |rounds|
  {
    Full(rounds[n]) && rounds[n].after != CursorAt(start, rounds, n)
  }

  /** Why a pull stopped after these rounds. */
  ghost predicate StoppedBy(start: Cursor, rounds: seq<Round>, stop: Stop) {
    var last := |rounds| - 1;
    match stop
    case CaughtUp => last >= 0 && |rounds[last].page| < PULL_PAGE_LIMIT
    case Stalled => last >= 0 && Full(rounds[last]) && rounds[last].after == CursorAt(start, rounds, last)
    case Capped => |rounds| == MAX_PAGES_PER_PULL && AllContinue(start, rounds)
    case Interrupted => AllContinue(start, rounds)
  }

  /** One request and the page that answers it. */
  method Request(table: Table, now: int, cursor: Cursor, accepts: Verdict) returns (r: Round)
    ensures RoundFrom(cursor, r, PULL_PAGE_LIMIT, accepts) && r.table == table && r.now == now
    ensures |r.page| <= PULL_PAGE_LIMIT
  {
    var listing := Listing(table, cursor);
    var page := Slice(listing, PULL_PAGE_LIMIT);
    PageFacts(table, cursor, PULL_PAGE_LIMIT, page);
    var batch, advanced := JudgePage(page, cursor, now, accepts);
    r := Round(table, now, page, batch, advanced);
  }

  /** The rounds answer the requests one by one. */
  ghost predicate Answers(rounds: seq<Round>, tables: seq<Table>, clocks: seq<int>) {
    && |rounds| <= |tables| == |clocks|
    && forall i :: 0 <= i < |rounds| ==> rounds[i].table == tables[i] && rounds[i].now == clocks[i]
  }

  lemma {:induction false} AnswersNext(rounds: seq<Round>, tables: seq<Table>, clocks: seq<int>, r: Round)
    requires Answers(rounds, tables, clocks) && |rounds| < |tables| && r.table == tables[|rounds|] && r.now == clocks[|rounds|]
    ensures Answers(rounds + [r], tables, clocks)
  {
  }

  ghost predicate AllContinue(start: Cursor, rounds: seq<Round>) {
    forall n {:trigger Continues(start, rounds, n)} :: 0 <= n < |rounds| ==> Continues(start, rounds, n)
  }

  lemma {:induction false} AllContinueNext(start: Cursor, rounds: seq<Round>, r: Round)
    requires AllContinue(start, rounds) && Full(r) && r.after != CursorAt(start, rounds, |rounds|)
    ensures AllContinue(start, rounds + [r])
  {
    forall n | 0 <= n < |rounds| + 1 ensures Continues(start, rounds + [r], n) {
      assert CursorAt(start, rounds + [r], n) == CursorAt(start, rounds, n);
      if n < |rounds| {
        assert Continues(start, rounds, n);
      }
    }
  }

  /** The rounds of one pull: `tables[i]` is what the `i`th request reads and `clocks[i]`
      the time at its arrival; when they run out the connection fails. */
  ghost predicate PullOf(tables: seq<Table>, clocks: seq<int>, start: Cursor, accepts: Verdict, stop: Stop, rounds: seq<Round>) {
    && Chain(start, rounds, PULL_PAGE_LIMIT, accepts) && |rounds| <= MAX_PAGES_PER_PULL && Answers(rounds, tables, clocks)
    && StoppedBy(start, rounds, stop) && (stop.Interrupted? ==> |rounds| == |tables| < MAX_PAGES_PER_PULL)
  }

  /** One pull. Pages arrive sorted. */
  method Pull(tables: seq<Table>, clocks: seq<int>, start: Cursor, accepts: Verdict)
      returns (taken: seq<Row>, cursor: Cursor, stop: Stop, rounds: seq<Round>)
    requires |clocks| == |tables|
    ensures PullOf(tables, clocks, start, accepts, stop, rounds)
    ensures taken == Taken(rounds, |rounds|) && cursor == CursorAt(start, rounds, |rounds|)
  {
    taken, cursor, rounds := [], start, [];
    for i := 0 to MAX_PAGES_PER_PULL
      invariant |rounds| == i && Answers(rounds, tables, clocks) && Chain(start, rounds, PULL_PAGE_LIMIT, accepts)
      invariant AllContinue(start, rounds)
      invariant taken == Taken(rounds, i) && cursor == CursorAt(start, rounds, i)
    {
      if i == |tables| {
        return taken, cursor, Interrupted, rounds;
      }
      var r := Request(tables[i], clocks[i], cursor, accepts);
      NextRound(start, rounds, PULL_PAGE_LIMIT, accepts, r);
      AnswersNext(rounds, tables, clocks, r);
      var longer := rounds + [r];
      taken := taken + r.batch;
      if |r.page| < PULL_PAGE_LIMIT {
        return taken, r.after, CaughtUp, longer;
      }
      if r.after == cursor {
        return taken, r.after, Stalled, longer;
      }
      AllContinueNext(start, rounds, r);
      rounds, cursor := longer, r.after;
    }
    stop := Capped;
  }

  lemma {:induction false} NextRound(start: Cursor, rounds: seq<Round>, limit: int, accepts: Verdict, r: Round)
    requires Chain(start, rounds, limit, accepts)
    requires RoundFrom(CursorAt(start, rounds, |rounds|), r, limit, accepts)
    ensures Chain(start, rounds + [r], limit, accepts) && Taken(rounds + [r], |rounds| + 1) == Taken(rounds, |rounds|) + r.batch
    ensures CursorAt(start, rounds + [r], |rounds|) == CursorAt(start, rounds, |rounds|) && CursorAt(start, rounds + [r], |rounds| + 1) == r.after
  {
    var longer := rounds + [r];
    TakenPrefix(rounds, r, |rounds|);
    forall n | 0 <= n < |longer| ensures RoundAt(start, longer, n, limit, accepts) {
      assert CursorAt(start, longer, n) == CursorAt(start, rounds, n);
      if n < |rounds| {
        assert RoundAt(start, rounds, n, limit, accepts);
      }
    }
  }

  lemma {:induction false} TakenPrefix(rounds: seq<Round>, r: Round, n: nat)
    requires n <= |rounds|
    ensures Taken(rounds + [r], n) == Taken(rounds, n)
  {
    if n > 0 {
      TakenPrefix(rounds, r, n - 1);
    }
  }

  /** Unless it was capped or interrupted, a pull has left no acceptable row of the last
      table behind that is stamped no later than the clock; once caught up, none but
      rows from the future. */
  lemma {:induction false} NothingLeft(start: Cursor, rounds: seq<Round>, accepts: Verdict, stop: Stop, row: Row)
    requires Chain(start, rounds, PULL_PAGE_LIMIT, accepts) && StoppedBy(start, rounds, stop) && (stop.CaughtUp? || stop.Stalled?)
    requires var r := rounds[|rounds| - 1]; Selected(r.table, CursorAt(start, rounds, |rounds|), row) && accepts(row)
    ensures var r := rounds[|rounds| - 1]; Stamp(row) > r.now && (stop.CaughtUp? ==> FromFuture(row, r.now))
  {
    var last := |rounds| - 1;
    var c, r := CursorAt(start, rounds, last), rounds[last];
    assert RoundAt(start, rounds, last, PULL_PAGE_LIMIT, accepts);
    PageFacts(r.table, c, PULL_PAGE_LIMIT, r.page);
    BatchFacts(c, r, PULL_PAGE_LIMIT, accepts);
    assert Selected(r.table, c, row);
    if stop.Stalled? && row !in r.page {
      var end := r.page[PULL_PAGE_LIMIT - 1];
      assert end in r.page && Before(KeyOf(end), KeyOf(row));
    }
  }

  /** When a pull has caught up, an acceptable row of its last page request is left behind
      if and only if it is stamped more than a day after the clock. */
  lemma {:induction false} LeftIffFuture(start: Cursor, rounds: seq<Round>, accepts: Verdict, row: Row)
    requires Chain(start, rounds, PULL_PAGE_LIMIT, accepts) && StoppedBy(start, rounds, CaughtUp)
    requires var n := |rounds| - 1; Selected(rounds[n].table, CursorAt(start, rounds, n), row) && accepts(row)
    ensures Beyond(CursorAt(start, rounds, |rounds|), KeyOf(row)) <==> KeyOf(row).createdAt - rounds[|rounds| - 1].now > 86_400_000
  {
    var n := |rounds| - 1;
    var c, r := CursorAt(start, rounds, n), rounds[n];
    assert RoundAt(start, rounds, n, PULL_PAGE_LIMIT, accepts);
    PageFacts(r.table, c, PULL_PAGE_LIMIT, r.page);
    BatchFacts(c, r, PULL_PAGE_LIMIT, accepts);
    RoundTakes(c, r, PULL_PAGE_LIMIT, accepts, row);
  }
}
