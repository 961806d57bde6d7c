/** scripts/release/linux-wayland-geometry-broker.c, `method_call`: the window geometry
    cache. Texts are byte strings; that they are valid UTF-8 is the bus's own guarantee. */
module GeometryBroker {
  import opened Options

  import opened RectangleText

  type Id = string

  datatype Record = Record(pid: nat, title: string, frame: Rect, buffer: Rect, stacking: int)
  const MAX_RECORDS: nat := 128

  predicate ValidText(s: string, maximum: nat) {
    0 < |s| <= maximum
  }

  /** A report as called, with the two rectangles still in printed form. */
  datatype Report = Report(pid: int, title: string, id: Id, frame: string, buffer: string)

  /** The record a well-formed report describes. */
  function Described(r: Report): Option<Record> {
    var frame, buffer := RectOf(r.frame), RectOf(r.buffer);
    if r.pid < 2 || !ValidText(r.title, 256) || !ValidText(r.id, 128) || frame.None? || buffer.None? || frame.value.1 != buffer.value.1
    then None
    else Some(Record(r.pid, r.title, frame.value.0, buffer.value.0, frame.value.1))
  }

  /** A well-formed report comes from a process other than the first, names a window within
      the limits, and prints two drawable rectangles at one stacking position. */
  lemma {:induction false} DescribedIff(r: Report, x: Record)
    ensures Described(r) == Some(x) <==>
              && 2 <= r.pid == x.pid && 0 < |r.title| <= 256 && r.title == x.title && 0 < |r.id| <= 128
              && RectOf(r.frame) == Some((x.frame, x.stacking)) && RectOf(r.buffer) == Some((x.buffer, x.stacking))
  {
  }

  /** What every cached record satisfies: it can be asked about, and its rectangles are
      in range. */
  predicate Sane(id: Id, r: Record) {
    && ValidText(id, 128) && r.pid >= 2 && ValidText(r.title, 256)
    && Drawable(r.frame, r.stacking) && Drawable(r.buffer, r.stacking)
  }

  /** Accepted changes, in order. */
  datatype Change = Reported(id: Id, record: Record) | Removed(id: Id)

  /** What the last change to `id` among the first `n` left there. */
  ghost function Latest(changes: seq<Change>, n: nat, id: Id): Option<Record>
    requires n <= |changes|
  {
    if n == 0 then None
    else if changes[n - 1].id != id then Latest(changes, n - 1, id)
    else if changes[n - 1].Reported? then Some(changes[n - 1].record)
    else None
  }

  ghost predicate Replays(records: map<Id, Record>, changes: seq<Change>) {
    forall id :: Latest(changes, |changes|, id) == if id in records then Some(records[id]) else None
  }

  lemma {:induction false} LatestKept(changes: seq<Change>, c: Change, n: nat, id: Id)
    requires n <= |changes|
    ensures Latest(changes + [c], n, id) == Latest(changes, n, id)
    decreases n
  {
    if n > 0 {
      LatestKept(changes, c, n - 1, id);
    }
  }

  lemma {:induction false} ReplaysNext(records: map<Id, Record>, changes: seq<Change>, c: Change)
    requires Replays(records, changes)
    ensures Replays(if c.Reported? then records[c.id := c.record] else records - {c.id}, changes + [c])
  {
    forall id: Id ensures Latest(changes + [c], |changes|, id) == Latest(changes, |changes|, id) {
      LatestKept(changes, c, |changes|, id);
    }
  }

  // ----- questions about a set of records

  predicate Covers(r: Record, x: int, y: int) {
    r.buffer.x <= x < r.buffer.x + r.buffer.width && r.buffer.y <= y < r.buffer.y + r.buffer.height
  }

  predicate Named(r: Record, pid: nat, title: string) {
    r.pid == pid && r.title == title
  }

  ghost predicate UniqueNames(records: map<Id, Record>) {
    forall a, b :: a in records && b in records && Named(records[a], records[b].pid, records[b].title) ==> a == b
  }

  /** Nothing that covers the point lies above `id`, which covers it itself. */
  ghost predicate Topmost(records: map<Id, Record>, id: Id, x: int, y: int) {
    && id in records && Covers(records[id], x, y)
    && forall other :: other in records && Covers(records[other], x, y) ==> records[other].stacking <= records[id].stacking
  }

  /** A window covers the points at an offset smaller than its size: the first corner
      belongs to it, and the edges at its full width and height do not. */
  lemma {:induction false} CoversOffsets(r: Record, x: int, y: int)
    ensures Covers(r, x, y) <==> exists dx: nat, dy: nat :: InWindow(r.buffer, x, y, dx, dy)
    ensures Covers(r, r.buffer.x, r.buffer.y) <==> r.buffer.width > 0 && r.buffer.height > 0
    ensures !Covers(r, r.buffer.x + r.buffer.width, y) && !Covers(r, x, r.buffer.y + r.buffer.height)
  {
    if Covers(r, x, y) {
      assert InWindow(r.buffer, x, y, x - r.buffer.x, y - r.buffer.y);
    }
  }

  ghost predicate InWindow(b: Rect, x: int, y: int, dx: nat, dy: nat) {
    dx < b.width && dy < b.height && x == b.x + dx && y == b.y + dy
  }

  datatype Match = Nobody | Only(id: Id) | Several

  ghost predicate IsMatch(records: map<Id, Record>, pid: nat, title: string, m: Match) {
    match m
    case Nobody => forall id :: id in records ==> !Named(records[id], pid, title)
    case Only(id) => id in records && Named(records[id], pid, title) && forall other :: other in records && Named(records[other], pid, title) ==> other == id
    case Several => exists a, b :: a in records && b in records && a != b && Named(records[a], pid, title) && Named(records[b], pid, title)
  }

  datatype Answer<T> = Invalid | Ambiguous | Unavailable | Answer(value: T)

  class Broker {
    var records: map<Id, Record>
    ghost var changes: seq<Change>

    ghost predicate Valid()
      reads this
    {
      Replays(records, changes) && |records| <= MAX_RECORDS && forall id :: id in records ==> Sane(id, records[id])
    }

    constructor ()
      ensures Valid() && records == map[] && changes == []
    {
      records, changes := map[], [];
    }

    /** Accepted exactly when trusted, well-formed and within the limit; otherwise
        nothing changes. */
    method Report(trusted: bool, r: Report) returns (ok: bool)
      requires Valid()
      modifies this
      ensures Valid()
      ensures ok <==> trusted && Described(r).Some? && (r.id in old(records) || |old(records)| < 128)
      ensures changes == old(changes) + if ok then [Reported(r.id, Described(r).value)] else []
      ensures records == if ok then old(records)[r.id := Described(r).value] else old(records)
    {
      if !trusted {
        return false;
      }
      var frame := ParseRect(r.frame);
      var buffer := ParseRect(r.buffer);
      if r.pid < 2 || !ValidText(r.title, 256) || !ValidText(r.id, 128) || frame.None? || buffer.None? || frame.value.1 != buffer.value.1 {
        return false;
      }
      if r.id !in records && |records| >= MAX_RECORDS {
        return false;
      }
      var record := Record(r.pid, r.title, frame.value.0, buffer.value.0, frame.value.1);
      ReplaysNext(records, changes, Reported(r.id, record));
      records := records[r.id := record];
      changes := changes + [Reported(r.id, record)];
      return true;
    }

    method Remove(trusted: bool, id: Id) returns (ok: bool)
      requires Valid()
      modifies this
      ensures Valid()
      ensures ok <==> trusted && 0 < |id| <= 128
      ensures changes == old(changes) + if ok then [Removed(id)] else []
      ensures records == if ok then old(records) - {id} else old(records)
    {
      if !trusted || !ValidText(id, 128) {
        return false;
      }
      ReplaysNext(records, changes, Removed(id));
      assert (records - {id}).Keys <= records.Keys;
      SmallerMap((records - {id}).Keys, records.Keys);
      records := records - {id};
      changes := changes + [Removed(id)];
      return true;
    }

    /** The scan both questions share, in whatever order the table is iterated. */
    method Find(pid: nat, title: string) returns (m: Match)
      ensures IsMatch(records, pid, title, m)
    {
      m := Nobody;
      var rest := records.Keys;
      while rest != {}
        invariant rest <= records.Keys
        invariant m.Nobody? ==> forall id :: id in records && id !in rest ==> !Named(records[id], pid, title)
        invariant m.Only? ==> m.id in records && m.id !in rest && Named(records[m.id], pid, title)
                              && forall id :: id in records && id !in rest && Named(records[id], pid, title) ==> id == m.id
        invariant !m.Several?
      {
        var id :| id in rest;
        rest := rest - {id};
        if Named(records[id], pid, title) {
          if m.Only? {
            return Several;
          }
          m := Only(id);
        }
      }
    }

    method Lookup(pid: nat, title: string) returns (r: Answer<Record>)
      ensures r.Invalid? <==> pid < 2 || title == "" || |title| > 256
      ensures r.Ambiguous? <==> !r.Invalid? && IsMatch(records, pid, title, Several)
      ensures r.Unavailable? <==> !r.Invalid? && IsMatch(records, pid, title, Nobody)
      ensures r.Answer? ==> exists id :: id in records && IsMatch(records, pid, title, Only(id)) && r.value == records[id]
      ensures r.Answer? ==> r.value.pid == pid && r.value.title == title
      ensures r.Unavailable? ==> forall id :: id in records && records[id].pid == pid ==> records[id].title != title
    {
      if pid < 2 || !ValidText(title, 256) {
        return Invalid;
      }
      var m := Find(pid, title);
      match m
      case Nobody => return Unavailable;
      case Several => return Ambiguous;
      case Only(id) =>
        assert IsMatch(records, pid, title, Only(id));
        return Answer(records[id]);
    }

    /** True exactly for the one window of that name, when it is topmost at the point. */
    method PointBelongsTo(pid: nat, title: string, x: int, y: int) returns (r: Answer<bool>)
      ensures r.Invalid? <==> pid < 2 || title == "" || |title| > 256
      ensures r.Ambiguous? <==> !r.Invalid? && IsMatch(records, pid, title, Several)
      ensures !r.Unavailable?
      ensures r.Answer? ==> (r.value <==> exists id :: IsMatch(records, pid, title, Only(id)) && Topmost(records, id, x, y))
      ensures r.Answer? && r.value ==> exists id, dx: nat, dy: nat :: id in records && records[id].pid == pid && records[id].title == title
                                                                       && InWindow(records[id].buffer, x, y, dx, dy)
    {
      if pid < 2 || !ValidText(title, 256) {
        return Invalid;
      }
      var m := Find(pid, title);
      if m.Several? {
        return Ambiguous;
      }
      if m.Nobody? || !Covers(records[m.id], x, y) {
        return Answer(false);
      }
      var rest := records.Keys;
      while rest != {}
        invariant rest <= records.Keys
        invariant forall id :: id in records && id !in rest && Covers(records[id], x, y) ==> records[id].stacking <= records[m.id].stacking
      {
        var id :| id in rest;
        rest := rest - {id};
        if id != m.id && records[id].stacking > records[m.id].stacking && Covers(records[id], x, y) {
          assert !Topmost(records, m.id, x, y);
          return Answer(false);
        }
      }
      assert Topmost(records, m.id, x, y);
      CoversOffsets(records[m.id], x, y);
      return Answer(true);
    }
  }

  lemma {:induction false} SmallerMap(a: set<Id>, b: set<Id>)
    requires a <= b
    ensures |a| <= |b|
  {
    assert b == a + (b - a);
  }

  // ----- who owns a covered point

  /** A covered point has a topmost window. */
  lemma {:induction false} CoveredHasTopmost(records: map<Id, Record>, x: int, y: int, among: set<Id>) returns (top: Id)
    requires among <= records.Keys && exists id :: id in among && Covers(records[id], x, y)
    ensures top in among && Covers(records[top], x, y)
    ensures forall id :: id in among && Covers(records[id], x, y) ==> records[id].stacking <= records[top].stacking
    decreases among
  {
    var id :| id in among && Covers(records[id], x, y);
    var rest := among - {id};
    if exists other :: other in rest && Covers(records[other], x, y) {
      top := CoveredHasTopmost(records, x, y, rest);
      if records[top].stacking < records[id].stacking {
        top := id;
      }
    } else {
      top := id;
    }
  }

  ghost predicate Covered(records: map<Id, Record>, x: int, y: int) {
    exists id :: id in records && Covers(records[id], x, y)
  }

  /** No two windows that cover the point share a stacking position. */
  ghost predicate NoTie(records: map<Id, Record>, x: int, y: int) {
    forall a, b :: a in records && b in records && Covers(records[a], x, y) && Covers(records[b], x, y) ==>
                     records[a].stacking == records[b].stacking ==> a == b
  }

  /** `PointBelongsTo` answers true for the name of this window. */
  ghost predicate Owns(records: map<Id, Record>, id: Id, x: int, y: int) {
    id in records && IsMatch(records, records[id].pid, records[id].title, Only(id)) && Topmost(records, id, x, y)
  }

  /** With unique names and distinct stacking positions, a point has exactly one owner
      when it is covered and none otherwise. */
  lemma {:induction false} ExactlyOneOwner(records: map<Id, Record>, x: int, y: int)
    requires UniqueNames(records) && NoTie(records, x, y)
    ensures Covered(records, x, y) <==> exists id :: Owns(records, id, x, y)
    ensures forall a, b :: Owns(records, a, x, y) && Owns(records, b, x, y) ==> a == b
  {
    if Covered(records, x, y) {
      var top := CoveredHasTopmost(records, x, y, records.Keys);
      assert Owns(records, top, x, y);
    }
  }

  /** Two owners can only be tied at the top, and such a tie makes two owners. */
  lemma {:induction false} OwnersTie(records: map<Id, Record>, a: Id, b: Id, x: int, y: int)
    requires UniqueNames(records) && Owns(records, a, x, y) && b in records && Covers(records[b], x, y)
    ensures Owns(records, b, x, y) <==> records[b].stacking == records[a].stacking
  {
    assert Topmost(records, b, x, y) <==> records[b].stacking == records[a].stacking;
  }
}
