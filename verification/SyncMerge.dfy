/** crates/copypaste-p2p/src/sync/merge.rs and crates/copypaste-core/src/sync/prepare.rs:
    which version of an item survives, over whole histories of deliveries in any order. */
module SyncMerge {
  import opened Options

  import opened StringOrder

  /** A stored version; a tombstone has no content but keeps a hash. */
  datatype Version = Version(createdAt: int, hash: string, deleted: bool, origin: string, content: string)

  /** A version off the wire. Only a tombstone's own hash is taken from the sender, and
      a tombstone that went through the cloud has none. */
  datatype Incoming = Incoming(createdAt: int, claimed: Option<string>, deleted: bool, origin: string, content: string)

  type Hash = string -> string

  /** The comparator: the remote version survives. Ties keep the local one. */
  predicate TakeRemote(local: Version, remote: Version) {
    if remote.createdAt != local.createdAt then remote.createdAt > local.createdAt
    else if remote.hash != local.hash then Precedes(local.hash, remote.hash)
    else if remote.deleted != local.deleted then remote.deleted
    else Precedes(local.origin, remote.origin)
  }

  predicate SameKeys(a: Version, b: Version) {
    a.createdAt == b.createdAt && a.hash == b.hash && a.deleted == b.deleted && a.origin == b.origin
  }

  /** The comparator is a strict total order on the four keys: both sides of a session
      name the same survivor. */
  lemma {:induction false} TakeRemoteTotal(a: Version, b: Version)
    ensures SameKeys(a, b) || TakeRemote(a, b) || TakeRemote(b, a)
    ensures !(TakeRemote(a, b) && TakeRemote(b, a)) && (SameKeys(a, b) ==> !TakeRemote(a, b))
  {
    PrecedesTotal(a.hash, b.hash);
    PrecedesTotal(a.origin, b.origin);
  }

  lemma {:induction false} TakeRemoteTransitive(a: Version, b: Version, c: Version)
    requires TakeRemote(a, b) && TakeRemote(b, c)
    ensures TakeRemote(a, c)
  {
    if a.createdAt == b.createdAt == c.createdAt {
      PrecedesTotal(a.hash, b.hash);
      PrecedesTotal(b.hash, c.hash);
      PrecedesTotal(a.hash, c.hash);
      if a.hash != b.hash && b.hash != c.hash {
        PrecedesTransitive(a.hash, b.hash, c.hash);
        PrecedesTotal(a.hash, c.hash);
      } else if a.hash == b.hash == c.hash && a.deleted == b.deleted == c.deleted {
        PrecedesTransitive(a.origin, b.origin, c.origin);
      }
    }
  }

  /** Not worse than: at least as far in the order. */
  predicate Keeps(local: Version, remote: Version) {
    !TakeRemote(local, remote)
  }

  lemma {:induction false} KeepsTransitive(a: Version, b: Version, c: Version)
    requires Keeps(a, b) && Keeps(b, c)
    ensures Keeps(a, c)
  {
    if TakeRemote(a, c) {
      TakeRemoteTotal(b, c);
      TakeRemoteTotal(a, b);
      TakeRemoteTotal(a, c);
      if TakeRemote(c, b) {
        TakeRemoteTransitive(a, c, b);
      }
    }
  }

  // ----- one delivery

  /** A live version's hash is computed; a tombstone without one takes the local hash. */
  function Resolved(h: Hash, local: Option<Version>, x: Incoming): Version {
    var hash := if !x.deleted then h(x.content)
                else if x.claimed.Some? then x.claimed.value
                else if local.Some? then local.value.hash
                else "";
    Version(x.createdAt, hash, x.deleted, x.origin, if x.deleted then "" else x.content)
  }

  /** The stored version after a delivery. */
  function Applied(h: Hash, local: Option<Version>, x: Incoming): Version {
    var remote := Resolved(h, local, x);
    if local.Some? && !TakeRemote(local.value, remote) then local.value else remote
  }

  /** The stored version after the first `n` deliveries to a replica without the item. */
  function After(h: Hash, start: Option<Version>, xs: seq<Incoming>, n: nat): Option<Version>
    requires n <= |xs|
  {
    if n == 0 then start else Some(Applied(h, After(h, start, xs, n - 1), xs[n - 1]))
  }

  /** Its keys do not depend on where it is applied. */
  predicate Keyed(x: Incoming) {
    !x.deleted || x.claimed.Some?
  }

  /** `v` is `x` as some replica stored it: a live version with its content and the hash of
      that, a tombstone without content and with its own hash if it has one. */
  ghost predicate Stores(h: Hash, v: Version, x: Incoming) {
    && v.createdAt == x.createdAt && v.deleted == x.deleted && v.origin == x.origin
    && v.content == (if x.deleted then "" else x.content)
    && (!x.deleted ==> v.hash == h(x.content))
    && (x.deleted && x.claimed.Some? ==> v.hash == x.claimed.value)
  }

  /** What a run of deliveries has come to: the stored version is the initial one or a
      delivered one, and ranks with or above everything seen. */
  ghost predicate Covers(h: Hash, start: Option<Version>, xs: seq<Incoming>, n: nat, v: Version)
    requires n <= |xs|
  {
    && (start == Some(v) || exists i :: 0 <= i < n && Stores(h, v, xs[i]))
    && (start.Some? ==> Keeps(v, start.value))
    && forall i :: 0 <= i < n ==> Surpasses(h, v, xs[i])
  }

  ghost predicate Surpasses(h: Hash, v: Version, x: Incoming) {
    v.createdAt >= x.createdAt && (Keyed(x) ==> Keeps(v, Resolved(h, None, x)))
  }

  lemma {:induction false} SurpassesMore(h: Hash, v: Version, w: Version, x: Incoming)
    requires Keeps(w, v) && Surpasses(h, v, x)
    ensures Surpasses(h, w, x)
  {
    if Keyed(x) {
      KeepsTransitive(w, v, Resolved(h, None, x));
    }
  }

  lemma {:induction false} AppliedRanks(h: Hash, local: Option<Version>, x: Incoming)
    ensures var v := Applied(h, local, x);
            Surpasses(h, v, x) && (local.Some? ==> Keeps(v, local.value)) && (local == Some(v) || Stores(h, v, x))
  {
    var remote := Resolved(h, local, x);
    TakeRemoteTotal(remote, remote);
    if local.Some? {
      TakeRemoteTotal(local.value, remote);
      TakeRemoteTotal(local.value, local.value);
    }
  }

  lemma {:induction false} RunCovers(h: Hash, start: Option<Version>, xs: seq<Incoming>, n: nat)
    requires 0 < n <= |xs|
    ensures After(h, start, xs, n).Some? && Covers(h, start, xs, n, After(h, start, xs, n).value)
  {
    var local, x := After(h, start, xs, n - 1), xs[n - 1];
    var v := Applied(h, local, x);
    AppliedRanks(h, local, x);
    if n > 1 {
      RunCovers(h, start, xs, n - 1);
      forall i | 0 <= i < n - 1 ensures Surpasses(h, v, xs[i]) {
        SurpassesMore(h, local.value, v, xs[i]);
      }
      if start.Some? {
        KeepsTransitive(v, local.value, start.value);
      }
    }
  }

  // ----- replicas

  /** The same versions, in any order and any number of times. */
  ghost predicate SameDeliveries(xs: seq<Incoming>, ys: seq<Incoming>) {
    forall x :: x in xs <==> x in ys
  }

  ghost function Final(h: Hash, xs: seq<Incoming>): Version
    requires xs != []
  {
    RunCovers(h, None, xs, |xs|);
    After(h, None, xs, |xs|).value
  }

  /** A content hash: never empty, and telling the delivered contents apart. */
  ghost predicate Digests(h: Hash, xs: seq<Incoming>) {
    && (forall x :: x in xs ==> h(x.content) != "")
    && (forall x, y :: x in xs && y in xs && h(x.content) == h(y.content) ==> x.content == y.content)
  }

  /** The final version is a delivered one and surpasses them all. */
  lemma {:induction false} FinalIsDelivered(h: Hash, xs: seq<Incoming>) returns (x: Incoming)
    requires xs != []
    ensures x in xs && Stores(h, Final(h, xs), x)
    ensures forall y :: y in xs ==> Surpasses(h, Final(h, xs), y)
  {
    RunCovers(h, None, xs, |xs|);
    var i :| 0 <= i < |xs| && Stores(h, Final(h, xs), xs[i]);
    x := xs[i];
  }

  /** A hash some delivered version came with, or none. */
  ghost predicate Delivered(h: Hash, xs: seq<Incoming>, hash: string) {
    hash == "" || exists x :: x in xs && (if x.deleted then x.claimed == Some(hash) else h(x.content) == hash)
  }

  lemma {:induction false} HashDelivered(h: Hash, xs: seq<Incoming>, n: nat)
    requires 0 < n <= |xs|
    ensures After(h, None, xs, n).Some? && Delivered(h, xs, After(h, None, xs, n).value.hash)
  {
    assert xs[n - 1] in xs;
    if n > 1 {
      HashDelivered(h, xs, n - 1);
    }
  }

  /** What a replica ends up with: a live version exactly as delivered, under the hash of
      its content; or a tombstone as delivered, without content, under its own hash, or
      else under none or that of another delivered version. */
  lemma {:induction false} FinalHolds(h: Hash, xs: seq<Incoming>)
    requires xs != []
    ensures var v := Final(h, xs);
            if v.deleted then
              && Delivered(h, xs, v.hash)
              && exists x :: x in xs && x.deleted && v == Version(x.createdAt, v.hash, true, x.origin, "") && (x.claimed.Some? ==> v.hash == x.claimed.value)
            else exists x :: x in xs && !x.deleted && v == Version(x.createdAt, h(x.content), false, x.origin, x.content)
  {
    var x := FinalIsDelivered(h, xs);
    HashDelivered(h, xs, |xs|);
  }

  /** The survivor ranks highest: by time, then by hash, then deleted before live, then by
      origin; among all versions that were delivered with their keys. */
  lemma {:induction false} FinalRanks(h: Hash, xs: seq<Incoming>, x: Incoming)
    requires xs != [] && x in xs && Keyed(x)
    ensures var v, hash := Final(h, xs), if x.deleted then x.claimed.value else h(x.content);
            && x.createdAt <= v.createdAt
            && (x.createdAt == v.createdAt ==> hash == v.hash || Precedes(hash, v.hash))
            && (x.createdAt == v.createdAt && hash == v.hash && x.deleted ==> v.deleted)
            && (x.createdAt == v.createdAt && hash == v.hash && x.deleted == v.deleted ==> x.origin == v.origin || Precedes(x.origin, v.origin))
  {
    var w := FinalIsDelivered(h, xs);
    var v := Final(h, xs);
    assert Surpasses(h, v, x);
    PrecedesTotal(v.hash, Resolved(h, None, x).hash);
    PrecedesTotal(v.origin, x.origin);
  }

  lemma {:induction false} SameKeysSameVersion(h: Hash, xs: seq<Incoming>, x: Incoming, y: Incoming)
    requires Digests(h, xs) && x in xs && y in xs && Keyed(x) && Keyed(y)
    requires Keeps(Resolved(h, None, x), Resolved(h, None, y)) && Keeps(Resolved(h, None, y), Resolved(h, None, x))
    ensures Resolved(h, None, x) == Resolved(h, None, y)
  {
    TakeRemoteTotal(Resolved(h, None, x), Resolved(h, None, y));
  }

  /** Peers exchange versions with all their keys: replicas that received the same
      versions hold the same version, whatever the order and the repetitions. */
  lemma {:induction false} PeersConverge(h: Hash, xs: seq<Incoming>, ys: seq<Incoming>)
    requires xs != [] && ys != [] && SameDeliveries(xs, ys) && Digests(h, xs) && forall x :: x in xs ==> Keyed(x)
    ensures Final(h, xs) == Final(h, ys)
  {
    var x := FinalIsDelivered(h, xs);
    var y := FinalIsDelivered(h, ys);
    SameKeysSameVersion(h, xs, x, y);
  }

  // ----- tombstones without a hash

  /** What a user sees: the same live version, or gone since the same time. */
  predicate Agree(v: Version, w: Version) {
    v.createdAt == w.createdAt && v.deleted == w.deleted && (!v.deleted ==> v == w)
  }

  ghost predicate Latest(xs: seq<Incoming>, stamp: int) {
    forall x :: x in xs ==> x.createdAt <= stamp
  }

  /** The live version `m` carries the latest stamp and ranks first among the versions
      of that stamp that have all their keys. */
  ghost predicate Leads(h: Hash, xs: seq<Incoming>, m: Incoming) {
    && m in xs && !m.deleted && Latest(xs, m.createdAt)
    && forall x :: x in xs && Keyed(x) && x.createdAt == m.createdAt ==> Keeps(Resolved(h, None, m), Resolved(h, None, x))
  }

  /** The latest stamp is shared by a leading live version and a hashless tombstone. */
  ghost predicate Contested(h: Hash, xs: seq<Incoming>) {
    exists m, t :: Leads(h, xs, m) && t in xs && !Keyed(t) && t.createdAt == m.createdAt
  }

  lemma {:induction false} UncontestedAgree(h: Hash, xs: seq<Incoming>, ys: seq<Incoming>)
    requires xs != [] && ys != [] && SameDeliveries(xs, ys) && Digests(h, xs) && !Contested(h, xs)
    ensures Agree(Final(h, xs), Final(h, ys))
  {
    var x := FinalIsDelivered(h, xs);
    var y := FinalIsDelivered(h, ys);
    assert x in ys && y in xs;
    if !x.deleted {
      LiveLeads(h, xs, Final(h, xs), x, y);
      SameKeysSameVersion(h, xs, x, y);
    } else if !y.deleted {
      LiveLeads(h, xs, Final(h, ys), y, x);
      SameKeysSameVersion(h, xs, x, y);
    }
  }

  /** Where nothing is contested, nothing hashless shares the stamp of a live survivor. */
  lemma {:induction false} LiveLeads(h: Hash, xs: seq<Incoming>, v: Version, x: Incoming, y: Incoming)
    requires !Contested(h, xs) && x in xs && Stores(h, v, x) && !x.deleted && y in xs && y.createdAt >= x.createdAt
    requires forall z :: z in xs ==> Surpasses(h, v, z)
    ensures Keyed(y)
  {
    assert Latest(xs, x.createdAt);
    assert Leads(h, xs, x);
    assert Surpasses(h, v, y);
  }

  /** The hashless tombstones of one stamp, and everything else. */
  ghost function Hashless(xs: seq<Incoming>, stamp: int): seq<Incoming> {
    if xs == [] then []
    else (if !Keyed(xs[0]) && xs[0].createdAt == stamp then [xs[0]] else []) + Hashless(xs[1..], stamp)
  }

  ghost function Others(xs: seq<Incoming>, stamp: int): seq<Incoming> {
    if xs == [] then []
    else (if !Keyed(xs[0]) && xs[0].createdAt == stamp then [] else [xs[0]]) + Others(xs[1..], stamp)
  }

  lemma {:induction false} Partition(xs: seq<Incoming>, stamp: int, x: Incoming)
    ensures x in Hashless(xs, stamp) <==> x in xs && !Keyed(x) && x.createdAt == stamp
    ensures x in Others(xs, stamp) <==> x in xs && (Keyed(x) || x.createdAt != stamp)
  {
    if xs != [] {
      Partition(xs[1..], stamp, x);
      assert x in xs <==> x == xs[0] || x in xs[1..];
    }
  }

  lemma {:induction false} AfterJoined(h: Hash, start: Option<Version>, xs: seq<Incoming>, ys: seq<Incoming>, n: nat)
    requires n <= |ys|
    ensures After(h, start, xs + ys, |xs| + n) == After(h, After(h, start, xs, |xs|), ys, n)
    decreases n
  {
    if n > 0 {
      AfterJoined(h, start, xs, ys, n - 1);
    } else {
      AfterPrefix(h, start, xs, ys, |xs|);
    }
  }

  lemma {:induction false} AfterPrefix(h: Hash, start: Option<Version>, xs: seq<Incoming>, ys: seq<Incoming>, n: nat)
    requires n <= |xs|
    ensures After(h, start, xs + ys, n) == After(h, start, xs, n)
  {
    if n > 0 {
      AfterPrefix(h, start, xs, ys, n - 1);
    }
  }

  /** Hashless tombstones that arrive first are stored with no hash at all. */
  lemma {:induction false} FirstWithoutHash(h: Hash, ts: seq<Incoming>, stamp: int, n: nat)
    requires 0 < n <= |ts| && forall t :: t in ts ==> !Keyed(t) && t.createdAt == stamp
    ensures var v := After(h, None, ts, n); v.Some? && v.value.hash == "" && v.value.createdAt == stamp
  {
    assert ts[n - 1] in ts;
    if n > 1 {
      FirstWithoutHash(h, ts, stamp, n - 1);
    }
  }

  /** Hashless tombstones that arrive last take the hash of what they delete, and win. */
  lemma {:induction false} LastDeletes(h: Hash, start: Version, ts: seq<Incoming>, n: nat)
    requires 0 < n <= |ts| && forall t :: t in ts ==> !Keyed(t) && t.createdAt == start.createdAt
    ensures var v := After(h, Some(start), ts, n); v.Some? && v.value.deleted
  {
    assert ts[n - 1] in ts;
    if n > 1 {
      LastDeletes(h, start, ts, n - 1);
    }
  }

  /** The leading version prevails over everything but hashless tombstones. */
  lemma {:induction false} LeaderPrevails(h: Hash, xs: seq<Incoming>, m: Incoming, start: Option<Version>, rest: seq<Incoming>)
    requires Leads(h, xs, m) && m in rest && h(m.content) != ""
    requires forall x :: x in rest ==> x in xs && (Keyed(x) || x.createdAt != m.createdAt)
    requires start.Some? ==> start.value.hash == "" && start.value.createdAt == m.createdAt
    ensures var v := After(h, start, rest, |rest|); v.Some? && SameKeys(v.value, Resolved(h, None, m))
  {
    RunCovers(h, start, rest, |rest|);
    var v := After(h, start, rest, |rest|).value;
    assert Surpasses(h, v, m);
    if start == Some(v) {
      assert Precedes("", h(m.content));
    } else {
      var i :| 0 <= i < |rest| && Stores(h, v, rest[i]);
      assert rest[i] in rest;
      TakeRemoteTotal(v, Resolved(h, None, m));
    }
  }

  ghost predicate Parts(xs: seq<Incoming>, stamp: int, ts: seq<Incoming>, rest: seq<Incoming>) {
    && ts != [] && (forall x :: x in ts <==> x in xs && !Keyed(x) && x.createdAt == stamp)
    && (forall x :: x in rest <==> x in xs && (Keyed(x) || x.createdAt != stamp))
  }

  lemma {:induction false} TombstoneFirst(h: Hash, xs: seq<Incoming>, m: Incoming, ts: seq<Incoming>, rest: seq<Incoming>)
    requires Leads(h, xs, m) && h(m.content) != "" && Parts(xs, m.createdAt, ts, rest)
    ensures !Final(h, ts + rest).deleted
  {
    FirstWithoutHash(h, ts, m.createdAt, |ts|);
    var first := After(h, None, ts, |ts|);
    LeaderPrevails(h, xs, m, first, rest);
    AfterJoined(h, None, ts, rest, |rest|);
    assert After(h, None, ts + rest, |ts + rest|) == After(h, first, rest, |rest|);
  }

  lemma {:induction false} TombstoneLast(h: Hash, xs: seq<Incoming>, m: Incoming, ts: seq<Incoming>, rest: seq<Incoming>)
    requires Leads(h, xs, m) && h(m.content) != "" && Parts(xs, m.createdAt, ts, rest)
    ensures rest + ts != [] && Final(h, rest + ts).deleted
  {
    AfterJoined(h, None, rest, ts, |ts|);
    LeaderPrevails(h, xs, m, None, rest);
    LastDeletes(h, After(h, None, rest, |rest|).value, ts, |ts|);
  }

  /** Contested deliveries end differently: the item is back when its tombstone came
      first, and gone when it came last. */
  lemma {:induction false} ContestedDiffers(h: Hash, xs: seq<Incoming>) returns (back: seq<Incoming>, gone: seq<Incoming>)
    requires Contested(h, xs) && Digests(h, xs)
    ensures back != [] && gone != [] && SameDeliveries(back, xs) && SameDeliveries(gone, xs)
    ensures !Final(h, back).deleted && Final(h, gone).deleted
  {
    var m, t :| Leads(h, xs, m) && t in xs && !Keyed(t) && t.createdAt == m.createdAt;
    var ts, rest := Hashless(xs, m.createdAt), Others(xs, m.createdAt);
    forall x: Incoming
      ensures x in ts <==> x in xs && !Keyed(x) && x.createdAt == m.createdAt
      ensures x in rest <==> x in xs && (Keyed(x) || x.createdAt != m.createdAt)
    {
      Partition(xs, m.createdAt, x);
    }
    assert t in ts;
    back, gone := ts + rest, rest + ts;
    TombstoneFirst(h, xs, m, ts, rest);
    TombstoneLast(h, xs, m, ts, rest);
  }

  /** Replicas agree after every order of delivery, on the same live version or on being
      gone since the same time, exactly when nothing is contested. */
  lemma {:induction false} AgreementIff(h: Hash, xs: seq<Incoming>)
    requires xs != [] && Digests(h, xs)
    ensures (forall ys, zs :: ys != [] && zs != [] && SameDeliveries(ys, xs) && SameDeliveries(zs, xs) ==>
               var v, w := Final(h, ys), Final(h, zs);
               v.createdAt == w.createdAt && v.deleted == w.deleted && (!v.deleted ==> v == w))
            <==> !Contested(h, xs)
  {
    if Contested(h, xs) {
      var back, gone := ContestedDiffers(h, xs);
      assert !Agree(Final(h, back), Final(h, gone));
    } else {
      forall ys, zs | ys != [] && zs != [] && SameDeliveries(ys, xs) && SameDeliveries(zs, xs) ensures Agree(Final(h, ys), Final(h, zs)) {
        UncontestedAgree(h, xs, ys);
        UncontestedAgree(h, xs, zs);
      }
    }
  }
}
