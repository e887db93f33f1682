/** The shared `Location` cell: written by the ingestion loop, read by the display loop.
    Each lock-guarded block of the source is one atomic transition here. */
module LocationCell {
  import opened Values

  /** One (latitude, longitude, altitude) triple. */
  datatype Reading = Reading(latitude: Float32, longitude: Float32, altitude: Float32)

  /** The `Location` struct: the latest reading and the flag telling whether any reading arrived. */
  datatype Location = Location(latitude: Float32, longitude: Float32, altitude: Float32, updated: bool)

  /** A snapshot: what one read of the cell copies out under the lock: latitude, longitude, altitude, updated. */
  type View = (Float32, Float32, Float32, bool)

  /** The cell before any request: all readings 0.0f, flag down. */
  const Initial: Location := Location(PositiveZero, PositiveZero, PositiveZero, false)

  /** The reading a location currently holds. */
  function ReadingOf(loc: Location): Reading {
    Reading(loc.latitude, loc.longitude, loc.altitude)
  }

  /** The reading carried by a snapshot. */
  function SnapshotReading(s: View): Reading {
    Reading(s.0, s.1, s.2)
  }

  /** The server's locked block: all three readings are overwritten together
      and the flag is raised. Nothing of the previous state survives. */
  function Publish(loc: Location, r: Reading): (loc': Location)
    ensures loc'.updated
    ensures ReadingOf(loc') == r
  {
    Location(r.latitude, r.longitude, r.altitude, true)
  }

  /** The display loop's locked block: all four fields copied out together. */
  function Snapshot(loc: Location): (s: View)
    ensures SnapshotReading(s) == ReadingOf(loc) && s.3 == loc.updated
  {
    (loc.latitude, loc.longitude, loc.altitude, loc.updated)
  }

  /** A snapshot loses nothing: two cells with the same snapshot are the same cell. */
  lemma SnapshotInjective(a: Location, b: Location)
    requires Snapshot(a) == Snapshot(b)
    ensures a == b
  {
  }

  /** Reading the cell right after a publish returns exactly the published reading, flag up. */
  lemma SnapshotAfterPublish(loc: Location, r: Reading)
    ensures Snapshot(Publish(loc, r)) == (r.latitude, r.longitude, r.altitude, true)
  {
  }

  /** Whole-record replacement: the state after a publish does not depend on
      the state before it, so a second publish erases every trace of the first. */
  lemma PublishOverwrites(a: Location, b: Location, r: Reading)
    ensures Publish(a, r) == Publish(b, r)
    ensures Publish(Publish(a, r), r) == Publish(a, r)
  {
  }

  /** The initial snapshot is (0, 0, 0, false). */
  lemma InitialSnapshot()
    ensures Snapshot(Initial) == (PositiveZero, PositiveZero, PositiveZero, false)
  {
  }

  /** One atomic operation on the cell, from either thread. */
  datatype CellOp = PublishOp(reading: Reading) | SnapshotOp

  /** The readings published by a sequence of operations. */
  function Published(ops: seq<CellOp>): set<Reading>
    decreases |ops|
  {
    if ops == [] then {}
    else (if ops[0].PublishOp? then {ops[0].reading} else {}) + Published(ops[1..])
  }

  /** The reading of the last publish in `ops`, if there is one. */
  function LastPublished(ops: seq<CellOp>): Option<Reading>
    decreases |ops|
  {
    if ops == [] then None
    else if ops[|ops| - 1].PublishOp? then Some(ops[|ops| - 1].reading)
    else LastPublished(ops[..|ops| - 1])
  }

  /** The number of snapshots in a sequence of operations. */
  function SnapshotCount(ops: seq<CellOp>): nat
    decreases |ops|
  {
    if ops == [] then 0
    else (if ops[0].SnapshotOp? then 1 else 0) + SnapshotCount(ops[1..])
  }

  /** The publishes of an interleaving, in order, with the snapshots dropped. */
  function PublishesIn(ops: seq<CellOp>): (r: seq<CellOp>)
    decreases |ops|
    ensures |r| <= |ops|
    ensures forall op :: op in r ==> op.PublishOp? && op in ops
  {
    if ops == [] then []
    else (if ops[0].PublishOp? then [ops[0]] else []) + PublishesIn(ops[1..])
  }

  /** A snapshot is whole when it is the starting state's snapshot or carries,
      flag up, one reading that some publish wrote in full. */
  predicate Whole(s: View, start: Location, ops: seq<CellOp>) {
    s == Snapshot(start) || (s.3 && SnapshotReading(s) in Published(ops))
  }

  /** Runs an interleaving of publishes and snapshots against the cell; returns
      the final cell and the snapshots in the order they were taken. */
  function Replay(loc: Location, ops: seq<CellOp>): (r: (Location, seq<View>))
    decreases |ops|
    ensures loc.updated ==> r.0.updated
    ensures r.0 == loc || (r.0.updated && ReadingOf(r.0) in Published(ops))
    ensures forall s :: s in r.1 ==> Whole(s, loc, ops)
    ensures forall i, j :: 0 <= i < j < |r.1| && r.1[i].3 ==> r.1[j].3
    ensures loc.updated ==> forall s :: s in r.1 ==> s.3
    ensures r.0.updated ==> loc.updated || Published(ops) != {}
    ensures Published(ops) != {} ==> r.0.updated && ReadingOf(r.0) in Published(ops)
    ensures |r.1| == SnapshotCount(ops)
  {
    if ops == [] then (loc, [])
    else
      match ops[0]
      case PublishOp(rd) =>
        Replay(Publish(loc, rd), ops[1..])
      case SnapshotOp =>
        var (last, seen) := Replay(loc, ops[1..]);
        (last, [Snapshot(loc)] + seen)
  }

  /** Last writer wins: the cell ends holding the last published reading in full,
      or is untouched when nothing was published. */
  lemma {:induction false} ReplayLastWriterWins(loc: Location, ops: seq<CellOp>)
    ensures Replay(loc, ops).0 ==
              match LastPublished(ops)
              case None => loc
              case Some(rd) => Publish(loc, rd)
    decreases |ops|
  {
    if ops != [] {
      LastPublishedOfTail(ops);
      if ops[0].PublishOp? {
        ReplayLastWriterWins(Publish(loc, ops[0].reading), ops[1..]);
      } else {
        ReplayLastWriterWins(loc, ops[1..]);
      }
    }
  }

  /** How `LastPublished` of a sequence relates to that of its tail. */
  lemma {:induction false} LastPublishedOfTail(ops: seq<CellOp>)
    requires ops != []
    ensures LastPublished(ops[1..]).Some? ==> LastPublished(ops) == LastPublished(ops[1..])
    ensures LastPublished(ops[1..]).None? ==>
              LastPublished(ops) == (if ops[0].PublishOp? then Some(ops[0].reading) else None)
    decreases |ops|
  {
    if |ops| > 1 {
      assert ops[1..][..|ops[1..]| - 1] == ops[..|ops| - 1][1..];
      if !ops[|ops| - 1].PublishOp? {
        LastPublishedOfTail(ops[..|ops| - 1]);
      }
    }
  }

  /** The flag is up after a replay from the initial cell exactly when something was published. */
  lemma FlagRaisedIffPublished(ops: seq<CellOp>)
    ensures Replay(Initial, ops).0.updated <==> Published(ops) != {}
  {
  }

  /** Replaying `a` then `b` is replaying `a + b`: the cell is threaded through
      and the snapshots of `b` follow those of `a`. */
  lemma {:induction false} ReplayConcat(loc: Location, a: seq<CellOp>, b: seq<CellOp>)
    ensures Replay(loc, a + b) ==
              (Replay(Replay(loc, a).0, b).0, Replay(loc, a).1 + Replay(Replay(loc, a).0, b).1)
    decreases |a|
  {
    if a == [] {
      assert a + b == b;
      assert Replay(loc, a) == (loc, []);
      assert [] + Replay(loc, b).1 == Replay(loc, b).1;
    } else {
      assert (a + b)[0] == a[0];
      assert (a + b)[1..] == a[1..] + b;
      match a[0]
      case PublishOp(rd) =>
        ReplayConcat(Publish(loc, rd), a[1..], b);
      case SnapshotOp =>
        ReplayConcat(loc, a[1..], b);
        var mid := Replay(loc, a[1..]).0;
        assert [Snapshot(loc)] + (Replay(loc, a[1..]).1 + Replay(mid, b).1)
            == ([Snapshot(loc)] + Replay(loc, a[1..]).1) + Replay(mid, b).1;
    }
  }

  /** A snapshot taken after the operations `a` sees exactly the cell those
      operations left behind, whatever comes later. */
  lemma SnapshotIsCurrent(loc: Location, a: seq<CellOp>, b: seq<CellOp>)
    ensures |Replay(loc, a).1| < |Replay(loc, a + [SnapshotOp] + b).1|
    ensures Replay(loc, a + [SnapshotOp] + b).1[|Replay(loc, a).1|] == Snapshot(Replay(loc, a).0)
  {
    assert a + [SnapshotOp] + b == a + ([SnapshotOp] + b);
    ReplayConcat(loc, a, [SnapshotOp] + b);
    assert ([SnapshotOp] + b)[1..] == b;
  }

  /** Once a reading has been published, every later snapshot shows the flag up. */
  lemma FlagStaysUp(loc: Location, a: seq<CellOp>, b: seq<CellOp>)
    requires Published(a) != {}
    ensures forall k :: |Replay(loc, a).1| <= k < |Replay(loc, a + b).1| ==> Replay(loc, a + b).1[k].3
  {
    ReplayConcat(loc, a, b);
  }

  /** Snapshots never move the cell: an interleaving leaves it where its
      publishes alone, in order, would. */
  lemma {:induction false} SnapshotsLeaveCell(loc: Location, ops: seq<CellOp>)
    ensures Replay(loc, ops).0 == Replay(loc, PublishesIn(ops)).0
    decreases |ops|
  {
    if ops != [] {
      match ops[0]
      case PublishOp(rd) =>
        assert ([ops[0]] + PublishesIn(ops[1..]))[1..] == PublishesIn(ops[1..]);
        SnapshotsLeaveCell(Publish(loc, rd), ops[1..]);
      case SnapshotOp =>
        assert PublishesIn(ops) == [] + PublishesIn(ops[1..]) == PublishesIn(ops[1..]);
        SnapshotsLeaveCell(loc, ops[1..]);
    }
  }
}
