/** The zone-based puzzle search: batches, saved positions, and sessions that end at any moment. */
module ZoneSearch {
  import opened Results
  import opened Limbs
  import opened Text
  import opened SearchState

  // ---- Positions and zones ----

  datatype Position = Position(hi: U64, lo: U64)

  function At(p: Position): nat {
    p.hi * B + p.lo
  }

  /** Zone limits in percent of the range, in the order they are searched. */
  const ZONES: seq<(nat, nat)> := [(60, 85), (30, 50), (50, 60), (85, 100), (0, 30)]
  const NUM_ZONES: nat := 5

  /** The position a percentage of the range is computed to; ZoneBoundary has the floating-point computation. */
  type Boundary = nat -> Position

  predicate Monotone(b: Boundary) {
    At(b(0)) <= At(b(30)) <= At(b(50)) <= At(b(60)) <= At(b(85)) <= At(b(100))
  }

  function ZoneStart(b: Boundary, zone: nat): nat
    requires zone < NUM_ZONES
  {
    At(b(ZONES[zone].0))
  }

  function ZoneEnd(b: Boundary, zone: nat): nat
    requires zone < NUM_ZONES
  {
    At(b(ZONES[zone].1))
  }

  lemma ZoneInside(b: Boundary, zone: nat)
    requires Monotone(b) && zone < NUM_ZONES
    ensures At(b(0)) <= ZoneStart(b, zone) <= ZoneEnd(b, zone) <= At(b(100))
    ensures ZoneEnd(b, zone) == At(b(ZONES[zone].1))
  {}

  /** Every position before the end of the range lies in exactly one zone. */
  lemma ZonesTile(b: Boundary, k: nat)
    requires Monotone(b) && At(b(0)) <= k < At(b(100))
    ensures exists z :: 0 <= z < NUM_ZONES && ZoneStart(b, z) <= k < ZoneEnd(b, z)
    ensures forall y, z :: 0 <= y < z < NUM_ZONES && ZoneStart(b, y) <= k < ZoneEnd(b, y) ==>
        !(ZoneStart(b, z) <= k < ZoneEnd(b, z))
  {
    var z := if k < At(b(30)) then 4 else if k < At(b(50)) then 1 else if k < At(b(60)) then 2 else if k < At(b(85)) then 0 else 3;
    assert ZoneStart(b, z) <= k < ZoneEnd(b, z);
  }

  // ---- What has been searched ----

  datatype Batch = Batch(first: nat, count: nat)

  predicate Searched(log: seq<Batch>, k: int) {
    exists i :: 0 <= i < |log| && log[i].first <= k < log[i].first + log[i].count
  }

  ghost predicate Swept(log: seq<Batch>, a: int, b: int) {
    forall k :: a <= k < b ==> Searched(log, k)
  }

  /** The zones before this one are done, and this one up to the position. */
  ghost predicate Progress(b: Boundary, log: seq<Batch>, zone: nat, pos: nat) {
    && zone <= NUM_ZONES
    && (forall z :: 0 <= z < zone ==> Swept(log, ZoneStart(b, z), ZoneEnd(b, z)))
    && (zone < NUM_ZONES ==> ZoneStart(b, zone) <= pos && Swept(log, ZoneStart(b, zone), pos))
  }

  ghost predicate Complete(b: Boundary, log: seq<Batch>) {
    forall z :: 0 <= z < NUM_ZONES ==> Swept(log, ZoneStart(b, z), ZoneEnd(b, z))
  }

  predicate Resumes(s: PuzzleSearchState) {
    s.valid && s.totalChecked > 0
  }

  /** What a resumed session would skip has been searched. */
  ghost predicate Resumable(b: Boundary, log: seq<Batch>, s: PuzzleSearchState) {
    Resumes(s) ==> Progress(b, log, s.zoneIdx, At(Position(s.positionHi, s.positionLo)))
  }

  lemma MoreSearched(log: seq<Batch>, more: seq<Batch>, a: int, b: int)
    requires Swept(log, a, b)
    ensures Swept(log + more, a, b)
  {
    forall k | a <= k < b ensures Searched(log + more, k) {
      assert Searched(log, k);
      var i :| 0 <= i < |log| && log[i].first <= k < log[i].first + log[i].count;
      assert (log + more)[i] == log[i];
    }
  }

  lemma MoreProgress(b: Boundary, log: seq<Batch>, more: seq<Batch>, zone: nat, pos: nat)
    requires Progress(b, log, zone, pos)
    ensures Progress(b, log + more, zone, pos)
  {
    hide Swept;
    forall z | 0 <= z < zone ensures Swept(log + more, ZoneStart(b, z), ZoneEnd(b, z)) {
      MoreSearched(log, more, ZoneStart(b, z), ZoneEnd(b, z));
    }
    if zone < NUM_ZONES { MoreSearched(log, more, ZoneStart(b, zone), pos); }
  }

  /** A searched batch moves the position to its end. */
  lemma BatchProgress(b: Boundary, log: seq<Batch>, zone: nat, pos: nat, count: nat)
    requires zone < NUM_ZONES && Progress(b, log, zone, pos)
    ensures Progress(b, log + [Batch(pos, count)], zone, pos + count)
  {
    hide Swept;
    var all := log + [Batch(pos, count)];
    MoreProgress(b, log, [Batch(pos, count)], zone, pos);
    assert Swept(all, ZoneStart(b, zone), pos + count) by {
      SweptFurther(log, ZoneStart(b, zone), pos, count);
    }
  }

  lemma SweptFurther(log: seq<Batch>, a: int, pos: nat, count: nat)
    requires Swept(log, a, pos)
    ensures Swept(log + [Batch(pos, count)], a, pos + count)
  {
    var all := log + [Batch(pos, count)];
    MoreSearched(log, [Batch(pos, count)], a, pos);
    forall k | a <= k < pos + count ensures Searched(all, k) {
      if k >= pos { assert all[|log|] == Batch(pos, count); }
    }
  }

  /** A zone searched to its end makes way for the next one, from its start. */
  lemma ZoneProgress(b: Boundary, log: seq<Batch>, zone: nat, pos: nat)
    requires zone < NUM_ZONES && Progress(b, log, zone, pos) && ZoneEnd(b, zone) <= pos
    ensures zone + 1 < NUM_ZONES ==> Progress(b, log, zone + 1, ZoneStart(b, zone + 1))
    ensures zone + 1 == NUM_ZONES ==> Progress(b, log, zone + 1, pos)
  {}

  lemma AllDone(b: Boundary, log: seq<Batch>, pos: nat)
    requires Progress(b, log, NUM_ZONES, pos)
    ensures Complete(b, log)
  {
    hide Swept;
  }

  /** When every zone is done, everything below the upper boundary has been searched. */
  lemma CompleteCovers(b: Boundary, log: seq<Batch>)
    requires Monotone(b) && Complete(b, log)
    ensures Swept(log, At(b(0)), At(b(100)))
  {
    forall k: nat | At(b(0)) <= k < At(b(100)) ensures Searched(log, k) {
      ZonesTile(b, k);
      var z :| 0 <= z < NUM_ZONES && ZoneStart(b, z) <= k < ZoneEnd(b, z);
      assert Swept(log, ZoneStart(b, z), ZoneEnd(b, z));
    }
  }
}
