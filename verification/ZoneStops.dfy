/** A search that is stopped and resumed: which stops lose what was searched. */
module ZoneStops {
  import opened Arith
  import FieldPow
  import opened Results
  import opened Limbs
  import opened SearchState
  import opened Text
  import opened ZoneSearch
  import opened ZoneSession
  import opened ZoneBoundary

  /** One start of the program, the batch size apart. */
  datatype Sitting = Sitting(multi: bool, turns: seq<Turn>, stamp: string)

  function PositionOf(s: PuzzleSearchState): nat {
    At(Position(s.positionHi, s.positionLo))
  }

  /** Positions the bounds check accepts for a puzzle below 128 bits. */
  function Limit(puzzle: nat): int {
    Pow(2, if puzzle <= 64 then 64 else puzzle)
  }

  /** A stop at this state loses nothing: nothing was searched, or the position is accepted and the number of keys
      counted, which is kept in 64 bits, is not zero. */
  predicate Keeps(puzzle: nat, s: PuzzleSearchState, log: seq<Batch>) {
    log == [] || (PositionOf(s) < Limit(puzzle) && Counts(log) % B != 0)
  }

  /** What is known of the state in the file between two sittings, as long as every stop has kept what was searched. */
  ghost predicate KeptSoFar(b: Boundary, s: PuzzleSearchState, log: seq<Batch>, count: nat)
    requires 0 < count
  {
    && log + ToDo(b, s, count) == BatchesFrom(b, 0, count) && Carried(s) == Counts(log) % B
    && (Resumes(s) ==> OnGrid(b, s, count))
  }

  /** And once one has not: batches have been searched, and there are more to do than their rest. */
  ghost predicate Lost(b: Boundary, s: PuzzleSearchState, log: seq<Batch>, count: nat)
    requires 0 < count
  {
    && log != [] && |log| + |ToDo(b, s, count)| > |BatchesFrom(b, 0, count)|
    && (Resumes(s) ==> OnGrid(b, s, count))
  }

  lemma {:induction false} CountsConcat(x: seq<Batch>, y: seq<Batch>)
    ensures Counts(x + y) == Counts(x) + Counts(y)
  {
    if y == [] {
      assert x + y == x;
    } else {
      assert (x + y)[..|x + y| - 1] == x + y[..|y| - 1];
      CountsConcat(x, y[..|y| - 1]);
    }
  }

  /** The parts of the place a session stopped at. */
  lemma HoldsParts(b: Boundary, puzzle: Int32, s: PuzzleSearchState, start: PuzzleSearchState, done: seq<Batch>, count: nat)
    requires 0 < count && Holds(b, puzzle, s, start, done, count)
    ensures s.puzzleNumber == puzzle && s.zoneIdx < NUM_ZONES
    ensures done + Remaining(b, s.zoneIdx, PositionOf(s), count) == ToDo(b, start, count)
    ensures s.totalChecked == (Carried(start) + Counts(done)) % B && (s.valid <==> WithinBounds(s))
    ensures Resumes(start) && OnGrid(b, start, count) ==> OnGrid(b, s, count)
    ensures !Resumes(start) ==> OnGrid(b, s, count)
  {
    hide Remaining, ToDo, Counts, Carried, InStep, WithinBounds, Resumes;
  }

  lemma Regroup(x: seq<Batch>, y: seq<Batch>, z: seq<Batch>)
    ensures (x + y) + z == x + (y + z)
  {}

  /** A stop after searching more on top of what was kept. */
  lemma StopKeeps(b: Boundary, puzzle: nat, start: PuzzleSearchState, log0: seq<Batch>, s: PuzzleSearchState, done: seq<Batch>,
                  count: nat)
    requires 0 < count && 1 <= puzzle < 128
    requires KeptSoFar(b, start, log0, count) && Holds(b, puzzle, s, start, done, count)
    ensures Keeps(puzzle, s, log0 + done) ==> KeptSoFar(b, s, log0 + done, count)
    ensures !Keeps(puzzle, s, log0 + done) ==> Lost(b, s, log0 + done, count)
    ensures OnGrid(b, s, count)
  {
    HoldsParts(b, puzzle, s, start, done, count);
    KeptTotal(puzzle, start, log0, s, done);
    hide Remaining, BatchesFrom, Counts, OnGrid, Holds, Keeps, Resumes, Carried, B;
    var log := log0 + done;
    Regroup(log0, done, Remaining(b, s.zoneIdx, PositionOf(s), count));
    if log == [] { assert [] + BatchesFrom(b, 0, count) == BatchesFrom(b, 0, count); }
  }

  /** The file resumes exactly if the stop keeps what was searched, but for a search that has not begun. */
  lemma KeptTotal(puzzle: nat, start: PuzzleSearchState, log0: seq<Batch>, s: PuzzleSearchState, done: seq<Batch>)
    requires 1 <= puzzle < 128 && s.puzzleNumber == puzzle && s.zoneIdx < NUM_ZONES && (s.valid <==> WithinBounds(s))
    requires Carried(start) == Counts(log0) % B && s.totalChecked == (Carried(start) + Counts(done)) % B
    ensures s.totalChecked == Counts(log0 + done) % B && Carried(s) == (if Resumes(s) then Counts(log0 + done) % B else 0)
    ensures log0 + done == [] ==> !Resumes(s) && Counts(log0 + done) % B == 0
    ensures log0 + done != [] ==> (Resumes(s) <==> Keeps(puzzle, s, log0 + done))
  {
    hide Counts, WithinBounds, Pow;
    CountsConcat(log0, done);
    AddModulo(Counts(log0), Counts(done));
    InRangeWithinBounds(s);
    PositionLimbs(s);
    NoCounts();
  }

  lemma PositionLimbs(s: PuzzleSearchState)
    ensures PositionOf(s) == s.positionLo + B * s.positionHi
  {}

  lemma NoCounts()
    ensures Counts([]) == 0
  {}

  lemma SumOfLengths(x: seq<Batch>, y: seq<Batch>)
    ensures |x + y| == |x| + |y| && (x != [] ==> x + y != [])
  {}

  lemma RestOrAll(b: Boundary, s: PuzzleSearchState, count: nat)
    requires 0 < count && s.zoneIdx < NUM_ZONES
    ensures ToDo(b, s, count) == if Resumes(s) then Remaining(b, s.zoneIdx, PositionOf(s), count) else BatchesFrom(b, 0, count)
  {}

  /** A stop after one that lost what was searched. */
  lemma StopStaysLost(b: Boundary, puzzle: nat, start: PuzzleSearchState, log0: seq<Batch>, s: PuzzleSearchState, done: seq<Batch>,
                      count: nat)
    requires 0 < count && 1 <= puzzle < 128
    requires Lost(b, start, log0, count) && Holds(b, puzzle, s, start, done, count)
    ensures Lost(b, s, log0 + done, count)
    ensures OnGrid(b, s, count)
  {
    HoldsParts(b, puzzle, s, start, done, count);
    RestOrAll(b, s, count);
    hide Remaining, BatchesFrom, Counts, OnGrid, Holds, WithinBounds, Resumes, Carried, ToDo, PositionOf;
    SumOfLengths(done, Remaining(b, s.zoneIdx, PositionOf(s), count));
    SumOfLengths(log0, done);
  }

  // ---- Sittings until one is not stopped ----

  ghost predicate AllKeep(puzzle: nat, stops: seq<PuzzleSearchState>, lengths: seq<nat>, log: seq<Batch>)
    requires |lengths| == |stops| && forall i :: 0 <= i < |lengths| ==> lengths[i] <= |log|
  {
    forall i :: 0 <= i < |stops| ==> Keeps(puzzle, stops[i], log[..lengths[i]])
  }

  /** The state names a zone, its position is one that batches lead to from there, and the zone counter is right. */
  predicate OnGrid(b: Boundary, s: PuzzleSearchState, count: nat)
    requires 0 < count
  {
    s.zoneIdx < NUM_ZONES && InStep(b, s.zoneIdx, Position(s.positionHi, s.positionLo), s.zoneChecked, count)
  }

  ghost predicate KeptOrLost(b: Boundary, puzzle: nat, s: PuzzleSearchState, stops: seq<PuzzleSearchState>, lengths: seq<nat>,
                             log: seq<Batch>, count: nat)
    requires 0 < count
  {
    && |lengths| == |stops| && (forall i :: 0 <= i < |lengths| ==> lengths[i] <= |log|)
    && (if AllKeep(puzzle, stops, lengths, log) then KeptSoFar(b, s, log, count) else Lost(b, s, log, count))
    && (forall i :: 0 <= i < |stops| ==> OnGrid(b, stops[i], count))
  }

  lemma OneMoreStop(b: Boundary, puzzle: nat, start: PuzzleSearchState, s: PuzzleSearchState, stops: seq<PuzzleSearchState>,
                    lengths: seq<nat>, log0: seq<Batch>, log: seq<Batch>, count: nat)
    requires 0 < count && 1 <= puzzle < 128 && log0 <= log
    requires KeptOrLost(b, puzzle, start, stops, lengths, log0, count)
    requires Holds(b, puzzle, s, start, log[|log0|..], count)
    ensures KeptOrLost(b, puzzle, s, stops + [s], lengths + [|log|], log, count)
  {
    hide KeptSoFar, Lost, Keeps, OnGrid, Holds;
    var done := log[|log0|..];
    assert log == log0 + done;
    if AllKeep(puzzle, stops, lengths, log0) {
      StopKeeps(b, puzzle, start, log0, s, done, count);
    } else {
      StopStaysLost(b, puzzle, start, log0, s, done, count);
    }
    KeepsOneMore(puzzle, s, stops, lengths, log0, log);
    assert forall i :: 0 <= i < |stops| ==> (stops + [s])[i] == stops[i];
  }

  lemma KeepsOneMore(puzzle: nat, s: PuzzleSearchState, stops: seq<PuzzleSearchState>, lengths: seq<nat>,
                     log0: seq<Batch>, log: seq<Batch>)
    requires log0 <= log && |lengths| == |stops| && forall i :: 0 <= i < |lengths| ==> lengths[i] <= |log0|
    ensures AllKeep(puzzle, stops + [s], lengths + [|log|], log) <==> AllKeep(puzzle, stops, lengths, log0) && Keeps(puzzle, s, log)
  {
    hide Keeps;
    var stops', lengths' := stops + [s], lengths + [|log|];
    assert log[..|log|] == log && stops'[|stops|] == s;
    forall i | 0 <= i < |stops|
      ensures stops'[i] == stops[i] && log[..lengths'[i]] == log0[..lengths[i]]
      ensures Keeps(puzzle, stops'[i], log[..lengths'[i]]) == Keeps(puzzle, stops[i], log0[..lengths[i]])
    {}
  }

  lemma Finish(b: Boundary, puzzle: nat, start: PuzzleSearchState, stops: seq<PuzzleSearchState>, lengths: seq<nat>,
               log0: seq<Batch>, log: seq<Batch>, count: nat)
    requires 0 < count && KeptOrLost(b, puzzle, start, stops, lengths, log0, count)
    requires log0 <= log <= log0 + ToDo(b, start, count)
    ensures |lengths| == |stops| && forall i :: 0 <= i < |lengths| ==> lengths[i] <= |log|
    ensures AllKeep(puzzle, stops, lengths, log) ==> log <= BatchesFrom(b, 0, count)
    ensures log == log0 + ToDo(b, start, count) ==> (log == BatchesFrom(b, 0, count) <==> AllKeep(puzzle, stops, lengths, log))
  {
    hide ToDo, Keeps, InStep, BatchesFrom;
    forall i | 0 <= i < |lengths| ensures log[..lengths[i]] == log0[..lengths[i]] {}
    assert AllKeep(puzzle, stops, lengths, log) <==> AllKeep(puzzle, stops, lengths, log0);
  }

  /** A search that is stopped and started again, always with one batch size, until a sitting ends otherwise. If every stop
      keeps what was searched, all sittings together have searched the batches of an undisturbed search, each once and
      in order, and if the last sitting goes through, all of them. If some stop does not, some are searched again. */
  method Sit(b: Boundary, puzzle: Int32, count: U64, sittings: seq<Sitting>)
    returns (outcome: Outcome, ghost log: seq<Batch>, ghost stops: seq<PuzzleSearchState>, ghost lengths: seq<nat>)
    requires Monotone(b) && 0 < count && At(b(100)) + count <= B * B && 1 <= puzzle < 128
    ensures |lengths| == |stops| && forall i :: 0 <= i < |lengths| ==> lengths[i] <= |log|
    ensures forall i :: 0 <= i < |stops| ==> OnGrid(b, stops[i], count)
    ensures AllKeep(puzzle, stops, lengths, log) ==> log <= BatchesFrom(b, 0, count)
    ensures outcome == AllZonesSearched ==> (log == BatchesFrom(b, 0, count) <==> AllKeep(puzzle, stops, lengths, log))
  {
    hide *;
    var file: File := None;
    outcome, log, stops, lengths := ShutDown, [], [], [];
    BlankResumable(b, log, puzzle);
    NothingYet(b, puzzle, count);
    var n := 0;
    while n < |sittings| && outcome == ShutDown
      invariant 0 <= n <= |sittings|
      invariant outcome == ShutDown ==> Resumable(b, log, Loaded(puzzle, file))
      invariant outcome == ShutDown ==> KeptOrLost(b, puzzle, Loaded(puzzle, file), stops, lengths, log, count)
      invariant |lengths| == |stops| && forall i :: 0 <= i < |lengths| ==> lengths[i] <= |log|
      invariant forall i :: 0 <= i < |stops| ==> OnGrid(b, stops[i], count)
      invariant AllKeep(puzzle, stops, lengths, log) ==> log <= BatchesFrom(b, 0, count)
      invariant outcome == AllZonesSearched ==> (log == BatchesFrom(b, 0, count) <==> AllKeep(puzzle, stops, lengths, log))
    {
      ghost var start, log0, at := Loaded(puzzle, file), log, [];
      file, outcome, log, at := Session(b, puzzle, file, sittings[n].multi, count, sittings[n].turns, sittings[n].stamp, log);
      if outcome == ShutDown {
        OneMoreStop(b, puzzle, start, Loaded(puzzle, file), stops, lengths, log0, log, count);
        stops, lengths := stops + [Loaded(puzzle, file)], lengths + [|log|];
        StopFacts(b, puzzle, Loaded(puzzle, file), stops, lengths, log, count);
      } else {
        StopFacts(b, puzzle, start, stops, lengths, log0, count);
        Finish(b, puzzle, start, stops, lengths, log0, log, count);
      }
      n := n + 1;
    }
  }

  lemma NothingYet(b: Boundary, puzzle: Int32, count: nat)
    requires 0 < count && 1 <= puzzle
    ensures KeptOrLost(b, puzzle, Loaded(puzzle, None), [], [], [], count)
    ensures AllKeep(puzzle, [], [], []) && [] <= BatchesFrom(b, 0, count)
  {
    hide BatchesFrom;
    assert [] + BatchesFrom(b, 0, count) == BatchesFrom(b, 0, count);
  }

  lemma StopFacts(b: Boundary, puzzle: nat, s: PuzzleSearchState, stops: seq<PuzzleSearchState>, lengths: seq<nat>,
                  log: seq<Batch>, count: nat)
    requires 0 < count && KeptOrLost(b, puzzle, s, stops, lengths, log, count)
    ensures |lengths| == |stops| && forall i :: 0 <= i < |lengths| ==> lengths[i] <= |log|
    ensures forall i :: 0 <= i < |stops| ==> OnGrid(b, stops[i], count)
    ensures AllKeep(puzzle, stops, lengths, log) ==> log <= BatchesFrom(b, 0, count)
  {
    hide Keeps, InStep, BatchesFrom, Lost, ToDo;
  }
  // ---- Which stops keep ----

  lemma {:induction false} ReachBehind(pos: nat, end: nat, count: nat)
    requires 0 < count
    ensures pos <= Reach(pos, end, count)
    decreases end - pos
  {
    if pos < end { ReachBehind(pos + count, end, count); }
  }

  /** Batches searched, and fewer than 2^64 keys in all, are counted as more than zero. */
  lemma {:induction false} CountsPrefix(log: seq<Batch>, all: seq<Batch>)
    requires log <= all
    ensures Counts(log) <= Counts(all)
    decreases |all|
  {
    if |log| < |all| {
      CountsPrefix(log, all[..|all| - 1]);
    } else {
      assert log == all;
    }
  }

  /** If the batches of no zone run past the limit, and there are fewer than 2^64 keys to count, every stop keeps. */
  lemma EveryStopKeeps(b: Boundary, puzzle: nat, s: PuzzleSearchState, log: seq<Batch>, count: U64)
    requires 0 < count && OnGrid(b, s, count) && log <= BatchesFrom(b, 0, count)
    requires forall z :: 0 <= z < NUM_ZONES ==> Reach(ZoneStart(b, z), ZoneEnd(b, z), count) < Limit(puzzle)
    requires Counts(BatchesFrom(b, 0, count)) < B
    ensures Keeps(puzzle, s, log)
  {
    hide Reach, Limit, ZoneStart, ZoneEnd, BatchesFrom, Counts;
    ReachBehind(PositionOf(s), ZoneEnd(b, s.zoneIdx), count);
    CountsPrefix(log, BatchesFrom(b, 0, count));
    if log != [] { FirstCounts(b, log, count); }
  }

  lemma FirstCounts(b: Boundary, log: seq<Batch>, count: U64)
    requires 0 < count && log != [] && log <= BatchesFrom(b, 0, count)
    ensures Counts(log) > 0
  {
    var n := |log| - 1;
    AllOfCount(b, 0, count);
    assert log[n] == BatchesFrom(b, 0, count)[n];
  }

  lemma {:induction false} AllOfCount(b: Boundary, zone: nat, count: U64)
    requires 0 < count && zone <= NUM_ZONES
    ensures forall i :: 0 <= i < |BatchesFrom(b, zone, count)| ==> BatchesFrom(b, zone, count)[i].count == count
    decreases NUM_ZONES - zone
  {
    if zone < NUM_ZONES {
      ZoneOfCount(ZoneStart(b, zone), ZoneEnd(b, zone), count);
      AllOfCount(b, zone + 1, count);
    }
  }

  lemma {:induction false} ZoneOfCount(pos: nat, end: nat, count: U64)
    requires 0 < count
    ensures forall i :: 0 <= i < |ZoneBatches(pos, end, count)| ==> ZoneBatches(pos, end, count)[i].count == count
    decreases end - pos
  {
    if pos < end { ZoneOfCount(pos + count, end, count); }
  }

  /** From puzzle 66 on (with 64 bits of mantissa), a stop after the last batch of the upper zone and before the next
      turn, with anything searched, loses everything: the position is past the limit, so the file is refused. */
  lemma UpperZoneStopLoses(n: nat, w: nat, s: PuzzleSearchState, log: seq<Batch>, count: nat)
    requires 66 <= n <= 127 && 0 < w < n - 1 && 0 < count && log != []
    requires Pow(2, n - 1) <= Pow(2, n) - 1 && Pow(2, n - 1) > 0
    requires PositionOf(s) >= At(UnixBoundary(Pow(2, n - 1), Pow(2, n) - 1, w)(100))
    ensures !Keeps(n, s, log)
  {
    hide UnixBoundary, Counts, Pow;
    PuzzleEnd(n, w);
  }

  /** Up to puzzle 62 no stop does, with batches of at most 2^62 keys, as long as fewer than 2^64 are counted. */
  lemma SmallPuzzleKeeps(n: nat, w: nat, s: PuzzleSearchState, log: seq<Batch>, count: U64)
    requires 1 <= n <= 62 && 0 < w && 0 < count <= 0x4000_0000_0000_0000
    requires Pow(2, n - 1) <= Pow(2, n) - 1 && Pow(2, n - 1) > 0
    requires var b := UnixBoundary(Pow(2, n - 1), Pow(2, n) - 1, w);
      OnGrid(b, s, count) && log <= BatchesFrom(b, 0, count) && Counts(BatchesFrom(b, 0, count)) < B
    ensures Keeps(n, s, log)
  {
    hide UnixBoundary, Counts, Pow, BatchesFrom, Reach, Keeps, ZoneStart, ZoneEnd, Monotone, OnGrid, At;
    var b := UnixBoundary(Pow(2, n - 1), Pow(2, n) - 1, w);
    PuzzleEnd(n, w);
    PowGrows(2, n, 62);
    Pow62();
    forall z | 0 <= z < NUM_ZONES ensures Reach(ZoneStart(b, z), ZoneEnd(b, z), count) < Limit(n) {
      ZoneInside(b, z);
      if ZoneStart(b, z) < ZoneEnd(b, z) {
        ReachesPast(ZoneStart(b, z), ZoneEnd(b, z), count);
      } else {
        EmptyReach(ZoneStart(b, z), ZoneEnd(b, z), count);
      }
    }
    EveryStopKeeps(b, n, s, log, count);
  }

  lemma EmptyReach(pos: nat, end: nat, count: nat)
    requires 0 < count && end <= pos
    ensures Reach(pos, end, count) == pos
  {}

  lemma Pow62()
    ensures Pow(2, 62) == 0x4000_0000_0000_0000 && Pow(2, 64) == B
  {
    FieldPow.Pow2Limb();
    PowAdd(2, 62, 2);
    assert Pow(2, 2) == 4;
  }
}
