/** Sessions of the zone search: start or resume, search, save, stop anywhere. */
module ZoneSession {
  import opened Arith
  import opened Results
  import opened Limbs
  import opened Text
  import opened SearchState
  import opened ZoneSearch

  /** What the outside does during one turn of the loop: ask for shutdown before it, let the batch find the key,
      let the save timer expire, ask for shutdown too late for the loop to see. */
  datatype Turn = Turn(shutdown: bool, found: bool, save: bool, late: bool)

  datatype Outcome = Killed | ShutDown | KeyFound | AllZonesSearched | NoSuchZone

  type File = Option<seq<string>>

  // ---- The batches of an undisturbed search ----

  function ZoneBatches(pos: nat, end: nat, count: nat): seq<Batch>
    requires 0 < count
    decreases end - pos
  {
    if pos >= end then [] else [Batch(pos, count)] + ZoneBatches(pos + count, end, count)
  }

  function BatchesFrom(b: Boundary, zone: nat, count: nat): seq<Batch>
    requires 0 < count && zone <= NUM_ZONES
    decreases NUM_ZONES - zone
  {
    if zone == NUM_ZONES then []
    else ZoneBatches(ZoneStart(b, zone), ZoneEnd(b, zone), count) + BatchesFrom(b, zone + 1, count)
  }

  /** Where the batches of a zone end. */
  function Reach(pos: nat, end: nat, count: nat): nat
    requires 0 < count
    decreases end - pos
  {
    if pos >= end then pos else Reach(pos + count, end, count)
  }

  /** What is still to search from a zone and a position in it. */
  function Remaining(b: Boundary, zone: nat, pos: nat, count: nat): seq<Batch>
    requires 0 < count && zone < NUM_ZONES
  {
    ZoneBatches(pos, ZoneEnd(b, zone), count) + BatchesFrom(b, zone + 1, count)
  }

  // ---- One session ----

  /** The two-limb advance, exact as long as the position stays below 2^128. */
  method Advance(current: Position, count: U64) returns (next: Position)
    requires At(current) + count < B * B
    ensures At(next) == At(current) + count
  {
    HighRoom(current, count);
    var newLo: U64 := (current.lo + count) % B;
    if newLo < current.lo {
      next := Position(current.hi + 1, newLo);
    } else {
      next := Position(current.hi, newLo);
    }
  }

  lemma HighRoom(current: Position, count: U64)
    requires At(current) + count < B * B
    ensures current.lo + count >= B ==> current.hi + 1 < B
  {}

  method ZoneFinished(current: Position, end: Position) returns (done: bool)
    ensures done <==> At(end) <= At(current)
  {
    done := current.hi > end.hi || (current.hi == end.hi && current.lo >= end.lo);
  }

  function Snapshot(puzzle: Int32, zone: U64, current: Position, total: U64, zoneChecked: U64): PuzzleSearchState {
    PuzzleSearchState(puzzle, zone, current.lo, current.hi, total, zoneChecked, "", false)
  }

  /** Writing the state keeps the file resumable. */
  lemma SavedResumable(b: Boundary, log: seq<Batch>, puzzle: Int32, zone: U64, current: Position,
                       total: U64, checked: U64, stamp: string)
    requires Progress(b, log, zone, At(current))
    ensures Resumable(b, log, Loaded(puzzle, Some(Lines(Snapshot(puzzle, zone, current, total, checked), stamp))))
  {
    hide Progress, Loaded, Lines, WithinBounds;
    SaveLoad(Snapshot(puzzle, zone, current, total, checked), stamp, puzzle);
  }

  lemma StillResumable(b: Boundary, log: seq<Batch>, more: seq<Batch>, s: PuzzleSearchState)
    requires Resumable(b, log, s)
    ensures Resumable(b, log + more, s)
  {
    hide Progress;
    if Resumes(s) { MoreProgress(b, log, more, s.zoneIdx, At(Position(s.positionHi, s.positionLo))); }
  }

  lemma BlankResumable(b: Boundary, log: seq<Batch>, puzzle: Int32)
    ensures Resumable(b, log, Loaded(puzzle, None))
  {}

  lemma FromSaved(b: Boundary, log: seq<Batch>, saved: PuzzleSearchState)
    requires Resumable(b, log, saved) && Resumes(saved)
    ensures Progress(b, log, saved.zoneIdx, At(Position(saved.positionHi, saved.positionLo)))
    ensures saved.zoneIdx >= NUM_ZONES ==> Complete(b, log)
  {
    if saved.zoneIdx >= NUM_ZONES { AllDone(b, log, At(Position(saved.positionHi, saved.positionLo))); }
  }

  lemma FromScratch(b: Boundary, log: seq<Batch>, count: U64)
    requires 0 < count
    ensures Progress(b, log, 0, At(b(ZONES[0].0)))
    ensures Remaining(b, 0, At(b(ZONES[0].0)), count) == BatchesFrom(b, 0, count)
  {
    hide ZoneBatches;
  }

  lemma NextZone(b: Boundary, zone: nat, pos: nat, count: U64)
    requires 0 < count && zone < NUM_ZONES && ZoneEnd(b, zone) <= pos
    ensures Remaining(b, zone, pos, count) == BatchesFrom(b, zone + 1, count)
    ensures zone + 1 < NUM_ZONES ==> Remaining(b, zone, pos, count) == Remaining(b, zone + 1, ZoneStart(b, zone + 1), count)
    ensures zone + 1 == NUM_ZONES ==> Remaining(b, zone, pos, count) == []
  {}

  lemma NextBatch(b: Boundary, zone: nat, pos: nat, count: U64)
    requires 0 < count && zone < NUM_ZONES && pos < ZoneEnd(b, zone)
    ensures Remaining(b, zone, pos, count) == [Batch(pos, count)] + Remaining(b, zone, pos + count, count)
  {
    hide BatchesFrom;
  }

  // ---- What is left to do ----

  /** What a session that finds this state has to search. */
  function ToDo(b: Boundary, s: PuzzleSearchState, count: nat): seq<Batch>
    requires 0 < count
  {
    if !Resumes(s) then BatchesFrom(b, 0, count)
    else if s.zoneIdx >= NUM_ZONES then []
    else Remaining(b, s.zoneIdx, At(Position(s.positionHi, s.positionLo)), count)
  }

  function Counts(log: seq<Batch>): nat {
    if log == [] then 0 else Counts(log[..|log| - 1]) + log[|log| - 1].count
  }

  // ---- Where a session stands ----

  /** The keys counted before a session. */
  function Carried(s: PuzzleSearchState): U64 {
    if Resumes(s) then s.totalChecked else 0
  }

  /** The zone counter is the distance from the start of the zone, and batches from there lead to the position. */
  predicate InStep(b: Boundary, zone: nat, current: Position, zoneChecked: U64, count: nat)
    requires zone < NUM_ZONES && 0 < count
  {
    && zoneChecked == (At(current) - ZoneStart(b, zone)) % B && ZoneStart(b, zone) <= At(current)
    && Reach(At(current), ZoneEnd(b, zone), count) == Reach(ZoneStart(b, zone), ZoneEnd(b, zone), count)
  }

  /** A session started from a state and having searched these batches: the rest is what its zone and position leave,
      the total counts the batches on top of what it started with, and zone counter and position are in step if they were. */
  predicate Stands(b: Boundary, start: PuzzleSearchState, done: seq<Batch>, zone: nat, current: Position,
                   total: U64, zoneChecked: U64, count: nat)
    requires 0 < count
  {
    && zone < NUM_ZONES
    && done + Remaining(b, zone, At(current), count) == ToDo(b, start, count)
    && total == (Carried(start) + Counts(done)) % B
    && ((Resumes(start) && start.zoneIdx < NUM_ZONES ==>
          InStep(b, start.zoneIdx, Position(start.positionHi, start.positionLo), start.zoneChecked, count)) ==>
        InStep(b, zone, current, zoneChecked, count))
  }

  /** A loaded state is where that session stands; it is valid if it is within bounds. */
  ghost predicate Holds(b: Boundary, puzzle: Int32, s: PuzzleSearchState, start: PuzzleSearchState, done: seq<Batch>, count: nat)
    requires 0 < count
  {
    && Stands(b, start, done, s.zoneIdx, Position(s.positionHi, s.positionLo), s.totalChecked, s.zoneChecked, count)
    && s.puzzleNumber == puzzle && (s.valid <==> WithinBounds(s))
  }

  lemma SavedHolds(b: Boundary, start: PuzzleSearchState, done: seq<Batch>, puzzle: Int32, zone: U64, current: Position,
                   total: U64, zoneChecked: U64, count: nat, stamp: string)
    requires 0 < count && Stands(b, start, done, zone, current, total, zoneChecked, count)
    ensures Holds(b, puzzle, Loaded(puzzle, Some(Lines(Snapshot(puzzle, zone, current, total, zoneChecked), stamp))), start, done, count)
  {
    hide Stands, Loaded, Lines, Fnv, Hashed;
    SaveLoad(Snapshot(puzzle, zone, current, total, zoneChecked), stamp, puzzle);
  }

  lemma StandsAtStart(b: Boundary, start: PuzzleSearchState, count: U64)
    requires 0 < count
    ensures Resumes(start) && start.zoneIdx < NUM_ZONES ==>
      Stands(b, start, [], start.zoneIdx, Position(start.positionHi, start.positionLo), start.totalChecked, start.zoneChecked, count)
    ensures !Resumes(start) ==> Stands(b, start, [], 0, b(ZONES[0].0), 0, 0, count)
  {
    hide ZoneBatches, BatchesFrom;
    if Resumes(start) && start.zoneIdx < NUM_ZONES {
      assert [] + ToDo(b, start, count) == ToDo(b, start, count);
    } else if !Resumes(start) {
      FromScratch(b, [], count);
      assert [] + ToDo(b, start, count) == ToDo(b, start, count);
    }
  }

  lemma StandsInNextZone(b: Boundary, start: PuzzleSearchState, done: seq<Batch>, zone: nat, current: Position,
                         total: U64, zoneChecked: U64, count: U64)
    requires 0 < count && Stands(b, start, done, zone, current, total, zoneChecked, count)
    requires ZoneEnd(b, zone) <= At(current)
    ensures zone + 1 < NUM_ZONES ==> Stands(b, start, done, zone + 1, b(ZONES[zone + 1].0), total, 0, count)
    ensures zone + 1 == NUM_ZONES ==> done == ToDo(b, start, count)
  {
    hide Remaining, ToDo, Counts, Carried;
    NextZone(b, zone, At(current), count);
  }

  /** What has been searched is the beginning of what was to do, also with the next batch. */
  lemma StandsInside(b: Boundary, start: PuzzleSearchState, log0: seq<Batch>, log: seq<Batch>, zone: nat, current: Position,
                     total: U64, zoneChecked: U64, count: U64)
    requires 0 < count && log0 <= log && Stands(b, start, log[|log0|..], zone, current, total, zoneChecked, count)
    ensures log <= log0 + ToDo(b, start, count)
    ensures At(current) < ZoneEnd(b, zone) ==> log + [Batch(At(current), count)] <= log0 + ToDo(b, start, count)
  {
    hide Remaining, ToDo, Counts, Carried, InStep;
    var rest, todo := Remaining(b, zone, At(current), count), ToDo(b, start, count);
    assert log == log0 + log[|log0|..];
    Associate(log0, log[|log0|..], rest);
    assert log + rest == log0 + todo;
    if At(current) < ZoneEnd(b, zone) {
      NextBatch(b, zone, At(current), count);
      Associate(log, [Batch(At(current), count)], Remaining(b, zone, At(current) + count, count));
    }
  }

  /** A loaded state that names no zone, the total counting every batch. */
  predicate PastTheEnd(s: PuzzleSearchState, start: PuzzleSearchState, done: seq<Batch>) {
    s.zoneIdx == NUM_ZONES && s.totalChecked == (Carried(start) + Counts(done)) % B && (s.valid <==> WithinBounds(s))
  }

  lemma LateTotal(b: Boundary, start: PuzzleSearchState, done: seq<Batch>, puzzle: Int32, current: Position, total: U64,
                  stamp: string)
    requires total == (Carried(start) + Counts(done)) % B
    ensures PastTheEnd(Loaded(puzzle, Some(Lines(Snapshot(puzzle, NUM_ZONES, current, total, 0), stamp))), start, done)
  {
    hide Loaded, Lines, Counts, Carried, Fnv, Hashed;
    SaveLoad(Snapshot(puzzle, NUM_ZONES, current, total, 0), stamp, puzzle);
  }

  lemma StandsTotal(b: Boundary, start: PuzzleSearchState, done: seq<Batch>, zone: nat, current: Position,
                    total: U64, zoneChecked: U64, count: U64)
    requires 0 < count && Stands(b, start, done, zone, current, total, zoneChecked, count)
    ensures total == (Carried(start) + Counts(done)) % B
  {
    hide Remaining, ToDo, Counts, Carried, InStep;
  }

  lemma StandsAfterBatch(b: Boundary, start: PuzzleSearchState, done: seq<Batch>, zone: nat, current: Position,
                         total: U64, zoneChecked: U64, count: U64, next: Position)
    requires 0 < count && Stands(b, start, done, zone, current, total, zoneChecked, count)
    requires At(current) < ZoneEnd(b, zone) && At(next) == At(current) + count
    ensures Stands(b, start, done + [Batch(At(current), count)], zone, next, (total + count) % B, (zoneChecked + count) % B, count)
  {
    hide Remaining, ToDo, Counts, Carried, InStep;
    NextBatch(b, zone, At(current), count);
    Associate(done, [Batch(At(current), count)], Remaining(b, zone, At(next), count));
    CountsSnoc(done, Batch(At(current), count));
    AddModulo(Carried(start) + Counts(done), count);
    if InStep(b, zone, current, zoneChecked, count) { StaysInStep(b, zone, current, zoneChecked, count, next); }
  }

  lemma StaysInStep(b: Boundary, zone: nat, current: Position, zoneChecked: U64, count: U64, next: Position)
    requires 0 < count && zone < NUM_ZONES && InStep(b, zone, current, zoneChecked, count)
    requires At(current) < ZoneEnd(b, zone) && At(next) == At(current) + count
    ensures InStep(b, zone, next, (zoneChecked + count) % B, count)
  {
    hide At, ZoneStart;
    AddModulo(At(current) - ZoneStart(b, zone), count);
  }

  lemma AddModulo(x: int, y: int)
    ensures (x % B + y) % B == (x + y) % B
  {}

  lemma Associate(x: seq<Batch>, y: seq<Batch>, z: seq<Batch>)
    ensures x + (y + z) == (x + y) + z
  {}

  lemma CountsSnoc(log: seq<Batch>, batch: Batch)
    ensures Counts(log + [batch]) == Counts(log) + batch.count
  {
    assert (log + [batch])[..|log|] == log;
  }

  // ---- The loop invariant ----

  /** What holds between two turns of a session. */
  ghost predicate Running(b: Boundary, start: PuzzleSearchState, log0: seq<Batch>, log: seq<Batch>, zone: nat,
                          current: Position, total: U64, zoneChecked: U64, count: U64)
    requires 0 < count
  {
    && Progress(b, log, zone, At(current)) && log0 <= log
    && Stands(b, start, log[|log0|..], zone, current, total, zoneChecked, count)
  }

  lemma RunningFromSaved(b: Boundary, start: PuzzleSearchState, log0: seq<Batch>, count: U64)
    requires 0 < count && Resumable(b, log0, start) && Resumes(start)
    ensures start.zoneIdx < NUM_ZONES ==>
      Running(b, start, log0, log0, start.zoneIdx, Position(start.positionHi, start.positionLo), start.totalChecked,
              start.zoneChecked, count)
    ensures start.zoneIdx >= NUM_ZONES ==> Complete(b, log0) && ToDo(b, start, count) == []
  {
    hide Stands, Progress;
    FromSaved(b, log0, start);
    StandsAtStart(b, start, count);
    assert log0[|log0|..] == [];
  }

  lemma RunningFromScratch(b: Boundary, start: PuzzleSearchState, log0: seq<Batch>, count: U64)
    requires 0 < count && !Resumes(start)
    ensures Running(b, start, log0, log0, 0, b(ZONES[0].0), 0, 0, count)
  {
    hide Stands, Progress;
    FromScratch(b, log0, count);
    StandsAtStart(b, start, count);
    assert log0[|log0|..] == [];
  }

  lemma ProgressInNextZone(b: Boundary, log: seq<Batch>, zone: nat, pos: nat)
    requires Progress(b, log, zone, pos) && zone < NUM_ZONES && ZoneEnd(b, zone) <= pos
    ensures zone + 1 < NUM_ZONES ==> Progress(b, log, zone + 1, At(b(ZONES[zone + 1].0)))
    ensures zone + 1 == NUM_ZONES ==> Progress(b, log, zone + 1, pos)
  {
    hide Progress;
    ZoneProgress(b, log, zone, pos);
  }

  lemma RunningInNextZone(b: Boundary, start: PuzzleSearchState, log0: seq<Batch>, log: seq<Batch>, zone: nat,
                          current: Position, total: U64, zoneChecked: U64, count: U64)
    requires 0 < count && Running(b, start, log0, log, zone, current, total, zoneChecked, count)
    requires zone < NUM_ZONES && ZoneEnd(b, zone) <= At(current)
    ensures zone + 1 < NUM_ZONES ==> Running(b, start, log0, log, zone + 1, b(ZONES[zone + 1].0), total, 0, count)
    ensures zone + 1 == NUM_ZONES ==>
      && Progress(b, log, zone + 1, At(current)) && Complete(b, log) && log == log0 + ToDo(b, start, count)
      && total == (Carried(start) + Counts(log[|log0|..])) % B
  {
    hide Progress, Complete, Stands, Counts, Carried, ToDo, ZoneStart, ZoneEnd, At;
    ProgressInNextZone(b, log, zone, At(current));
    StandsInNextZone(b, start, log[|log0|..], zone, current, total, zoneChecked, count);
    StandsTotal(b, start, log[|log0|..], zone, current, total, zoneChecked, count);
    if zone + 1 == NUM_ZONES {
      AllDone(b, log, At(current));
      assert log == log0 + log[|log0|..];
    }
  }

  lemma RunningAfterBatch(b: Boundary, start: PuzzleSearchState, log0: seq<Batch>, log: seq<Batch>, zone: nat,
                          current: Position, total: U64, zoneChecked: U64, count: U64, next: Position)
    requires 0 < count && Running(b, start, log0, log, zone, current, total, zoneChecked, count)
    requires zone < NUM_ZONES && At(current) < ZoneEnd(b, zone) && At(next) == At(current) + count
    ensures Running(b, start, log0, log + [Batch(At(current), count)], zone, next, (total + count) % B,
                    (zoneChecked + count) % B, count)
  {
    hide Stands, Progress;
    BatchProgress(b, log, zone, At(current), count);
    StandsAfterBatch(b, start, log[|log0|..], zone, current, total, zoneChecked, count, next);
    assert (log + [Batch(At(current), count)])[|log0|..] == log[|log0|..] + [Batch(At(current), count)];
  }

  lemma RunningInside(b: Boundary, start: PuzzleSearchState, log0: seq<Batch>, log: seq<Batch>, zone: nat,
                      current: Position, total: U64, zoneChecked: U64, count: U64)
    requires 0 < count && Running(b, start, log0, log, zone, current, total, zoneChecked, count)
    ensures zone < NUM_ZONES && log0 <= log <= log0 + ToDo(b, start, count)
    ensures At(current) < ZoneEnd(b, zone) ==> log0 <= log + [Batch(At(current), count)] <= log0 + ToDo(b, start, count)
  {
    StandsZone(b, start, log[|log0|..], zone, current, total, zoneChecked, count);
    hide Stands, Progress, ToDo;
    StandsInside(b, start, log0, log, zone, current, total, zoneChecked, count);
  }

  lemma StandsZone(b: Boundary, start: PuzzleSearchState, done: seq<Batch>, zone: nat, current: Position,
                   total: U64, zoneChecked: U64, count: U64)
    requires 0 < count && Stands(b, start, done, zone, current, total, zoneChecked, count)
    ensures zone < NUM_ZONES
  {}

  /** Writing the state. */
  method Write(b: Boundary, ghost start: PuzzleSearchState, ghost log0: seq<Batch>, ghost log: seq<Batch>, puzzle: Int32,
               zone: U64, current: Position, total: U64, zoneChecked: U64, count: U64, stamp: string) returns (file: File)
    requires 0 < count && Running(b, start, log0, log, zone, current, total, zoneChecked, count)
    ensures log0 <= log && Resumable(b, log, Loaded(puzzle, file))
    ensures Holds(b, puzzle, Loaded(puzzle, file), start, log[|log0|..], count)
  {
    hide Progress, Stands, Resumable, Loaded, Lines, Holds;
    SavedResumable(b, log, puzzle, zone, current, total, zoneChecked, stamp);
    SavedHolds(b, start, log[|log0|..], puzzle, zone, current, total, zoneChecked, count, stamp);
    file := Some(Lines(Snapshot(puzzle, zone, current, total, zoneChecked), stamp));
  }

  /** The state written after the last zone. */
  method WriteLate(b: Boundary, ghost start: PuzzleSearchState, ghost done: seq<Batch>, ghost log: seq<Batch>, puzzle: Int32,
                   current: Position, total: U64, stamp: string) returns (file: File)
    requires Progress(b, log, NUM_ZONES, At(current)) && total == (Carried(start) + Counts(done)) % B
    ensures Resumable(b, log, Loaded(puzzle, file)) && PastTheEnd(Loaded(puzzle, file), start, done)
  {
    hide Progress, Resumable, Loaded, Lines, Carried, Counts;
    SavedResumable(b, log, puzzle, NUM_ZONES, current, total, 0, stamp);
    LateTotal(b, start, done, puzzle, current, total, stamp);
    file := Some(Lines(Snapshot(puzzle, NUM_ZONES, current, total, 0), stamp));
  }

  // ---- The file between saves ----

  /** The last of the first n turns that searched a batch and then saved; 0 if there is none. at[i] is the length of
      the log before turn i. */
  function LastSave(turns: seq<Turn>, at: seq<nat>, n: nat): (k: nat)
    requires n <= |turns| && n < |at|
    ensures k <= n
  {
    if n == 0 then 0
    else if turns[n - 1].save && at[n - 1] < at[n] then n
    else LastSave(turns, at, n - 1)
  }

  /** The file is the one found at the start, or where the session stood at its last save. */
  ghost predicate LastSaved(b: Boundary, puzzle: Int32, file0: File, file: File, turns: seq<Turn>, at: seq<nat>,
                            log0: seq<Batch>, log: seq<Batch>, count: nat)
    requires 0 < count && 0 < |at| <= |turns| + 1
  {
    var k := LastSave(turns, at, |at| - 1);
    if k == 0 then file == file0
    else |log0| <= at[k] <= |log| && Holds(b, puzzle, Loaded(puzzle, file), Loaded(puzzle, file0), log[|log0|..at[k]], count)
  }

  lemma {:induction false} LastSavePrefix(turns: seq<Turn>, at: seq<nat>, l: nat, n: nat)
    requires n <= |turns| && n < |at|
    ensures LastSave(turns, at + [l], n) == LastSave(turns, at, n)
  {
    if n > 0 { LastSavePrefix(turns, at, l, n - 1); }
  }

  /** No earlier turn ended the session: none asked for shutdown, none that searched a batch found the key; and a turn
      searches at most one batch. */
  predicate WentOn(turns: seq<Turn>, at: seq<nat>)
    requires 0 < |at| <= |turns| + 1
  {
    forall i :: 0 <= i < |at| - 1 ==>
      !turns[i].shutdown && at[i] <= at[i + 1] <= at[i] + 1 && (turns[i].found ==> at[i] == at[i + 1])
  }

  lemma GoesOn(turns: seq<Turn>, at: seq<nat>, l: nat)
    requires 0 < |at| <= |turns| && WentOn(turns, at) && !turns[|at| - 1].shutdown
    requires at[|at| - 1] <= l <= at[|at| - 1] + 1 && (turns[|at| - 1].found ==> at[|at| - 1] == l)
    ensures WentOn(turns, at + [l])
  {
    var all := at + [l];
    forall i | 0 <= i < |all| - 1
      ensures !turns[i].shutdown && all[i] <= all[i + 1] <= all[i] + 1 && (turns[i].found ==> all[i] == all[i + 1])
    {
      if i < |at| - 1 { assert all[i + 1] == at[i + 1]; }
    }
  }

  /** What holds of the file between two turns. */
  ghost predicate FileKept(b: Boundary, puzzle: Int32, file0: File, file: File, turns: seq<Turn>, at: seq<nat>,
                           log0: seq<Batch>, log: seq<Batch>, count: nat)
    requires 0 < count
  {
    && 0 < |at| <= |turns| + 1 && at[|at| - 1] == |log| && WentOn(turns, at)
    && Resumable(b, log, Loaded(puzzle, file)) && LastSaved(b, puzzle, file0, file, turns, at, log0, log, count)
  }

  lemma KeptAtStart(b: Boundary, puzzle: Int32, file0: File, turns: seq<Turn>, log0: seq<Batch>, count: nat)
    requires 0 < count && Resumable(b, log0, Loaded(puzzle, file0))
    ensures FileKept(b, puzzle, file0, file0, turns, [|log0|], log0, log0, count)
  {
    hide Resumable, Loaded, Holds;
  }

  /** A turn without a save leaves the file. */
  lemma KeptWithoutSave(b: Boundary, puzzle: Int32, file0: File, file: File, turns: seq<Turn>, at: seq<nat>,
                        log0: seq<Batch>, log: seq<Batch>, more: seq<Batch>, count: nat)
    requires 0 < count && |at| <= |turns| && FileKept(b, puzzle, file0, file, turns, at, log0, log, count)
    requires !turns[|at| - 1].shutdown && |more| <= 1
    requires more != [] ==> !turns[|at| - 1].save && !turns[|at| - 1].found
    ensures FileKept(b, puzzle, file0, file, turns, at + [|log + more|], log0, log + more, count)
  {
    hide Holds, Loaded, Resumable, WentOn;
    GoesOn(turns, at, |log + more|);
    StillResumable(b, log, more, Loaded(puzzle, file));
    LastSavePrefix(turns, at, |log + more|, |at| - 1);
    var k := LastSave(turns, at, |at| - 1);
    if k > 0 { assert (log + more)[|log0|..at[k]] == log[|log0|..at[k]]; }
  }

  lemma KeptBySave(b: Boundary, puzzle: Int32, file0: File, before: File, file: File, turns: seq<Turn>, at: seq<nat>,
                   log0: seq<Batch>, log: seq<Batch>, batch: Batch, count: nat)
    requires 0 < count && |at| <= |turns| && FileKept(b, puzzle, file0, before, turns, at, log0, log, count)
    requires !turns[|at| - 1].shutdown && !turns[|at| - 1].found && turns[|at| - 1].save
    requires log0 <= log + [batch] && Resumable(b, log + [batch], Loaded(puzzle, file))
    requires Holds(b, puzzle, Loaded(puzzle, file), Loaded(puzzle, file0), (log + [batch])[|log0|..], count)
    ensures FileKept(b, puzzle, file0, file, turns, at + [|log + [batch]|], log0, log + [batch], count)
  {
    hide Holds, Loaded, Resumable, WentOn;
    var all := log + [batch];
    GoesOn(turns, at, |all|);
    assert all[|log0|..|all|] == all[|log0|..];
  }

  lemma KeptFacts(b: Boundary, puzzle: Int32, file0: File, file: File, turns: seq<Turn>, at: seq<nat>,
                  log0: seq<Batch>, log: seq<Batch>, more: seq<Batch>, count: nat)
    requires 0 < count && FileKept(b, puzzle, file0, file, turns, at, log0, log, count)
    ensures 0 < |at| <= |turns| + 1 && WentOn(turns, at) && LastSaved(b, puzzle, file0, file, turns, at, log0, log, count)
    ensures Resumable(b, log, Loaded(puzzle, file)) && Resumable(b, log + more, Loaded(puzzle, file))
  {
    hide LastSaved, Resumable, Loaded, WentOn;
    StillResumable(b, log, more, Loaded(puzzle, file));
  }

  /** A search from scratch, or from the saved position; the turns end where the process is killed. With several
      puzzles in a row the loop is left normally when a key is found, so that a late shutdown still saves. The file
      is left as the last save put it: the one asked for by a shutdown, or one of those in between. */
  method Session(b: Boundary, puzzle: Int32, file0: File, multi: bool, count: U64, turns: seq<Turn>, stamp: string,
                 ghost log0: seq<Batch>)
    returns (file: File, outcome: Outcome, ghost log: seq<Batch>, ghost at: seq<nat>)
    requires Monotone(b) && 0 < count && At(b(100)) + count <= B * B
    requires Resumable(b, log0, Loaded(puzzle, file0))
    ensures Resumable(b, log, Loaded(puzzle, file))
    ensures log0 <= log <= log0 + ToDo(b, Loaded(puzzle, file0), count)
    ensures outcome == AllZonesSearched ==> Complete(b, log) && log == log0 + ToDo(b, Loaded(puzzle, file0), count)
    ensures outcome == NoSuchZone <==> Resumes(Loaded(puzzle, file0)) && Loaded(puzzle, file0).zoneIdx >= NUM_ZONES
    ensures outcome == NoSuchZone ==> Complete(b, log0) && log == log0 && file == file0
    ensures 0 < |at| <= |turns| + 1 && WentOn(turns, at) && |at| - 1 < |log| - |log0| + NUM_ZONES
    ensures outcome == Killed <==> outcome != NoSuchZone && |at| == |turns| + 1
    ensures outcome == ShutDown <==> outcome != NoSuchZone && |at| <= |turns| && turns[|at| - 1].shutdown
    ensures outcome == ShutDown ==> Holds(b, puzzle, Loaded(puzzle, file), Loaded(puzzle, file0), log[|log0|..], count)
    ensures outcome == Killed || (outcome == AllZonesSearched && !turns[|at| - 1].late) ==>
      LastSaved(b, puzzle, file0, file, turns, at, log0, log, count)
    ensures outcome == AllZonesSearched && turns[|at| - 1].late ==>
      PastTheEnd(Loaded(puzzle, file), Loaded(puzzle, file0), log[|log0|..])
    ensures outcome == KeyFound ==> turns[|at| - 1].found && |log| > |log0|
    ensures outcome == KeyFound ==>
      if multi && turns[|at| - 1].late
      then Holds(b, puzzle, Loaded(puzzle, file), Loaded(puzzle, file0), log[|log0|..|log| - 1], count)
      else file == None
  {
    hide Progress, Resumable, Loaded, Lines, WithinBounds, Complete, ZoneBatches, BatchesFrom, Snapshot, Running, Holds,
         LastSaved, LastSave, ToDo, PastTheEnd, WentOn, At, ZoneStart, ZoneEnd, Monotone, Blank, Counts, Carried, FileKept;
    file, log, at := file0, log0, [|log0|];
    var saved := LoadPuzzleState(puzzle, file0);
    var zone: nat, current: Position, total: U64, zoneChecked: U64 := 0, b(ZONES[0].0), 0, 0;
    KeptAtStart(b, puzzle, file0, turns, log0, count);
    KeptFacts(b, puzzle, file0, file0, turns, at, log0, log0, [], count);
    if saved.valid && saved.totalChecked > 0 {
      zone, current := saved.zoneIdx, Position(saved.positionHi, saved.positionLo);
      total, zoneChecked := saved.totalChecked, saved.zoneChecked;
      RunningFromSaved(b, saved, log0, count);
      if zone >= NUM_ZONES {
        outcome := NoSuchZone;
        return;
      }
    } else {
      RunningFromScratch(b, saved, log0, count);
    }
    var end := b(ZONES[zone].1);
    ghost var zone0 := zone;
    for n := 0 to |turns|
      invariant zone0 <= zone < NUM_ZONES && end == b(ZONES[zone].1)
      invariant Running(b, saved, log0, log, zone, current, total, zoneChecked, count)
      invariant |at| == n + 1 && n <= |log| - |log0| + zone - zone0
      invariant FileKept(b, puzzle, file0, file, turns, at, log0, log, count)
    {
      var turn := turns[n];
      ZoneInside(b, zone);
      RunningInside(b, saved, log0, log, zone, current, total, zoneChecked, count);
      KeptFacts(b, puzzle, file0, file, turns, at, log0, log, [Batch(At(current), count)], count);
      if turn.shutdown {
        file := Write(b, saved, log0, log, puzzle, zone, current, total, zoneChecked, count, stamp);
        outcome := ShutDown;
        return;
      }
      var done := ZoneFinished(current, end);
      if done {
        RunningInNextZone(b, saved, log0, log, zone, current, total, zoneChecked, count);
        zone := zone + 1;
        zoneChecked := 0;
        if zone >= NUM_ZONES {
          if turn.late { file := WriteLate(b, saved, log[|log0|..], log, puzzle, current, total, stamp); }
          outcome := AllZonesSearched;
          return;
        }
        end := b(ZONES[zone].1);
        current := b(ZONES[zone].0);
        KeptWithoutSave(b, puzzle, file0, file, turns, at, log0, log, [], count);
        assert log + [] == log;
        at := at + [|log|];
      } else {
        ghost var before, from := log, current;
        log := log + [Batch(At(current), count)];
        if turn.found {
          file := None;
          BlankResumable(b, log, puzzle);
          if multi && turn.late {
            file := Write(b, saved, log0, before, puzzle, zone, current, total, zoneChecked, count, stamp);
            StillResumable(b, before, [Batch(At(current), count)], Loaded(puzzle, file));
          }
          outcome := KeyFound;
          return;
        }
        var next := Advance(current, count);
        RunningAfterBatch(b, saved, log0, before, zone, current, total, zoneChecked, count, next);
        total := (total + count) % B;
        zoneChecked := (zoneChecked + count) % B;
        current := next;
        if turn.save {
          ghost var held := file;
          file := Write(b, saved, log0, log, puzzle, zone, current, total, zoneChecked, count, stamp);
          KeptBySave(b, puzzle, file0, held, file, turns, at, log0, before, Batch(At(from), count), count);
        } else {
          KeptWithoutSave(b, puzzle, file0, file, turns, at, log0, before, [Batch(At(from), count)], count);
        }
        at := at + [|log|];
      }
    }
    RunningInside(b, saved, log0, log, zone, current, total, zoneChecked, count);
    KeptFacts(b, puzzle, file0, file, turns, at, log0, log, [], count);
    outcome := Killed;
  }

  /** The order of the zones: the upper middle of the range first, its two ends last. */
  lemma SearchOrder(b: Boundary, count: nat)
    requires 0 < count
    ensures BatchesFrom(b, 0, count)
         == ZoneBatches(At(b(60)), At(b(85)), count) + (ZoneBatches(At(b(30)), At(b(50)), count)
          + (ZoneBatches(At(b(50)), At(b(60)), count) + (ZoneBatches(At(b(85)), At(b(100)), count)
          + ZoneBatches(At(b(0)), At(b(30)), count))))
  {
    hide ZoneBatches;
    assert BatchesFrom(b, 5, count) == [];
    assert BatchesFrom(b, 4, count) == ZoneBatches(ZoneStart(b, 4), ZoneEnd(b, 4), count) + [];
    assert BatchesFrom(b, 3, count) == ZoneBatches(ZoneStart(b, 3), ZoneEnd(b, 3), count) + BatchesFrom(b, 4, count);
    assert BatchesFrom(b, 2, count) == ZoneBatches(ZoneStart(b, 2), ZoneEnd(b, 2), count) + BatchesFrom(b, 3, count);
    assert BatchesFrom(b, 1, count) == ZoneBatches(ZoneStart(b, 1), ZoneEnd(b, 1), count) + BatchesFrom(b, 2, count);
  }

  // ---- Any number of sessions ----

  /** One start of the program: its batch size, its turns, and whether the state file was lost before it. */
  datatype Start = Start(multi: bool, count: U64, turns: seq<Turn>, stamp: string, lost: bool)

  /** However often the search is killed, stopped and resumed, once a session has searched all zones the whole
      range but its last key has been searched. */
  method Search(b: Boundary, puzzle: Int32, starts: seq<Start>) returns (outcomes: seq<Outcome>, ghost log: seq<Batch>)
    requires Monotone(b) && forall i :: 0 <= i < |starts| ==> 0 < starts[i].count <= B * B - At(b(100))
    ensures |outcomes| == |starts|
    ensures (exists i :: 0 <= i < |outcomes| && (outcomes[i] == AllZonesSearched || outcomes[i] == NoSuchZone)) ==>
        Swept(log, At(b(0)), At(b(100)))
  {
    hide *;
    var file: File := None;
    outcomes, log := [], [];
    BlankResumable(b, log, puzzle);
    for n := 0 to |starts|
      invariant |outcomes| == n && Resumable(b, log, Loaded(puzzle, file))
      invariant (exists i :: 0 <= i < n && (outcomes[i] == AllZonesSearched || outcomes[i] == NoSuchZone)) ==> Complete(b, log)
    {
      if starts[n].lost {
        file := None;
        BlankResumable(b, log, puzzle);
      }
      var outcome;
      ghost var before := log;
      ghost var at;
      file, outcome, log, at := Session(b, puzzle, file, starts[n].multi, starts[n].count,
                                        starts[n].turns, starts[n].stamp, log);
      if Complete(b, before) { MoreComplete(b, before, log); }
      outcomes := outcomes + [outcome];
    }
    if Complete(b, log) { CompleteCovers(b, log); }
  }

  lemma MoreComplete(b: Boundary, log: seq<Batch>, more: seq<Batch>)
    requires Complete(b, log) && log <= more
    ensures Complete(b, more)
  {
    assert more == log + more[|log|..];
    forall z | 0 <= z < NUM_ZONES ensures Swept(more, ZoneStart(b, z), ZoneEnd(b, z)) {
      MoreSearched(log, more[|log|..], ZoneStart(b, z), ZoneEnd(b, z));
    }
  }

  // ---- The last key of the range ----

  lemma {:induction false} ReachesPast(pos: nat, end: nat, count: nat)
    requires 0 < count && pos < end
    ensures end <= Reach(pos, end, count) < end + count
    ensures Reach(pos, end, count) == end <==> (end - pos) % count == 0
    decreases end - pos
  {
    if pos + count < end {
      ReachesPast(pos + count, end, count);
      SameResidue(end - pos, count);
    } else {
      assert Reach(pos + count, end, count) == pos + count;
      if pos + count > end { DivModUnique(end - pos, count, 0, end - pos); } else { DivModUnique(count, count, 1, 0); }
    }
  }

  lemma SameResidue(x: nat, m: nat)
    requires 0 < m <= x
    ensures x % m == (x - m) % m
  {
    DivModUnique(x, m, (x - m) / m + 1, (x - m) % m);
  }

  lemma SearchedConcat(a: seq<Batch>, b: seq<Batch>, k: int)
    ensures Searched(a + b, k) <==> Searched(a, k) || Searched(b, k)
  {
    if Searched(a, k) {
      var i :| 0 <= i < |a| && a[i].first <= k < a[i].first + a[i].count;
      assert (a + b)[i] == a[i];
    }
    if Searched(b, k) {
      var i :| 0 <= i < |b| && b[i].first <= k < b[i].first + b[i].count;
      assert (a + b)[|a| + i] == b[i];
    }
  }

  /** A key at or past a zone's end is searched with the zone exactly if the last batch runs over it. */
  lemma {:induction false} OverrunSearched(pos: nat, end: nat, count: nat, k: nat)
    requires 0 < count && pos <= k && end <= k
    ensures Searched(ZoneBatches(pos, end, count), k) <==> pos < end && k < Reach(pos, end, count)
    decreases end - pos
  {
    hide Searched;
    if pos < end {
      SearchedConcat([Batch(pos, count)], ZoneBatches(pos + count, end, count), k);
      SearchedSingle(Batch(pos, count), k);
      if pos + count < end { OverrunSearched(pos + count, end, count, k); } else { NothingSearched(k); }
    } else {
      NothingSearched(k);
    }
  }

  lemma SearchedSingle(batch: Batch, k: int)
    ensures Searched([batch], k) <==> batch.first <= k < batch.first + batch.count
  {
    assert [batch][0] == batch;
  }

  lemma NothingSearched(k: int)
    ensures !Searched([], k)
  {}

  /** An undisturbed search covers a key at or past the upper boundary exactly if the batches of some zone run
      over it. */
  lemma PastEndIff(b: Boundary, count: nat, k: nat)
    requires Monotone(b) && 0 < count && At(b(100)) <= k
    ensures Searched(BatchesFrom(b, 0, count), k)
       <==> exists z :: 0 <= z < NUM_ZONES && ZoneStart(b, z) < ZoneEnd(b, z) && k < Reach(ZoneStart(b, z), ZoneEnd(b, z), count)
  {
    hide Searched, ZoneBatches, Reach;
    forall z | 0 <= z < NUM_ZONES
      ensures Searched(ZoneBatches(ZoneStart(b, z), ZoneEnd(b, z), count), k)
          <==> ZoneStart(b, z) < ZoneEnd(b, z) && k < Reach(ZoneStart(b, z), ZoneEnd(b, z), count)
    {
      ZoneInside(b, z);
      OverrunSearched(ZoneStart(b, z), ZoneEnd(b, z), count, k);
    }
    SomeZone(b, count, k);
  }

  /** The batches of the search are those of its zones. */
  lemma SomeZone(b: Boundary, count: nat, k: int)
    requires 0 < count
    ensures Searched(BatchesFrom(b, 0, count), k)
       <==> exists z :: 0 <= z < NUM_ZONES && Searched(ZoneBatches(ZoneStart(b, z), ZoneEnd(b, z), count), k)
  {
    hide Searched, ZoneBatches;
    NothingSearched(k);
    FromZone(b, 4, count, k);
    FromZone(b, 3, count, k);
    FromZone(b, 2, count, k);
    FromZone(b, 1, count, k);
    FromZone(b, 0, count, k);
  }

  /** The last key of the range. If it lies below the upper boundary, every undisturbed search covers it. If it is
      the boundary itself, it belongs to no zone, and an undisturbed search with a nonempty upper zone reaches it
      exactly if that zone is not a whole number of batches. */
  lemma LastKeyIff(b: Boundary, count: nat, last: nat)
    requires Monotone(b) && 0 < count && At(b(0)) <= last <= At(b(100))
    ensures last < At(b(100)) ==> Searched(BatchesFrom(b, 0, count), last)
    ensures last == At(b(100)) && At(b(85)) < last ==>
      (Searched(BatchesFrom(b, 0, count), last) <==> (last - At(b(85))) % count != 0)
  {
    hide Searched, ZoneBatches, Reach;
    if last < At(b(100)) {
      ZonesTile(b, last);
      var z :| 0 <= z < NUM_ZONES && ZoneStart(b, z) <= last < ZoneEnd(b, z);
      InZoneSearched(ZoneStart(b, z), ZoneEnd(b, z), count, last);
      SomeZone(b, count, last);
    } else if At(b(85)) < last {
      PastEndIff(b, count, last);
      ReachesPast(At(b(85)), last, count);
      assert ZoneStart(b, 3) == At(b(85)) && ZoneEnd(b, 3) == last;
      if (last - At(b(85))) % count == 0 {
        WholeBatches(last - At(b(85)), count);
        forall z | 0 <= z < NUM_ZONES && ZoneStart(b, z) < ZoneEnd(b, z)
          ensures Reach(ZoneStart(b, z), ZoneEnd(b, z), count) <= last
        {
          ReachesPast(ZoneStart(b, z), ZoneEnd(b, z), count);
          assert z != 3 ==> ZoneEnd(b, z) <= At(b(85));
        }
      }
    }
  }

  lemma WholeBatches(n: nat, count: nat)
    requires 0 < count && 0 < n && n % count == 0
    ensures count <= n
  {
    if n < count { DivModUnique(n, count, 0, n); }
  }

  /** A key of a zone is searched with the zone. */
  lemma {:induction false} InZoneSearched(pos: nat, end: nat, count: nat, k: nat)
    requires 0 < count && pos <= k < end
    ensures Searched(ZoneBatches(pos, end, count), k)
    decreases end - pos
  {
    hide Searched;
    SearchedConcat([Batch(pos, count)], ZoneBatches(pos + count, end, count), k);
    SearchedSingle(Batch(pos, count), k);
    if pos + count <= k { InZoneSearched(pos + count, end, count, k); }
  }

  lemma FromZone(b: Boundary, zone: nat, count: nat, k: int)
    requires zone < NUM_ZONES && 0 < count
    ensures Searched(BatchesFrom(b, zone, count), k)
        <==> Searched(ZoneBatches(ZoneStart(b, zone), ZoneEnd(b, zone), count), k) || Searched(BatchesFrom(b, zone + 1, count), k)
    ensures zone == 4 ==> BatchesFrom(b, zone + 1, count) == []
  {
    hide Searched;
    SearchedConcat(ZoneBatches(ZoneStart(b, zone), ZoneEnd(b, zone), count), BatchesFrom(b, zone + 1, count), k);
  }

  /** A shutdown that comes after the last zone saves a zone index past the table, which loads as valid. */
  lemma LateShutdownSticks(puzzle: Int32, current: Position, total: U64, stamp: string)
    requires total > 0 && WithinBounds(Snapshot(puzzle, NUM_ZONES, current, total, 0))
    ensures Resumes(Loaded(puzzle, Some(Lines(Snapshot(puzzle, NUM_ZONES, current, total, 0), stamp))))
    ensures Loaded(puzzle, Some(Lines(Snapshot(puzzle, NUM_ZONES, current, total, 0), stamp))).zoneIdx >= NUM_ZONES
  {
    hide Loaded, Lines, WithinBounds;
    SaveLoad(Snapshot(puzzle, NUM_ZONES, current, total, 0), stamp, puzzle);
  }
}
