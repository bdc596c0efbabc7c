/** The pool server's tables: workers, work assignments, distinguished points and solutions. */
module PoolServer {
  import opened Results
  import opened Limbs
  import opened Wire
  import ScalarMul

  const CHUNK_SIZE: int := 0x1_0000_0000_0000
  const NUM_CHUNKS: int := CHUNK_SIZE * 0x40_0000_0000
  const RANGE_START: int := NUM_CHUNKS * CHUNK_SIZE
  const RANGE_END: int := 2 * RANGE_START - 1
  const CHUNK_TIMEOUT := 1800.0
  const OFFLINE := 300.0
  const DRAWS := 300
  const SQLITE_INTEGERS: int := 0x8000_0000_0000_0000

  type Word = x: int | 0 <= x < TWO256

  datatype Name = Name(text: string)
  datatype Worker = Worker(totalDps: nat, lastSeen: real)
  datatype Status = Active | Expired | Completed
  datatype Assignment = Assignment(workId: nat, worker: Name, rangeStart: int, rangeEnd: int, assignedAt: real, status: Status)
  datatype Submission = Submission(workId: U64, sequence: Option<U32>, x: Word, d: Word, kind: int, dpBits: int)
  datatype DpRow = DpRow(worker: Name, dp: Submission)
  datatype Solution = Solution(key: nat, foundBy: Name, workId: Option<nat>)
  datatype Assigned = Assigned(workId: nat, rangeStart: int, rangeEnd: int)

  datatype Tables = Tables(
    workers: map<Name, Worker>,
    assignments: seq<Assignment>,
    dps: seq<DpRow>,
    solutions: seq<Solution>,
    nextWorkId: nat)

  // ---- What each helper does to the tables ----

  function AfterConnect(t: Tables, worker: Name, now: real): Tables {
    t.(workers := t.workers[worker := Worker(if worker in t.workers then t.workers[worker].totalDps else 0, now)])
  }

  /** Active assignments end when too old, when their worker has gone quiet, and when their worker asks again. */
  predicate Ends(a: Assignment, workers: map<Name, Worker>, worker: Name, now: real) {
    a.status.Active? &&
    (a.assignedAt < now - CHUNK_TIMEOUT
     || (a.worker in workers && workers[a.worker].lastSeen < now - OFFLINE)
     || a.worker == worker)
  }

  function Ended(rows: seq<Assignment>, workers: map<Name, Worker>, worker: Name, now: real): (r: seq<Assignment>)
    ensures |r| == |rows|
    ensures forall i :: 0 <= i < |rows| ==>
        r[i] == if Ends(rows[i], workers, worker, now) then rows[i].(status := Expired) else rows[i]
  {
    seq(|rows|, i requires 0 <= i < |rows| =>
      if Ends(rows[i], workers, worker, now) then rows[i].(status := Expired) else rows[i])
  }

  predicate ChunkTaken(rows: seq<Assignment>, start: int) {
    exists i :: 0 <= i < |rows| && rows[i].rangeStart == start && !rows[i].status.Expired?
  }

  function ChunkStart(chunk: int): int {
    RANGE_START + chunk * CHUNK_SIZE
  }

  /** The first draw whose chunk is free; the number of draws if there is none. */
  function FirstFree(rows: seq<Assignment>, draws: seq<nat>): (k: nat)
    ensures k <= |draws|
    ensures forall j :: 0 <= j < k ==> ChunkTaken(rows, ChunkStart(draws[j]))
    ensures k < |draws| ==> !ChunkTaken(rows, ChunkStart(draws[k]))
  {
    if draws == [] || !ChunkTaken(rows, ChunkStart(draws[0])) then 0 else 1 + FirstFree(rows, draws[1..])
  }

  function NewAssignment(t: Tables, worker: Name, later: real, chunk: nat): Assignment {
    Assignment(t.nextWorkId, worker, ChunkStart(chunk), ChunkStart(chunk) + CHUNK_SIZE - 1, later, Active)
  }

  function AfterAssign(t: Tables, worker: Name, now: real, later: real, draws: seq<nat>): Tables {
    var rows := Ended(t.assignments, t.workers, worker, now);
    var k := FirstFree(rows, draws);
    if k == |draws| then t.(assignments := rows)
    else t.(assignments := rows + [NewAssignment(t, worker, later, draws[k])], nextWorkId := t.nextWorkId + 1)
  }

  predicate Storable(dps: seq<Submission>) {
    forall i :: 0 <= i < |dps| ==> dps[i].workId < SQLITE_INTEGERS
  }

  function Rows(worker: Name, dps: seq<Submission>): (rows: seq<DpRow>)
    ensures |rows| == |dps| && forall i :: 0 <= i < |dps| ==> rows[i] == DpRow(worker, dps[i])
  {
    seq(|dps|, i requires 0 <= i < |dps| => DpRow(worker, dps[i]))
  }

  function AfterSave(t: Tables, worker: Name, now: real, dps: seq<Submission>): Tables {
    if !Storable(dps) || dps == [] then t
    else
      var u := t.(dps := t.dps + Rows(worker, dps));
      if worker in t.workers
      then u.(workers := t.workers[worker := Worker(t.workers[worker].totalDps + |dps|, now)])
      else u
  }

  function AfterSolution(t: Tables, key: nat, worker: Name, workId: Option<nat>): Tables {
    t.(solutions := t.solutions + [Solution(key, worker, workId)])
  }

  // ---- Collisions ----

  /** Two distances to a key; a zero difference gives none. */
  function ComputeKey(tame: Word, wild: Word): Option<nat> {
    var key := (tame - wild) % ScalarMul.N;
    if key != 0 then Some(key) else None
  }

  predicate Matches(row: DpRow, dp: Submission) {
    row.dp.x == dp.x && row.dp.kind != dp.kind
  }

  /** The key of a pair of points: both orders are tried, the submitted point's distance first. */
  function PairKey(dp: Submission, other: Submission, verify: nat -> bool): Option<nat> {
    var a, b := ComputeKey(dp.d, other.d), ComputeKey(other.d, dp.d);
    if a.Some? && verify(a.value) then a else if b.Some? && verify(b.value) then b else None
  }

  /** What check_collision may answer, its query being free to return any matching row. */
  predicate MayFind(rows: seq<DpRow>, dps: seq<Submission>, verify: nat -> bool, found: Option<nat>) {
    match found
    case Some(key) =>
      exists i, r :: 0 <= i < |dps| && 0 <= r < |rows| && Matches(rows[r], dps[i])
        && PairKey(dps[i], rows[r].dp, verify) == Some(key)
    case None =>
      forall i :: 0 <= i < |dps| ==> NoKey(rows, dps[i], verify)
  }

  predicate NoKey(rows: seq<DpRow>, dp: Submission, verify: nat -> bool) {
    (forall r :: 0 <= r < |rows| ==> !Matches(rows[r], dp))
    || exists r :: 0 <= r < |rows| && Matches(rows[r], dp) && PairKey(dp, rows[r].dp, verify) == None
  }

  datatype Reply = Notify(key: nat) | WorkReply(work: Assigned) | ErrorReply | Ack | Silence | Dropped

  class PoolDb {
    var workers: map<Name, Worker>
    var assignments: seq<Assignment>
    var dps: seq<DpRow>
    var solutions: seq<Solution>
    var nextWorkId: nat

    ghost function Value(): Tables
      reads this
    {
      Tables(workers, assignments, dps, solutions, nextWorkId)
    }

    constructor ()
      ensures Value() == Tables(map[], [], [], [], 1)
    {
      workers, assignments, dps, solutions, nextWorkId := map[], [], [], [], 1;
    }

    method UpsertWorker(worker: Name, now: real)
      modifies this`workers
      ensures Value() == AfterConnect(old(Value()), worker, now)
    {
      if worker in workers {
        workers := workers[worker := workers[worker].(lastSeen := now)];
      } else {
        workers := workers[worker := Worker(0, now)];
      }
    }

    /** draws are the random chunk numbers; at most 300 are tried. */
    method AssignWork(worker: Name, now: real, later: real, draws: seq<nat>) returns (r: Result<Assigned>)
      requires |draws| == DRAWS && forall k :: 0 <= k < |draws| ==> draws[k] < NUM_CHUNKS
      modifies this`assignments, this`nextWorkId
      ensures Value() == AfterAssign(old(Value()), worker, now, later, draws)
      ensures r == if |assignments| == |old(assignments)| then Err("No free chunks")
                   else var a := assignments[|assignments| - 1]; Ok(Assigned(a.workId, a.rangeStart, a.rangeEnd))
    {
      ghost var was := assignments;
      assignments := seq(|assignments|, i requires 0 <= i < |assignments| reads this =>
        var a := assignments[i];
        if a.status.Active? && a.assignedAt < now - CHUNK_TIMEOUT then a.(status := Expired) else a);
      assignments := seq(|assignments|, i requires 0 <= i < |assignments| reads this =>
        var a := assignments[i];
        if a.status.Active? && a.worker in workers && workers[a.worker].lastSeen < now - OFFLINE
        then a.(status := Expired) else a);
      assignments := seq(|assignments|, i requires 0 <= i < |assignments| reads this =>
        var a := assignments[i];
        if a.status.Active? && a.worker == worker then a.(status := Expired) else a);
      assert assignments == Ended(was, workers, worker, now);
      hide Ends, Ended;
      for n := 0 to DRAWS
        invariant assignments == Ended(was, workers, worker, now) && nextWorkId == old(nextWorkId)
        invariant forall j :: 0 <= j < n ==> ChunkTaken(assignments, ChunkStart(draws[j]))
      {
        var chunk := draws[n];
        var rs := RANGE_START + chunk * CHUNK_SIZE;
        var re := if rs + CHUNK_SIZE - 1 < RANGE_END then rs + CHUNK_SIZE - 1 else RANGE_END;
        if ChunkTaken(assignments, rs) { continue; }
        FirstFreeIs(assignments, draws, n);
        ChunkInside(chunk);
        assignments := assignments + [Assignment(nextWorkId, worker, rs, re, later, Active)];
        nextWorkId := nextWorkId + 1;
        return Ok(Assigned(nextWorkId - 1, rs, re));
      }
      FirstFreeIs(assignments, draws, DRAWS);
      return Err("No free chunks");
    }

    /** No constraint on the dps table can make an insert be ignored, so a saved batch is credited in full;
        a work id SQLite cannot hold fails the whole batch. */
    method SaveDps(worker: Name, now: real, batch: seq<Submission>) returns (r: Result<nat>)
      modifies this`dps, this`workers
      ensures Value() == AfterSave(old(Value()), worker, now, batch)
      ensures r == if Storable(batch) then Ok(|batch|) else Err("OverflowError")
    {
      var rows := dps;
      var accepted := 0;
      for i := 0 to |batch|
        invariant accepted == i && Storable(batch[..i]) && rows == dps + Rows(worker, batch[..i])
      {
        if batch[i].workId >= SQLITE_INTEGERS {
          return Err("OverflowError");
        }
        rows := rows + [DpRow(worker, batch[i])];
        assert Rows(worker, batch[..i + 1]) == Rows(worker, batch[..i]) + [DpRow(worker, batch[i])];
        accepted := accepted + 1;
      }
      assert batch[..|batch|] == batch;
      if accepted > 0 && worker in workers {
        workers := workers[worker := Worker(workers[worker].totalDps + accepted, now)];
      }
      dps := rows;
      return Ok(accepted);
    }

    /** The query's LIMIT 1 is any matching row. */
    method CheckCollision(batch: seq<Submission>, verify: nat -> bool) returns (found: Option<nat>)
      ensures MayFind(dps, batch, verify, found)
    {
      for i := 0 to |batch|
        invariant forall j :: 0 <= j < i ==> NoKey(dps, batch[j], verify)
      {
        var dp := batch[i];
        if r: nat :| r < |dps| && Matches(dps[r], dp) {
          var other := dps[r].dp;
          var candidate := ComputeKey(dp.d, other.d);
          if candidate.Some? && verify(candidate.value) {
            assert PairKey(batch[i], dps[r].dp, verify) == candidate;
            return candidate;
          }
          candidate := ComputeKey(other.d, dp.d);
          if candidate.Some? && verify(candidate.value) {
            assert PairKey(batch[i], dps[r].dp, verify) == candidate;
            return candidate;
          }
        }
      }
      return None;
    }

    method HandleWorkReq(worker: Name, now: real, later: real, draws: seq<nat>) returns (reply: Reply)
      requires |draws| == DRAWS && forall k :: 0 <= k < |draws| ==> draws[k] < NUM_CHUNKS
      modifies this`assignments, this`nextWorkId
      ensures old(solutions) != [] ==> Value() == old(Value()) && reply == Notify(solutions[|solutions| - 1].key)
      ensures old(solutions) == [] ==> Value() == AfterAssign(old(Value()), worker, now, later, draws)
      ensures old(solutions) == [] ==>
          if |assignments| == |old(assignments)| then reply == ErrorReply
          else reply == WorkReply(var a := assignments[|assignments| - 1]; Assigned(a.workId, a.rangeStart, a.rangeEnd))
    {
      if solutions != [] { return Notify(solutions[|solutions| - 1].key); }
      var r := AssignWork(worker, now, later, draws);
      match r
      case Ok(work) => return WorkReply(work);
      case Err(_) => return ErrorReply;
    }

    method HandleDpBatch(worker: Name, workId: Option<nat>, now: real, batch: seq<Submission>, verify: nat -> bool)
      returns (reply: Reply)
      modifies this`dps, this`workers, this`solutions
      ensures batch == [] ==> Value() == old(Value()) && reply == Ack
      ensures batch != [] && old(solutions) != [] ==>
          Value() == old(Value()) && reply == Notify(solutions[|solutions| - 1].key)
      ensures batch != [] && old(solutions) == [] && !Storable(batch) ==> Value() == old(Value()) && reply == Dropped
      ensures batch != [] && old(solutions) == [] && Storable(batch) ==>
          var saved := AfterSave(old(Value()), worker, now, batch);
          match reply
          case Notify(key) =>
            MayFind(saved.dps, batch, verify, Some(key)) && Value() == AfterSolution(saved, key, worker, workId)
            && solutions == [Solution(key, worker, workId)]
          case Ack => MayFind(saved.dps, batch, verify, None) && Value() == saved
          case _ => false
    {
      if batch == [] { return Ack; }
      if solutions != [] { return Notify(solutions[|solutions| - 1].key); }
      var saved := SaveDps(worker, now, batch);
      if saved.Err? { return Dropped; }
      var found := CheckCollision(batch, verify);
      if found.Some? {
        solutions := solutions + [Solution(found.value, worker, workId)];
        return Notify(found.value);
      }
      return Ack;
    }

    method HandleSolution(worker: Name, workId: Option<nat>, key: nat, verify: nat -> bool) returns (reply: Reply)
      modifies this`solutions
      ensures if verify(key) then Value() == AfterSolution(old(Value()), key, worker, workId) && reply == Notify(key)
              else Value() == old(Value()) && reply == Silence
      ensures solutions == if verify(key) then old(solutions) + [Solution(key, worker, workId)] else old(solutions)
    {
      if !verify(key) { return Silence; }
      solutions := solutions + [Solution(key, worker, workId)];
      return Notify(key);
    }
  }

  lemma {:induction false} FirstFreeIs(rows: seq<Assignment>, draws: seq<nat>, k: nat)
    requires k <= |draws| && forall j :: 0 <= j < k ==> ChunkTaken(rows, ChunkStart(draws[j]))
    requires k < |draws| ==> !ChunkTaken(rows, ChunkStart(draws[k]))
    ensures FirstFree(rows, draws) == k
    decreases |draws|
  {
    if k > 0 { FirstFreeIs(rows, draws[1..], k - 1); }
  }

  /** Chunks lie inside the range, so the end of the range never cuts one short. */
  lemma ChunkInside(chunk: nat)
    requires chunk < NUM_CHUNKS
    ensures RANGE_START <= ChunkStart(chunk) && ChunkStart(chunk) + CHUNK_SIZE - 1 <= RANGE_END
  {}

  /** The chunks tile the range: every key is in exactly one. */
  lemma ChunksTile(key: int, chunk: nat)
    requires RANGE_START <= key <= RANGE_END && chunk < NUM_CHUNKS
    ensures 0 <= (key - RANGE_START) / CHUNK_SIZE < NUM_CHUNKS
    ensures ChunkStart(chunk) <= key <= ChunkStart(chunk) + CHUNK_SIZE - 1 <==> chunk == (key - RANGE_START) / CHUNK_SIZE
  {}
}
