/** How long an assignment lasts: what ends it, what leaves it alone, and when its chunk goes out again. */
module PoolLeases {
  import opened Results
  import opened PoolServer
  import opened PoolServerRun

  // ---- One request for work ----

  /** An active assignment ends when it is more than 1800 seconds old, when its worker is known and was last seen more
      than 300 seconds ago, and when its worker is the one that asks. Nothing else of a row changes, nor any other row. */
  lemma AssignEnds(t: Tables, asking: Name, now: real, later: real, draws: seq<nat>, i: nat)
    requires i < |t.assignments|
    ensures i < |AfterAssign(t, asking, now, later, draws).assignments|
    ensures var a, b := t.assignments[i], AfterAssign(t, asking, now, later, draws).assignments[i];
      if a.status == Active && (now - a.assignedAt > 1800.0 || a.worker == asking) then b == a.(status := Expired)
      else if a.status == Active && a.worker in t.workers && now - t.workers[a.worker].lastSeen > 300.0
      then b == a.(status := Expired)
      else b == a
  {}

  /** A row is added unless every draw is taken. It is active, belongs to the worker that asked, and is the chunk of the
      first draw that no active or completed row has. */
  lemma AssignAdds(t: Tables, asking: Name, now: real, later: real, draws: seq<nat>)
    ensures |t.assignments| <= |AfterAssign(t, asking, now, later, draws).assignments| <= |t.assignments| + 1
    ensures var rows, n := AfterAssign(t, asking, now, later, draws).assignments, |t.assignments|;
      if |rows| == n then forall k :: 0 <= k < |draws| ==> ChunkTaken(rows, ChunkStart(draws[k]))
      else
        && rows[n].worker == asking && rows[n].status == Active && rows[n].assignedAt == later && rows[n].workId == t.nextWorkId
        && (exists k :: 0 <= k < |draws| && rows[n].rangeStart == ChunkStart(draws[k])
              && forall j :: 0 <= j < k ==> ChunkTaken(rows[..n], ChunkStart(draws[j])))
        && rows[n].rangeEnd - rows[n].rangeStart == 0xffff_ffff_ffff
        && forall i :: 0 <= i < n && rows[i].rangeStart == rows[n].rangeStart ==> rows[i].status == Expired
  {
    hide Ends;
    var rows, all := Ended(t.assignments, t.workers, asking, now), AfterAssign(t, asking, now, later, draws).assignments;
    var k := FirstFree(rows, draws);
    if k < |draws| {
      assert all[..|rows|] == rows;
      assert all[|rows|].rangeStart == ChunkStart(draws[k]);
    }
  }

  // ---- Runs ----

  /** Step k of a run is a request for work that finds the worker of a row asking again, gone quiet, or late. */
  predicate EndsAt(t: Tables, steps: seq<Step>, verify: nat -> bool, k: int, a: Assignment)
    requires 0 <= k < |steps|
  {
    steps[k].Assign? && var workers := Run(t, steps[..k], verify).workers;
      (steps[k].now - a.assignedAt > 1800.0 || steps[k].worker == a.worker
       || (a.worker in workers && steps[k].now - workers[a.worker].lastSeen > 300.0))
  }

  lemma RowStep(t: Tables, e: Step, verify: nat -> bool, i: nat)
    requires i < |t.assignments|
    ensures i < |After(t, e, verify).assignments|
    ensures After(t, e, verify).assignments[i]
         == if t.assignments[i].status == Active && EndsAt(t, [e], verify, 0, t.assignments[i])
            then t.assignments[i].(status := Expired) else t.assignments[i]
  {
    if e.Assign? {
      AssignEnds(t, e.worker, e.now, e.later, e.draws, i);
      assert Run(t, [e][..0], verify) == t;
    }
  }

  lemma LaterEnds(t: Tables, steps: seq<Step>, verify: nat -> bool, k: nat, a: Assignment)
    requires k < |steps|
    ensures k == 0 ==> EndsAt(t, steps, verify, k, a) == EndsAt(t, [steps[0]], verify, 0, a)
    ensures k > 0 ==> EndsAt(t, steps, verify, k, a) == EndsAt(After(t, steps[0], verify), steps[1..], verify, k - 1, a)
  {
    hide After;
    if k > 0 {
      assert steps[..k][1..] == steps[1..][..k - 1] && steps[..k][0] == steps[0];
    }
  }

  /** Over any run an active assignment has ended exactly if some step has ended it, and is otherwise as it was. */
  lemma {:induction false} EndsIff(t: Tables, steps: seq<Step>, verify: nat -> bool, i: nat)
    requires i < |t.assignments|
    ensures i < |Run(t, steps, verify).assignments|
    ensures Run(t, steps, verify).assignments[i]
         == if t.assignments[i].status == Active && exists k :: 0 <= k < |steps| && EndsAt(t, steps, verify, k, t.assignments[i])
            then t.assignments[i].(status := Expired) else t.assignments[i]
    decreases |steps|
  {
    hide After, EndsAt;
    var a := t.assignments[i];
    if steps != [] {
      var u := After(t, steps[0], verify);
      RowStep(t, steps[0], verify, i);
      EndsIff(u, steps[1..], verify, i);
      forall k | 0 <= k < |steps|
        ensures EndsAt(t, steps, verify, k, a)
            <==> if k == 0 then EndsAt(t, [steps[0]], verify, 0, a) else EndsAt(u, steps[1..], verify, k - 1, a)
      {
        LaterEnds(t, steps, verify, k, a);
      }
      if EndsAt(t, [steps[0]], verify, 0, a) {
        assert EndsAt(t, steps, verify, 0, a);
      } else if k :| 0 <= k < |steps[1..]| && EndsAt(u, steps[1..], verify, k, a) {
        assert EndsAt(t, steps, verify, k + 1, a);
      }
    }
  }

  /** Of two assignments of one chunk the earlier one has ended. */
  predicate OnePerChunk(t: Tables) {
    forall i, j :: 0 <= i < j < |t.assignments| && t.assignments[i].rangeStart == t.assignments[j].rangeStart ==>
      t.assignments[i].status == Expired
  }

  lemma StepKeepsOnePerChunk(t: Tables, e: Step, verify: nat -> bool)
    requires OnePerChunk(t)
    ensures OnePerChunk(After(t, e, verify))
  {
    hide Ends, FirstFree, ChunkStart;
    if e.Assign? {
      var u := After(t, e, verify);
      AssignAdds(t, e.worker, e.now, e.later, e.draws);
      forall i | 0 <= i < |t.assignments|
        ensures u.assignments[i].rangeStart == t.assignments[i].rangeStart
        ensures t.assignments[i].status == Expired ==> u.assignments[i].status == Expired
      {
        AssignEnds(t, e.worker, e.now, e.later, e.draws, i);
      }
    }
  }
  /** Before step k the earlier row is there and active and the later one is not yet there, and the step ends it. */
  ghost predicate Cause(t: Tables, steps: seq<Step>, verify: nat -> bool, k: nat, i: nat, j: nat) {
    k < |steps| && var rows := Run(t, steps[..k], verify).assignments;
      i < |rows| <= j && rows[i].status == Active && EndsAt(t, steps, verify, k, rows[i])
  }

  lemma LaterCause(t: Tables, steps: seq<Step>, verify: nat -> bool, k: nat, i: nat, j: nat)
    requires steps != [] && Cause(After(t, steps[0], verify), steps[1..], verify, k, i, j)
    ensures Cause(t, steps, verify, k + 1, i, j)
  {
    hide After, EndsAt;
    var rows := Run(After(t, steps[0], verify), steps[1..][..k], verify).assignments;
    assert steps[..k + 1][1..] == steps[1..][..k] && steps[..k + 1][0] == steps[0];
    LaterEnds(t, steps, verify, k + 1, rows[i]);
  }

  /** A chunk goes out again only after a step has ended the assignment it was in. */
  lemma {:induction false} ReissueHasCause(t: Tables, steps: seq<Step>, verify: nat -> bool, i: nat, j: nat)
    requires OnePerChunk(t) && i < j && |t.assignments| <= j < |Run(t, steps, verify).assignments|
    requires i < |t.assignments| ==> t.assignments[i].status == Active
    requires Run(t, steps, verify).assignments[i].rangeStart == Run(t, steps, verify).assignments[j].rangeStart
    ensures exists k: nat :: Cause(t, steps, verify, k, i, j)
    decreases |steps|
  {
    hide After, EndsAt, Cause, OnePerChunk;
    if steps != [] {
      var u := After(t, steps[0], verify);
      StepKeepsOnePerChunk(t, steps[0], verify);
      if i < |t.assignments| && EndsAt(t, [steps[0]], verify, 0, t.assignments[i]) {
        CauseNow(t, steps, verify, i, j);
      } else {
        StillThere(t, steps, verify, i, j);
        ReissueHasCause(u, steps[1..], verify, i, j);
        var k: nat :| Cause(u, steps[1..], verify, k, i, j);
        LaterCause(t, steps, verify, k, i, j);
      }
    }
  }

  lemma CauseNow(t: Tables, steps: seq<Step>, verify: nat -> bool, i: nat, j: nat)
    requires steps != [] && i < |t.assignments| <= j && t.assignments[i].status == Active
    requires EndsAt(t, [steps[0]], verify, 0, t.assignments[i])
    ensures Cause(t, steps, verify, 0, i, j)
  {
    hide After, EndsAt;
    LaterEnds(t, steps, verify, 0, t.assignments[i]);
    assert Run(t, steps[..0], verify) == t;
  }

  /** As long as the earlier row is active, the later one cannot come. */
  lemma StillThere(t: Tables, steps: seq<Step>, verify: nat -> bool, i: nat, j: nat)
    requires steps != [] && OnePerChunk(After(t, steps[0], verify))
    requires i < j && |t.assignments| <= j < |Run(t, steps, verify).assignments|
    requires i < |t.assignments| ==> t.assignments[i].status == Active && !EndsAt(t, [steps[0]], verify, 0, t.assignments[i])
    requires Run(t, steps, verify).assignments[i].rangeStart == Run(t, steps, verify).assignments[j].rangeStart
    ensures var u := After(t, steps[0], verify);
      |u.assignments| <= j && (i < |u.assignments| ==> u.assignments[i].status == Active)
  {
    hide EndsAt;
    var u := After(t, steps[0], verify);
    if i < |t.assignments| { RowStep(t, steps[0], verify, i); } else { NewRow(t, steps[0], verify); }
    hide After;
    if i < |u.assignments| && j < |u.assignments| {
      EndsIff(u, steps[1..], verify, i);
      EndsIff(u, steps[1..], verify, j);
      assert false;
    }
  }

  lemma NewRow(t: Tables, e: Step, verify: nat -> bool)
    ensures var n, rows := |t.assignments|, After(t, e, verify).assignments;
      n <= |rows| <= n + 1 && (|rows| > n ==> rows[n].status == Active)
  {
    hide Ends, FirstFree, ChunkStart;
    if e.Assign? { AssignAdds(t, e.worker, e.now, e.later, e.draws); }
  }

  // ---- When a worker was last seen ----

  /** The moment of the last step that shows a worker alive: it connects, or a batch of its points is stored. */
  function LastSeen(steps: seq<Step>, worker: Name): Option<real>
    decreases |steps|
  {
    if steps == [] then None
    else
      var e, before := steps[|steps| - 1], LastSeen(steps[..|steps| - 1], worker);
      match e
      case Connect(w, now) => if w == worker then Some(now) else before
      case Save(w, now, dps) => if w == worker && dps != [] && Storable(dps) then Some(now) else before
      case _ => before
  }

  lemma {:induction false} RunSnoc(t: Tables, steps: seq<Step>, e: Step, verify: nat -> bool)
    ensures Run(t, steps + [e], verify) == After(Run(t, steps, verify), e, verify)
    ensures Possible(t, steps + [e], verify) <==> Possible(t, steps, verify) && Enabled(Run(t, steps, verify), e, verify)
    decreases |steps|
  {
    hide After, Enabled;
    if steps == [] {
      assert ([] + [e])[1..] == [];
    } else {
      assert (steps + [e])[1..] == steps[1..] + [e];
      RunSnoc(After(t, steps[0], verify), steps[1..], e, verify);
    }
  }

  /** After every run the workers known are those seen, with the moment they were last seen. */
  lemma {:induction false} LastSeenIs(steps: seq<Step>, verify: nat -> bool, worker: Name)
    requires Possible(EMPTY, steps, verify)
    ensures worker in Run(EMPTY, steps, verify).workers <==> LastSeen(steps, worker).Some?
    ensures LastSeen(steps, worker).Some? ==>
      Run(EMPTY, steps, verify).workers[worker].lastSeen == LastSeen(steps, worker).value
    decreases |steps|
  {
    if steps != [] {
      var n := |steps| - 1;
      assert steps == steps[..n] + [steps[n]];
      RunSnoc(EMPTY, steps[..n], steps[n], verify);
      hide Run, Possible;
      LastSeenIs(steps[..n], verify, worker);
      var t, u := Run(EMPTY, steps[..n], verify), Run(EMPTY, steps, verify);
      hide AfterAssign;
    }
  }

  /** A server that started empty: if two rows hold one chunk, then between them some worker asked for work when the
      earlier row was active and more than 1800 seconds old, or its worker had last been seen more than 300 seconds
      before, or its worker was the one that asked. */
  lemma ReissuedOnlyAfter(steps: seq<Step>, verify: nat -> bool, i: nat, j: nat) returns (k: nat)
    requires Possible(EMPTY, steps, verify) && i < j < |Run(EMPTY, steps, verify).assignments|
    requires Run(EMPTY, steps, verify).assignments[i].rangeStart == Run(EMPTY, steps, verify).assignments[j].rangeStart
    ensures k < |steps| && steps[k].Assign? && i < |Run(EMPTY, steps[..k], verify).assignments| <= j
    ensures var a, seen := Run(EMPTY, steps[..k], verify).assignments[i], LastSeen(steps[..k], Run(EMPTY, steps[..k], verify).assignments[i].worker);
      && a.status == Active
      && (steps[k].now - a.assignedAt > 1800.0 || steps[k].worker == a.worker || (seen.Some? && steps[k].now - seen.value > 300.0))
  {
    ReissueHasCause(EMPTY, steps, verify, i, j);
    k :| Cause(EMPTY, steps, verify, k, i, j);
    PossiblePrefix(EMPTY, steps, verify, k);
    hide Run, Possible, LastSeen;
    LastSeenIs(steps[..k], verify, Run(EMPTY, steps[..k], verify).assignments[i].worker);
  }

  lemma {:induction false} PossiblePrefix(t: Tables, steps: seq<Step>, verify: nat -> bool, k: nat)
    requires Possible(t, steps, verify) && k <= |steps|
    ensures Possible(t, steps[..k], verify)
    decreases |steps|
  {
    hide After, Enabled;
    if k > 0 {
      assert steps[..k][1..] == steps[1..][..k - 1];
      PossiblePrefix(After(t, steps[0], verify), steps[1..], verify, k - 1);
    }
  }
}
