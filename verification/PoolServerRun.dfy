/** What the server's tables keep over every run of its helpers, in any order and for any workers. */
module PoolServerRun {
  import opened Arith
  import opened NumberTheory
  import opened Results
  import opened Limbs
  import opened Wire
  import opened Curve
  import opened ScalarMul
  import opened KangarooRun
  import opened PoolServer

  /** The X coordinate of the target public key; its prefix 02 asks for an even Y. */
  const TARGET_X: int := 0x145D2611C823A396EF6712CE0F712F09B9B4F3135E3E0AA3230FB9B6D08D1E16

  /** The point whose compressed form is the target public key. */
  ghost predicate IsTarget(p: Point) {
    p.Affine? && p.x == TARGET_X && p.y % 2 == 0
  }

  /** _verify_privkey: the key is in range and its multiple of G, compressed, is the target. */
  ghost predicate Verified(key: nat) {
    0 < key < N && IsTarget(Mul(key))
  }

  /** The server's key check is this one. */
  ghost predicate KeyCheck(verify: nat -> bool) {
    forall key: nat :: verify(key) <==> Verified(key)
  }

  datatype Step =
    | Connect(worker: Name, now: real)
    | Assign(worker: Name, now: real, later: real, draws: seq<nat>)
    | Save(worker: Name, now: real, dps: seq<Submission>)
    | Collide(worker: Name, workId: Option<nat>, dps: seq<Submission>, found: Option<nat>)
    | Claim(worker: Name, workId: Option<nat>, key: nat)

  ghost predicate Enabled(t: Tables, e: Step, verify: nat -> bool) {
    match e
    case Assign(worker, now, later, draws) =>
      t.solutions == [] && |draws| == DRAWS && forall k :: 0 <= k < |draws| ==> draws[k] < NUM_CHUNKS
    case Save(worker, now, dps) => worker in t.workers
    case Collide(worker, workId, dps, found) => MayFind(t.dps, dps, verify, found)
    case _ => true
  }

  function After(t: Tables, e: Step, verify: nat -> bool): Tables {
    match e
    case Connect(worker, now) => AfterConnect(t, worker, now)
    case Assign(worker, now, later, draws) => AfterAssign(t, worker, now, later, draws)
    case Save(worker, now, dps) => AfterSave(t, worker, now, dps)
    case Collide(worker, workId, dps, found) => if found.Some? then AfterSolution(t, found.value, worker, workId) else t
    case Claim(worker, workId, key) => if verify(key) then AfterSolution(t, key, worker, workId) else t
  }

  ghost predicate Possible(t: Tables, steps: seq<Step>, verify: nat -> bool)
    decreases |steps|
  {
    steps != [] ==> Enabled(t, steps[0], verify) && Possible(After(t, steps[0], verify), steps[1..], verify)
  }

  function Run(t: Tables, steps: seq<Step>, verify: nat -> bool): Tables
    decreases |steps|
  {
    if steps == [] then t else Run(After(t, steps[0], verify), steps[1..], verify)
  }

  const EMPTY: Tables := Tables(map[], [], [], [], 1)

  // ---- Assignments ----

  /** The assignment is one whole chunk of the range. */
  predicate WholeChunk(a: Assignment) {
    && RANGE_START <= a.rangeStart && (a.rangeStart - RANGE_START) % CHUNK_SIZE == 0
    && a.rangeEnd == a.rangeStart + CHUNK_SIZE - 1 && a.rangeEnd <= RANGE_END
  }

  predicate Disjoint(a: Assignment, b: Assignment) {
    a.rangeEnd < b.rangeStart || b.rangeEnd < a.rangeStart
  }

  predicate Assignments(t: Tables) {
    && (forall i :: 0 <= i < |t.assignments| ==> WholeChunk(t.assignments[i]))
    && (forall i :: 0 <= i < |t.assignments| ==> t.assignments[i].workId < t.nextWorkId)
    && (forall i, j :: 0 <= i < j < |t.assignments| ==> t.assignments[i].workId < t.assignments[j].workId)
    && (forall i, j :: 0 <= i < j < |t.assignments| && t.assignments[i].status.Active? && t.assignments[j].status.Active? ==>
          Disjoint(t.assignments[i], t.assignments[j]) && t.assignments[i].worker != t.assignments[j].worker)
  }

  lemma OtherChunk(a: Assignment, start: int)
    requires WholeChunk(a) && a.rangeStart != start
    requires (start - RANGE_START) % CHUNK_SIZE == 0
    ensures a.rangeEnd < start || start + CHUNK_SIZE - 1 < a.rangeStart
  {}

  lemma WholeChunks(chunk: nat)
    requires chunk < NUM_CHUNKS
    ensures (ChunkStart(chunk) - RANGE_START) % CHUNK_SIZE == 0
    ensures RANGE_START <= ChunkStart(chunk) && ChunkStart(chunk) + CHUNK_SIZE - 1 <= RANGE_END
  {}

  lemma AssignKeeps(t: Tables, worker: Name, now: real, later: real, draws: seq<nat>)
    requires Assignments(t)
    requires forall k :: 0 <= k < |draws| ==> draws[k] < NUM_CHUNKS
    ensures Assignments(AfterAssign(t, worker, now, later, draws))
  {
    hide ChunkStart, WholeChunk, Disjoint;
    var rows := Ended(t.assignments, t.workers, worker, now);
    forall i | 0 <= i < |rows| ensures WholeChunk(rows[i]) { SameChunk(t.assignments[i], rows[i]); }
    var k := FirstFree(rows, draws);
    if k < |draws| {
      var a := NewAssignment(t, worker, later, draws[k]);
      WholeChunks(draws[k]);
      ChunkIsWhole(a);
      forall i | 0 <= i < |rows| && rows[i].status.Active? ensures Disjoint(rows[i], a) && rows[i].worker != worker {
        assert !Ends(t.assignments[i], t.workers, worker, now);
        assert rows[i].rangeStart != a.rangeStart;
        Apart(rows[i], a);
      }
    }
    forall i, j | 0 <= i < j < |rows| && rows[i].status.Active? && rows[j].status.Active?
      ensures Disjoint(rows[i], rows[j])
    {
      assert rows[i] == t.assignments[i] && rows[j] == t.assignments[j];
    }
  }

  lemma SameChunk(a: Assignment, b: Assignment)
    requires WholeChunk(a) && (b == a || b == a.(status := Expired))
    ensures WholeChunk(b)
  {}

  lemma ChunkIsWhole(a: Assignment)
    requires (a.rangeStart - RANGE_START) % CHUNK_SIZE == 0
    requires RANGE_START <= a.rangeStart && a.rangeEnd == a.rangeStart + CHUNK_SIZE - 1 && a.rangeEnd <= RANGE_END
    ensures WholeChunk(a)
  {}

  lemma Apart(a: Assignment, b: Assignment)
    requires WholeChunk(a) && WholeChunk(b) && a.rangeStart != b.rangeStart
    ensures Disjoint(a, b)
  {
    OtherChunk(a, b.rangeStart);
  }

  // ---- Credit ----

  function CountRows(rows: seq<DpRow>, worker: Name): nat {
    if rows == [] then 0
    else CountRows(rows[..|rows| - 1], worker) + if rows[|rows| - 1].worker == worker then 1 else 0
  }

  predicate Credited(t: Tables) {
    && (forall w :: w in t.workers ==> t.workers[w].totalDps == CountRows(t.dps, w))
    && (forall i :: 0 <= i < |t.dps| ==> t.dps[i].worker in t.workers)
  }

  lemma {:induction false} CountSaved(rows: seq<DpRow>, worker: Name, dps: seq<Submission>, w: Name)
    ensures CountRows(rows + Rows(worker, dps), w) == CountRows(rows, w) + if w == worker then |dps| else 0
    decreases |dps|
  {
    if dps == [] {
      assert rows + Rows(worker, dps) == rows;
    } else {
      var k := |dps| - 1;
      CountSaved(rows, worker, dps[..k], w);
      var all := rows + Rows(worker, dps);
      assert all[..|all| - 1] == rows + Rows(worker, dps[..k]);
    }
  }

  lemma {:induction false} CountAbsent(rows: seq<DpRow>, worker: Name)
    requires forall i :: 0 <= i < |rows| ==> rows[i].worker != worker
    ensures CountRows(rows, worker) == 0
  {
    if rows != [] { CountAbsent(rows[..|rows| - 1], worker); }
  }

  lemma SaveKeeps(t: Tables, worker: Name, now: real, dps: seq<Submission>)
    requires Credited(t) && worker in t.workers
    ensures Credited(AfterSave(t, worker, now, dps))
  {
    hide CountRows;
    forall w ensures CountRows(t.dps + Rows(worker, dps), w) == CountRows(t.dps, w) + if w == worker then |dps| else 0 {
      CountSaved(t.dps, worker, dps, w);
    }
  }

  lemma ConnectKeeps(t: Tables, worker: Name, now: real)
    requires Credited(t)
    ensures Credited(AfterConnect(t, worker, now))
  {
    hide CountRows;
    if worker !in t.workers { CountAbsent(t.dps, worker); }
  }

  /** The credit of the named workers together. */
  function TotalCredit(t: Tables, names: seq<Name>): nat
    requires forall k :: 0 <= k < |names| ==> names[k] in t.workers
  {
    if names == [] then 0 else TotalCredit(t, names[1..]) + t.workers[names[0]].totalDps
  }

  predicate Distinct(names: seq<Name>) {
    forall i, j :: 0 <= i < j < |names| ==> names[i] != names[j]
  }

  function CountNames(rows: seq<DpRow>, names: seq<Name>): nat {
    if names == [] then 0 else CountNames(rows, names[1..]) + CountRows(rows, names[0])
  }

  lemma {:induction false} CountNamesSnoc(rows: seq<DpRow>, names: seq<Name>)
    requires rows != [] && Distinct(names)
    ensures CountNames(rows, names)
         == CountNames(rows[..|rows| - 1], names) + if rows[|rows| - 1].worker in names then 1 else 0
  {
    if names != [] { CountNamesSnoc(rows, names[1..]); }
  }

  lemma {:induction false} CountNamesNone(names: seq<Name>)
    ensures CountNames([], names) == 0
  {
    if names != [] { CountNamesNone(names[1..]); }
  }

  lemma {:induction false} CountNamesAll(rows: seq<DpRow>, names: seq<Name>)
    requires Distinct(names) && forall i :: 0 <= i < |rows| ==> rows[i].worker in names
    ensures CountNames(rows, names) == |rows|
  {
    if rows == [] {
      CountNamesNone(names);
    } else {
      CountNamesSnoc(rows, names);
      CountNamesAll(rows[..|rows| - 1], names);
    }
  }

  lemma {:induction false} TotalIsCount(t: Tables, names: seq<Name>)
    requires Credited(t) && forall k :: 0 <= k < |names| ==> names[k] in t.workers
    ensures TotalCredit(t, names) == CountNames(t.dps, names)
  {
    if names != [] {
      assert names[0] in t.workers;
      TotalIsCount(t, names[1..]);
    }
  }

  /** Listing every worker once, the credits add up to the number of points in the pool. */
  lemma CreditsSumToPool(t: Tables, names: seq<Name>)
    requires Credited(t) && Distinct(names) && forall w :: w in names <==> w in t.workers
    ensures TotalCredit(t, names) == |t.dps|
  {
    forall k | 0 <= k < |names| ensures names[k] in t.workers {
      assert names[k] in names;
    }
    TotalIsCount(t, names);
    CountNamesAll(t.dps, names);
  }

  // ---- Solutions ----

  predicate AllVerified(t: Tables, verify: nat -> bool) {
    forall i :: 0 <= i < |t.solutions| ==> verify(t.solutions[i].key)
  }

  predicate Invariant(t: Tables, verify: nat -> bool) {
    Assignments(t) && Credited(t) && AllVerified(t, verify)
  }

  lemma StepKeepsInvariant(t: Tables, e: Step, verify: nat -> bool)
    requires Invariant(t, verify) && Enabled(t, e, verify)
    ensures Invariant(After(t, e, verify), verify)
  {
    hide WholeChunk, Disjoint, CountRows;
    match e
    case Connect(worker, now) => ConnectKeeps(t, worker, now);
    case Assign(worker, now, later, draws) => AssignKeeps(t, worker, now, later, draws);
    case Save(worker, now, dps) => SaveKeeps(t, worker, now, dps);
    case _ =>
  }

  lemma {:induction false} RunKeepsInvariant(t: Tables, steps: seq<Step>, verify: nat -> bool)
    requires Invariant(t, verify) && Possible(t, steps, verify)
    ensures Invariant(Run(t, steps, verify), verify)
    decreases |steps|
  {
    hide Invariant, After, Enabled;
    if steps != [] {
      StepKeepsInvariant(t, steps[0], verify);
      RunKeepsInvariant(After(t, steps[0], verify), steps[1..], verify);
    }
  }

  /** Every reachable server: disjoint whole chunks, one active chunk per worker, exact credit, and only
      solutions whose multiple of G is the target. */
  lemma ServerSafe(steps: seq<Step>, verify: nat -> bool)
    requires Possible(EMPTY, steps, verify)
    ensures var t := Run(EMPTY, steps, verify); Assignments(t) && Credited(t) && AllVerified(t, verify)
    ensures KeyCheck(verify) ==> forall s :: s in Run(EMPTY, steps, verify).solutions ==> Verified(s.key)
  {
    hide Run, Possible, Verified;
    assert Invariant(EMPTY, verify);
    RunKeepsInvariant(EMPTY, steps, verify);
    var t := Run(EMPTY, steps, verify);
    if KeyCheck(verify) {
      forall s | s in t.solutions ensures Verified(s.key) {
        assert verify(s.key);
      }
    }
  }

  /** The id handed out is new: larger than every id handed out before. */
  lemma NewIdFresh(t: Tables, worker: Name, now: real, later: real, draws: seq<nat>)
    requires Assignments(t) && |AfterAssign(t, worker, now, later, draws).assignments| > |t.assignments|
    ensures var rows := AfterAssign(t, worker, now, later, draws).assignments;
            forall i :: 0 <= i < |t.assignments| ==> t.assignments[i].workId < rows[|rows| - 1].workId
  {}

  // ---- Collisions find the key ----

  /** Different residues with one square are each other's negative, so their parities differ. */
  lemma EqualSquares(y: int, z: int)
    requires Prime(P) && Reduced(y) && Reduced(z) && R(y * y) == R(z * z) && y != z
    ensures y + z == P
  {
    hide Prime, R;
    Difference(y * y, z * z);
    SquareDifference(y, z);
    ZeroProduct(y - z, y + z);
    ZeroBetween(y - z);
    ZeroBetween(y + z);
  }

  lemma SquareDifference(y: int, z: int)
    ensures y * y - z * z == (y - z) * (y + z)
  {}

  lemma ZeroBetween(d: int)
    ensures Zero(d) && -P < d < 2 * P ==> d == 0 || d == P
  {
    ResidueIsMod(d);
  }

  /** Two points of the curve with one X and Ys of one parity are equal. */
  lemma SameParity(p: Point, q: Point)
    requires OnCurve(p) && OnCurve(q) && p.Affine? && q.Affine? && p.x == q.x && p.y % 2 == q.y % 2
    requires Prime(P)
    ensures p == q
  {
    hide R, Prime;
    if p.y != q.y {
      EqualSquares(p.y, q.y);
      OddSum(p.y, q.y);
    }
  }

  lemma OddSum(y: int, z: int)
    requires y + z == P
    ensures y % 2 != z % 2
  {}

  /** Only one point of the curve compresses to the target. */
  lemma TargetUnique(p: Point, q: Point)
    requires Prime(P) && OnCurve(p) && OnCurve(q) && IsTarget(p) && IsTarget(q)
    ensures p == q
  {
    hide OnCurve, Prime;
    SameParity(p, q);
  }

  /** At most one key passes the check: only one point compresses to the target, and multiples repeat modulo N. */
  lemma VerifiedUnique(a: nat, b: nat)
    requires CurveFacts() && Verified(a) && Verified(b)
    ensures a == b
  {
    hide CurveFacts, Prime, Mul, OnCurve, IsTarget, R;
    CurveParts();
    MulOnCurve(a);
    MulOnCurve(b);
    TargetUnique(Mul(a), Mul(b));
    MulCongruent(a, b);
    SmallMultipleOfN(a - b);
  }

  /** A verification that accepts the target's key and nothing else. */
  ghost predicate Accepts(verify: nat -> bool, target: nat) {
    0 < target < N && forall key :: verify(key) <==> key == target
  }

  lemma KeyCheckAccepts(verify: nat -> bool, target: nat)
    requires CurveFacts() && KeyCheck(verify) && Verified(target)
    ensures Accepts(verify, target)
  {
    hide CurveFacts, Mul, IsTarget;
    forall key: nat ensures verify(key) <==> key == target {
      assert verify(key) <==> Verified(key);
      if Verified(key) { VerifiedUnique(key, target); }
    }
  }

  lemma AcceptedPair(dp: Submission, other: Submission, verify: nat -> bool, target: nat)
    requires Accepts(verify, target)
    ensures PairKey(dp, other, verify) == Some(target)
        <==> (dp.d - other.d) % N == target || (other.d - dp.d) % N == target
    ensures PairKey(dp, other, verify) == Some(target) || PairKey(dp, other, verify) == None
  {
    assert verify(target);
  }

  /** A pair of points yields the target's key exactly when one of the two differences is that key, and never another one. */
  lemma PairKeyIff(dp: Submission, other: Submission, verify: nat -> bool, target: nat)
    requires CurveFacts() && KeyCheck(verify) && Verified(target)
    ensures PairKey(dp, other, verify) == Some(target)
        <==> (dp.d - other.d) % N == target || (other.d - dp.d) % N == target
    ensures PairKey(dp, other, verify) == Some(target) || PairKey(dp, other, verify) == None
  {
    hide CurveFacts, KeyCheck, Verified, Accepts, PairKey;
    KeyCheckAccepts(verify, target);
    AcceptedPair(dp, other, verify, target);
  }

  /** In the group: the difference is the key exactly when the tame point is the wild one. */
  lemma DifferenceIsKey(tame: Word, wild: Word, target: nat)
    requires CurveFacts() && 0 < target < N
    ensures (tame - wild) % N == target <==> Mul(tame) == Mul(target + wild)
  {
    hide Mul, CurveFacts;
    MulCongruent(tame, target + wild);
    RemainderIs(tame - wild, target);
  }

  lemma RemainderIs(d: int, r: int)
    requires 0 <= r < N
    ensures d % N == r <==> (d - r) % N == 0
  {
    if d % N == r { DivModUniqueN(d - r, d / N); } else if (d - r) % N == 0 { DivModUnique(d, N, (d - r) / N, r); }
  }

  lemma DivModUniqueN(x: int, q: int)
    requires x == q * N
    ensures x % N == 0
  {
    DivModUnique(x, N, q, 0);
  }

  /** The point a kangaroo stands at: distance * G for a tame one, target + distance * G for a wild one. */
  ghost function Position(dp: Submission, target: nat): Point {
    if dp.kind == 0 then Mul(dp.d) else Mul(target + dp.d)
  }

  /** A tame and a wild point that really meet give the key. */
  lemma MeetingGivesKey(dp: Submission, other: Submission, verify: nat -> bool, target: nat)
    requires CurveFacts() && KeyCheck(verify) && Verified(target)
    requires {dp.kind, other.kind} == {0, 1} && Position(dp, target) == Position(other, target)
    ensures PairKey(dp, other, verify) == Some(target)
  {
    hide Mul, CurveFacts, KeyCheck, IsTarget;
    PairKeyIff(dp, other, verify, target);
    if dp.kind == 0 { DifferenceIsKey(dp.d, other.d, target); } else { DifferenceIsKey(other.d, dp.d, target); }
  }

  /** If every match is a meeting, a batch with a match gives the key, whichever row the query returns. */
  lemma CollisionGivesKey(rows: seq<DpRow>, dps: seq<Submission>, verify: nat -> bool, target: nat, found: Option<nat>)
    requires CurveFacts() && KeyCheck(verify) && Verified(target)
    requires forall i, r :: 0 <= i < |dps| && 0 <= r < |rows| && Matches(rows[r], dps[i]) ==>
        {dps[i].kind, rows[r].dp.kind} == {0, 1} && Position(dps[i], target) == Position(rows[r].dp, target)
    requires MayFind(rows, dps, verify, found)
    ensures found == if exists i, r :: 0 <= i < |dps| && 0 <= r < |rows| && Matches(rows[r], dps[i]) then Some(target) else None
  {
    hide CurveFacts, KeyCheck, Verified, PairKey, Position;
    forall i, r | 0 <= i < |dps| && 0 <= r < |rows| && Matches(rows[r], dps[i])
      ensures PairKey(dps[i], rows[r].dp, verify) == Some(target)
    {
      MeetingGivesKey(dps[i], rows[r].dp, verify, target);
    }
    if found == None {
      forall i | 0 <= i < |dps| ensures forall r :: 0 <= r < |rows| ==> !Matches(rows[r], dps[i]) {
        assert NoKey(rows, dps[i], verify);
      }
    }
  }
}
