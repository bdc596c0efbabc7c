/** Walks that meet stay together, and the distances of a shared distinguished point give the key. */
module KangarooRun {
  import opened Arith
  import opened NumberTheory
  import opened Limbs
  import opened FieldPow
  import opened Curve
  import opened ScalarMul
  import opened Kangaroo
  import opened DpTable

  ghost predicate GoodJumps(ds: seq<int>) {
    |ds| == NUM_JUMPS && forall i :: 0 <= i < NUM_JUMPS ==> 1 < ds[i] < TWO128
  }

  ghost function StepN(w: Walker, ds: seq<int>, n: nat): Walker
    requires GoodJumps(ds)
  {
    if n == 0 then w else Step(StepN(w, ds, n - 1), ds)
  }

  /** The position of a kangaroo is its start plus the distance travelled: base is 0 for a tame one and
      the key for a wild one. */
  ghost predicate OnTrack(w: Walker, base: nat) {
    w.distance >= 0 && w.point == Mul(base + w.distance)
  }

  /** Being on track is standing at the start plus the distance times G: the start is the target for a wild one. */
  lemma OnTrackIff(w: Walker, base: nat)
    requires Prime(P) && w.distance >= 0
    ensures OnTrack(w, base) <==> w.point == Add(Mul(base), Mul(w.distance))
  {
    hide Mul, Add, Prime;
    MulSum(base, w.distance);
  }

  /** A step keeps a kangaroo on track as long as its distance does not wrap 2^256. */
  lemma StepOnTrack(w: Walker, ds: seq<int>, base: nat)
    requires Prime(P) && GoodJumps(ds) && OnTrack(w, base)
    requires w.distance + TWO128 <= TWO256
    ensures OnTrack(Step(w, ds), base)
    ensures w.distance < Step(w, ds).distance < w.distance + TWO128
  {
    hide Prime, Mul, Add;
    MulSum(base + w.distance, ds[JumpIndex(w.point)]);
  }

  /** The room for 2^64 jumps of less than 2^128 below 2^256. */
  const START_LIMIT: int := TWO256 - TWO64 * TWO128

  /** Over a whole walk of fewer than 2^64 steps that starts at a distance with room for them, no distance
      wraps and the kangaroo stays on track. */
  lemma {:induction false} WalkOnTrack(w: Walker, ds: seq<int>, base: nat, n: nat)
    requires Prime(P) && GoodJumps(ds) && OnTrack(w, base)
    requires w.distance < START_LIMIT && n < TWO64
    ensures OnTrack(StepN(w, ds, n), base)
    ensures w.distance + n <= StepN(w, ds, n).distance <= w.distance + n * TWO128 < TWO256
  {
    hide Prime, Mul, Add, Step;
    if n > 0 {
      WalkOnTrack(w, ds, base, n - 1);
      var v := StepN(w, ds, n - 1);
      StepOnTrack(v, ds, base);
    }
  }

  lemma SameStepKeepsDifference(a: int, b: int, c: int, d: int)
    requires (a - b - c) % TWO256 == 0
    ensures ((a + d) % TWO256 - (b + d) % TWO256 - c) % TWO256 == 0
  {}

  /** Two walks at the same point take the same steps for ever, at a constant difference of distances. */
  lemma {:induction false} MeetingWalksStayTogether(v: Walker, w: Walker, ds: seq<int>, n: nat)
    requires GoodJumps(ds) && v.point == w.point
    ensures StepN(v, ds, n).point == StepN(w, ds, n).point
    ensures (StepN(v, ds, n).distance - StepN(w, ds, n).distance - (v.distance - w.distance)) % TWO256 == 0
  {
    hide Mul, Add, JumpIndex;
    if n > 0 {
      MeetingWalksStayTogether(v, w, ds, n - 1);
      var v', w' := StepN(v, ds, n - 1), StepN(w, ds, n - 1);
      SameStepKeepsDifference(v'.distance, w'.distance, v.distance - w.distance, ds[JumpIndex(v'.point)]);
    }
  }

  // ---- Equality of multiples ----

  /** A multiple that repeats modulo the order. */
  lemma MulCongruent(a: nat, b: nat)
    requires CurveFacts()
    ensures Mul(a) == Mul(b) <==> (a - b) % N == 0
  {
    hide Mul, Add, CurveFacts;
    if a < b { MulAbove(b, a); } else { MulAbove(a, b); }
    MirrorMod(a - b);
  }

  lemma MirrorMod(d: int)
    ensures d % N == 0 <==> (-d) % N == 0
  {}

  lemma MulAbove(a: nat, b: nat)
    requires CurveFacts() && b <= a
    ensures Mul(a) == Mul(b) <==> (a - b) % N == 0
  {
    hide Mul, Add, CurveFacts, Prime;
    CurveParts();
    var c, m := a - b, b * (N - 1);
    MulSum(b, c);
    AddInfinity(Mul(b));
    OrderOf(c);
    if Mul(a) == Mul(b) {
      MulSum(m, b);
      MulSum(m, a);
      assert m + b == b * N;
      OrderOf(m + b);
      OrderOf(m + a);
      assert (b * N) % N == 0 by { DivModUnique(b * N, N, b, 0); }
      assert m + a == b * N + c;
      SameRemainder(b, c);
    }
  }

  lemma SameRemainder(b: int, c: int)
    ensures (b * N + c) % N == c % N
  {
    DivModUnique(b * N + c, N, b + c / N, c % N);
  }

  // ---- The reported key ----

  /** A tame and a wild entry, with positions p = tame * G and q = (key + wild) * G. If the tame distance
      is not the smaller one, the difference is the key exactly when the positions are equal. */
  lemma KeyRightIffSamePoint(key: nat, tame: U256, wild: U256)
    requires CurveFacts() && Val(tame) >= Val(wild) >= 0
    ensures KeyValue(tame, wild) >= 0
    ensures Mul(KeyValue(tame, wild)) == Mul(key) <==> Mul(Val(tame)) == Mul(key + Val(wild))
  {
    hide Mul, CurveFacts, Val;
    ValBound(tame);
    var dt, dw := Val(tame), Val(wild);
    MulCongruent(dt - dw, key);
    MulCongruent(dt, key + dw);
  }

  /** If the positions are equal, the difference modulo 2^256 is the key exactly when the tame distance is
      not the smaller one. */
  lemma KeyRightIffTameAhead(key: nat, tame: U256, wild: U256)
    requires CurveFacts() && Val(tame) >= 0 && Val(wild) >= 0
    requires Mul(Val(tame)) == Mul(key + Val(wild))
    ensures KeyValue(tame, wild) >= 0
    ensures Mul(KeyValue(tame, wild)) == Mul(key) <==> Val(tame) >= Val(wild)
  {
    hide Mul, CurveFacts, Val;
    ValBound(tame);
    ValBound(wild);
    var dt, dw := Val(tame), Val(wild);
    if dt < dw {
      MulCongruent(dt - dw + TWO256, key);
      MulCongruent(dt, key + dw);
      WrapNotMultiple(dt - dw - key);
    } else {
      KeyRightIffSamePoint(key, tame, wild);
    }
  }

  /** In every case: the reported key is right exactly when the tame distance is not the smaller one and the
      points agree, or when it is and the difference happens to hit the key after wrapping; then they differ. */
  lemma KeyRightIff(key: nat, tame: U256, wild: U256)
    requires CurveFacts() && Val(tame) >= 0 && Val(wild) >= 0
    ensures KeyValue(tame, wild) >= 0
    ensures Mul(KeyValue(tame, wild)) == Mul(key) <==>
      if Val(tame) >= Val(wild) then Mul(Val(tame)) == Mul(key + Val(wild))
      else Mul(Val(tame)) != Mul(key + Val(wild)) && (Val(tame) - Val(wild) + TWO256 - key) % N == 0
  {
    hide Mul, CurveFacts, Val;
    ValBound(tame);
    ValBound(wild);
    if Val(tame) >= Val(wild) {
      KeyRightIffSamePoint(key, tame, wild);
    } else {
      MulCongruent(Val(tame) - Val(wild) + TWO256, key);
      if Mul(Val(tame)) == Mul(key + Val(wild)) { KeyRightIffTameAhead(key, tame, wild); }
    }
  }

  /** 2^256 is not a multiple of the order. */
  lemma WrapNotMultiple(d: int)
    requires d % N == 0
    ensures (d + TWO256) % N != 0
  {}

  /** Two points with one x are equal or each other's negative; the table cannot tell which. */
  lemma SameXTwoPoints(p: Point, q: Point)
    requires Prime(P) && OnCurve(p) && OnCurve(q) && p.Affine? && q.Affine? && p.x == q.x
    ensures p == q || Add(p, q) == Infinity
  {
  }

  // ---- Workers over a shared table ----

  /** Where a worker is in its loop: before the test of the loop head, past it, past the tame half, or out. */
  datatype Phase = Ready | Checked | Halfway | Stopped

  datatype Pair = Pair(tame: Walker, wild: Walker, phase: Phase)

  datatype Outcome = Searching | Found(key: int)

  /** All workers, the shared table, the key stored last, and the number of steps taken so far. */
  datatype Search = Search(workers: seq<Pair>, table: Slots, outcome: Outcome, steps: nat)

  /** dpBits trailing zero bits, of which only the lowest limb is looked at. */
  ghost predicate Distinguished(x: int, dpBits: nat) {
    var bits := if dpBits < 64 then dpBits else 64;
    PowPositive(2, bits);
    x % Pow(2, bits) == 0
  }

  /** is_distinguished */
  method IsDistinguished(x: U256, dpBits: nat) returns (d: bool)
    ensures d <==> Distinguished(Val(x), dpBits)
  {
    var bits := if dpBits < 64 then dpBits else 64;
    PowPositive(2, bits);
    LowLimb(x, bits);
    if dpBits == 0 { return true; }
    if dpBits >= 64 {
      Pow2Limb();
      return x[0] == 0;
    }
    d := x[0] % Pow(2, dpBits) == 0;
  }

  lemma LowLimb(x: U256, bits: nat)
    requires bits <= 64
    ensures Pow(2, bits) > 0 && Val(x) % Pow(2, bits) == x[0] % Pow(2, bits)
  {
    PowPositive(2, bits);
    Pow2Limb();
    PowAdd(2, bits, 64 - bits);
    ValLimbs(x);
    var w, v, rest := Pow(2, bits), Pow(2, 64 - bits), x[1] + B * (x[2] + B * x[3]);
    MulAssoc(w, v, rest);
    ShiftedMod(x[0], w, v * rest);
  }

  lemma ShiftedMod(a: int, w: int, k: int)
    requires 0 < w
    ensures (a + w * k) % w == a % w
  {
    assert a + w * k == (a / w + k) * w + a % w;
    DivModUnique(a + w * k, w, a / w + k, a % w);
  }

  /** What a kangaroo stores: the x coordinate of its position, its distance and its kind. */
  ghost predicate Reports(w: Walker, tame: bool, dp: DP) {
    Val(dp.x) == XOf(w.point) && Val(dp.distance) == w.distance && dp.isTame == tame
  }

  /** After a step to w: nothing happens unless w is distinguished; then its point goes into the table. */
  ghost predicate Stores(s: Search, s': Search, w: Walker, tame: bool, dpBits: nat, hit: bool) {
    if Distinguished(XOf(w.point), dpBits) then
      exists dp :: Reports(w, tame, dp) && StoresPoint(s, s', dp, hit)
    else
      s'.table == s.table && s'.outcome == s.outcome && !hit
  }

  /** A hit stores its key, over an earlier one if there is any. */
  ghost predicate StoresPoint(s: Search, s': Search, dp: DP, hit: bool) {
    && s'.table == Inserted(s.table, dp)
    && (hit <==> Collides(s.table, dp))
    && s'.outcome == if Collides(s.table, dp) then Found(CollisionKey(s.table, dp)) else s.outcome
  }

  /** Worker i tests at the head of its loop whether a key is known. */
  ghost predicate Tests(s: Search, s': Search, i: nat) {
    && i < |s.workers| && s.workers[i].phase == Ready
    && s' == s.(workers := s.workers[i := s.workers[i].(phase := if s.outcome.Found? then Stopped else Checked)])
  }

  ghost function WalkerOf(p: Pair, tame: bool): Walker {
    if tame then p.tame else p.wild
  }

  ghost function Moved(p: Pair, tame: bool, w: Walker, hit: bool): Pair {
    if tame then Pair(w, p.wild, if hit then Stopped else Halfway)
    else Pair(p.tame, w, if hit then Stopped else Ready)
  }

  /** The tame or the wild half of the turn of worker i: a step, and the report if it ends at a distinguished
      point. Another worker may have found a key since this one looked. */
  ghost predicate Moves(s: Search, s': Search, ds: seq<int>, dpBits: nat, i: nat, tame: bool, hit: bool)
    requires GoodJumps(ds)
  {
    && i < |s.workers| && s.workers[i].phase == (if tame then Checked else Halfway) && s'.steps == s.steps + 1
    && var w := Step(WalkerOf(s.workers[i], tame), ds);
       && s'.workers == s.workers[i := Moved(s.workers[i], tame, w, hit)]
       && Stores(s, s', w, tame, dpBits, hit)
  }

  ghost predicate Next(s: Search, s': Search, ds: seq<int>, dpBits: nat)
    requires GoodJumps(ds)
  {
    (exists i :: Tests(s, s', i)) || exists i, tame, hit :: Moves(s, s', ds, dpBits, i, tame, hit)
  }

  ghost function Base(tame: bool, key: nat): nat {
    if tame then 0 else key
  }

  /** A table entry holds the x coordinate of the multiple its distance stands for. */
  ghost predicate Honest(dp: DP, key: nat) {
    Val(dp.distance) >= 0 && Val(dp.x) == XOf(Mul(Base(dp.isTame, key) + Val(dp.distance)))
  }

  /** A reported key is the difference of a tame and a wild distance whose positions have one x. */
  ghost predicate Explained(found: int, key: nat) {
    exists tame: U256, wild: U256 :: ExplainedBy(found, key, tame, wild)
  }

  ghost predicate ExplainedBy(found: int, key: nat, tame: U256, wild: U256) {
    && Val(tame) >= 0 && Val(wild) >= 0 && found == KeyValue(tame, wild)
    && XOf(Mul(Val(tame))) == XOf(Mul(key + Val(wild)))
  }

  /** The largest distance possible after the given number of steps. */
  ghost function Reach(steps: nat): int {
    START_LIMIT + steps * TWO128
  }

  ghost predicate Invariant(s: Search, key: nat) {
    && (forall i :: 0 <= i < |s.workers| ==> GoodPair(s.workers[i], s.steps, key))
    && WellHashed(s.table)
    && (forall k :: k in s.table ==> Honest(s.table[k], key))
    && (s.outcome.Found? ==> Explained(s.outcome.key, key))
  }

  ghost predicate GoodPair(p: Pair, steps: nat, key: nat) {
    && OnTrack(p.tame, 0) && p.tame.distance < Reach(steps)
    && OnTrack(p.wild, key) && p.wild.distance < Reach(steps)
  }

  lemma StoreKeepsInvariant(s: Search, s': Search, dp: DP, hit: bool, key: nat)
    requires WellHashed(s.table) && (forall k :: k in s.table ==> Honest(s.table[k], key))
    requires s.outcome.Found? ==> Explained(s.outcome.key, key)
    requires Honest(dp, key) && StoresPoint(s, s', dp, hit)
    ensures WellHashed(s'.table) && forall k :: k in s'.table ==> Honest(s'.table[k], key)
    ensures s'.outcome.Found? ==> Explained(s'.outcome.key, key)
  {
    hide Hash, Mul, XOf, Val, KeyValue;
    InsertKeepsHashes(s.table, dp);
    if Collides(s.table, dp) {
      var other := s.table[Hash(dp.x)];
      assert Honest(other, key);
      if dp.isTame {
        assert ExplainedBy(s'.outcome.key, key, dp.distance, other.distance);
      } else {
        assert ExplainedBy(s'.outcome.key, key, other.distance, dp.distance);
      }
    }
  }

  /** Every step of every worker keeps the invariant, while at most 2^64 steps were taken. */
  lemma NextKeepsInvariant(s: Search, s': Search, ds: seq<int>, dpBits: nat, key: nat)
    requires Prime(P) && GoodJumps(ds) && Invariant(s, key) && Next(s, s', ds, dpBits)
    requires s'.steps <= TWO64
    ensures Invariant(s', key) && s.steps <= s'.steps <= s.steps + 1
  {
    hide Prime, Mul, Add, Distinguished, Step, Honest, Explained, Inserted, Collides, XOf;
    if i: nat :| Tests(s, s', i) {
      assert GoodPair(s.workers[i], s.steps, key);
    } else {
      var i: nat, tame, hit :| Moves(s, s', ds, dpBits, i, tame, hit);
      MoveKeepsInvariant(s, s', ds, dpBits, i, tame, hit, key);
    }
  }

  lemma MoveKeepsInvariant(s: Search, s': Search, ds: seq<int>, dpBits: nat, i: nat, tame: bool, hit: bool, key: nat)
    requires Prime(P) && GoodJumps(ds) && Invariant(s, key) && Moves(s, s', ds, dpBits, i, tame, hit)
    requires s.steps < TWO64
    ensures Invariant(s', key)
  {
    hide Prime, Mul, Add, Distinguished, Step, Honest, Explained, Inserted, Collides, XOf;
    var p := s.workers[i];
    var v := WalkerOf(p, tame);
    var w := Step(v, ds);
    assert GoodPair(p, s.steps, key);
    StepOnTrack(v, ds, Base(tame, key));
    forall k | 0 <= k < |s'.workers|
      ensures GoodPair(s'.workers[k], s'.steps, key)
    {
      assert GoodPair(s.workers[k], s.steps, key);
    }
    if Distinguished(XOf(w.point), dpBits) {
      var dp :| Reports(w, tame, dp) && StoresPoint(s, s', dp, hit);
      ReportsHonest(w, tame, dp, key);
      StoreKeepsInvariant(s, s', dp, hit, key);
    }
  }

  lemma ReportsHonest(w: Walker, tame: bool, dp: DP, key: nat)
    requires OnTrack(w, Base(tame, key)) && Reports(w, tame, dp)
    ensures Honest(dp, key)
  {}

  ghost predicate IsRun(run: seq<Search>, ds: seq<int>, dpBits: nat)
    requires GoodJumps(ds)
  {
    forall i :: 0 <= i < |run| - 1 ==> Next(run[i], run[i + 1], ds, dpBits)
  }

  /** Over every run of at most 2^64 steps, of any number of workers interleaved in any way, a reported
      key comes from a tame and a wild distance whose positions share their x. */
  lemma {:induction false} RunKeepsInvariant(run: seq<Search>, ds: seq<int>, dpBits: nat, key: nat)
    requires Prime(P) && GoodJumps(ds) && |run| > 0 && IsRun(run, ds, dpBits)
    requires Invariant(run[0], key) && run[|run| - 1].steps <= TWO64
    ensures run[0].steps <= run[|run| - 1].steps && Invariant(run[|run| - 1], key)
    decreases |run|
  {
    hide Prime, Invariant, Next;
    var n := |run| - 1;
    if n > 0 {
      assert Next(run[n - 1], run[n], ds, dpBits);
      StepsGrow(run[n - 1], run[n], ds, dpBits);
      RunKeepsInvariant(run[..n], ds, dpBits, key);
      NextKeepsInvariant(run[n - 1], run[n], ds, dpBits, key);
    }
  }

  lemma StepsGrow(s: Search, s': Search, ds: seq<int>, dpBits: nat)
    requires GoodJumps(ds) && Next(s, s', ds, dpBits)
    ensures s.steps <= s'.steps <= s.steps + 1
  {
    hide Stores, Step;
  }

  /** Once a tame and a wild walk have met, the first of two later reports of a shared distinguished point
      that stays in its slot makes the second one a collision, and the key is right exactly if the tame
      distance was not the smaller one. */
  lemma MeetingRecoversKey(tame: Walker, wild: Walker, ds: seq<int>, n: nat, key: nat,
                           t: DP, w: DP, others: seq<DP>, slots: Slots)
    requires CurveFacts() && GoodJumps(ds) && n < TWO64
    requires OnTrack(tame, 0) && OnTrack(wild, key) && tame.point == wild.point
    requires tame.distance < START_LIMIT && wild.distance < START_LIMIT
    requires Reports(StepN(tame, ds, n), true, t) && Reports(StepN(wild, ds, n), false, w)
    requires forall i :: 0 <= i < |others| ==> OtherSlot(t.x, others[i].x)
    ensures !Collides(slots, t) ==>
      var table := InsertedAll(Inserted(slots, t), others);
      Collides(table, w) && CollisionKey(table, w) >= 0
      && (Mul(CollisionKey(table, w)) == Mul(key) <==> tame.distance >= wild.distance)
    ensures !Collides(slots, w) ==>
      var table := InsertedAll(Inserted(slots, w), others);
      Collides(table, t) && CollisionKey(table, t) >= 0
      && (Mul(CollisionKey(table, t)) == Mul(key) <==> tame.distance >= wild.distance)
  {
    hide CurveFacts, Mul, Add, Hash, OtherSlot, Step, Val, KeyValue, Reports, StepN, GoodJumps, OnTrack;
    MeetingKey(tame, wild, ds, n, key, t, w);
    if !Collides(slots, t) { StoredCollides(slots, t, w, others); }
    if !Collides(slots, w) { StoredCollides(slots, w, t, others); }
  }

  /** After the meeting both walks report one x, and the difference of the reported distances is the key
      exactly if the tame distance was not the smaller one. */
  lemma MeetingKey(tame: Walker, wild: Walker, ds: seq<int>, n: nat, key: nat, t: DP, w: DP)
    requires CurveFacts() && GoodJumps(ds) && n < TWO64
    requires OnTrack(tame, 0) && OnTrack(wild, key) && tame.point == wild.point
    requires tame.distance < START_LIMIT && wild.distance < START_LIMIT
    requires Reports(StepN(tame, ds, n), true, t) && Reports(StepN(wild, ds, n), false, w)
    ensures t.x == w.x && t.isTame && !w.isTame
    ensures KeyValue(t.distance, w.distance) >= 0
    ensures Mul(KeyValue(t.distance, w.distance)) == Mul(key) <==> tame.distance >= wild.distance
  {
    hide CurveFacts, Prime, Mul, Add, Step, Val, KeyValue, StepN, GoodJumps, OnTrack;
    CurveParts();
    MeetingDistances(tame, wild, ds, n, key);
    ValInjective(t.x, w.x);
    KeyRightIffTameAhead(key, t.distance, w.distance);
  }

  /** After the meeting both walks are at one multiple of G, and their distances differ as they did. */
  lemma MeetingDistances(tame: Walker, wild: Walker, ds: seq<int>, n: nat, key: nat)
    requires Prime(P) && GoodJumps(ds) && n < TWO64
    requires OnTrack(tame, 0) && OnTrack(wild, key) && tame.point == wild.point
    requires tame.distance < START_LIMIT && wild.distance < START_LIMIT
    ensures var a, b := StepN(tame, ds, n), StepN(wild, ds, n);
      && a.point == b.point && a.distance - b.distance == tame.distance - wild.distance
      && a.distance >= 0 && b.distance >= 0 && Mul(a.distance) == Mul(key + b.distance)
  {
    hide Prime, Mul, Add, Step, StepN, GoodJumps;
    MeetingWalksStayTogether(tame, wild, ds, n);
    WalkOnTrack(tame, ds, 0, n);
    WalkOnTrack(wild, ds, key, n);
    var a, b := StepN(tame, ds, n), StepN(wild, ds, n);
    DifferenceKept(a.distance, b.distance, tame.distance, wild.distance, n);
    SamePositions(a, b, key);
  }

  /** One position reached by a tame and a wild kangaroo is one multiple of G. */
  lemma SamePositions(a: Walker, b: Walker, key: nat)
    requires OnTrack(a, 0) && OnTrack(b, key) && a.point == b.point
    ensures a.distance >= 0 && b.distance >= 0 && Mul(a.distance) == Mul(key + b.distance)
  {
    hide Mul;
    assert 0 + a.distance == a.distance;
  }

  /** A stored point of the other kind with the same x is still there after insertions elsewhere. */
  lemma StoredCollides(slots: Slots, first: DP, second: DP, others: seq<DP>)
    requires !Collides(slots, first) && first.x == second.x && first.isTame != second.isTame
    requires forall i :: 0 <= i < |others| ==> OtherSlot(first.x, others[i].x)
    ensures var table := InsertedAll(Inserted(slots, first), others);
      Collides(table, second)
      && CollisionKey(table, second)
      == if second.isTame then KeyValue(second.distance, first.distance) else KeyValue(first.distance, second.distance)
  {
    hide OtherSlot, KeyValue, Inserted, Collides, CollisionKey;
    InsertFinds(slots, first, first);
    FoundLater(Inserted(slots, first), first, others);
  }

  lemma DifferenceKept(a: int, b: int, a0: int, b0: int, n: nat)
    requires (a - b - (a0 - b0)) % TWO256 == 0 && n < TWO64
    requires a0 <= a <= a0 + n * TWO128 && b0 <= b <= b0 + n * TWO128
    ensures a - b == a0 - b0
  {
    assert n * TWO128 <= TWO64 * TWO128;
  }

  /** The order that the reported key needs comes by itself at a meeting below the group order: then the
      distances differ by the key as numbers. */
  lemma MeetingBelowOrder(tame: nat, key: nat, wild: nat)
    requires CurveFacts() && Mul(tame) == Mul(key + wild) && tame < N && key + wild < N
    ensures tame - wild == key
  {
    hide Mul, CurveFacts;
    MulCongruent(tame, key + wild);
    SmallMultipleOfN(tame - key - wild);
  }

  lemma SmallMultipleOfN(d: int)
    requires d % N == 0 && -N < d < N
    ensures d == 0
  {}

  // ---- A meeting inside a run ----

  /** The entries with this x are left alone between two moments. */
  ghost predicate SlotKept(s: Search, s': Search, x: int) {
    forall k :: k in s.table && Val(s.table[k].x) == x ==> k in s'.table && s'.table[k] == s.table[k]
  }

  /** What is new in the table has other parities than x. */
  ghost predicate NoRival(s: Search, s': Search, x: U256) {
    forall k :: k in s'.table && !(k in s.table && s.table[k] == s'.table[k]) ==> OtherSlot(x, s'.table[k].x)
  }

  /** As long as only points with other parities are stored, the entries with this x are left alone. */
  lemma {:induction false} SlotKeptInRun(run: seq<Search>, ds: seq<int>, dpBits: nat, a: nat, c: nat, x: U256)
    requires GoodJumps(ds) && IsRun(run, ds, dpBits) && a <= c < |run| && WellHashed(run[a].table)
    requires forall m :: a <= m < c ==> NoRival(run[m], run[m + 1], x)
    ensures WellHashed(run[c].table) && SlotKept(run[a], run[c], Val(x))
    decreases c
  {
    hide Next, NoRival, WellHashed, Val;
    if a < c {
      SlotKeptInRun(run, ds, dpBits, a, c - 1, x);
      assert Next(run[c - 1], run[c], ds, dpBits) && NoRival(run[c - 1], run[c], x);
      SlotKeptByStep(run[c - 1], run[c], ds, dpBits, x);
    }
  }

  lemma SlotKeptByStep(s: Search, s': Search, ds: seq<int>, dpBits: nat, x: U256)
    requires GoodJumps(ds) && Next(s, s', ds, dpBits) && WellHashed(s.table) && NoRival(s, s', x)
    ensures WellHashed(s'.table) && SlotKept(s, s', Val(x))
  {
    hide Step, Val, Hash, OtherSlot, Distinguished, XOf;
    if i: nat :| Tests(s, s', i) {
    } else {
      var i: nat, tame, hit :| Moves(s, s', ds, dpBits, i, tame, hit);
      var w := Step(WalkerOf(s.workers[i], tame), ds);
      if Distinguished(XOf(w.point), dpBits) {
        var dp :| Reports(w, tame, dp) && StoresPoint(s, s', dp, hit);
        InsertKeepsHashes(s.table, dp);
        SlotsDifferIff(x, dp.x);
        forall k | k in s.table && Val(s.table[k].x) == Val(x) ensures k in s'.table && s'.table[k] == s.table[k] {
          ValInjective(s.table[k].x, x);
        }
      }
    }
  }

  /** A move that ends at a distinguished point without a hit leaves it in the table. */
  lemma StoredWithoutHit(s: Search, s': Search, w: Walker, tame: bool, dpBits: nat) returns (dp: DP)
    requires Stores(s, s', w, tame, dpBits, false) && Distinguished(XOf(w.point), dpBits)
    ensures Reports(w, tame, dp)
    ensures Hash(dp.x) in s'.table && s'.table[Hash(dp.x)] == dp
  {
    hide Hash, Distinguished, XOf;
    dp :| Reports(w, tame, dp) && StoresPoint(s, s', dp, false);
  }

  /** The second kangaroo's move onto the same point is a hit, and its key is the difference. */
  lemma StoredCollision(s: Search, s': Search, w: Walker, tame: bool, dpBits: nat, hit: bool, first: DP)
    returns (dp: DP)
    requires Stores(s, s', w, tame, dpBits, hit) && Distinguished(XOf(w.point), dpBits)
    requires Val(first.x) == XOf(w.point) && first.isTame != tame
    requires Hash(first.x) in s.table && s.table[Hash(first.x)] == first
    ensures hit && Reports(w, tame, dp)
    ensures s'.outcome
         == Found(if tame then KeyValue(dp.distance, first.distance) else KeyValue(first.distance, dp.distance))
  {
    hide Hash, Distinguished, XOf, KeyValue, Val;
    dp :| Reports(w, tame, dp) && StoresPoint(s, s', dp, hit);
    ValInjective(dp.x, first.x);
  }

  /** In a run: the kangaroo of one kind of worker i moves onto a distinguished point at moment a, the one of the
      other kind of worker j onto the same point at moment c, and the slot is kept in between. Then the second
      move finds a key, and it is right exactly if the tame distance is not the smaller one; below the group
      order it is the key itself. */
  lemma SearchFindsKey(run: seq<Search>, ds: seq<int>, dpBits: nat, key: nat,
                       a: nat, i: nat, c: nat, j: nat, tameFirst: bool, hit: bool)
    requires CurveFacts() && GoodJumps(ds) && |run| > 0 && IsRun(run, ds, dpBits)
    requires Invariant(run[0], key) && run[|run| - 1].steps <= TWO64
    requires a < c && c + 1 < |run| && Moves(run[a], run[a + 1], ds, dpBits, i, tameFirst, false)
    requires Moves(run[c], run[c + 1], ds, dpBits, j, !tameFirst, hit)
    requires WalkerOf(run[a + 1].workers[i], tameFirst).point == WalkerOf(run[c + 1].workers[j], !tameFirst).point
    requires var x := XOf(WalkerOf(run[a + 1].workers[i], tameFirst).point);
             Distinguished(x, dpBits) && SlotKept(run[a + 1], run[c], x)
    ensures var first, second := WalkerOf(run[a + 1].workers[i], tameFirst), WalkerOf(run[c + 1].workers[j], !tameFirst);
      var tame, wild := if tameFirst then first else second, if tameFirst then second else first;
      && hit && run[c + 1].outcome.Found? && run[c + 1].outcome.key >= 0
      && (Mul(run[c + 1].outcome.key) == Mul(key) <==> tame.distance >= wild.distance)
      && (tame.distance < N && key + wild.distance < N ==> run[c + 1].outcome.key == key)
  {
    hide CurveFacts, Prime, Mul, Invariant, Moves, Stores, Hash, KeyValue, Val, Distinguished, XOf, Step;
    CurveParts();
    MovesStore(run[a], run[a + 1], ds, dpBits, i, tameFirst, false);
    MovesStore(run[c], run[c + 1], ds, dpBits, j, !tameFirst, hit);
    var first, second := WalkerOf(run[a + 1].workers[i], tameFirst), WalkerOf(run[c + 1].workers[j], !tameFirst);
    var p := StoredWithoutHit(run[a], run[a + 1], first, tameFirst, dpBits);
    var q := StoredCollision(run[c], run[c + 1], second, !tameFirst, dpBits, hit, p);
    OnTrackInRun(run, ds, dpBits, key, a + 1, i);
    OnTrackInRun(run, ds, dpBits, key, c + 1, j);
    var t, w := if tameFirst then p else q, if tameFirst then q else p;
    var tame, wild := if tameFirst then first else second, if tameFirst then second else first;
    SamePositions(tame, wild, key);
    KeyRightIffTameAhead(key, t.distance, w.distance);
    if tame.distance < N && key + wild.distance < N {
      MeetingBelowOrder(tame.distance, key, wild.distance);
      UnwrappedKey(t.distance, w.distance);
    }
  }

  lemma UnwrappedKey(tame: U256, wild: U256)
    requires Val(tame) >= Val(wild)
    ensures KeyValue(tame, wild) == Val(tame) - Val(wild)
  {
    ValBound(tame);
    ValBound(wild);
  }

  lemma MovesStore(s: Search, s': Search, ds: seq<int>, dpBits: nat, i: nat, tame: bool, hit: bool)
    requires GoodJumps(ds) && Moves(s, s', ds, dpBits, i, tame, hit)
    ensures i < |s'.workers| && Stores(s, s', WalkerOf(s'.workers[i], tame), tame, dpBits, hit)
  {
    hide Stores, Step;
  }

  lemma OnTrackInRun(run: seq<Search>, ds: seq<int>, dpBits: nat, key: nat, m: nat, i: nat)
    requires Prime(P) && GoodJumps(ds) && IsRun(run, ds, dpBits) && m < |run| && i < |run[m].workers|
    requires Invariant(run[0], key) && run[|run| - 1].steps <= TWO64
    ensures OnTrack(run[m].workers[i].tame, 0) && OnTrack(run[m].workers[i].wild, key)
  {
    hide Prime, Next, Invariant, OnTrack;
    StepsGrowInRun(run, ds, dpBits, m, |run| - 1);
    RunKeepsInvariant(run[..m + 1], ds, dpBits, key);
    InvariantParts(run[m], key, i);
  }

  lemma InvariantParts(s: Search, key: nat, i: nat)
    requires Invariant(s, key) && i < |s.workers|
    ensures OnTrack(s.workers[i].tame, 0) && OnTrack(s.workers[i].wild, key)
  {
    hide OnTrack;
    assert GoodPair(s.workers[i], s.steps, key);
  }

  lemma {:induction false} StepsGrowInRun(run: seq<Search>, ds: seq<int>, dpBits: nat, m: nat, n: nat)
    requires GoodJumps(ds) && IsRun(run, ds, dpBits) && m <= n < |run|
    ensures run[m].steps <= run[n].steps
    decreases n
  {
    hide Next;
    if m < n {
      StepsGrowInRun(run, ds, dpBits, m, n - 1);
      assert Next(run[n - 1], run[n], ds, dpBits);
      StepsGrow(run[n - 1], run[n], ds, dpBits);
    }
  }

  /** Whatever the interleaving, a kangaroo of a run is where its own walk takes it. */
  lemma {:induction false} WalkInRun(run: seq<Search>, ds: seq<int>, dpBits: nat, m: nat, t: nat, i: nat, tame: bool)
    returns (n: nat)
    requires GoodJumps(ds) && IsRun(run, ds, dpBits) && m <= t < |run| && i < |run[m].workers|
    ensures i < |run[t].workers|
    ensures n <= run[t].steps - run[m].steps
    ensures WalkerOf(run[t].workers[i], tame) == StepN(WalkerOf(run[m].workers[i], tame), ds, n)
    decreases t
  {
    hide Next, Step;
    n := 0;
    if m < t {
      n := WalkInRun(run, ds, dpBits, m, t - 1, i, tame);
      assert Next(run[t - 1], run[t], ds, dpBits);
      StepsGrow(run[t - 1], run[t], ds, dpBits);
      var moved := WalkStep(run[t - 1], run[t], ds, dpBits, i, tame);
      if moved { n := n + 1; }
    }
  }

  lemma WalkStep(s: Search, s': Search, ds: seq<int>, dpBits: nat, i: nat, tame: bool) returns (moved: bool)
    requires GoodJumps(ds) && Next(s, s', ds, dpBits) && i < |s.workers|
    ensures i < |s'.workers| && (moved ==> s'.steps == s.steps + 1)
    ensures WalkerOf(s'.workers[i], tame)
         == if moved then Step(WalkerOf(s.workers[i], tame), ds) else WalkerOf(s.workers[i], tame)
  {
    hide Step, Stores;
    moved := false;
    if k: nat :| Tests(s, s', k) {
    } else {
      var k: nat, kind, hit :| Moves(s, s', ds, dpBits, k, kind, hit);
      moved := k == i && kind == tame;
    }
  }

  /** After a meeting at moment m, the next distinguished point that both kangaroos report after the same number of
      steps since then gives the key, as long as the slot is kept in between. */
  lemma MeetingFindsKey(run: seq<Search>, ds: seq<int>, dpBits: nat, key: nat, m: nat, n: nat,
                        a: nat, i: nat, c: nat, j: nat, tameFirst: bool, hit: bool)
    requires CurveFacts() && GoodJumps(ds) && |run| > 0 && IsRun(run, ds, dpBits)
    requires Invariant(run[0], key) && run[|run| - 1].steps <= TWO64
    requires m <= a < c && c + 1 < |run| && i < |run[m].workers| && j < |run[m].workers|
    requires WalkerOf(run[m].workers[i], tameFirst).point == WalkerOf(run[m].workers[j], !tameFirst).point
    requires Moves(run[a], run[a + 1], ds, dpBits, i, tameFirst, false)
    requires Moves(run[c], run[c + 1], ds, dpBits, j, !tameFirst, hit)
    requires WalkerOf(run[a + 1].workers[i], tameFirst) == StepN(WalkerOf(run[m].workers[i], tameFirst), ds, n)
    requires WalkerOf(run[c + 1].workers[j], !tameFirst) == StepN(WalkerOf(run[m].workers[j], !tameFirst), ds, n)
    requires var x := XOf(WalkerOf(run[a + 1].workers[i], tameFirst).point);
             Distinguished(x, dpBits) && SlotKept(run[a + 1], run[c], x)
    ensures var first, second := WalkerOf(run[a + 1].workers[i], tameFirst), WalkerOf(run[c + 1].workers[j], !tameFirst);
      var tame, wild := if tameFirst then first else second, if tameFirst then second else first;
      && hit && run[c + 1].outcome.Found? && run[c + 1].outcome.key >= 0
      && (Mul(run[c + 1].outcome.key) == Mul(key) <==> tame.distance >= wild.distance)
      && (tame.distance < N && key + wild.distance < N ==> run[c + 1].outcome.key == key)
  {
    hide CurveFacts, Mul, Invariant, Distinguished, SlotKept, XOf, StepN, Next, Stores, Step;
    MeetingWalksStayTogether(WalkerOf(run[m].workers[i], tameFirst), WalkerOf(run[m].workers[j], !tameFirst), ds, n);
    SearchFindsKey(run, ds, dpBits, key, a, i, c, j, tameFirst, hit);
  }
}
