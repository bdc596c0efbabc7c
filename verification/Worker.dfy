/** One half-iteration of a worker thread: step a kangaroo and, at a distinguished point, report it. */
module Worker {
  import opened Limbs
  import opened Curve
  import opened Jacobian
  import opened ScalarMul
  import opened Kangaroo
  import opened DpTable
  import opened KangarooRun

  /** The tame half of the loop body of thread_worker_standard, and with a wild kangaroo the other half. */
  method StepAndReport(jumps: JumpTable, k: Kangaroo, points: ThreadSafeDPTable, dpBits: nat)
      returns (found: bool, key: U256)
    requires jumps.Valid() && k.point !in jumps.points && k.point.Coords().Valid()
    modifies k, k.point, points
    ensures k.point.Coords().Valid() && k.isTame == old(k.isTame)
    ensures CurveFacts() ==>
      && k.State() == old(Step(k.State(), Distances(jumps)))
      && (!Distinguished(XOf(k.State().point), dpBits) ==> !found && points.table == old(points.table))
      && (Distinguished(XOf(k.State().point), dpBits) ==>
            exists dp :: && Reports(k.State(), k.isTame, dp)
                         && points.table == Inserted(old(points.table), dp)
                         && (found <==> Collides(old(points.table), dp))
                         && (found ==> Val(key) == CollisionKey(old(points.table), dp)))
  {
    hide CurveFacts, Mul, ToPoint, Val, Add, Distinguished, Step, Hash, Inserted, Collides, CollisionKey;
    found, key := false, [0, 0, 0, 0];
    StepKangaroo(jumps, k);
    var x, y := EcToAffine(k.point);
    AffineX(k.point.Coords(), Val(x), Val(y));
    var distinguished := IsDistinguished(x, dpBits);
    if distinguished {
      var dp := DP(x, k.distance, k.isTame);
      found, key := points.InsertAndCheck(dp);
      assert Reports(k.State(), k.isTame, dp);
    }
  }
}
