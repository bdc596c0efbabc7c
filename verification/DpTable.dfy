/** The table of distinguished points: collision check, listing and reloading. */
module DpTable {
  import opened Arith
  import FieldPow
  import opened Limbs
  import opened Xor

  datatype DP = DP(x: U256, distance: U256, isTame: bool)

  /** The slot of an x coordinate: the exclusive or of its limbs. */
  function Hash(x: U256): U64 {
    XorLimbs(XorLimbs(XorLimbs(x[0], x[1]), x[2]), x[3])
  }

  /** Exclusive or of two limbs. */
  function XorLimbs(a: U64, b: U64): U64 {
    XorBound(a, b, 64);
    FieldPow.Pow2Limb();
    XorBits(a, b, 64)
  }

  // ---- Which points share a slot ----

  /** How many of the four limbs have bit i set, modulo 2. */
  function Parity(x: U256, i: nat): nat {
    PowPositive(2, i);
    (x[0] / Pow(2, i) + x[1] / Pow(2, i) + x[2] / Pow(2, i) + x[3] / Pow(2, i)) % 2
  }

  /** Bit i of the slot is the parity of the four bits i. */
  lemma HashBit(x: U256, i: nat)
    requires i < 64
    ensures Pow(2, i) > 0 && Hash(x) / Pow(2, i) % 2 == Parity(x, i)
  {
    hide XorLimbs, Bit, Pow;
    XorLimbsBit(x[0], x[1], i);
    XorLimbsBit(XorLimbs(x[0], x[1]), x[2], i);
    XorLimbsBit(XorLimbs(XorLimbs(x[0], x[1]), x[2]), x[3], i);
    BitIs(x[0], i);
    BitIs(x[1], i);
    BitIs(x[2], i);
    BitIs(x[3], i);
    BitIs(Hash(x), i);
    Parities(x[0] / Pow(2, i), x[1] / Pow(2, i), x[2] / Pow(2, i), x[3] / Pow(2, i));
  }

  lemma XorLimbsBit(a: U64, b: U64, i: nat)
    requires i < 64
    ensures Bit(XorLimbs(a, b), i) == (Bit(a, i) + Bit(b, i)) % 2
  {
    hide XorBits, Bit, Pow;
    XorBit(a, b, 64, i);
  }

  lemma Parities(a: int, b: int, c: int, d: int)
    ensures (((a % 2 + b % 2) % 2 + c % 2) % 2 + d % 2) % 2 == (a + b + c + d) % 2
  {}

  /** Some of the 64 parities differ. */
  ghost predicate OtherSlot(x: U256, y: U256) {
    exists i :: 0 <= i < 64 && Parity(x, i) != Parity(y, i)
  }

  /** Two points have different slots exactly when some parity differs. */
  lemma SlotsDifferIff(x: U256, y: U256)
    ensures Hash(x) != Hash(y) <==> OtherSlot(x, y)
  {
    hide Hash, Parity, Pow;
    forall i | 0 <= i < 64 ensures Bit(Hash(x), i) == Parity(x, i) && Bit(Hash(y), i) == Parity(y, i) {
      HashBit(x, i);
      HashBit(y, i);
      BitIs(Hash(x), i);
      BitIs(Hash(y), i);
    }
    FieldPow.Pow2Limb();
    if !OtherSlot(x, y) {
      SameBits(Hash(x), Hash(y), 64);
    }
  }

  lemma XorLimbsCancel(a: U64, b: U64, c: U64)
    ensures XorLimbs(a, c) == XorLimbs(b, c) ==> a == b
    ensures XorLimbs(a, b) == XorLimbs(a, c) ==> b == c
  {
    hide XorBits, Pow;
    FieldPow.Pow2Limb();
    XorBitsCancel(a, b, c, 64);
    XorBitsCancel(b, c, a, 64);
    XorCommutes(a, b, 64);
    XorCommutes(a, c, 64);
  }

  /** A number of one limb is its own slot, and x coordinates that differ in one limb have different slots. */
  lemma OneLimb(x: U256, y: U256, k: nat)
    requires k < 4 && forall j :: 0 <= j < 4 && j != k ==> x[j] == y[j]
    ensures Hash(x) == Hash(y) ==> x == y
    ensures Hash([x[k], 0, 0, 0]) == x[k]
  {
    hide XorLimbs;
    XorNothing(x[k]);
    XorLimbsCancel(x[0], y[0], x[1]);
    XorLimbsCancel(x[0], x[1], y[1]);
    XorLimbsCancel(XorLimbs(x[0], x[1]), XorLimbs(y[0], y[1]), x[2]);
    XorLimbsCancel(XorLimbs(x[0], x[1]), x[2], y[2]);
    XorLimbsCancel(XorLimbs(XorLimbs(x[0], x[1]), x[2]), XorLimbs(XorLimbs(y[0], y[1]), y[2]), x[3]);
    XorLimbsCancel(XorLimbs(XorLimbs(x[0], x[1]), x[2]), x[3], y[3]);
  }

  lemma XorNothing(a: U64)
    ensures XorLimbs(a, 0) == a
  {
    hide XorBits, Pow;
    FieldPow.Pow2Limb();
    XorZero(a, 64);
  }

  type Slots = map<U64, DP>

  /** Every entry sits in the slot of its own x. */
  ghost predicate WellHashed(t: Slots) {
    forall k :: k in t ==> Hash(t[k].x) == k
  }

  /** The slot of dp holds a point of the other kind with the same x. */
  ghost predicate Collides(t: Slots, dp: DP) {
    var k := Hash(dp.x);
    k in t && t[k].x == dp.x && t[k].isTame != dp.isTame
  }

  /** The table after an insertion; a collision leaves it alone. */
  ghost function Inserted(t: Slots, dp: DP): Slots {
    if Collides(t, dp) then t else t[Hash(dp.x) := dp]
  }

  /** The key of a tame and a wild distance: their difference modulo 2^256. */
  ghost function KeyValue(tame: U256, wild: U256): int {
    (Val(tame) - Val(wild)) % TWO256
  }

  ghost function CollisionKey(t: Slots, dp: DP): int
    requires Collides(t, dp)
  {
    var other := t[Hash(dp.x)];
    if dp.isTame then KeyValue(dp.distance, other.distance) else KeyValue(other.distance, dp.distance)
  }

  class ThreadSafeDPTable {
    var table: Slots

    constructor ()
      ensures table == map[]
    {
      table := map[];
    }

    method InsertAndCheck(dp: DP) returns (hit: bool, key: U256)
      modifies this
      ensures hit <==> old(Collides(table, dp))
      ensures hit ==> Val(key) == old(CollisionKey(table, dp))
      ensures table == old(Inserted(table, dp))
    {
      hide Hash;
      key := [0, 0, 0, 0];
      var slot := Hash(dp.x);
      if slot in table {
        var other := table[slot];
        if other.x == dp.x && other.isTame != dp.isTame {
          if dp.isTame {
            key := Subtract(dp.distance, other.distance);
          } else {
            key := Subtract(other.distance, dp.distance);
          }
          return true, key;
        }
      }
      table := table[slot := dp];
      return false, key;
    }

    /** All entries, in the order of some traversal of the slots. */
    method GetAll() returns (all: seq<DP>, ghost order: seq<U64>)
      ensures Lists(table, all, order)
    {
      all, order := [], [];
      var left := table.Keys;
      while left != {}
        invariant left <= table.Keys
        invariant |all| == |order|
        invariant forall i :: 0 <= i < |order| ==> order[i] in table && order[i] !in left && all[i] == table[order[i]]
        invariant forall k :: k in table && k !in left ==> k in order
        invariant forall i, j :: 0 <= i < j < |order| ==> order[i] != order[j]
        decreases |left|
      {
        assert |left| > 0;
        var k :| k in left;
        left := left - {k};
        all, order := all + [table[k]], order + [k];
      }
    }

    method Load(dps: seq<DP>)
      modifies this
      ensures table == LoadAll(old(table), dps)
    {
      hide Hash;
      var i := 0;
      while i < |dps|
        invariant 0 <= i <= |dps|
        invariant LoadAll(old(table), dps) == LoadAll(table, dps[i..])
      {
        var dp := dps[i];
        assert dps[i..][0] == dp && dps[i..][1..] == dps[i + 1..];
        table := table[Hash(dp.x) := dp];
        i := i + 1;
      }
    }
  }

  method Subtract(a: U256, b: U256) returns (r: U256)
    ensures Val(r) == KeyValue(a, b)
  {
    var borrow;
    r, borrow := Sub256(a, b);
    ValBound(r);
    DivModUnique(Val(a) - Val(b), TWO256, -borrow, Val(r));
  }

  /** all lists the entries of t once each, in the given order of slots. */
  ghost predicate Lists(t: Slots, all: seq<DP>, order: seq<U64>) {
    && |all| == |order|
    && (forall i :: 0 <= i < |order| ==> order[i] in t && all[i] == t[order[i]])
    && (forall k :: k in t ==> k in order)
    && (forall i, j :: 0 <= i < j < |order| ==> order[i] != order[j])
  }

  ghost function LoadAll(t: Slots, dps: seq<DP>): Slots
    decreases |dps|
  {
    if dps == [] then t else LoadAll(t[Hash(dps[0].x) := dps[0]], dps[1..])
  }

  /** Insertion keeps every entry in its own slot. */
  lemma InsertKeepsHashes(t: Slots, dp: DP)
    requires WellHashed(t)
    ensures WellHashed(Inserted(t, dp))
  {
    hide Hash;
  }

  /** Loading entries that all belong to t, on top of a part of t, adds exactly those entries. */
  lemma {:induction false} LoadPart(t: Slots, part: Slots, dps: seq<DP>)
    requires WellHashed(t)
    requires forall k :: k in part ==> k in t && part[k] == t[k]
    requires forall d :: d in dps ==> Hash(d.x) in t && t[Hash(d.x)] == d
    ensures var r := LoadAll(part, dps);
            && (forall k :: k in r ==> k in t && r[k] == t[k])
            && (forall k :: k in part ==> k in r)
            && (forall d :: d in dps ==> Hash(d.x) in r)
    decreases |dps|
  {
    hide Hash;
    if dps != [] {
      var d := dps[0];
      assert d in dps;
      assert forall e :: e in dps[1..] ==> e in dps;
      LoadPart(t, part[Hash(d.x) := d], dps[1..]);
      assert forall e :: e in dps ==> e == d || e in dps[1..];
    }
  }

  lemma SameMap<K, V>(a: map<K, V>, b: map<K, V>)
    requires forall k :: k in a ==> k in b && a[k] == b[k]
    requires forall k :: k in b ==> k in a
    ensures a == b
  {}

  /** Saving the entries and loading them into an empty table, in any order, restores the table; so every
      later insertion answers as it would have before. */
  lemma ReloadRestores(t: Slots, all: seq<DP>, order: seq<U64>, dps: seq<DP>)
    requires WellHashed(t) && Lists(t, all, order)
    requires multiset(dps) == multiset(all)
    ensures LoadAll(map[], dps) == t
  {
    hide Hash;
    forall d | d in dps
      ensures Hash(d.x) in t && t[Hash(d.x)] == d
    {
      assert d in multiset(dps);
      assert d in multiset(all);
      var i :| 0 <= i < |all| && all[i] == d;
      assert order[i] in t && Hash(t[order[i]].x) == order[i];
    }
    LoadPart(t, map[], dps);
    var r := LoadAll(map[], dps);
    forall k | k in t
      ensures k in r
    {
      var i :| 0 <= i < |order| && order[i] == k;
      assert all[i] in multiset(all);
      assert all[i] in multiset(dps);
      assert all[i] in dps;
      assert Hash(all[i].x) == k;
    }
    SameMap(r, t);
  }

  /** Whichever of a tame and a wild point arrives second, the key is the same. */
  lemma ArrivalOrderIrrelevant(t: Slots, tame: DP, wild: DP)
    requires tame.isTame && !wild.isTame && tame.x == wild.x
    requires !Collides(t, tame) && !Collides(t, wild)
    ensures Collides(Inserted(t, tame), wild) && Collides(Inserted(t, wild), tame)
    ensures CollisionKey(Inserted(t, tame), wild) == CollisionKey(Inserted(t, wild), tame)
         == KeyValue(tame.distance, wild.distance)
  {
    hide Hash;
  }

  /** The table after a sequence of insertions. */
  ghost function InsertedAll(t: Slots, dps: seq<DP>): Slots
    decreases |dps|
  {
    if dps == [] then t else InsertedAll(Inserted(t, dps[0]), dps[1..])
  }

  /** The table finds the partner of a point of the other kind with the same x. */
  ghost predicate Finds(t: Slots, dp: DP) {
    forall q: DP :: q.x == dp.x && q.isTame != dp.isTame ==>
      Collides(t, q) && CollisionKey(t, q) == if dp.isTame then KeyValue(dp.distance, q.distance) else KeyValue(q.distance, dp.distance)
  }

  /** What an insertion leaves findable. The point itself is, unless it completes a collision. A point found before
      still is, unless one with another x but the same parities takes its slot; one with its own x and kind leaves
      its own distance instead. */
  lemma InsertFinds(t: Slots, dp: DP, e: DP)
    ensures !Collides(t, e) ==> Finds(Inserted(t, e), e)
    ensures Finds(t, dp) && OtherSlot(dp.x, e.x) ==> Finds(Inserted(t, e), dp)
    ensures Finds(t, dp) && dp.x != e.x && !OtherSlot(dp.x, e.x) ==> !Finds(Inserted(t, e), dp)
    ensures Finds(t, dp) && dp.x == e.x && dp.isTame != e.isTame ==> Finds(Inserted(t, e), dp)
  {
    hide Hash, OtherSlot, KeyValue;
    SlotsDifferIff(dp.x, e.x);
    if Finds(t, dp) {
      var q := dp.(isTame := !dp.isTame);
      assert Collides(t, q);
      if dp.x != e.x && !OtherSlot(dp.x, e.x) { assert !Collides(Inserted(t, e), q); }
    }
  }

  /** Points with other parities, however many, leave a point findable. */
  lemma {:induction false} FoundLater(t: Slots, dp: DP, others: seq<DP>)
    requires Finds(t, dp) && forall i :: 0 <= i < |others| ==> OtherSlot(dp.x, others[i].x)
    ensures Finds(InsertedAll(t, others), dp)
    decreases |others|
  {
    hide Finds, OtherSlot, Inserted;
    if others != [] {
      InsertFinds(t, dp, others[0]);
      FoundLater(Inserted(t, others[0]), dp, others[1..]);
    }
  }
}
