/** The saved position of a puzzle search: its checksum, its bounds check, and its text file. */
module SearchState {
  import opened Arith
  import opened BigEndian
  import opened Limbs
  import opened Results
  import opened Wire
  import opened Text
  import opened Xor

  datatype PuzzleSearchState = PuzzleSearchState(
    puzzleNumber: Int32,
    zoneIdx: U64,
    positionLo: U64,
    positionHi: U64,
    totalChecked: U64,
    zoneChecked: U64,
    timestamp: string,
    valid: bool)

  // ---- The checksum ----

  const OFFSET_BASIS: U32 := 2166136261
  const FNV_PRIME: int := 16777619
  const M32: int := 0x1_0000_0000

  /** Exclusive or of two bytes. */
  function XorByte(a: Byte, b: Byte): Byte {
    XorBound(a, b, 8);
    assert Pow(2, 8) == 256;
    XorBits(a, b, 8)
  }

  /** One byte into the hash: exclusive or with the low byte, then the product modulo 2^32. */
  function Mix(h: U32, b: Byte): U32 {
    (h - h % 256 + XorByte(h % 256, b)) * FNV_PRIME % M32
  }

  function Fnv(h: U32, s: seq<Byte>): U32 {
    if s == [] then h else Mix(Fnv(h, s[..|s| - 1]), s[|s| - 1])
  }

  /** The hashed bytes: six 64-bit little-endian numbers, the puzzle number sign-extended. */
  function Hashed(s: PuzzleSearchState): (b: seq<Byte>)
    ensures |b| == 48
  {
    Le(s.puzzleNumber % B, 8) + Le(s.zoneIdx, 8) + Le(s.positionLo, 8) + Le(s.positionHi, 8)
    + Le(s.totalChecked, 8) + Le(s.zoneChecked, 8)
  }

  /** Where the six numbers lie among the hashed bytes. */
  lemma HashedLayout(s: PuzzleSearchState)
    ensures var b := Hashed(s);
      && LeNumber(b[0..8]) == s.puzzleNumber % B && LeNumber(b[8..16]) == s.zoneIdx && LeNumber(b[16..24]) == s.positionLo
      && LeNumber(b[24..32]) == s.positionHi && LeNumber(b[32..40]) == s.totalChecked && LeNumber(b[40..48]) == s.zoneChecked
  {
    hide Le, LeNumber;
    LePowers();
    LeRead(s.puzzleNumber % B, 8);
    LeRead(s.zoneIdx, 8);
    LeRead(s.positionLo, 8);
    LeRead(s.positionHi, 8);
    LeRead(s.totalChecked, 8);
    LeRead(s.zoneChecked, 8);
    SixSlices(Le(s.puzzleNumber % B, 8), Le(s.zoneIdx, 8), Le(s.positionLo, 8), Le(s.positionHi, 8), Le(s.totalChecked, 8),
              Le(s.zoneChecked, 8));
  }

  lemma SixSlices(a: seq<Byte>, b: seq<Byte>, c: seq<Byte>, d: seq<Byte>, e: seq<Byte>, f: seq<Byte>)
    requires |a| == |b| == |c| == |d| == |e| == |f| == 8
    ensures var s := a + b + c + d + e + f;
      s[0..8] == a && s[8..16] == b && s[16..24] == c && s[24..32] == d && s[32..40] == e && s[40..48] == f
  {}

  /** A byte is mixed in by flipping, in the low eight bits of the hash, those it has set, and multiplying. */
  lemma MixBits(h: U32, b: Byte) returns (u: U32)
    ensures Mix(h, b) == u * 16777619 % 0x1_0000_0000
    ensures u / 256 == h / 256
    ensures forall i :: 0 <= i < 8 ==> Bit(u % 256, i) == (Bit(h % 256, i) + Bit(b, i)) % 2
  {
    u := h - h % 256 + XorByte(h % 256, b);
    LowByte(h, XorByte(h % 256, b));
    hide Bit, XorBits;
    forall i | 0 <= i < 8 ensures Bit(XorByte(h % 256, b), i) == (Bit(h % 256, i) + Bit(b, i)) % 2 {
      XorBit(h % 256, b, 8, i);
    }
  }

  lemma XorFour(a: nat, b: nat, k: nat)
    ensures XorBits(a, b, k + 4) == (a + b) % 2 + 2 * ((a / 2 + b / 2) % 2) + 4 * ((a / 4 + b / 4) % 2)
                                  + 8 * ((a / 8 + b / 8) % 2) + 16 * XorBits(a / 16, b / 16, k)
  {
    assert XorBits(a / 8, b / 8, k + 1) == (a / 8 + b / 8) % 2 + 2 * XorBits(a / 16, b / 16, k);
    assert XorBits(a / 4, b / 4, k + 2) == (a / 4 + b / 4) % 2 + 2 * XorBits(a / 8, b / 8, k + 1);
    assert XorBits(a / 2, b / 2, k + 3) == (a / 2 + b / 2) % 2 + 2 * XorBits(a / 4, b / 4, k + 2);
  }

  lemma XorOfA()
    ensures XorByte(0xc5, 97) == 0xa4
  {
    hide XorBits;
    XorFour(0xc5, 97, 4);
    XorFour(0xc, 6, 0);
    NoBitsLeft(0, 0);
  }

  lemma NoBitsLeft(a: nat, b: nat)
    ensures XorBits(a, b, 0) == 0
  {}

  /** The published test vectors of the 32-bit hash for the texts "" and "a". */
  lemma FnvVectors()
    ensures Fnv(OFFSET_BASIS, []) == 0x811c9dc5
    ensures Fnv(OFFSET_BASIS, [97]) == 0xe40c292c
  {
    hide XorByte;
    XorOfA();
    assert [97][..0] == [];
  }

  lemma XorCancels(a: Byte, b: Byte, c: Byte)
    ensures XorByte(a, c) == XorByte(b, c) ==> a == b
    ensures XorByte(a, b) == XorByte(a, c) ==> b == c
  {
    assert Pow(2, 8) == 256;
    XorBitsCancel(a, b, c, 8);
    XorBitsCancel(b, c, a, 8);
    XorCommutes(a, b, 8);
    XorCommutes(a, c, 8);
  }

  /** Multiplication by the odd FNV prime can be undone modulo 2^32. */
  lemma PrimeInvertible(x: U32, y: U32)
    requires x * FNV_PRIME % M32 == y * FNV_PRIME % M32
    ensures x == y
  {
    var q := x * FNV_PRIME / M32 - y * FNV_PRIME / M32;
    assert (x - y) * FNV_PRIME == q * M32;
    assert FNV_PRIME * 899433627 == 1 + 3513497 * M32;
    assert x - y == (q * 899433627 - (x - y) * 3513497) * M32;
  }

  lemma MixInjective(g: U32, h: U32, a: Byte, b: Byte)
    requires Mix(g, a) == Mix(h, b)
    ensures a == b ==> g == h
    ensures g == h ==> a == b
  {
    hide XorByte;
    var x, y := g - g % 256 + XorByte(g % 256, a), h - h % 256 + XorByte(h % 256, b);
    PrimeInvertible(x, y);
    LowByte(g, XorByte(g % 256, a));
    LowByte(h, XorByte(h % 256, b));
    XorCancels(g % 256, h % 256, a);
    XorCancels(g % 256, a, b);
  }

  lemma LowByte(g: U32, b: Byte)
    ensures (g - g % 256 + b) % 256 == b && (g - g % 256 + b) / 256 == g / 256
  {}

  /** Strings that differ in exactly one byte have different hashes. */
  lemma {:induction false} OneByteChangesHash(h: U32, s: seq<Byte>, t: seq<Byte>, k: nat)
    requires |s| == |t| && k < |s| && s[k] != t[k]
    requires forall i :: 0 <= i < |s| && i != k ==> s[i] == t[i]
    ensures Fnv(h, s) != Fnv(h, t)
    decreases |s|
  {
    hide Mix;
    var n := |s| - 1;
    var g, g' := Fnv(h, s[..n]), Fnv(h, t[..n]);
    if k == n {
      assert s[..n] == t[..n];
    } else {
      OneByteChangesHash(h, s[..n], t[..n], k);
    }
    if Mix(g, s[n]) == Mix(g', t[n]) { MixInjective(g, g', s[n], t[n]); }
  }

  lemma {:induction false} FnvConcat(h: U32, s: seq<Byte>, t: seq<Byte>)
    ensures Fnv(h, s + t) == Fnv(Fnv(h, s), t)
    decreases |t|
  {
    hide Mix;
    if t == [] {
      assert s + t == s;
    } else {
      var n := |t| - 1;
      assert (s + t)[..|s + t| - 1] == s + t[..n];
      FnvConcat(h, s, t[..n]);
    }
  }

  method MixNumber(hash0: U32, val: U64) returns (hash: U32)
    ensures hash == Fnv(hash0, Le(val, 8))
  {
    hide Mix, Le, Pow;
    hash := hash0;
    LeNone(val);
    for i := 0 to 8
      invariant hash == Fnv(hash0, Le(val, i))
    {
      LeSnoc(val, i);
      var byte := val / Pow(256, i) % 256;
      assert (Le(val, i) + [byte])[..i] == Le(val, i);
      hash := Mix(hash, byte);
    }
  }

  method ComputeChecksum(s: PuzzleSearchState) returns (hash: U32)
    ensures hash == Fnv(OFFSET_BASIS, Hashed(s))
  {
    hide Fnv, Le;
    hash := MixNumber(OFFSET_BASIS, s.puzzleNumber % B);
    hash := MixNumber(hash, s.zoneIdx);
    hash := MixNumber(hash, s.positionLo);
    hash := MixNumber(hash, s.positionHi);
    hash := MixNumber(hash, s.totalChecked);
    hash := MixNumber(hash, s.zoneChecked);
    var a := Le(s.puzzleNumber % B, 8) + Le(s.zoneIdx, 8);
    var b := a + Le(s.positionLo, 8);
    var c := b + Le(s.positionHi, 8);
    var d := c + Le(s.totalChecked, 8);
    FnvConcat(OFFSET_BASIS, Le(s.puzzleNumber % B, 8), Le(s.zoneIdx, 8));
    FnvConcat(OFFSET_BASIS, a, Le(s.positionLo, 8));
    FnvConcat(OFFSET_BASIS, b, Le(s.positionHi, 8));
    FnvConcat(OFFSET_BASIS, c, Le(s.totalChecked, 8));
    FnvConcat(OFFSET_BASIS, d, Le(s.zoneChecked, 8));
  }

  // ---- The bounds ----

  /** validate_state. The shift count is taken modulo 64, as the hardware takes it, which matters at 128 bits only. */
  predicate WithinBounds(s: PuzzleSearchState) {
    && 1 <= s.puzzleNumber <= 160
    && (s.puzzleNumber <= 64 ==> s.positionHi == 0)
    && (64 < s.puzzleNumber <= 128 ==> s.positionHi <= Pow(2, (s.puzzleNumber - 64) % 64) - 1)
    && s.zoneIdx <= 1000
  }

  /** Below 128 bits a position inside the puzzle's range is within bounds. */
  lemma InRangeWithinBounds(s: PuzzleSearchState)
    requires 1 <= s.puzzleNumber < 128 && s.zoneIdx <= 1000
    ensures WithinBounds(s) <==> s.positionLo + B * s.positionHi < Pow(2, if s.puzzleNumber <= 64 then 64 else s.puzzleNumber)
  {
    FieldPow.Pow2Limb();
    if s.puzzleNumber > 64 {
      PowAdd(2, 64, s.puzzleNumber - 64);
      HighBelow(s.positionLo, s.positionHi, Pow(2, s.puzzleNumber - 64));
    }
  }

  lemma HighBelow(lo: U64, hi: U64, w: int)
    ensures lo + B * hi < B * w <==> hi <= w - 1
  {}

  // ---- The file ----

  /** The lines save_puzzle_state writes; the time stamp is the clock's. */
  function Lines(s: PuzzleSearchState, stamp: string): seq<string> {
    ["# StarMiner Puzzle Search State v2",
     "# Do not modify manually - checksum protected",
     "",
     Line("puzzle_number", PrintInt(s.puzzleNumber)),
     Line("zone_idx", PrintInt(s.zoneIdx)),
     Line("position_lo", PrintInt(s.positionLo)),
     Line("position_hi", PrintInt(s.positionHi)),
     Line("total_checked", PrintInt(s.totalChecked)),
     Line("zone_checked", PrintInt(s.zoneChecked)),
     Line("timestamp", stamp),
     Line("checksum", PrintInt(Fnv(OFFSET_BASIS, Hashed(s))))]
  }

  /** The reader's variables. */
  datatype Reading = Reading(state: PuzzleSearchState, checksum: Option<U32>, failed: bool)

  function SetNumber(r: Reading, n: Result<U64>, put: (PuzzleSearchState, U64) -> PuzzleSearchState): Reading {
    match n
    case Ok(v) => r.(state := put(r.state, v))
    case Err(_) => r.(failed := true)
  }

  function ReadEntry(r: Reading, key: string, value: string): Reading {
    if key == "puzzle_number" then
      match Stoi(value) case Ok(v) => r.(state := r.state.(puzzleNumber := v)) case Err(_) => r.(failed := true)
    else if key == "zone_idx" then SetNumber(r, Stoull(value), (s: PuzzleSearchState, v: U64) => s.(zoneIdx := v))
    else if key == "position_lo" then SetNumber(r, Stoull(value), (s: PuzzleSearchState, v: U64) => s.(positionLo := v))
    else if key == "position_hi" then SetNumber(r, Stoull(value), (s: PuzzleSearchState, v: U64) => s.(positionHi := v))
    else if key == "total_checked" then SetNumber(r, Stoull(value), (s: PuzzleSearchState, v: U64) => s.(totalChecked := v))
    else if key == "zone_checked" then SetNumber(r, Stoull(value), (s: PuzzleSearchState, v: U64) => s.(zoneChecked := v))
    else if key == "timestamp" then r.(state := r.state.(timestamp := value))
    else if key == "checksum" then
      match Stoull(value) case Ok(v) => r.(checksum := Some(v % M32)) case Err(_) => r.(failed := true)
    else r
  }

  /** One line: comments, empty lines and lines without '=' are skipped; nothing is read after a failure. */
  function ReadLine(r: Reading, line: string): Reading {
    if r.failed || line == "" || line[0] == '#' then r
    else
      var pos := FirstEquals(line);
      if pos == |line| then r else ReadEntry(r, line[..pos], line[pos + 1..])
  }

  function ReadLines(r: Reading, lines: seq<string>): Reading {
    if lines == [] then r else ReadLine(ReadLines(r, lines[..|lines| - 1]), lines[|lines| - 1])
  }

  function Blank(puzzleNumber: Int32): PuzzleSearchState {
    PuzzleSearchState(puzzleNumber, 0, 0, 0, 0, 0, "", false)
  }

  /** A file is accepted if every entry parses, the checksum, if there is one, is right, and the bounds hold. */
  function Loaded(puzzleNumber: Int32, file: Option<seq<string>>): PuzzleSearchState {
    match file
    case None => Blank(puzzleNumber)
    case Some(lines) =>
      var r := ReadLines(Reading(Blank(puzzleNumber), None, false), lines);
      if r.failed || (r.checksum.Some? && r.checksum.value != Fnv(OFFSET_BASIS, Hashed(r.state))) || !WithinBounds(r.state)
      then r.state else r.state.(valid := true)
  }

  method LoadPuzzleState(puzzleNumber: Int32, file: Option<seq<string>>) returns (state: PuzzleSearchState)
    ensures state == Loaded(puzzleNumber, file)
  {
    hide ReadLine, Fnv, Hashed, WithinBounds;
    state := Blank(puzzleNumber);
    if file.None? { return; }
    var lines := file.value;
    var loaded: Option<U32> := None;
    for i := 0 to |lines|
      invariant Reading(state, loaded, false) == ReadLines(Reading(Blank(puzzleNumber), None, false), lines[..i])
    {
      assert lines[..i + 1][..i] == lines[..i];
      var r := ReadLine(Reading(state, loaded, false), lines[i]);
      if r.failed {
        StaysFailed(Reading(Blank(puzzleNumber), None, false), lines, i + 1);
        FailedKeepsState(Reading(state, loaded, false), lines[i]);
        return;
      }
      state, loaded := r.state, r.checksum;
    }
    assert lines[..|lines|] == lines;
    if loaded.Some? {
      var computed := ComputeChecksum(state);
      if computed != loaded.value { return; }
    }
    if !WithinBounds(state) { return; }
    state := state.(valid := true);
  }

  lemma {:induction false} StaysFailed(r: Reading, lines: seq<string>, k: nat)
    requires k <= |lines| && ReadLines(r, lines[..k]).failed
    ensures ReadLines(r, lines) == ReadLines(r, lines[..k])
    decreases |lines|
  {
    if k == |lines| {
      assert lines[..k] == lines;
    } else {
      assert lines[..|lines| - 1][..k] == lines[..k];
      StaysFailed(r, lines[..|lines| - 1], k);
    }
  }

  lemma FailedKeepsState(r: Reading, line: string)
    requires ReadLine(r, line).failed
    ensures ReadLine(r, line).state == r.state
  {}

  // ---- Round trip ----

  /** A line key=value is read as that entry. */
  lemma ReadKeyValue(r: Reading, key: string, value: string)
    requires !r.failed && key != "" && key[0] != '#' && '=' !in key
    ensures ReadLine(r, Line(key, value)) == ReadEntry(r, key, value)
  {
    hide ReadEntry;
    SplitLine(key, value);
  }

  /** The eight keys are told apart. */
  lemma Keys()
    ensures "position_lo" != "position_hi" && "zone_checked" != "total_checked"
    ensures "zone_idx" != "checksum" && "position_lo" != "zone_idx"
  {
    assert "position_lo"[9] == 'l' && "position_hi"[9] == 'h';
    assert "zone_idx"[0] == 'z' && "checksum"[0] == 'c';
  }

  lemma PuzzleEntry(r: Reading, n: Int32)
    requires !r.failed
    ensures ReadLine(r, Line("puzzle_number", PrintInt(n))) == r.(state := r.state.(puzzleNumber := n))
  {
    hide PrintInt, Stoi, Stoull, Line;
    ReadKeyValue(r, "puzzle_number", PrintInt(n));
    PrintRead(n);
  }

  lemma ZoneEntry(r: Reading, n: U64)
    requires !r.failed
    ensures ReadLine(r, Line("zone_idx", PrintInt(n))) == r.(state := r.state.(zoneIdx := n))
  {
    hide PrintInt, Stoi, Stoull, Line;
    Keys();
    ReadKeyValue(r, "zone_idx", PrintInt(n));
    PrintRead(n);
  }

  lemma LoEntry(r: Reading, n: U64)
    requires !r.failed
    ensures ReadLine(r, Line("position_lo", PrintInt(n))) == r.(state := r.state.(positionLo := n))
  {
    hide PrintInt, Stoi, Stoull, Line;
    Keys();
    ReadKeyValue(r, "position_lo", PrintInt(n));
    PrintRead(n);
  }

  lemma HiEntry(r: Reading, n: U64)
    requires !r.failed
    ensures ReadLine(r, Line("position_hi", PrintInt(n))) == r.(state := r.state.(positionHi := n))
  {
    hide PrintInt, Stoi, Stoull, Line;
    Keys();
    ReadKeyValue(r, "position_hi", PrintInt(n));
    PrintRead(n);
  }

  lemma TotalEntry(r: Reading, n: U64)
    requires !r.failed
    ensures ReadLine(r, Line("total_checked", PrintInt(n))) == r.(state := r.state.(totalChecked := n))
  {
    hide PrintInt, Stoi, Stoull, Line;
    Keys();
    ReadKeyValue(r, "total_checked", PrintInt(n));
    PrintRead(n);
  }

  lemma ZoneCheckedEntry(r: Reading, n: U64)
    requires !r.failed
    ensures ReadLine(r, Line("zone_checked", PrintInt(n))) == r.(state := r.state.(zoneChecked := n))
  {
    hide PrintInt, Stoi, Stoull, Line;
    Keys();
    ReadKeyValue(r, "zone_checked", PrintInt(n));
    PrintRead(n);
  }

  lemma StampAndChecksum(r: Reading, stamp: string, h: U32)
    requires !r.failed
    ensures ReadLine(ReadLine(r, Line("timestamp", stamp)), Line("checksum", PrintInt(h)))
         == r.(state := r.state.(timestamp := stamp), checksum := Some(h))
  {
    hide PrintInt, Stoi, Stoull, Line;
    Keys();
    ReadKeyValue(r, "timestamp", stamp);
    ReadKeyValue(r.(state := r.state.(timestamp := stamp)), "checksum", PrintInt(h));
    PrintRead(h);
  }

  lemma StepLine(r: Reading, lines: seq<string>, k: nat)
    requires k < |lines|
    ensures ReadLines(r, lines[..k + 1]) == ReadLine(ReadLines(r, lines[..k]), lines[k])
  {
    assert lines[..k + 1][..k] == lines[..k];
  }

  /** Reading the lines of a state sets every field to the state's. */
  lemma ReadsBack(s: PuzzleSearchState, stamp: string, puzzleNumber: Int32)
    ensures ReadLines(Reading(Blank(puzzleNumber), None, false), Lines(s, stamp))
         == Reading(s.(timestamp := stamp, valid := false), Some(Fnv(OFFSET_BASIS, Hashed(s))), false)
  {
    hide PrintInt, Line, ReadLine, Fnv, Hashed;
    var r, l := Reading(Blank(puzzleNumber), None, false), Lines(s, stamp);
    assert l[..0] == [] && l[..11] == l;
    Comments(r);
    StepLine(r, l, 0); StepLine(r, l, 1); StepLine(r, l, 2); StepLine(r, l, 3);
    PuzzleEntry(r, s.puzzleNumber);
    var r4 := ReadLines(r, l[..4]);
    StepLine(r, l, 4); StepLine(r, l, 5); StepLine(r, l, 6);
    ZoneEntry(r4, s.zoneIdx);
    LoEntry(ReadLines(r, l[..5]), s.positionLo);
    HiEntry(ReadLines(r, l[..6]), s.positionHi);
    StepLine(r, l, 7); StepLine(r, l, 8);
    TotalEntry(ReadLines(r, l[..7]), s.totalChecked);
    ZoneCheckedEntry(ReadLines(r, l[..8]), s.zoneChecked);
    StepLine(r, l, 9); StepLine(r, l, 10);
    StampAndChecksum(ReadLines(r, l[..9]), stamp, Fnv(OFFSET_BASIS, Hashed(s)));
  }

  lemma Comments(r: Reading)
    ensures ReadLine(r, "# StarMiner Puzzle Search State v2") == r
    ensures ReadLine(r, "# Do not modify manually - checksum protected") == r
    ensures ReadLine(r, "") == r
  {
    var a, b := "# StarMiner Puzzle Search State v2", "# Do not modify manually - checksum protected";
    assert a[0] == '#' && b[0] == '#';
  }

  /** A saved state loads as itself, and is accepted exactly when it is within bounds. */
  lemma SaveLoad(s: PuzzleSearchState, stamp: string, puzzleNumber: Int32)
    ensures Loaded(puzzleNumber, Some(Lines(s, stamp))) == s.(timestamp := stamp, valid := WithinBounds(s))
  {
    hide Fnv, Hashed, ReadLines, Lines, WithinBounds;
    ReadsBack(s, stamp, puzzleNumber);
    SameHash(s, stamp);
  }

  lemma SameHash(s: PuzzleSearchState, stamp: string)
    ensures Hashed(s.(timestamp := stamp, valid := false)) == Hashed(s)
    ensures WithinBounds(s.(timestamp := stamp, valid := false)) == WithinBounds(s)
  {
    hide Le;
  }

  /** A file whose numbers differ from a saved state's in one byte is refused. */
  lemma OneByteRefused(s: PuzzleSearchState, changed: PuzzleSearchState, lines: seq<string>, puzzleNumber: Int32, k: nat)
    requires k < 48 && Hashed(s)[k] != Hashed(changed)[k]
    requires forall i :: 0 <= i < 48 && i != k ==> Hashed(s)[i] == Hashed(changed)[i]
    requires ReadLines(Reading(Blank(puzzleNumber), None, false), lines)
          == Reading(changed.(valid := false), Some(Fnv(OFFSET_BASIS, Hashed(s))), false)
    ensures !Loaded(puzzleNumber, Some(lines)).valid
  {
    hide ReadLines, WithinBounds, Fnv;
    SameHash(changed, changed.timestamp);
    OneByteChangesHash(OFFSET_BASIS, Hashed(s), Hashed(changed), k);
  }
}
