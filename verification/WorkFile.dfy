/** The kangaroo work file: distinguished points and search parameters as text, written and read back. */
module WorkFile {
  import opened Arith
  import opened Results
  import opened Limbs
  import opened Text
  import opened Hex
  import opened ByteCodec
  import opened Decompress
  import opened Wire
  import opened DpTable

  // ---- Limbs as hexadecimal text ----

  /** k lowercase digits. */
  function HexPad(n: nat, k: nat): (s: string)
    ensures |s| == k
  {
    if k == 0 then "" else HexPad(n / 16, k - 1) + [HEX[n % 16]]
  }

  lemma {:induction false} HexPadRead(n: nat, k: nat)
    requires n < Pow(16, k)
    ensures HexDigits(HexPad(n, k)) && HexNumber(HexPad(n, k)) == n
  {
    hide HEX, Nibble;
    if k > 0 {
      DivBelow(n, 16, Pow(16, k - 1));
      HexPadRead(n / 16, k - 1);
      HexNibble(n % 16, '0');
      HexSnoc(HexPad(n / 16, k - 1), HEX[n % 16]);
    }
  }

  function Hex256(a: U256): (s: string)
    ensures |s| == 64
  {
    HexPad(a[3], 16) + HexPad(a[2], 16) + HexPad(a[1], 16) + HexPad(a[0], 16)
  }

  predicate IsHex(c: char) { Nibble(c) >= 0 }

  function HexRead(s: string): (n: nat)
    requires HexDigits(s)
  {
    if s == "" then 0 else 16 * HexRead(s[..|s| - 1]) + Nibble(s[|s| - 1])
  }

  lemma {:induction false} HexReadIs(s: string)
    requires HexDigits(s)
    ensures HexRead(s) == HexNumber(s)
  {
    if s != "" { HexReadIs(s[..|s| - 1]); }
  }

  function HexRun(s: string): (d: string)
    ensures HexDigits(d)
  {
    s[..Span(s, IsHex)]
  }

  /** std::stoull with base 16: white space, a sign, an optional 0x before a digit, then digits; the rest is ignored. */
  function Stoull16(s: string): Result<U64> {
    var u := TakeSign(SkipSpace(s));
    var digits := HexRun(DropPrefix(u.rest));
    if digits == "" then Err("invalid_argument")
    else if HexRead(digits) >= B then Err("out_of_range")
    else Ok(Wrapped(u.negative, HexRead(digits)))
  }

  /** The prefix counts only if a digit follows it. */
  function DropPrefix(s: string): string {
    if |s| >= 3 && IsHex(s[2]) then StripPrefix(s) else s
  }

  lemma LimbRead(n: U64)
    ensures Stoull16(HexPad(n, 16)) == Ok(n)
  {
    hide HexPad, HexNumber, HexRead;
    Pow16Limb();
    HexPadRead(n, 16);
    HexReadIs(HexPad(n, 16));
    PlainHex(HexPad(n, 16));
  }

  lemma PlainHex(s: string)
    requires s != "" && HexDigits(s)
    ensures Stoull16(s) == if HexRead(s) >= B then Err("out_of_range") else Ok(HexRead(s))
  {
    hide HexRead;
    assert Nibble(s[0]) >= 0;
    if |s| >= 2 { assert Nibble(s[1]) >= 0; }
    forall i | 0 <= i < |s| ensures IsHex(s[i]) {}
    SpanAll(s, IsHex);
    assert !IsSpace(s[0]);
    assert Span(s, IsSpace) == 0 && s[0..] == s && s[..|s|] == s && StripPrefix(s) == s;
    assert SkipSpace(s) == s && TakeSign(s) == Signed(false, s) && DropPrefix(s) == s && HexRun(s) == s;
  }

  // ---- One point, one line ----

  function Serialized(dp: DP): string {
    Hex256(dp.x) + ":" + Hex256(dp.distance) + ":" + (if dp.isTame then "T" else "W")
  }

  /** Limb 3 - i, from 16 characters at most; too short a text throws. */
  function LimbAt(h: string, i: nat): Result<U64> {
    if 16 * i > |h| then Err("out_of_range")
    else Stoull16(h[16 * i..if 16 * i + 16 <= |h| then 16 * i + 16 else |h|])
  }

  function Parse256(h: string): Result<U256> {
    match (LimbAt(h, 0), LimbAt(h, 1), LimbAt(h, 2), LimbAt(h, 3))
    case (Ok(a), Ok(b), Ok(c), Ok(d)) => var limbs: U256 := [d, c, b, a]; Ok(limbs)
    case _ => Err("stoull")
  }

  /** Where the last ':' is; the length if there is none. */
  function LastColon(s: string): (k: nat)
    ensures k <= |s| && (k < |s| ==> s[k] == ':')
  {
    if ':' !in s then |s| else
      assert s != "";
      if s[|s| - 1] == ':' then |s| - 1 else
        assert ':' in s[..|s| - 1];
        LastColon(s[..|s| - 1])
  }

  function FirstColon(s: string): (k: nat)
    ensures k <= |s| && (k < |s| ==> s[k] == ':')
  {
    Span(s, c => c != ':')
  }

  /** deserialize, for a line with a ':' in it. */
  function Deserialized(s: string): Result<DP>
    requires ':' in s
  {
    var pos1, pos2 := FirstColon(s), LastColon(s);
    ColonOrder(s);
    var d := if pos1 < pos2 then s[pos1 + 1..pos2] else s[pos1 + 1..];
    match (Parse256(s[..pos1]), Parse256(d))
    case (Ok(x), Ok(distance)) => Ok(DP(x, distance, s[pos2 + 1..] == "T"))
    case _ => Err("stoull")
  }

  lemma ColonOrder(s: string)
    requires ':' in s
    ensures FirstColon(s) <= LastColon(s) < |s|
  {
    var k :| 0 <= k < |s| && s[k] == ':';
    LastColonAfter(s, k);
  }

  lemma {:induction false} LastColonAfter(s: string, k: nat)
    requires k < |s| && s[k] == ':'
    ensures k <= LastColon(s) < |s|
    ensures FirstColon(s) <= k
    decreases |s|
  {
    if s[|s| - 1] != ':' {
      assert s[..|s| - 1][k] == ':';
      LastColonAfter(s[..|s| - 1], k);
    }
  }

  lemma FourSlices<T>(a: seq<T>, b: seq<T>, c: seq<T>, d: seq<T>)
    requires |a| == |b| == |c| == |d| == 16
    ensures var s := a + b + c + d;
            s[0..16] == a && s[16..32] == b && s[32..48] == c && s[48..64] == d
  {}

  lemma Hex256Digits(a: U256)
    ensures HexDigits(Hex256(a)) && Parse256(Hex256(a)) == Ok(a)
  {
    hide HexPad, Stoull16, HexDigits;
    var h := Hex256(a);
    FourSlices(HexPad(a[3], 16), HexPad(a[2], 16), HexPad(a[1], 16), HexPad(a[0], 16));
    LimbRead(a[0]);
    LimbRead(a[1]);
    LimbRead(a[2]);
    LimbRead(a[3]);
    assert LimbAt(h, 0) == Ok(a[3]) && LimbAt(h, 1) == Ok(a[2]) && LimbAt(h, 2) == Ok(a[1]) && LimbAt(h, 3) == Ok(a[0]);
    assert [a[0], a[1], a[2], a[3]] == a;
    DigitsJoin(a);
  }

  lemma DigitsJoin(a: U256)
    ensures HexDigits(Hex256(a))
  {
    hide HexPad, Nibble;
    Pow16Limb();
    HexPadRead(a[0], 16);
    HexPadRead(a[1], 16);
    HexPadRead(a[2], 16);
    HexPadRead(a[3], 16);
  }

  /** Where the colons of x:distance:kind are. */
  lemma Colons(x: string, d: string, kind: char)
    requires ':' !in x && ':' !in d && kind != ':'
    ensures var s := x + ":" + d + ":" + [kind];
            ':' in s && FirstColon(s) == |x| && LastColon(s) == |x| + 1 + |d|
  {
    var s := x + ":" + d + ":" + [kind];
    assert s[|x|] == ':';
    SpanUpTo(s, c => c != ':', |x|);
    var front := s[..|s| - 1];
    assert front == x + ":" + d + ":";
    assert front[|front| - 1] == ':';
    assert LastColon(front) == |front| - 1;
  }

  lemma NoColon(s: string)
    requires HexDigits(s)
    ensures ':' !in s && '=' !in s && '#' !in s
  {
    forall i | 0 <= i < |s| ensures s[i] != ':' && s[i] != '=' && s[i] != '#' { assert Nibble(s[i]) >= 0; }
  }

  /** A serialized point deserializes to itself; its line has a ':' and no '=', and is no comment. */
  lemma SerializedBack(dp: DP)
    ensures var s := Serialized(dp);
            s != "" && s[0] != '#' && '=' !in s && ':' in s && Deserialized(s) == Ok(dp)
  {
    hide Hex256, Parse256, FirstColon, LastColon;
    var x, d, kind := Hex256(dp.x), Hex256(dp.distance), if dp.isTame then 'T' else 'W';
    Hex256Digits(dp.x);
    Hex256Digits(dp.distance);
    NoColon(x);
    NoColon(d);
    Colons(x, d, kind);
    var s := Serialized(dp);
    assert s == x + ":" + d + ":" + [kind];
    assert s[..64] == x && s[65..129] == d && s[130..] == [kind];
    assert s[0] == x[0] && x[0] in x;
  }

  /** A point's line: 64 hexadecimal digits of x from the top limb down, 64 of the distance, and T or W. */
  lemma SerializedLayout(dp: DP, i: nat)
    requires i < 4
    ensures var s := Serialized(dp);
      && |s| == 131 && s[64] == ':' && s[129] == ':' && s[130] == (if dp.isTame then 'T' else 'W')
      && HexDigits(s[16 * i..16 * i + 16]) && HexNumber(s[16 * i..16 * i + 16]) == dp.x[3 - i]
      && HexDigits(s[65 + 16 * i..81 + 16 * i]) && HexNumber(s[65 + 16 * i..81 + 16 * i]) == dp.distance[3 - i]
  {
    hide HexPad, HexDigits, HexNumber, Pow;
    Pow16Limb();
    HexPadRead(dp.x[3 - i], 16);
    HexPadRead(dp.distance[3 - i], 16);
    var s, x, d := Serialized(dp), Hex256(dp.x), Hex256(dp.distance);
    FourSlices(HexPad(dp.x[3], 16), HexPad(dp.x[2], 16), HexPad(dp.x[1], 16), HexPad(dp.x[0], 16));
    FourSlices(HexPad(dp.distance[3], 16), HexPad(dp.distance[2], 16), HexPad(dp.distance[1], 16), HexPad(dp.distance[0], 16));
    assert s[16 * i..16 * i + 16] == x[16 * i..16 * i + 16];
    assert s[65 + 16 * i..81 + 16 * i] == d[16 * i..16 * i + 16];
  }

  // ---- The file ----

  datatype KangarooWork = KangarooWork(
    target: string, rangeStart: string, rangeEnd: string, dpBits: U32, totalSteps: U64, dps: seq<DP>)

  const EMPTY: KangarooWork := KangarooWork("", "", "", 0, 0, [])

  /** The lines save writes; the elapsed time is printed by floating-point output. */
  method SaveLines(w: KangarooWork, elapsed: string) returns (lines: seq<string>)
    ensures lines == Lines(w, elapsed)
  {
    hide Serialized, PrintInt;
    lines := ["# StarMiner Kangaroo Work File v1.0"];
    lines := lines + [Line("target", w.target)];
    lines := lines + [Line("range_start", w.rangeStart)];
    lines := lines + [Line("range_end", w.rangeEnd)];
    lines := lines + [Line("dp_bits", PrintInt(w.dpBits))];
    lines := lines + [Line("total_steps", PrintInt(w.totalSteps))];
    lines := lines + [Line("elapsed_seconds", elapsed)];
    lines := lines + [Line("dp_count", PrintInt(|w.dps|))];
    lines := lines + ["# Distinguished points (x:distance:type)"];
    for i := 0 to |w.dps|
      invariant lines == Header(w, elapsed) + SerializedAll(w.dps[..i])
    {
      assert w.dps[..i + 1][..i] == w.dps[..i];
      lines := lines + [Serialized(w.dps[i])];
    }
    assert w.dps[..|w.dps|] == w.dps;
  }

  function Header(w: KangarooWork, elapsed: string): seq<string> {
    ["# StarMiner Kangaroo Work File v1.0",
     Line("target", w.target),
     Line("range_start", w.rangeStart),
     Line("range_end", w.rangeEnd),
     Line("dp_bits", PrintInt(w.dpBits)),
     Line("total_steps", PrintInt(w.totalSteps)),
     Line("elapsed_seconds", elapsed),
     Line("dp_count", PrintInt(|w.dps|)),
     "# Distinguished points (x:distance:type)"]
  }

  function SerializedAll(dps: seq<DP>): seq<string> {
    if dps == [] then [] else SerializedAll(dps[..|dps| - 1]) + [Serialized(dps[|dps| - 1])]
  }

  function Lines(w: KangarooWork, elapsed: string): seq<string> {
    Header(w, elapsed) + SerializedAll(w.dps)
  }

  /** One key=value line; the elapsed time and the number of points do not matter here. */
  function ReadEntry(w: KangarooWork, key: string, value: string): Result<KangarooWork> {
    if key == "target" then Ok(w.(target := value))
    else if key == "range_start" then Ok(w.(rangeStart := value))
    else if key == "range_end" then Ok(w.(rangeEnd := value))
    else if key == "dp_bits" then
      match Stoull(value) case Ok(v) => Ok(w.(dpBits := v % 0x1_0000_0000)) case Err(e) => Err(e)
    else if key == "total_steps" then
      match Stoull(value) case Ok(v) => Ok(w.(totalSteps := v)) case Err(e) => Err(e)
    else if key == "dp_count" then
      match Stoull(value) case Ok(v) => Ok(w) case Err(e) => Err(e)
    else Ok(w)
  }

  /** Points are appended to those the object already holds. */
  function ReadLine(w: KangarooWork, line: string): Result<KangarooWork> {
    if line == "" || line[0] == '#' then Ok(w)
    else
      var eq := FirstEquals(line);
      if eq < |line| then ReadEntry(w, line[..eq], line[eq + 1..])
      else if ':' in line then
        match Deserialized(line) case Ok(dp) => Ok(w.(dps := w.dps + [dp])) case Err(e) => Err(e)
      else Ok(w)
  }

  function ReadLines(w: KangarooWork, lines: seq<string>): Result<KangarooWork> {
    if lines == [] then Ok(w)
    else
      match ReadLines(w, lines[..|lines| - 1])
      case Ok(v) => ReadLine(v, lines[|lines| - 1])
      case Err(e) => Err(e)
  }

  /** KangarooWorkFile::load; an error stands for the exception a malformed number throws. */
  method Load(w0: KangarooWork, lines: seq<string>) returns (r: Result<KangarooWork>, ok: bool)
    ensures r == ReadLines(w0, lines)
    ensures r.Ok? ==> ok == (r.value.target != "")
  {
    hide ReadLine;
    var w := w0;
    for i := 0 to |lines|
      invariant Ok(w) == ReadLines(w0, lines[..i])
    {
      assert lines[..i + 1][..i] == lines[..i];
      var step := ReadLine(w, lines[i]);
      if step.Err? {
        StaysError(w0, lines, i + 1);
        return step, false;
      }
      w := step.value;
    }
    assert lines[..|lines|] == lines;
    return Ok(w), w.target != "";
  }

  lemma {:induction false} StaysError(w: KangarooWork, lines: seq<string>, k: nat)
    requires k <= |lines| && ReadLines(w, lines[..k]).Err?
    ensures ReadLines(w, lines) == ReadLines(w, lines[..k])
    decreases |lines|
  {
    if k == |lines| {
      assert lines[..k] == lines;
    } else {
      assert lines[..|lines| - 1][..k] == lines[..k];
      StaysError(w, lines[..|lines| - 1], k);
    }
  }

  // ---- Round trip ----

  lemma ReadKeyValue(w: KangarooWork, key: string, value: string)
    requires key != "" && key[0] != '#' && '=' !in key
    ensures ReadLine(w, Line(key, value)) == ReadEntry(w, key, value)
  {
    hide ReadEntry;
    SplitLine(key, value);
  }

  lemma TextEntries(w: KangarooWork, value: string)
    ensures ReadLine(w, Line("target", value)) == Ok(w.(target := value))
    ensures ReadLine(w, Line("range_start", value)) == Ok(w.(rangeStart := value))
    ensures ReadLine(w, Line("range_end", value)) == Ok(w.(rangeEnd := value))
    ensures ReadLine(w, Line("elapsed_seconds", value)) == Ok(w)
  {
    hide Line;
    ReadKeyValue(w, "target", value);
    ReadKeyValue(w, "range_start", value);
    ReadKeyValue(w, "range_end", value);
    ReadKeyValue(w, "elapsed_seconds", value);
  }

  lemma ReadBack(n: U64)
    ensures Stoull(PrintInt(n)) == Ok(n)
  {
    hide PrintInt, Stoull, Stoi;
    PrintRead(n);
  }

  lemma BitsEntry(w: KangarooWork, n: U32)
    ensures ReadLine(w, Line("dp_bits", PrintInt(n))) == Ok(w.(dpBits := n))
  {
    hide Line, PrintInt, Stoull, ReadLine;
    ReadBack(n);
    ReadKeyValue(w, "dp_bits", PrintInt(n));
  }

  lemma StepsEntry(w: KangarooWork, n: U64)
    ensures ReadLine(w, Line("total_steps", PrintInt(n))) == Ok(w.(totalSteps := n))
  {
    hide Line, PrintInt, Stoull, ReadLine;
    ReadBack(n);
    ReadKeyValue(w, "total_steps", PrintInt(n));
  }

  lemma CountEntry(w: KangarooWork, n: U64)
    ensures ReadLine(w, Line("dp_count", PrintInt(n))) == Ok(w)
  {
    hide Line, PrintInt, Stoull, ReadLine;
    ReadBack(n);
    ReadKeyValue(w, "dp_count", PrintInt(n));
  }

  lemma StepLine(w: KangarooWork, lines: seq<string>, k: nat)
    requires k < |lines| && ReadLines(w, lines[..k]).Ok?
    ensures ReadLines(w, lines[..k + 1]) == ReadLine(ReadLines(w, lines[..k]).value, lines[k])
  {
    assert lines[..k + 1][..k] == lines[..k];
  }

  lemma HeaderBack(w: KangarooWork, elapsed: string)
    requires |w.dps| < B
    ensures ReadLines(EMPTY, Header(w, elapsed)) == Ok(w.(dps := []))
  {
    hide ReadLine, Line, PrintInt;
    var h := Header(w, elapsed);
    assert h[..0] == [] && h[..9] == h;
    var a := "# StarMiner Kangaroo Work File v1.0";
    var b := "# Distinguished points (x:distance:type)";
    assert a[0] == '#' && b[0] == '#';
    CommentSkipped(EMPTY, a);
    CommentSkipped(w.(dps := []), b);
    StepLine(EMPTY, h, 0);
    StepLine(EMPTY, h, 1);
    TextEntries(EMPTY, w.target);
    StepLine(EMPTY, h, 2);
    var w1 := EMPTY.(target := w.target);
    TextEntries(w1, w.rangeStart);
    StepLine(EMPTY, h, 3);
    var w2 := w1.(rangeStart := w.rangeStart);
    TextEntries(w2, w.rangeEnd);
    StepLine(EMPTY, h, 4);
    var w3 := w2.(rangeEnd := w.rangeEnd);
    BitsEntry(w3, w.dpBits);
    StepLine(EMPTY, h, 5);
    var w4 := w3.(dpBits := w.dpBits);
    StepsEntry(w4, w.totalSteps);
    StepLine(EMPTY, h, 6);
    var w5 := w4.(totalSteps := w.totalSteps);
    TextEntries(w5, elapsed);
    StepLine(EMPTY, h, 7);
    CountEntry(w5, |w.dps|);
    StepLine(EMPTY, h, 8);
  }

  lemma CommentSkipped(w: KangarooWork, line: string)
    requires line != "" && line[0] == '#'
    ensures ReadLine(w, line) == Ok(w)
  {}

  lemma PointLine(w: KangarooWork, dp: DP)
    ensures ReadLine(w, Serialized(dp)) == Ok(w.(dps := w.dps + [dp]))
  {
    hide Serialized, Deserialized;
    SerializedBack(dp);
    SpanAll(Serialized(dp), c => c != '=');
  }

  lemma {:induction false} PointsBack(w: KangarooWork, lines: seq<string>, v: KangarooWork, dps: seq<DP>)
    requires ReadLines(w, lines) == Ok(v)
    ensures ReadLines(w, lines + SerializedAll(dps)) == Ok(v.(dps := v.dps + dps))
    decreases |dps|
  {
    hide ReadLine, Serialized;
    if dps == [] {
      assert lines + SerializedAll(dps) == lines && v.dps + dps == v.dps;
    } else {
      var k := |dps| - 1;
      PointsBack(w, lines, v, dps[..k]);
      var all := lines + SerializedAll(dps);
      assert all[..|all| - 1] == lines + SerializedAll(dps[..k]) && all[|all| - 1] == Serialized(dps[k]);
      PointLine(v.(dps := v.dps + dps[..k]), dps[k]);
      assert v.dps + dps[..k] + [dps[k]] == v.dps + dps;
    }
  }

  /** What is saved is what is loaded. */
  lemma WorkFileBack(w: KangarooWork, elapsed: string)
    requires |w.dps| < B
    ensures ReadLines(EMPTY, Lines(w, elapsed)) == Ok(w)
  {
    hide ReadLines, Header;
    HeaderBack(w, elapsed);
    PointsBack(EMPTY, Header(w, elapsed), w.(dps := []), w.dps);
    assert [] + w.dps == w.dps;
  }

  /** Listing a table, saving the list, loading the file and filling an empty table restores the table. */
  lemma TableThroughFile(t: Slots, all: seq<DP>, order: seq<U64>, w: KangarooWork, elapsed: string)
    requires WellHashed(t) && Lists(t, all, order) && w.dps == all && |all| < B
    ensures ReadLines(EMPTY, Lines(w, elapsed)).Ok?
    ensures LoadAll(map[], ReadLines(EMPTY, Lines(w, elapsed)).value.dps) == t
  {
    hide Lines, ReadLines, WellHashed, DpTable.Lists;
    WorkFileBack(w, elapsed);
    ReloadRestores(t, all, order, all);
  }
}
