/** Numbers and key=value lines as the C++ streams print them and std::stoull and std::stoi read them. */
module Text {
  import opened Arith
  import opened Limbs
  import opened Results

  predicate IsDigit(c: char) { '0' <= c <= '9' }
  predicate IsSpace(c: char) { c == ' ' || '\t' <= c <= '\r' }

  function DigitChar(d: int): char
    requires 0 <= d < 10
  {
    '0' + d as char
  }

  function DigitValue(c: char): int
    requires IsDigit(c)
  {
    c as int - '0' as int
  }

  function Print(n: nat): (s: string)
    ensures s != "" && forall i :: 0 <= i < |s| ==> IsDigit(s[i])
  {
    if n < 10 then [DigitChar(n)] else Print(n / 10) + [DigitChar(n % 10)]
  }

  function PrintInt(n: int): string {
    if n < 0 then "-" + Print(-n) else Print(n)
  }

  /** The number written by digits, most significant first. */
  function Digits(s: string): (n: nat)
    requires forall i :: 0 <= i < |s| ==> IsDigit(s[i])
  {
    if s == "" then 0 else 10 * Digits(s[..|s| - 1]) + DigitValue(s[|s| - 1])
  }

  lemma {:induction false} PrintDigits(n: nat)
    ensures Digits(Print(n)) == n
  {
    if n < 10 {
      assert Print(n)[..0] == "";
    } else {
      PrintDigits(n / 10);
      assert Print(n)[..|Print(n)| - 1] == Print(n / 10);
    }
  }

  /** The digits are in the order of their codes, and a number below 10^k has at most k of them. */
  lemma {:induction false} PrintLength(n: nat, k: nat)
    requires 0 < k
    ensures |Print(n)| <= k <==> n < Pow(10, k)
    ensures forall c, d :: IsDigit(c) && IsDigit(d) && c < d ==> DigitValue(c) < DigitValue(d)
    decreases k
  {
    if k == 1 {
      assert Pow(10, 1) == 10 * Pow(10, 0);
      if n >= 10 { assert |Print(n / 10)| > 0; }
    } else if n >= 10 {
      PrintLength(n / 10, k - 1);
      TenTimes(n, Pow(10, k - 1));
    } else {
      PowPositive(10, k - 1);
    }
  }

  lemma TenTimes(n: int, w: int)
    ensures n / 10 < w <==> n < 10 * w
  {}

  function Span(s: string, p: char -> bool): (k: nat)
    ensures k <= |s| && (forall i :: 0 <= i < k ==> p(s[i])) && (k < |s| ==> !p(s[k]))
  {
    if s == "" || !p(s[0]) then 0 else 1 + Span(s[1..], p)
  }

  lemma {:induction false} SpanAll(s: string, p: char -> bool)
    requires forall i :: 0 <= i < |s| ==> p(s[i])
    ensures Span(s, p) == |s|
  {
    if s != "" { SpanAll(s[1..], p); }
  }

  /** The text behind leading white space and one sign, and whether the sign was a minus. */
  datatype Signed = Signed(negative: bool, rest: string)

  function SkipSpace(s: string): string {
    s[Span(s, IsSpace)..]
  }

  function TakeSign(t: string): Signed {
    if t == "" then Signed(false, t)
    else if t[0] == '-' then Signed(true, t[1..])
    else if t[0] == '+' then Signed(false, t[1..])
    else Signed(false, t)
  }

  function DigitRun(s: string): (d: string)
    ensures forall i :: 0 <= i < |d| ==> IsDigit(d[i])
  {
    s[..Span(s, IsDigit)]
  }

  datatype Scanned = Scanned(negative: bool, digits: string)

  /** As many digits as there are; the rest is ignored. */
  function Scan(s: string): (r: Scanned)
    ensures forall i :: 0 <= i < |r.digits| ==> IsDigit(r.digits[i])
  {
    var u := TakeSign(SkipSpace(s));
    Scanned(u.negative, DigitRun(u.rest))
  }

  lemma ScanDigits(s: string)
    requires s != "" && forall i :: 0 <= i < |s| ==> IsDigit(s[i])
    ensures Scan(s) == Scanned(false, s) && Scan("-" + s) == Scanned(true, s)
  {
    SpanAll(s, IsDigit);
    assert s[0..] == s && ("-" + s)[0..] == "-" + s && ("-" + s)[1..] == s && s[..|s|] == s;
    assert SkipSpace(s) == s && SkipSpace("-" + s) == "-" + s;
  }

  /** The value modulo 2^64 of a number with a sign. */
  function Wrapped(negative: bool, n: U64): U64 {
    if negative then (0 - n as int) % B else n
  }

  function Stoull(s: string): Result<U64> {
    var r := Scan(s);
    if r.digits == "" then Err("invalid_argument")
    else if Digits(r.digits) >= B then Err("out_of_range")
    else Ok(Wrapped(r.negative, Digits(r.digits)))
  }

  type Int32 = x: int | -0x8000_0000 <= x < 0x8000_0000

  function Stoi(s: string): Result<Int32> {
    var r := Scan(s);
    if r.digits == "" then Err("invalid_argument")
    else
      var n := if r.negative then 0 - Digits(r.digits) as int else Digits(r.digits) as int;
      if n < -0x8000_0000 || n >= 0x8000_0000 then Err("out_of_range") else Ok(n)
  }

  /** What is printed is read back. */
  lemma PrintRead(n: int)
    ensures 0 <= n < B ==> Stoull(PrintInt(n)) == Ok(n)
    ensures -0x8000_0000 <= n < 0x8000_0000 ==> Stoi(PrintInt(n)) == Ok(n)
  {
    hide Scan, Digits, Print;
    var m := if n < 0 then -n else n;
    ScanDigits(Print(m));
    PrintDigits(m);
  }

  // ---- Lines key=value ----

  function Line(key: string, value: string): string { key + "=" + value }

  /** The first '=' of a line; its length if there is none. */
  function FirstEquals(line: string): (k: nat)
    ensures k <= |line| && (k < |line| ==> line[k] == '=')
  {
    Span(line, c => c != '=')
  }

  lemma {:induction false} SpanUpTo(s: string, p: char -> bool, k: nat)
    requires k < |s| && (forall i :: 0 <= i < k ==> p(s[i])) && !p(s[k])
    ensures Span(s, p) == k
  {
    if k > 0 { SpanUpTo(s[1..], p, k - 1); }
  }

  /** A line is split where its key ends. */
  lemma SplitLine(key: string, value: string)
    requires '=' !in key
    ensures FirstEquals(Line(key, value)) == |key|
    ensures Line(key, value)[..|key|] == key && Line(key, value)[|key| + 1..] == value
  {
    var line := Line(key, value);
    forall i | 0 <= i < |key| ensures line[i] != '=' {
      assert line[i] == key[i] && key[i] in key;
    }
    SpanUpTo(line, c => c != '=', |key|);
  }
}
