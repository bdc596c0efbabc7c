/** Mutation rules as lists of operations: parsing, meaning, and what concatenating rules does. */
module Rules {
  /** A byte read as a character. */
  type Char = c: char | c as int < 256 witness 'a'
  type Word = seq<Char>

  datatype Op =
    | Nothing
    | LowerAll | UpperAll | Capitalize | Uncapitalize | ToggleAll | ToggleAt(n: nat)
    | Reverse | Duplicate | DuplicateTimes(n: nat) | Reflect | RotateLeft | RotateRight
    | Append(c: Char) | Prepend(c: Char) | DeleteFirst | DeleteLast | DeleteAt(n: nat)
    | Extract(n: nat, len: nat) | Omit(n: nat, len: nat) | InsertAt(n: nat, c: Char) | Overwrite(n: nat, c: Char)
    | Truncate(n: nat) | Substitute(what: Char, with: Char) | Purge(c: Char)
    | RepeatFirst(n: nat) | RepeatLast(n: nat) | Increment(n: nat) | Decrement(n: nat)
    | SwapFront | SwapBack | SwapAt(n: nat, m: nat)
    | Save | AppendSaved | InsertSaved(n: nat, from: nat, len: nat)

  // ---- Parsing ----

  /** A position written as one character; 0 for anything else. */
  function PositionOf(c: Char): (n: nat)
    ensures n <= 35
  {
    if '0' <= c <= '9' then c as int - '0' as int
    else if 'A' <= c <= 'Z' then 10 + (c as int - 'A' as int)
    else if 'a' <= c <= 'z' then 10 + (c as int - 'a' as int)
    else 0
  }

  /** The position at index i, 0 past the end. */
  function Position(rule: Word, i: nat): (n: nat)
    ensures n <= 35
  {
    if i < |rule| then PositionOf(rule[i]) else 0
  }

  /** How many characters after the operation belong to it. */
  function Operands(op: Char): (k: nat)
    ensures k <= 3
  {
    match op
    case 'X' => 3
    case 'x' | 'O' | 'i' | 'o' | 's' | '*' | '/' | '=' | '(' | ')' | '%' => 2
    case 'T' | 'p' | '$' | '^' | 'D' | '\'' | '@' | 'z' | 'Z' | '+' | '-' | '<' | '>' | '_' | '!' => 1
    case _ => 0
  }

  /** How far the interpreter moves on; a substitution whose operands are missing moves past its letter only. */
  function Width(rule: Word, i: nat): (w: nat)
    requires i < |rule|
    ensures 0 < w <= 4
  {
    if rule[i] == 's' && i + 2 >= |rule| then 1 else 1 + Operands(rule[i])
  }

  /** The operation a letter stands for, with the characters after it. */
  function Decode(op: Char, args: Word): Op {
    var n, m := Position(args, 0), Position(args, 1);
    match op
    case 'l' => LowerAll
    case 'u' => UpperAll
    case 'c' => Capitalize
    case 'C' => Uncapitalize
    case 't' => ToggleAll
    case 'T' => ToggleAt(n)
    case 'r' => Reverse
    case 'd' => Duplicate
    case 'p' => DuplicateTimes(n)
    case 'f' => Reflect
    case '{' => RotateLeft
    case '}' => RotateRight
    case '$' => if |args| >= 1 then Append(args[0]) else Nothing
    case '^' => if |args| >= 1 then Prepend(args[0]) else Nothing
    case '[' => DeleteFirst
    case ']' => DeleteLast
    case 'D' => DeleteAt(n)
    case 'x' => Extract(n, m)
    case 'O' => Omit(n, m)
    case 'i' => if |args| >= 2 then InsertAt(n, args[1]) else Nothing
    case 'o' => if |args| >= 2 then Overwrite(n, args[1]) else Nothing
    case '\'' => Truncate(n)
    case 's' => if |args| >= 2 then Substitute(args[0], args[1]) else Nothing
    case '@' => if |args| >= 1 then Purge(args[0]) else Nothing
    case 'z' => RepeatFirst(n)
    case 'Z' => RepeatLast(n)
    case '+' => Increment(n)
    case '-' => Decrement(n)
    case 'k' => SwapFront
    case 'K' => SwapBack
    case '*' => SwapAt(n, m)
    case 'M' => Save
    case 'Q' => AppendSaved
    case 'X' => InsertSaved(n, m, Position(args, 2))
    case _ => Nothing
  }

  /** The characters after index i that an operation there may use. */
  function Args(rule: Word, i: nat): Word
    requires i < |rule|
  {
    rule[i + 1..if i + 4 <= |rule| then i + 4 else |rule|]
  }

  lemma ArgsAt(rule: Word, i: nat)
    requires i < |rule|
    ensures var a := Args(rule, i);
            && (|a| >= 1 <==> i + 1 < |rule|) && (|a| >= 2 <==> i + 2 < |rule|)
            && (|a| >= 1 ==> a[0] == rule[i + 1]) && (|a| >= 2 ==> a[1] == rule[i + 2])
            && Position(a, 0) == Position(rule, i + 1) && Position(a, 1) == Position(rule, i + 2)
            && Position(a, 2) == Position(rule, i + 3)
  {
    hide PositionOf;
  }

  function OpAt(rule: Word, i: nat): Op
    requires i < |rule|
  {
    Decode(rule[i], Args(rule, i))
  }

  function ParseFrom(rule: Word, i: nat): seq<Op>
    decreases |rule| - i
  {
    if i >= |rule| then [] else [OpAt(rule, i)] + ParseFrom(rule, i + Width(rule, i))
  }

  function Parse(rule: Word): seq<Op> {
    ParseFrom(rule, 0)
  }

  // ---- Meaning ----

  function Lower(c: Char): Char {
    if 'A' <= c <= 'Z' then (c as int + 32) as char else c
  }

  function Upper(c: Char): Char {
    if 'a' <= c <= 'z' then (c as int - 32) as char else c
  }

  function Toggle(c: Char): Char {
    if 'a' <= c <= 'z' then Upper(c) else Lower(c)
  }

  function Map(f: Char -> Char, w: Word): (r: Word)
    ensures |r| == |w| && forall i :: 0 <= i < |w| ==> r[i] == f(w[i])
  {
    seq(|w|, i requires 0 <= i < |w| => f(w[i]))
  }

  function Reversed(w: Word): (r: Word)
    ensures |r| == |w| && forall i :: 0 <= i < |w| ==> r[i] == w[|w| - 1 - i]
  {
    seq(|w|, i requires 0 <= i < |w| => w[|w| - 1 - i])
  }

  function Replaced(w: Word, what: Char, with: Char): (r: Word)
    ensures |r| == |w| && forall i :: 0 <= i < |w| ==> r[i] == if w[i] == what then with else w[i]
  {
    seq(|w|, i requires 0 <= i < |w| => if w[i] == what then with else w[i])
  }

  function Copies(w: Word, n: nat): Word {
    if n == 0 then [] else Copies(w, n - 1) + w
  }

  function Repeated(c: Char, n: nat): (r: Word)
    ensures |r| == n && forall i :: 0 <= i < n ==> r[i] == c
  {
    seq(n, i => c)
  }

  function Without(w: Word, c: Char): Word {
    if w == [] then []
    else if w[|w| - 1] == c then Without(w[..|w| - 1], c) else Without(w[..|w| - 1], c) + [w[|w| - 1]]
  }

  function Cut(a: nat, b: nat): nat { if a < b then a else b }

  /** At most len characters from a position. */
  function Sub(w: Word, n: nat, len: nat): Word
    requires n <= |w|
  {
    w[n..n + Cut(len, |w| - n)]
  }

  datatype Memo = Memo(word: Word, saved: Word)

  function Shifted(c: Char, step: int): Char {
    ((c as int + step) % 256) as char
  }

  function Eval(op: Op, s: Memo): Memo {
    var w := s.word;
    match op
    case Nothing => s
    case LowerAll => s.(word := Map(Lower, w))
    case UpperAll => s.(word := Map(Upper, w))
    case Capitalize => if w == [] then s else s.(word := [Upper(w[0])] + Map(Lower, w[1..]))
    case Uncapitalize => if w == [] then s else s.(word := [Lower(w[0])] + Map(Upper, w[1..]))
    case ToggleAll => s.(word := Map(Toggle, w))
    case ToggleAt(n) => if n < |w| then s.(word := w[n := Toggle(w[n])]) else s
    case Reverse => s.(word := Reversed(w))
    case Duplicate => s.(word := w + w)
    case DuplicateTimes(n) => s.(word := w + Copies(w, n))
    case Reflect => s.(word := w + Reversed(w))
    case RotateLeft => if w == [] then s else s.(word := w[1..] + [w[0]])
    case RotateRight => if w == [] then s else s.(word := [w[|w| - 1]] + w[..|w| - 1])
    case Append(c) => s.(word := w + [c])
    case Prepend(c) => s.(word := [c] + w)
    case DeleteFirst => if w == [] then s else s.(word := w[1..])
    case DeleteLast => if w == [] then s else s.(word := w[..|w| - 1])
    case DeleteAt(n) => if n < |w| then s.(word := w[..n] + w[n + 1..]) else s
    case Extract(n, len) => s.(word := if n < |w| then Sub(w, n, len) else [])
    case Omit(n, len) => if n < |w| then s.(word := w[..n] + w[n + Cut(len, |w| - n)..]) else s
    case InsertAt(n, c) => if n <= |w| then s.(word := w[..n] + [c] + w[n..]) else s
    case Overwrite(n, c) => if n < |w| then s.(word := w[n := c]) else s
    case Truncate(n) => if n < |w| then s.(word := w[..n]) else s
    case Substitute(what, with) => s.(word := Replaced(w, what, with))
    case Purge(c) => s.(word := Without(w, c))
    case RepeatFirst(n) => if w == [] then s else s.(word := Repeated(w[0], n) + w)
    case RepeatLast(n) => if w == [] then s else s.(word := w + Repeated(w[|w| - 1], n))
    case Increment(n) => if n < |w| then s.(word := w[n := Shifted(w[n], 1)]) else s
    case Decrement(n) => if n < |w| then s.(word := w[n := Shifted(w[n], -1)]) else s
    case SwapFront => if |w| >= 2 then s.(word := w[0 := w[1]][1 := w[0]]) else s
    case SwapBack => if |w| >= 2 then s.(word := w[|w| - 2 := w[|w| - 1]][|w| - 1 := w[|w| - 2]]) else s
    case SwapAt(n, m) => if n < |w| && m < |w| then s.(word := w[n := w[m]][m := w[n]]) else s
    case Save => s.(saved := w)
    case AppendSaved => s.(word := w + s.saved)
    case InsertSaved(n, from, len) =>
      if n <= |w| && from < |s.saved| then s.(word := w[..n] + Sub(s.saved, from, len) + w[n..]) else s
  }

  function Run(ops: seq<Op>, s: Memo): Memo
    decreases |ops|
  {
    if ops == [] then s else Run(ops[1..], Eval(ops[0], s))
  }

  /** What a rule makes of a word; the memory starts empty. */
  function Applied(word: Word, rule: Word): Word {
    Run(Parse(rule), Memo(word, [])).word
  }

  // ---- Concatenation ----

  /** Every operation from a position on has all its operands. */
  predicate CompleteFrom(rule: Word, i: nat)
    decreases |rule| - i
  {
    i >= |rule| || (i + 1 + Operands(rule[i]) <= |rule| && CompleteFrom(rule, i + 1 + Operands(rule[i])))
  }

  predicate Complete(rule: Word) {
    CompleteFrom(rule, 0)
  }

  /** Characters past an operation's operands do not matter to it. */
  lemma DecodePrefix(op: Char, a: Word, b: Word)
    requires Operands(op) <= |a| <= |b| && b[..|a|] == a
    ensures Decode(op, a) == Decode(op, b)
  {
    assert forall k :: 0 <= k < |a| ==> a[k] == b[k];
    hide PositionOf;
  }

  /** An operation that has its operands reads the same whatever follows. */
  lemma OpStays(r1: Word, r2: Word, i: nat)
    requires i < |r1| && i + 1 + Operands(r1[i]) <= |r1|
    ensures OpAt(r1 + r2, i) == OpAt(r1, i)
    ensures Width(r1, i) == Width(r1 + r2, i) == 1 + Operands(r1[i])
  {
    hide Decode;
    assert Args(r1 + r2, i)[..|Args(r1, i)|] == Args(r1, i);
    DecodePrefix(r1[i], Args(r1, i), Args(r1 + r2, i));
  }

  lemma {:induction false} ParseConcatFrom(r1: Word, r2: Word, i: nat)
    requires i <= |r1| && CompleteFrom(r1, i)
    ensures ParseFrom(r1 + r2, i) == ParseFrom(r1, i) + Parse(r2)
    decreases |r1| - i
  {
    hide OpAt, Width, Operands;
    if i == |r1| {
      ParseShift(r1, r2, 0);
    } else {
      OpStays(r1, r2, i);
      ParseConcatFrom(r1, r2, i + 1 + Operands(r1[i]));
    }
  }

  /** Behind a prefix a rule parses as it does alone. */
  lemma {:induction false} ParseShift(r1: Word, r2: Word, j: nat)
    ensures ParseFrom(r1 + r2, |r1| + j) == ParseFrom(r2, j)
    decreases |r2| - j
  {
    hide OpAt, Width;
    if j < |r2| {
      OpShift(r1, r2, j);
      ParseShift(r1, r2, j + Width(r2, j));
    }
  }

  lemma OpShift(r1: Word, r2: Word, j: nat)
    requires j < |r2|
    ensures OpAt(r1 + r2, |r1| + j) == OpAt(r2, j) && Width(r1 + r2, |r1| + j) == Width(r2, j)
  {
    hide Operands, Decode;
    assert Args(r1 + r2, |r1| + j) == Args(r2, j);
  }

  lemma {:induction false} RunConcat(a: seq<Op>, b: seq<Op>, s: Memo)
    ensures Run(a + b, s) == Run(b, Run(a, s))
    decreases |a|
  {
    hide Eval;
    if a == [] {
      assert a + b == b;
    } else {
      assert (a + b)[1..] == a[1..] + b;
      RunConcat(a[1..], b, Eval(a[0], s));
    }
  }

  /** Running one rule after another, memory included, is running the concatenation. */
  lemma ConcatenatedRun(r1: Word, r2: Word, s: Memo)
    requires Complete(r1)
    ensures Run(Parse(r1 + r2), s) == Run(Parse(r2), Run(Parse(r1), s))
  {
    ParseConcatFrom(r1, r2, 0);
    RunConcat(Parse(r1), Parse(r2), s);
  }

  /** The memory is not read before it is written. */
  predicate SavesBeforeReading(ops: seq<Op>)
    decreases |ops|
  {
    ops == [] || ops[0].Save?
    || (!ops[0].AppendSaved? && !ops[0].InsertSaved? && SavesBeforeReading(ops[1..]))
  }

  lemma {:induction false} MemoryIrrelevant(ops: seq<Op>, w: Word, m: Word, n: Word)
    requires SavesBeforeReading(ops)
    ensures Run(ops, Memo(w, m)).word == Run(ops, Memo(w, n)).word
    decreases |ops|
  {
    if ops != [] {
      EvalIgnores(ops[0], w, m, n);
      if !ops[0].Save? {
        hide Eval;
        MemoryIrrelevant(ops[1..], Eval(ops[0], Memo(w, m)).word, m, n);
      }
    }
  }

  /** One operation that does not read the memory. */
  lemma EvalIgnores(op: Op, w: Word, m: Word, n: Word)
    requires !op.AppendSaved? && !op.InsertSaved?
    ensures Eval(op, Memo(w, m)).word == Eval(op, Memo(w, n)).word
    ensures !op.Save? ==> Eval(op, Memo(w, m)).saved == m && Eval(op, Memo(w, n)).saved == n
    ensures op.Save? ==> Eval(op, Memo(w, m)) == Eval(op, Memo(w, n))
  {}

  /** Applying the concatenation is applying the two rules in turn. */
  lemma ConcatenatedRules(word: Word, r1: Word, r2: Word)
    requires Complete(r1) && SavesBeforeReading(Parse(r2))
    ensures Applied(word, r1 + r2) == Applied(Applied(word, r1), r2)
  {
    hide Parse, Eval;
    ConcatenatedRun(r1, r2, Memo(word, []));
    var s := Run(Parse(r1), Memo(word, []));
    MemoryIrrelevant(Parse(r2), s.word, s.saved, []);
  }

  lemma ParseSingle(c: Char)
    requires Operands(c) == 0
    ensures Complete([c]) && Parse([c]) == [Decode(c, [])]
  {
    hide Decode;
    assert Args([c], 0) == [];
    assert Width([c], 0) == 1 && ParseFrom([c], 1) == [];
    assert CompleteFrom([c], 1);
  }

  lemma RunSingle(op: Op, s: Memo)
    ensures Run([op], s) == Eval(op, s)
  {
    hide Eval;
    assert [op][1..] == [];
  }

  const M: Word := ['M']
  const Q: Word := ['Q']

  /** Without the condition on the memory the two differ: saving and then appending doubles the word,
      but a second rule starts with an empty memory. */
  lemma MemoryMatters(word: Word)
    ensures Complete(M) && Applied(word, M + Q) == word + word && Applied(Applied(word, M), Q) == word
  {
    hide Parse, Complete, Run, Eval, Decode, Operands;
    MemoryOps(word);
    ParseSingle('M');
    ParseSingle('Q');
    ConcatenatedRun(M, Q, Memo(word, []));
    RunSingle(Save, Memo(word, []));
    RunSingle(AppendSaved, Memo(word, word));
    RunSingle(AppendSaved, Memo(word, []));
  }

  lemma MemoryOps(word: Word)
    ensures Operands('M') == 0 == Operands('Q') && Decode('M', []) == Save && Decode('Q', []) == AppendSaved
    ensures Eval(Save, Memo(word, [])) == Memo(word, word)
    ensures Eval(AppendSaved, Memo(word, word)) == Memo(word + word, word)
    ensures Eval(AppendSaved, Memo(word, [])) == Memo(word, [])
  {
    assert word + [] == word;
  }

  // ---- Incomplete rules ----

  const LLL: Word := ['l', 'l', 'l']

  lemma {:induction false} LettersParse(rule: Word, i: nat)
    requires i <= |rule| && forall k :: i <= k < |rule| ==> rule[k] == 'l'
    ensures |ParseFrom(rule, i)| == |rule| - i
    decreases |rule| - i
  {
    if i < |rule| { LettersParse(rule, i + 1); }
  }

  lemma ParsesSomething(rule: Word, i: nat)
    requires i < |rule|
    ensures |ParseFrom(rule, i)| >= 1
  {}

  /** An operation short of operands takes them from whatever follows. */
  lemma {:induction false} IncompleteTakes(r1: Word, i: nat)
    requires i <= |r1| && !CompleteFrom(r1, i)
    ensures |ParseFrom(r1 + LLL, i)| < |ParseFrom(r1, i)| + 3
    decreases |r1| - i
  {
    hide Decode;
    var r, next := r1 + LLL, i + 1 + Operands(r1[i]);
    if next <= |r1| {
      OpStays(r1, LLL, i);
      IncompleteTakes(r1, next);
    } else {
      assert Width(r, i) == 1 + Operands(r1[i]);
      LettersParse(r, next);
      ParsesSomething(r1, i);
    }
  }

  /** Concatenation keeps the parse, whatever follows, exactly for the rules that have all their operands. */
  lemma CompleteIff(r1: Word)
    ensures Complete(r1) <==> forall r2: Word :: Parse(r1 + r2) == Parse(r1) + Parse(r2)
  {
    hide Parse;
    if Complete(r1) {
      forall r2: Word ensures Parse(r1 + r2) == Parse(r1) + Parse(r2) { ParsesApart(r1, r2); }
    } else {
      IncompleteDiffers(r1);
    }
  }

  lemma ParsesApart(r1: Word, r2: Word)
    requires Complete(r1)
    ensures Parse(r1 + r2) == Parse(r1) + Parse(r2)
  {
    ParseConcatFrom(r1, r2, 0);
  }

  lemma IncompleteDiffers(r1: Word)
    requires !Complete(r1)
    ensures Parse(r1 + LLL) != Parse(r1) + Parse(LLL)
  {
    IncompleteTakes(r1, 0);
    LettersParse(LLL, 0);
  }
}
