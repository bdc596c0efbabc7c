/** What each letter of a rule does to a word, character by character. */
module RuleLaws {
  import opened Rules
  import Arith
  import RuleEngine

  // ---- Rules of one operation ----

  /** The rule is this operation and nothing else. */
  predicate Is(rule: Word, op: Op) {
    rule != [] && Width(rule, 0) == |rule| && OpAt(rule, 0) == op
  }

  lemma One(w: Word, rule: Word, op: Op)
    requires Is(rule, op)
    ensures Applied(w, rule) == Eval(op, Memo(w, [])).word
  {
    hide Eval, OpAt, Width;
    RuleEngine.OneMore(rule, 0, Memo(w, []));
    assert ParseFrom(rule, |rule|) == [];
  }

  lemma LowerAllIs()
    ensures Is(['l'], LowerAll)
  {
    RuleEngine.CaseOps(['l'], 0);
    hide OpAt, Width, PositionOf;
  }

  lemma UpperAllIs()
    ensures Is(['u'], UpperAll)
  {
    RuleEngine.CaseOps(['u'], 0);
    hide OpAt, Width, PositionOf;
  }

  lemma ToggleAllIs()
    ensures Is(['t'], ToggleAll)
  {
    RuleEngine.CaseOps(['t'], 0);
    hide OpAt, Width, PositionOf;
  }

  lemma CapitalizeIs()
    ensures Is(['c'], Capitalize)
  {
    RuleEngine.CaseOps(['c'], 0);
    hide OpAt, Width, PositionOf;
  }

  lemma UncapitalizeIs()
    ensures Is(['C'], Uncapitalize)
  {
    RuleEngine.CaseOps(['C'], 0);
    hide OpAt, Width, PositionOf;
  }

  lemma ToggleAtIs(p: Char)
    ensures Is(['T', p], ToggleAt(PositionOf(p)))
  {
    RuleEngine.CaseOps(['T', p], 0);
    hide OpAt, Width, PositionOf;
  }

  lemma ReverseIs()
    ensures Is(['r'], Reverse)
  {
    RuleEngine.ShapeOps(['r'], 0);
    hide OpAt, Width, PositionOf;
  }

  lemma DuplicateIs()
    ensures Is(['d'], Duplicate)
  {
    RuleEngine.ShapeOps(['d'], 0);
    hide OpAt, Width, PositionOf;
  }

  lemma ReflectIs()
    ensures Is(['f'], Reflect)
  {
    RuleEngine.ShapeOps(['f'], 0);
    hide OpAt, Width, PositionOf;
  }

  lemma DuplicateTimesIs(p: Char)
    ensures Is(['p', p], DuplicateTimes(PositionOf(p)))
  {
    RuleEngine.ShapeOps(['p', p], 0);
    hide OpAt, Width, PositionOf;
  }

  lemma RotateLeftIs()
    ensures Is(['{'], RotateLeft)
  {
    RuleEngine.ShapeOps(['{'], 0);
    hide OpAt, Width, PositionOf;
  }

  lemma RotateRightIs()
    ensures Is(['}'], RotateRight)
  {
    RuleEngine.ShapeOps(['}'], 0);
    hide OpAt, Width, PositionOf;
  }

  lemma DeleteFirstIs()
    ensures Is(['['], DeleteFirst)
  {
    RuleEngine.ShapeOps(['['], 0);
    hide OpAt, Width, PositionOf;
  }

  lemma DeleteLastIs()
    ensures Is([']'], DeleteLast)
  {
    RuleEngine.ShapeOps([']'], 0);
    hide OpAt, Width, PositionOf;
  }

  lemma AppendIs(c: Char)
    ensures Is(['$', c], Append(c))
  {
    RuleEngine.LetterOps(['$', c], 0);
    hide OpAt, Width, PositionOf;
  }

  lemma PrependIs(c: Char)
    ensures Is(['^', c], Prepend(c))
  {
    RuleEngine.LetterOps(['^', c], 0);
    hide OpAt, Width, PositionOf;
  }

  lemma InsertAtIs(p: Char, c: Char)
    ensures Is(['i', p, c], InsertAt(PositionOf(p), c))
  {
    RuleEngine.LetterOps(['i', p, c], 0);
    hide OpAt, Width, PositionOf;
  }

  lemma OverwriteIs(p: Char, c: Char)
    ensures Is(['o', p, c], Overwrite(PositionOf(p), c))
  {
    RuleEngine.LetterOps(['o', p, c], 0);
    hide OpAt, Width, PositionOf;
  }

  lemma SubstituteIs(a: Char, c: Char)
    ensures Is(['s', a, c], Substitute(a, c))
  {
    RuleEngine.LetterOps(['s', a, c], 0);
    hide OpAt, Width, PositionOf;
  }

  lemma PurgeIs(a: Char)
    ensures Is(['@', a], Purge(a))
  {
    RuleEngine.LetterOps(['@', a], 0);
    hide OpAt, Width, PositionOf;
  }

  lemma DeleteAtIs(p: Char)
    ensures Is(['D', p], DeleteAt(PositionOf(p)))
  {
    RuleEngine.AtOps(['D', p], 0);
    hide OpAt, Width, PositionOf;
  }

  lemma TruncateIs(p: Char)
    ensures Is(['\'', p], Truncate(PositionOf(p)))
  {
    RuleEngine.AtOps(['\'', p], 0);
    hide OpAt, Width, PositionOf;
  }

  lemma RepeatFirstIs(p: Char)
    ensures Is(['z', p], RepeatFirst(PositionOf(p)))
  {
    RuleEngine.AtOps(['z', p], 0);
    hide OpAt, Width, PositionOf;
  }

  lemma RepeatLastIs(p: Char)
    ensures Is(['Z', p], RepeatLast(PositionOf(p)))
  {
    RuleEngine.AtOps(['Z', p], 0);
    hide OpAt, Width, PositionOf;
  }

  lemma ExtractIs(p: Char, q: Char)
    ensures Is(['x', p, q], Extract(PositionOf(p), PositionOf(q)))
  {
    RuleEngine.RangeOps(['x', p, q], 0);
    hide OpAt, Width, PositionOf;
  }

  lemma OmitIs(p: Char, q: Char)
    ensures Is(['O', p, q], Omit(PositionOf(p), PositionOf(q)))
  {
    RuleEngine.RangeOps(['O', p, q], 0);
    hide OpAt, Width, PositionOf;
  }

  lemma IncrementIs(p: Char)
    ensures Is(['+', p], Increment(PositionOf(p)))
  {
    RuleEngine.SwapOps(['+', p], 0);
    hide OpAt, Width, PositionOf;
  }

  lemma DecrementIs(p: Char)
    ensures Is(['-', p], Decrement(PositionOf(p)))
  {
    RuleEngine.SwapOps(['-', p], 0);
    hide OpAt, Width, PositionOf;
  }

  lemma SwapFrontIs()
    ensures Is(['k'], SwapFront)
  {
    RuleEngine.SwapOps(['k'], 0);
    hide OpAt, Width, PositionOf;
  }

  lemma SwapBackIs()
    ensures Is(['K'], SwapBack)
  {
    RuleEngine.SwapOps(['K'], 0);
    hide OpAt, Width, PositionOf;
  }

  lemma SwapAtIs(p: Char, q: Char)
    ensures Is(['*', p, q], SwapAt(PositionOf(p), PositionOf(q)))
  {
    RuleEngine.SwapOps(['*', p, q], 0);
    hide OpAt, Width, PositionOf;
  }

  // ---- Letters of either case ----

  /** 'l' adds 32 to the capitals, 'u' takes 32 off the small letters, 't' does both, and nothing else changes. */
  lemma CaseLaws(w: Word)
    ensures var l, u, t := Applied(w, ['l']), Applied(w, ['u']), Applied(w, ['t']);
      && |l| == |u| == |t| == |w|
      && forall i :: 0 <= i < |w| ==>
        if 65 <= w[i] as int < 91 then l[i] as int == w[i] as int + 32 && u[i] == w[i] && t[i] == l[i]
        else if 97 <= w[i] as int < 123 then l[i] == w[i] && u[i] as int == w[i] as int - 32 && t[i] == u[i]
        else l[i] == u[i] == t[i] == w[i]
  {
    LowerAllIs();
    UpperAllIs();
    ToggleAllIs();
    hide Is, Applied;
    One(w, ['l'], LowerAll);
    One(w, ['u'], UpperAll);
    One(w, ['t'], ToggleAll);
  }

  /** 'c' and 'C' treat the first character as 'u' and 'l' do, and the rest the other way. */
  lemma CapitalLaws(w: Word)
    ensures var c, d, l, u := Applied(w, ['c']), Applied(w, ['C']), Applied(w, ['l']), Applied(w, ['u']);
      && |c| == |d| == |l| == |u| == |w|
      && (w != [] ==> c[0] == u[0] && d[0] == l[0])
      && forall i :: 1 <= i < |w| ==> c[i] == l[i] && d[i] == u[i]
  {
    CapitalizeIs();
    UncapitalizeIs();
    LowerAllIs();
    UpperAllIs();
    hide Is, Applied, Lower, Upper;
    One(w, ['c'], Capitalize);
    One(w, ['C'], Uncapitalize);
    One(w, ['l'], LowerAll);
    One(w, ['u'], UpperAll);
  }

  /** 'T' changes one character as 't' does. */
  lemma ToggleLaw(w: Word, p: Char)
    ensures var r, t, n := Applied(w, ['T', p]), Applied(w, ['t']), PositionOf(p);
      |r| == |t| == |w| && forall i :: 0 <= i < |w| ==> r[i] == if i == n then t[i] else w[i]
  {
    ToggleAtIs(p);
    ToggleAllIs();
    hide Is, Applied, Toggle, PositionOf;
    One(w, ['T', p], ToggleAt(PositionOf(p)));
    One(w, ['t'], ToggleAll);
  }

  /** Which character a position means: 0 to 9 are written as digits, 10 to 35 as letters of either case, and anything
      else means the first. */
  lemma PositionLaw(w: Word, p: Char, n: nat)
    requires if n < 10 then p as int == 48 + n || (n == 0 && !(48 <= p as int < 58 || 65 <= p as int < 91 || 97 <= p as int < 123))
             else n < 36 && (p as int == 55 + n || p as int == 87 + n)
    ensures PositionOf(p) == n
    ensures var r, t := Applied(w, ['T', p]), Applied(w, ['t']);
      |r| == |t| == |w| && forall i :: 0 <= i < |w| ==> r[i] == if i == n then t[i] else w[i]
  {
    ToggleLaw(w, p);
    hide Applied;
  }

  // ---- The whole word ----

  /** 'r' mirrors the word, and twice it leaves it. */
  lemma ReverseLaw(w: Word)
    ensures var r := Applied(w, ['r']); |r| == |w| && forall i :: 0 <= i < |w| ==> r[i] == w[|w| - 1 - i]
    ensures Applied(Applied(w, ['r']), ['r']) == w
  {
    ReverseIs();
    hide Is, Applied;
    One(w, ['r'], Reverse);
    One(Applied(w, ['r']), ['r'], Reverse);
  }

  /** 'd' puts a second copy behind the word, 'f' a mirrored one. */
  lemma DoubleLaws(w: Word)
    ensures var d, f := Applied(w, ['d']), Applied(w, ['f']);
      && |d| == |f| == 2 * |w|
      && forall i :: 0 <= i < |w| ==> d[i] == d[|w| + i] == f[i] == f[2 * |w| - 1 - i] == w[i]
  {
    DuplicateIs();
    ReflectIs();
    hide Is, Applied;
    One(w, ['d'], Duplicate);
    One(w, ['f'], Reflect);
  }

  lemma {:induction false} CopiesPeriodic(w: Word, n: nat, i: nat)
    requires i < |Copies(w, n)|
    ensures |w| > 0 && Copies(w, n)[i] == w[i % |w|]
  {
    CopiesLength(w, n - 1);
    if i < |Copies(w, n - 1)| {
      CopiesPeriodic(w, n - 1, i);
    } else {
      Remainder(i, n - 1, |w|);
    }
  }

  lemma Remainder(i: nat, q: nat, d: nat)
    requires q * d <= i < q * d + d
    ensures i % d == i - q * d
  {
    Arith.DivModUnique(i, d, q, i - q * d);
  }

  lemma {:induction false} CopiesLength(w: Word, n: nat)
    ensures |Copies(w, n)| == n * |w|
  {
    if n > 0 {
      CopiesLength(w, n - 1);
      assert n * |w| == (n - 1) * |w| + |w|;
    }
  }

  /** 'p' with position n repeats the word n more times. */
  lemma RepeatLaw(w: Word, p: Char)
    ensures var r := Applied(w, ['p', p]);
      |r| == |w| + PositionOf(p) * |w| && (w != [] ==> forall i :: 0 <= i < |r| ==> r[i] == w[i % |w|])
  {
    DuplicateTimesIs(p);
    hide Is, Applied, Copies, PositionOf;
    One(w, ['p', p], DuplicateTimes(PositionOf(p)));
    var n, r := PositionOf(p), w + Copies(w, PositionOf(p));
    CopiesLength(w, n);
    forall i | 0 <= i < |r| && w != [] ensures r[i] == w[i % |w|] {
      if i < |w| {
        Remainder(i, 0, |w|);
      } else {
        CopiesPeriodic(w, n, i - |w|);
        NextPeriod(i - |w|, |w|);
      }
    }
  }

  lemma NextPeriod(i: nat, d: nat)
    requires d > 0
    ensures (i + d) % d == i % d
  {
    Arith.DivModUnique(i + d, d, i / d + 1, i % d);
  }

  /** '{' puts the first character last and '}' the last one first; each undoes the other. */
  lemma RotateLaws(w: Word)
    ensures var l, r, n := Applied(w, ['{']), Applied(w, ['}']), |w|;
      && |l| == |r| == n && (n > 0 ==> l[n - 1] == w[0] && r[0] == w[n - 1])
      && forall i :: 0 <= i < n - 1 ==> l[i] == w[i + 1] && r[i + 1] == w[i]
    ensures Applied(Applied(w, ['{']), ['}']) == w && Applied(Applied(w, ['}']), ['{']) == w
  {
    RotateLeftIs();
    RotateRightIs();
    hide Is, Applied;
    One(w, ['{'], RotateLeft);
    One(w, ['}'], RotateRight);
    One(Applied(w, ['{']), ['}'], RotateRight);
    One(Applied(w, ['}']), ['{'], RotateLeft);
  }
  // ---- Single characters ----

  /** '$' puts a character behind the word, and ']' takes the last one off. */
  lemma AppendLaw(w: Word, c: Char)
    ensures var r := Applied(w, ['$', c]); |r| == |w| + 1 && r[|w|] == c && forall i :: 0 <= i < |w| ==> r[i] == w[i]
    ensures Applied(Applied(w, ['$', c]), [']']) == w && Applied([], [']']) == []
  {
    AppendIs(c);
    DeleteLastIs();
    hide Is, Applied;
    One(w, ['$', c], Append(c));
    One(w + [c], [']'], DeleteLast);
    One([], [']'], DeleteLast);
  }

  /** '^' puts a character before the word, and '[' takes the first one off. */
  lemma PrependLaw(w: Word, c: Char)
    ensures var r := Applied(w, ['^', c]); |r| == |w| + 1 && r[0] == c && forall i :: 0 <= i < |w| ==> r[i + 1] == w[i]
    ensures Applied(Applied(w, ['^', c]), ['[']) == w && Applied([], ['[']) == []
  {
    PrependIs(c);
    DeleteFirstIs();
    hide Is, Applied;
    One(w, ['^', c], Prepend(c));
    One([c] + w, ['['], DeleteFirst);
    One([], ['['], DeleteFirst);
  }

  /** 'i' puts a character at a position up to the end of the word and moves the rest; 'D' at the same position takes it
      off again. */
  lemma InsertLaw(w: Word, p: Char, c: Char)
    ensures var r, n := Applied(w, ['i', p, c]), PositionOf(p);
      if n > |w| then r == w
      else
        && |r| == |w| + 1 && r[n] == c && (forall i :: 0 <= i < |w| ==> w[i] == if i < n then r[i] else r[i + 1])
        && Applied(r, ['D', p]) == w
  {
    InsertAtIs(p, c);
    DeleteAtIs(p);
    hide Is, Applied, PositionOf;
    One(w, ['i', p, c], InsertAt(PositionOf(p), c));
    One(Applied(w, ['i', p, c]), ['D', p], DeleteAt(PositionOf(p)));
  }

  /** 'D' takes the character at a position off, if there is one; 'i' with that character puts it back. */
  lemma DeleteLaw(w: Word, p: Char)
    ensures var r, n := Applied(w, ['D', p]), PositionOf(p);
      if n >= |w| then r == w
      else
        && |r| == |w| - 1 && (forall i :: 0 <= i < |r| ==> r[i] == w[if i < n then i else i + 1])
        && Applied(r, ['i', p, w[n]]) == w
  {
    var n := PositionOf(p);
    var c := if n < |w| then w[n] else 'a';
    DeleteAtIs(p);
    InsertAtIs(p, c);
    if n < |w| { PutBack(w, n); }
    hide Is, Applied, PositionOf;
    One(w, ['D', p], DeleteAt(n));
    One(Applied(w, ['D', p]), ['i', p, c], InsertAt(n, c));
  }

  lemma PutBack(w: Word, n: nat)
    requires n < |w|
    ensures var r := w[..n] + w[n + 1..]; r[..n] + [w[n]] + r[n..] == w
  {}

  /** 'o' writes a character over the one at a position, if there is one. */
  lemma OverwriteLaw(w: Word, p: Char, c: Char)
    ensures var r, n := Applied(w, ['o', p, c]), PositionOf(p);
      |r| == |w| && forall i :: 0 <= i < |w| ==> r[i] == if i == n then c else w[i]
  {
    OverwriteIs(p, c);
    hide Is, Applied, PositionOf;
    One(w, ['o', p, c], Overwrite(PositionOf(p), c));
  }

  /** 's' puts one character for every occurrence of another. */
  lemma SubstituteLaw(w: Word, a: Char, c: Char)
    ensures var r := Applied(w, ['s', a, c]); |r| == |w| && forall i :: 0 <= i < |w| ==> r[i] == if w[i] == a then c else w[i]
  {
    SubstituteIs(a, c);
    hide Is, Applied;
    One(w, ['s', a, c], Substitute(a, c));
  }

  lemma {:induction false} WithoutConcat(v: Word, w: Word, c: Char)
    ensures Without(v + w, c) == Without(v, c) + Without(w, c)
  {
    if w == [] {
      assert v + w == v;
    } else {
      assert (v + w)[..|v + w| - 1] == v + w[..|w| - 1];
      WithoutConcat(v, w[..|w| - 1], c);
    }
  }

  /** '@' takes every occurrence of a character out: it goes through a word piece by piece, and leaves every other
      character. */
  lemma PurgeLaw(v: Word, w: Word, a: Char, c: Char)
    ensures Applied(v + w, ['@', a]) == Applied(v, ['@', a]) + Applied(w, ['@', a])
    ensures Applied([c], ['@', a]) == (if c == a then [] else [c]) && Applied([], ['@', a]) == []
  {
    PurgeIs(a);
    assert [c][..0] == [];
    hide Is, Applied;
    One(v + w, ['@', a], Purge(a));
    One(v, ['@', a], Purge(a));
    One(w, ['@', a], Purge(a));
    One([c], ['@', a], Purge(a));
    One([], ['@', a], Purge(a));
    WithoutConcat(v, w, a);
  }

  /** '+' adds one to the code of the character at a position, modulo 256, '-' takes one off; each undoes the other. */
  lemma TweakLaws(w: Word, p: Char)
    ensures var u, d, n := Applied(w, ['+', p]), Applied(w, ['-', p]), PositionOf(p);
      && |u| == |d| == |w| && (forall i :: 0 <= i < |w| && i != n ==> u[i] == d[i] == w[i])
      && (n < |w| ==> u[n] as int == (w[n] as int + 1) % 256 && d[n] as int == (w[n] as int + 255) % 256)
    ensures Applied(Applied(w, ['+', p]), ['-', p]) == w && Applied(Applied(w, ['-', p]), ['+', p]) == w
  {
    var n := PositionOf(p);
    IncrementIs(p);
    DecrementIs(p);
    if n < |w| {
      ShiftedBack(w[n]);
      Rewritten(w, n, Shifted(w[n], 1));
      Rewritten(w, n, Shifted(w[n], -1));
    }
    hide Is, Applied, PositionOf, Shifted;
    One(w, ['+', p], Increment(n));
    One(w, ['-', p], Decrement(n));
    One(Applied(w, ['+', p]), ['-', p], Decrement(n));
    One(Applied(w, ['-', p]), ['+', p], Increment(n));
  }

  lemma Rewritten(w: Word, n: nat, c: Char)
    requires n < |w|
    ensures w[n := c][n := w[n]] == w
  {}

  lemma ShiftedBack(c: Char)
    ensures Shifted(c, 1) as int == (c as int + 1) % 256 && Shifted(c, -1) as int == (c as int + 255) % 256
    ensures Shifted(Shifted(c, 1), -1) == c && Shifted(Shifted(c, -1), 1) == c
  {}

  // ---- Parts ----

  /** '\'' keeps the characters before a position. */
  lemma TruncateLaw(w: Word, p: Char)
    ensures var r, n := Applied(w, ['\'', p]), PositionOf(p);
      |r| == (if n < |w| then n else |w|) && forall i :: 0 <= i < |r| ==> r[i] == w[i]
  {
    TruncateIs(p);
    hide Is, Applied, PositionOf;
    One(w, ['\'', p], Truncate(PositionOf(p)));
  }

  /** 'x' takes at most m characters from position n, 'O' leaves the others; from past the end 'x' takes nothing and 'O'
      leaves the word. */
  lemma PartLaws(w: Word, p: Char, q: Char)
    ensures var x, o, n, m := Applied(w, ['x', p, q]), Applied(w, ['O', p, q]), PositionOf(p), PositionOf(q);
      if n >= |w| then x == [] && o == w
      else
        && |x| == (if m < |w| - n then m else |w| - n) && |x| + |o| == |w|
        && (forall i :: 0 <= i < |x| ==> x[i] == w[n + i])
        && (forall i :: 0 <= i < |o| ==> o[i] == w[if i < n then i else i + |x|])
  {
    ExtractIs(p, q);
    OmitIs(p, q);
    hide Is, Applied, PositionOf;
    One(w, ['x', p, q], Extract(PositionOf(p), PositionOf(q)));
    One(w, ['O', p, q], Omit(PositionOf(p), PositionOf(q)));
  }

  /** 'z' puts n more of the first character before the word, 'Z' n more of the last one behind it. */
  lemma RepeatEndLaws(w: Word, p: Char)
    requires w != []
    ensures var z, y, n := Applied(w, ['z', p]), Applied(w, ['Z', p]), PositionOf(p);
      && |z| == |y| == |w| + n && (forall i :: 0 <= i < n ==> z[i] == w[0] && y[|w| + i] == w[|w| - 1])
      && forall i :: 0 <= i < |w| ==> z[n + i] == y[i] == w[i]
    ensures Applied([], ['z', p]) == [] && Applied([], ['Z', p]) == []
  {
    RepeatFirstIs(p);
    RepeatLastIs(p);
    hide Is, Applied, PositionOf;
    One(w, ['z', p], RepeatFirst(PositionOf(p)));
    One(w, ['Z', p], RepeatLast(PositionOf(p)));
    One([], ['z', p], RepeatFirst(PositionOf(p)));
    One([], ['Z', p], RepeatLast(PositionOf(p)));
  }

  // ---- Swaps ----

  /** r is w with the characters at two positions exchanged. */
  predicate Exchanged(w: Word, r: Word, j: nat, k: nat)
    requires j < |w| && k < |w|
  {
    |r| == |w| && r[j] == w[k] && r[k] == w[j] && forall i :: 0 <= i < |w| && i != j && i != k ==> r[i] == w[i]
  }

  /** 'k' exchanges the first two characters, 'K' the last two, if there are two. */
  lemma SwapEndLaws(w: Word)
    ensures if |w| >= 2 then Exchanged(w, Applied(w, ['k']), 0, 1) && Exchanged(w, Applied(w, ['K']), |w| - 2, |w| - 1)
            else Applied(w, ['k']) == Applied(w, ['K']) == w
  {
    SwapFrontIs();
    SwapBackIs();
    hide Is, Applied;
    One(w, ['k'], SwapFront);
    One(w, ['K'], SwapBack);
  }

  /** '*' exchanges those at two positions, if they are there. */
  lemma SwapAtLaw(w: Word, p: Char, q: Char)
    ensures var r, n, m := Applied(w, ['*', p, q]), PositionOf(p), PositionOf(q);
      if n < |w| && m < |w| then Exchanged(w, r, n, m) else r == w
  {
    SwapAtIs(p, q);
    hide Is, Applied, PositionOf;
    One(w, ['*', p, q], SwapAt(PositionOf(p), PositionOf(q)));
  }

  // ---- The memory ----

  /** 'M' and no other operation changes the memory; 'Q' and 'X' only read it. */
  lemma {:induction false} SavedKept(ops: seq<Op>, s: Memo)
    requires forall i :: 0 <= i < |ops| ==> !ops[i].Save?
    ensures Run(ops, s).saved == s.saved
    decreases |ops|
  {
    if ops != [] {
      OneKeepsSaved(ops[0], s);
      hide Eval;
      SavedKept(ops[1..], Eval(ops[0], s));
    }
  }

  lemma OneKeepsSaved(op: Op, s: Memo)
    requires !op.Save?
    ensures Eval(op, s).saved == s.saved
  {}

  /** 'M' keeps the word as it is and remembers it for a 'Q' later, which puts the word remembered behind. */
  lemma MemoryLaw(w: Word, r: Word)
    requires Complete(r) && forall i :: 0 <= i < |Parse(r)| ==> !Parse(r)[i].Save?
    ensures Applied(w, ['M'] + r + ['Q']) == Run(Parse(r), Memo(w, w)).word + w
    ensures (forall i :: 0 <= i < |Parse(r)| ==> !Parse(r)[i].AppendSaved? && !Parse(r)[i].InsertSaved?) ==>
      Applied(w, ['M'] + r + ['Q']) == Applied(w, r) + w
  {
    MemoryOps(w);
    hide Parse, Complete, Eval, Decode, Operands, Run;
    ParseSingle('M');
    ParseSingle('Q');
    var s := Run(Parse(r), Memo(w, w));
    ConcatComplete(['M'], r);
    ConcatenatedRun(['M'] + r, ['Q'], Memo(w, []));
    ConcatenatedRun(['M'], r, Memo(w, []));
    RunSingle(Save, Memo(w, []));
    RunSingle(AppendSaved, s);
    SavedKept(Parse(r), Memo(w, w));
    EvalAppend(s);
    if forall i :: 0 <= i < |Parse(r)| ==> !Parse(r)[i].AppendSaved? && !Parse(r)[i].InsertSaved? {
      NeverReads(Parse(r));
      MemoryIrrelevant(Parse(r), w, w, []);
    }
  }

  lemma EvalAppend(s: Memo)
    ensures Eval(AppendSaved, s).word == s.word + s.saved
  {}

  lemma {:induction false} NeverReads(ops: seq<Op>)
    requires forall i :: 0 <= i < |ops| ==> !ops[i].AppendSaved? && !ops[i].InsertSaved?
    ensures SavesBeforeReading(ops)
    decreases |ops|
  {
    if ops != [] { NeverReads(ops[1..]); }
  }

  lemma {:induction false} ConcatCompleteFrom(a: Word, b: Word, i: nat)
    requires i <= |a| && CompleteFrom(a, i) && Complete(b)
    ensures CompleteFrom(a + b, i)
    decreases |a| - i
  {
    hide Operands;
    if i == |a| {
      CompleteShift(a, b, 0);
    } else {
      ConcatCompleteFrom(a, b, i + 1 + Operands(a[i]));
    }
  }

  lemma {:induction false} CompleteShift(a: Word, b: Word, j: nat)
    requires j <= |b| && CompleteFrom(b, j)
    ensures CompleteFrom(a + b, |a| + j)
    decreases |b| - j
  {
    hide Operands;
    if j < |b| { CompleteShift(a, b, j + 1 + Operands(b[j])); }
  }

  lemma ConcatComplete(a: Word, b: Word)
    requires Complete(a) && Complete(b)
    ensures Complete(a + b)
  {
    ConcatCompleteFrom(a, b, 0);
  }

  /** 'X' puts at most l characters of the word remembered, from position m on, at position n; nothing if there is no
      position m in it or no position n in the word. */
  lemma InsertSavedLaw(w: Word, p: Char, q: Char, l: Char)
    ensures var r, n, x := Applied(w, ['M', 'X', p, q, l]), PositionOf(p), Applied(w, ['x', q, l]);
      if n > |w| || PositionOf(q) >= |w| then r == w else r == w[..n] + x + w[n..]
  {
    SaveInsertIs(p, q, l);
    ExtractIs(q, l);
    hide OpAt, Width, Is, Applied, PositionOf, Sub;
    One(w, ['x', q, l], Extract(PositionOf(q), PositionOf(l)));
    Two(w, ['M', 'X', p, q, l]);
  }

  lemma SaveInsertIs(p: Char, q: Char, l: Char)
    ensures var rule := ['M', 'X', p, q, l];
      && Width(rule, 0) == 1 && OpAt(rule, 0) == Save && Width(rule, 1) == 4
      && OpAt(rule, 1) == InsertSaved(PositionOf(p), PositionOf(q), PositionOf(l))
  {
    RuleEngine.MemoryOps(['M', 'X', p, q, l], 0);
    RuleEngine.MemoryOps(['M', 'X', p, q, l], 1);
    hide OpAt, Width, PositionOf;
  }

  /** A rule that is two operations. */
  lemma Two(w: Word, rule: Word)
    requires rule != [] && Width(rule, 0) < |rule| && Width(rule, 0) + Width(rule, Width(rule, 0)) == |rule|
    ensures Applied(w, rule) == Eval(OpAt(rule, Width(rule, 0)), Eval(OpAt(rule, 0), Memo(w, []))).word
  {
    hide Eval, OpAt, Width;
    var k := Width(rule, 0);
    RuleEngine.OneMore(rule, 0, Memo(w, []));
    RuleEngine.OneMore(rule, k, Eval(OpAt(rule, 0), Memo(w, [])));
    assert ParseFrom(rule, |rule|) == [];
  }

  // ---- What does nothing ----

  predicate Known(c: Char) {
    match c
    case 'l' | 'u' | 'c' | 'C' | 't' | 'T' | 'r' | 'd' | 'p' | 'f' | '{' | '}' | '$' | '^' | '[' | ']' | 'D' | 'x' | 'O' => true
    case 'i' | 'o' | '\'' | 's' | '@' | 'z' | 'Z' | '+' | '-' | 'k' | 'K' | '*' | 'M' | 'Q' | 'X' => true
    case _ => false
  }

  /** How many characters a letter without a meaning takes with it: some of the rejection rules take two, some one. */
  function Skipped(c: Char): nat {
    if c == '/' || c == '=' || c == '(' || c == ')' || c == '%' then 2
    else if c == '<' || c == '>' || c == '_' || c == '!' then 1
    else 0
  }

  /** Any other letter does nothing, with the characters it takes; what follows is applied as if they were not there. */
  lemma SkipLaw(w: Word, skip: Word, rest: Word)
    requires skip != [] && !Known(skip[0]) && |skip| == 1 + Skipped(skip[0])
    ensures Applied(w, skip + rest) == Applied(w, rest)
  {
    var s := Memo(w, []);
    assert Operands(skip[0]) == Skipped(skip[0]) && Width(skip, 0) == |skip| && OpAt(skip, 0) == Nothing;
    assert CompleteFrom(skip, |skip|);
    RuleEngine.EvalNothing(s);
    hide OpAt, Width, Eval, Operands;
    assert ParseFrom(skip, |skip|) == [];
    RuleEngine.OneMore(skip, 0, s);
    ConcatenatedRun(skip, rest, s);
  }

  /** A letter whose character is missing at the end of a rule does nothing, nor does a position before it. */
  lemma MissingLaw(w: Word, rule: Word)
    requires rule == ['s'] || (|rule| == 1 && (rule[0] == '$' || rule[0] == '^' || rule[0] == '@'))
      || (1 <= |rule| <= 2 && (rule[0] == 'i' || rule[0] == 'o'))
    ensures Applied(w, rule) == w
  {
    RuleEngine.LetterOps(rule, 0);
    RuleEngine.EvalNothing(Memo(w, []));
    hide OpAt, Width, Eval;
    RuleEngine.OneMore(rule, 0, Memo(w, []));
    assert ParseFrom(rule, Width(rule, 0)) == [];
  }

  /** An 's' with one character behind it does nothing either, but that character is an operation of its own. */
  lemma LoneSubstituteLaw(w: Word, c: Char)
    ensures Applied(w, ['s', c]) == Applied(w, [c])
  {
    RuleEngine.LetterOps(['s', c], 0);
    RuleEngine.EvalNothing(Memo(w, []));
    hide OpAt, Width, Eval, Run, ParseFrom;
    RuleEngine.OneMore(['s', c], 0, Memo(w, []));
    assert ['s', c] == ['s'] + [c];
    ParseShift(['s'], [c], 0);
  }
}
