/** The interpreter that runs a rule string directly, advancing an index and editing the word in place. */
module RuleEngine {
  import opened Rules

  // ---- The loops over the word ----

  method MapLoop(f: Char -> Char, word: Word) returns (result: Word)
    ensures result == Map(f, word)
  {
    result := word;
    for j := 0 to |result|
      invariant |result| == |word|
      invariant forall k :: 0 <= k < |word| ==> result[k] == if k < j then f(word[k]) else word[k]
    {
      result := result[j := f(result[j])];
    }
  }

  method ReplaceLoop(word: Word, what: Char, with: Char) returns (result: Word)
    ensures result == Replaced(word, what, with)
  {
    result := word;
    for j := 0 to |result|
      invariant |result| == |word|
      invariant forall k :: 0 <= k < |word| ==> result[k] == if k < j && word[k] == what then with else word[k]
    {
      if result[j] == what { result := result[j := with]; }
    }
  }

  method FirstAndRestLoop(first: Char -> Char, rest: Char -> Char, word: Word) returns (result: Word)
    ensures result == if word == [] then [] else [first(word[0])] + Map(rest, word[1..])
  {
    result := word;
    for j := 0 to |result|
      invariant |result| == |word|
      invariant forall k :: 0 <= k < |word| ==>
          result[k] == if k >= j then word[k] else if k == 0 then first(word[0]) else rest(word[k])
    {
      result := result[j := if j == 0 then first(result[j]) else rest(result[j])];
    }
  }

  method PurgeLoop(word: Word, c: Char) returns (result: Word)
    ensures result == Without(word, c)
  {
    result := [];
    for j := 0 to |word|
      invariant result == Without(word[..j], c)
    {
      assert word[..j + 1][..j] == word[..j];
      if word[j] != c { result := result + [word[j]]; }
    }
    assert word[..|word|] == word;
  }

  method DuplicateLoop(word: Word, n: nat) returns (result: Word)
    ensures result == word + Copies(word, n)
  {
    result := word;
    for j := 0 to n
      invariant result == word + Copies(word, j)
    {
      result := result + word;
    }
  }

  // ---- The branches of the switch, by kind; i is the index after the branch ----

  predicate IsCase(op: Char) {
    match op
    case 'l' | 'u' | 'c' | 'C' | 't' | 'T' => true
    case _ => false
  }

  lemma CaseOps(rule: Word, i: nat)
    requires i < |rule|
    ensures var n, m := Position(rule, i + 1), Position(rule, i + 2);
            match rule[i]
            case 'l' => OpAt(rule, i) == LowerAll && Width(rule, i) == 1
            case 'u' => OpAt(rule, i) == UpperAll && Width(rule, i) == 1
            case 'c' => OpAt(rule, i) == Capitalize && Width(rule, i) == 1
            case 'C' => OpAt(rule, i) == Uncapitalize && Width(rule, i) == 1
            case 't' => OpAt(rule, i) == ToggleAll && Width(rule, i) == 1
            case 'T' => OpAt(rule, i) == ToggleAt(n) && Width(rule, i) == 2
            case _ => true
  {
    ArgsAt(rule, i);
    hide Args, Position;
  }

  method CaseStep(rule: Word, i0: nat, word: Word, memory: Word) returns (i: nat, result: Word)
    requires i0 < |rule| && IsCase(rule[i0])
    ensures i == i0 + Width(rule, i0) && Memo(result, memory) == Eval(OpAt(rule, i0), Memo(word, memory))
  {
    CaseOps(rule, i0);
    hide OpAt, Width, Position, Map, Replaced, Reversed, Copies, Repeated, Without, Shifted, Upper, Lower, Toggle;
    i, result := i0, word;
    match rule[i] {
      case 'l' => result := MapLoop(Lower, result);
      case 'u' => result := MapLoop(Upper, result);
      case 'c' => result := FirstAndRestLoop(Upper, Lower, result);
      case 'C' => result := FirstAndRestLoop(Lower, Upper, result);
      case 't' => result := MapLoop(Toggle, result);
      case _ =>
        i := i + 1;
        var pos := Position(rule, i);
        if pos < |result| {
          result := result[pos := Toggle(result[pos])];
        }
    }
    i := i + 1;
  }

  predicate IsShape(op: Char) {
    match op
    case 'r' | 'd' | 'p' | 'f' | '{' | '}' | '[' | ']' => true
    case _ => false
  }

  lemma ShapeOps(rule: Word, i: nat)
    requires i < |rule|
    ensures var n, m := Position(rule, i + 1), Position(rule, i + 2);
            match rule[i]
            case 'r' => OpAt(rule, i) == Reverse && Width(rule, i) == 1
            case 'd' => OpAt(rule, i) == Duplicate && Width(rule, i) == 1
            case 'p' => OpAt(rule, i) == DuplicateTimes(n) && Width(rule, i) == 2
            case 'f' => OpAt(rule, i) == Reflect && Width(rule, i) == 1
            case '{' => OpAt(rule, i) == RotateLeft && Width(rule, i) == 1
            case '}' => OpAt(rule, i) == RotateRight && Width(rule, i) == 1
            case '[' => OpAt(rule, i) == DeleteFirst && Width(rule, i) == 1
            case ']' => OpAt(rule, i) == DeleteLast && Width(rule, i) == 1
            case _ => true
  {
    ArgsAt(rule, i);
    hide Args, Position;
  }

  method ShapeStep(rule: Word, i0: nat, word: Word, memory: Word) returns (i: nat, result: Word)
    requires i0 < |rule| && IsShape(rule[i0])
    ensures i == i0 + Width(rule, i0) && Memo(result, memory) == Eval(OpAt(rule, i0), Memo(word, memory))
  {
    ShapeOps(rule, i0);
    hide OpAt, Width, Position, Map, Replaced, Reversed, Copies, Repeated, Without, Shifted, Upper, Lower, Toggle;
    i, result := i0, word;
    match rule[i] {
      case 'r' => result := Reversed(result);
      case 'd' => result := result + result;
      case 'p' =>
        i := i + 1;
        var n := Position(rule, i);
        result := DuplicateLoop(result, n);
      case 'f' => result := result + Reversed(result);
      case '{' =>
        if result != [] {
          var first := result[0];
          result := result[1..];
          result := result + [first];
        }
      case '}' =>
        if result != [] {
          var last := result[|result| - 1];
          result := result[..|result| - 1];
          result := [last] + result;
        }
      case '[' =>
        if result != [] { result := result[1..]; }
      case _ =>
        if result != [] { result := result[..|result| - 1]; }
    }
    i := i + 1;
  }

  predicate IsLetter(op: Char) {
    match op
    case '$' | '^' | 'i' | 'o' | 's' | '@' => true
    case _ => false
  }

  lemma LetterOps(rule: Word, i: nat)
    requires i < |rule|
    ensures var n, m := Position(rule, i + 1), Position(rule, i + 2);
            match rule[i]
            case '$' => OpAt(rule, i) == (if i + 1 < |rule| then Append(rule[i + 1]) else Nothing) && Width(rule, i) == 2
            case '^' => OpAt(rule, i) == (if i + 1 < |rule| then Prepend(rule[i + 1]) else Nothing) && Width(rule, i) == 2
            case 'i' => OpAt(rule, i) == (if i + 2 < |rule| then InsertAt(n, rule[i + 2]) else Nothing) && Width(rule, i) == 3
            case 'o' => OpAt(rule, i) == (if i + 2 < |rule| then Overwrite(n, rule[i + 2]) else Nothing) && Width(rule, i) == 3
            case 's' =>
              if i + 2 < |rule| then OpAt(rule, i) == Substitute(rule[i + 1], rule[i + 2]) && Width(rule, i) == 3
              else OpAt(rule, i) == Nothing && Width(rule, i) == 1
            case '@' => OpAt(rule, i) == (if i + 1 < |rule| then Purge(rule[i + 1]) else Nothing) && Width(rule, i) == 2
            case _ => true
  {
    ArgsAt(rule, i);
    hide Args, Position;
  }

  /** Operations with a literal character; where it is missing the word stays. */
  method LetterStep(rule: Word, i0: nat, word: Word, memory: Word) returns (i: nat, result: Word)
    requires i0 < |rule| && IsLetter(rule[i0])
    ensures i == i0 + Width(rule, i0) && Memo(result, memory) == Eval(OpAt(rule, i0), Memo(word, memory))
  {
    LetterOps(rule, i0);
    hide OpAt, Width, Position, Map, Replaced, Reversed, Copies, Repeated, Without, Shifted, Upper, Lower, Toggle;
    i, result := i0, word;
    match rule[i] {
      case '$' =>
        i := i + 1;
        if i < |rule| { result := result + [rule[i]]; }
      case '^' =>
        i := i + 1;
        if i < |rule| { result := [rule[i]] + result; }
      case 'i' =>
        i := i + 1;
        var pos := Position(rule, i);
        i := i + 1;
        if i < |rule| && pos <= |result| { result := result[..pos] + [rule[i]] + result[pos..]; }
      case 'o' =>
        i := i + 1;
        var pos := Position(rule, i);
        i := i + 1;
        if i < |rule| && pos < |result| { result := result[pos := rule[i]]; }
      case 's' =>
        if i + 2 < |rule| {
          var what, with := rule[i + 1], rule[i + 2];
          i := i + 2;
          result := ReplaceLoop(result, what, with);
        }
      case _ =>
        i := i + 1;
        if i < |rule| { result := PurgeLoop(result, rule[i]); }
    }
    i := i + 1;
  }

  predicate IsAt(op: Char) {
    match op
    case 'D' | '\'' | 'z' | 'Z' => true
    case _ => false
  }

  lemma AtOps(rule: Word, i: nat)
    requires i < |rule|
    ensures var n, m := Position(rule, i + 1), Position(rule, i + 2);
            match rule[i]
            case 'D' => OpAt(rule, i) == DeleteAt(n) && Width(rule, i) == 2
            case '\'' => OpAt(rule, i) == Truncate(n) && Width(rule, i) == 2
            case 'z' => OpAt(rule, i) == RepeatFirst(n) && Width(rule, i) == 2
            case 'Z' => OpAt(rule, i) == RepeatLast(n) && Width(rule, i) == 2
            case _ => true
  {
    ArgsAt(rule, i);
    hide Args, Position;
  }

  method AtStep(rule: Word, i0: nat, word: Word, memory: Word) returns (i: nat, result: Word)
    requires i0 < |rule| && IsAt(rule[i0])
    ensures i == i0 + Width(rule, i0) && Memo(result, memory) == Eval(OpAt(rule, i0), Memo(word, memory))
  {
    AtOps(rule, i0);
    hide OpAt, Width, Position, Map, Replaced, Reversed, Copies, Repeated, Without, Shifted, Upper, Lower, Toggle;
    i, result := i0 + 1, word;
    var pos := Position(rule, i);
    match rule[i0] {
      case 'D' =>
        if pos < |result| { result := result[..pos] + result[pos + 1..]; }
      case '\'' =>
        if pos < |result| { result := result[..pos]; }
      case 'z' =>
        if result != [] { result := Repeated(result[0], pos) + result; }
      case _ =>
        if result != [] { result := result + Repeated(result[|result| - 1], pos); }
    }
    i := i + 1;
  }

  predicate IsRange(op: Char) {
    op == 'x' || op == 'O'
  }

  lemma RangeOps(rule: Word, i: nat)
    requires i < |rule|
    ensures var n, m := Position(rule, i + 1), Position(rule, i + 2);
            match rule[i]
            case 'x' => OpAt(rule, i) == Extract(n, m) && Width(rule, i) == 3
            case 'O' => OpAt(rule, i) == Omit(n, m) && Width(rule, i) == 3
            case _ => true
  {
    ArgsAt(rule, i);
    hide Args, Position;
  }

  method RangeStep(rule: Word, i0: nat, word: Word, memory: Word) returns (i: nat, result: Word)
    requires i0 < |rule| && IsRange(rule[i0])
    ensures i == i0 + Width(rule, i0) && Memo(result, memory) == Eval(OpAt(rule, i0), Memo(word, memory))
  {
    RangeOps(rule, i0);
    hide Cut, Sub, OpAt, Width, Position, Map, Replaced, Reversed, Copies, Repeated, Without, Shifted, Upper, Lower, Toggle;
    i, result := i0 + 1, word;
    var start := Position(rule, i);
    i := i + 1;
    var len := Position(rule, i);
    if rule[i0] == 'x' {
      if start < |result| { result := Sub(result, start, len); } else { result := []; }
    } else {
      if start < |result| { result := result[..start] + result[start + Cut(len, |result| - start)..]; }
    }
    i := i + 1;
  }

  predicate IsTweak(op: Char) {
    op == '+' || op == '-'
  }

  predicate IsSwap(op: Char) {
    match op
    case 'k' | 'K' | '*' => true
    case _ => false
  }

  lemma SwapOps(rule: Word, i: nat)
    requires i < |rule|
    ensures var n, m := Position(rule, i + 1), Position(rule, i + 2);
            match rule[i]
            case '+' => OpAt(rule, i) == Increment(n) && Width(rule, i) == 2
            case '-' => OpAt(rule, i) == Decrement(n) && Width(rule, i) == 2
            case 'k' => OpAt(rule, i) == SwapFront && Width(rule, i) == 1
            case 'K' => OpAt(rule, i) == SwapBack && Width(rule, i) == 1
            case '*' => OpAt(rule, i) == SwapAt(n, m) && Width(rule, i) == 3
            case _ => true
  {
    ArgsAt(rule, i);
    hide Args, Position;
  }

  method TweakStep(rule: Word, i0: nat, word: Word, memory: Word) returns (i: nat, result: Word)
    requires i0 < |rule| && IsTweak(rule[i0])
    ensures i == i0 + Width(rule, i0) && Memo(result, memory) == Eval(OpAt(rule, i0), Memo(word, memory))
  {
    SwapOps(rule, i0);
    hide OpAt, Width, Position, Shifted;
    i, result := i0 + 1, word;
    var pos := Position(rule, i);
    if pos < |result| {
      result := result[pos := Shifted(result[pos], if rule[i0] == '+' then 1 else -1)];
    }
    i := i + 1;
  }

  method SwapStep(rule: Word, i0: nat, word: Word, memory: Word) returns (i: nat, result: Word)
    requires i0 < |rule| && IsSwap(rule[i0])
    ensures i == i0 + Width(rule, i0) && Memo(result, memory) == Eval(OpAt(rule, i0), Memo(word, memory))
  {
    SwapOps(rule, i0);
    hide OpAt, Width, Position;
    i, result := i0, word;
    match rule[i] {
      case 'k' =>
        if |result| >= 2 { result := Swap(result, 0, 1); }
      case 'K' =>
        if |result| >= 2 { result := Swap(result, |result| - 2, |result| - 1); }
      case _ =>
        i := i + 1;
        var pos1 := Position(rule, i);
        i := i + 1;
        var pos2 := Position(rule, i);
        if pos1 < |result| && pos2 < |result| { result := Swap(result, pos1, pos2); }
    }
    i := i + 1;
  }

  method Swap(w: Word, j: nat, k: nat) returns (r: Word)
    requires j < |w| && k < |w|
    ensures r == w[j := w[k]][k := w[j]]
  {
    var c := w[j];
    r := w[j := w[k]];
    r := r[k := c];
  }

  predicate IsMemory(op: Char) {
    match op
    case 'M' | 'Q' | 'X' => true
    case _ => false
  }

  lemma MemoryOps(rule: Word, i: nat)
    requires i < |rule|
    ensures var n, m := Position(rule, i + 1), Position(rule, i + 2);
            match rule[i]
            case 'M' => OpAt(rule, i) == Save && Width(rule, i) == 1
            case 'Q' => OpAt(rule, i) == AppendSaved && Width(rule, i) == 1
            case 'X' => OpAt(rule, i) == InsertSaved(n, m, Position(rule, i + 3)) && Width(rule, i) == 4
            case _ => true
  {
    ArgsAt(rule, i);
    hide Args, Position;
  }

  method MemoryStep(rule: Word, i0: nat, word: Word, memory0: Word) returns (i: nat, result: Word, memory: Word)
    requires i0 < |rule| && IsMemory(rule[i0])
    ensures i == i0 + Width(rule, i0) && Memo(result, memory) == Eval(OpAt(rule, i0), Memo(word, memory0))
  {
    MemoryOps(rule, i0);
    hide Sub, OpAt, Width, Position;
    i, result, memory := i0, word, memory0;
    match rule[i] {
      case 'M' => memory := result;
      case 'Q' => result := result + memory;
      case _ =>
        i := i + 1;
        var pos := Position(rule, i);
        i := i + 1;
        var start := Position(rule, i);
        i := i + 1;
        var len := Position(rule, i);
        if pos <= |result| && start < |memory| {
          result := result[..pos] + Sub(memory, start, len) + result[pos..];
        }
    }
    i := i + 1;
  }

  /** Rejection rules are skipped, some with one character and some with two; unknown letters do nothing. */
  method SkipStep(rule: Word, i0: nat) returns (i: nat)
    requires i0 < |rule|
    requires !IsCase(rule[i0]) && !IsShape(rule[i0]) && !IsLetter(rule[i0]) && !IsAt(rule[i0]) && !IsRange(rule[i0])
    requires !IsTweak(rule[i0]) && !IsSwap(rule[i0]) && !IsMemory(rule[i0])
    ensures i == i0 + Width(rule, i0) && OpAt(rule, i0) == Nothing
  {
    i := i0;
    var op := rule[i];
    if op == '<' || op == '>' || op == '_' || op == '!' || op == '/' || op == '=' || op == '(' || op == ')' || op == '%' {
      if op == '/' || op == '=' || op == '(' || op == ')' || op == '%' {
        i := i + 1;
      }
      i := i + 1;
    }
    i := i + 1;
  }

  /** RuleEngine::apply agrees with parsing the rule and evaluating the operations. */
  method Apply(word: Word, rule: Word) returns (result: Word)
    ensures result == Applied(word, rule)
  {
    hide Eval, OpAt, Width;
    result := word;
    var memory: Word := [];
    var i := 0;
    while i < |rule|
      invariant Run(ParseFrom(rule, i), Memo(result, memory)) == Run(Parse(rule), Memo(word, []))
      decreases |rule| - i
    {
      ghost var s, i0 := Memo(result, memory), i;
      var op := rule[i];
      if IsCase(op) { i, result := CaseStep(rule, i, result, memory); }
      else if IsShape(op) { i, result := ShapeStep(rule, i, result, memory); }
      else if IsLetter(op) { i, result := LetterStep(rule, i, result, memory); }
      else if IsAt(op) { i, result := AtStep(rule, i, result, memory); }
      else if IsRange(op) { i, result := RangeStep(rule, i, result, memory); }
      else if IsTweak(op) { i, result := TweakStep(rule, i, result, memory); }
      else if IsSwap(op) { i, result := SwapStep(rule, i, result, memory); }
      else if IsMemory(op) { i, result, memory := MemoryStep(rule, i, result, memory); }
      else { i := SkipStep(rule, i); EvalNothing(s); }
      OneMore(rule, i0, s);
    }
  }

  lemma EvalNothing(s: Memo)
    ensures Eval(Nothing, s) == s
  {}

  lemma OneMore(rule: Word, i: nat, s: Memo)
    requires i < |rule|
    ensures Run(ParseFrom(rule, i), s) == Run(ParseFrom(rule, i + Width(rule, i)), Eval(OpAt(rule, i), s))
    ensures Width(rule, i) > 0
  {
    hide Eval, OpAt;
    assert ParseFrom(rule, i)[1..] == ParseFrom(rule, i + Width(rule, i));
  }
}
