/**
 * The operands of lexer.rs's tokenizer (lexer.rs:17-20, 30-62) keep the order they have in
 * the text. Each atom or literal it outputs is read from one place of the text: the letter run
 * that starts there, or the single character there. The places follow each other left to
 * right, and each token ends before the next place. When every operator is complete and
 * followed by a space or the end, the operand tokens are exactly the text's words and
 * operand characters.
 */
module LexerOrder {
  import opened Operators
  import opened OperatorStack
  import opened Tokens
  import opened Lexer
  import Tokenizer
  import OperandOrder

  /** The atoms and literals of a token sequence, in order. */
  function OperandTokens(ts: seq<Token>): seq<Token>
  {
    if ts == [] then []
    else OperandTokens(ts[..|ts| - 1]) + (if ts[|ts| - 1].Op? then [] else [ts[|ts| - 1]])
  }

  lemma {:induction false} OperandTokensAppend(a: seq<Token>, b: seq<Token>)
    ensures OperandTokens(a + b) == OperandTokens(a) + OperandTokens(b)
    decreases |b|
  {
    if b == [] {
      assert a + b == a;
    } else {
      assert (a + b)[..|a + b| - 1] == a + b[..|b| - 1];
      OperandTokensAppend(a, b[..|b| - 1]);
    }
  }

  lemma OperandTokensOne(t: Token)
    ensures OperandTokens([t]) == if t.Op? then [] else [t]
  {
    assert [t][..0] == [];
  }

  /** Operator tokens hold no operand. */
  lemma {:induction false} OperandTokensOfOperators(ops: seq<Operator>)
    ensures OperandTokens(OpTokens(ops)) == []
    decreases |ops|
  {
    if ops != [] {
      assert OpTokens(ops)[..|ops| - 1] == OpTokens(ops[..|ops| - 1]);
      OperandTokensOfOperators(ops[..|ops| - 1]);
    }
  }

  /**
   * Where the operand read at `k` ends: after the letter run that starts there, or after the
   * character there.
   */
  function TokenEnd(s: string, k: nat): (e: nat)
    requires k < |s|
    ensures k < e <= |s|
  {
    if IsAlphabetic(s[k]) then RunEnd(s, k) else k + 1
  }

  /**
   * The operand read at `k`: the letter run from there, a literal when it starts with t, T, f
   * or F and an atom otherwise, or else the character alone as an atom.
   */
  function TokenAt(s: string, k: nat): Token
    requires k < |s|
  {
    if IsAlphabetic(s[k]) then
      var run := s[k..RunEnd(s, k)];
      if StartsLiteral(s[k]) then Value(Truth(run)) else Atom(run)
    else Atom([s[k]])
  }

  /**
   * The operands read from the places of `s` from `i` on that the mask `m` marks, in order; the
   * places inside an operand read this way are passed over.
   */
  function Picked(s: string, m: seq<bool>, i: nat): seq<Token>
    requires |m| == |s|
    decreases |s| - i
  {
    if i >= |s| then []
    else if m[i] then [TokenAt(s, i)] + Picked(s, m, TokenEnd(s, i))
    else Picked(s, m, i + 1)
  }

  lemma {:induction false} PickedAgree(s: string, m: seq<bool>, m': seq<bool>, i: nat)
    requires |m| == |s| && |m'| == |s|
    requires forall k :: i <= k < |s| ==> m[k] == m'[k]
    ensures Picked(s, m, i) == Picked(s, m', i)
    decreases |s| - i
  {
    if i < |s| {
      assert m[i] == m'[i];
      if m[i] {
        PickedAgree(s, m, m', TokenEnd(s, i));
      } else {
        PickedAgree(s, m, m', i + 1);
      }
    }
  }

  lemma {:induction false} PickedSkip(s: string, m: seq<bool>, i: nat, j: nat)
    requires |m| == |s| && i <= j <= |s|
    requires forall k :: i <= k < j ==> !m[k]
    ensures Picked(s, m, i) == Picked(s, m, j)
    decreases j - i
  {
    if i < j {
      PickedSkip(s, m, i + 1, j);
    }
  }

  /** Whether a turn of the loop at `i` outputs an operand read there. */
  predicate TakesOperand(s: string, i: nat)
    requires i < |s|
  {
    s[i] != ' ' && s[i] != '(' && s[i] != ')' && (IsAlphabetic(s[i]) || Lexeme(s, i).0.None?)
  }

  /** A turn outputs at most the operand read at the cursor, and moves past it. */
  lemma StepOperandTokens(s: string, st: Tokenizer.State)
    requires st.pos < |s|
    ensures OperandTokens(Step(s, st).output)
      == OperandTokens(st.output) + if TakesOperand(s, st.pos) then [TokenAt(s, st.pos)] else []
    ensures TakesOperand(s, st.pos) ==> TokenEnd(s, st.pos) <= Step(s, st).pos
  {
    var c := s[st.pos];
    if c == ')' {
      var closed := Close(st.stack);
      OperandTokensAppend(st.output, OpTokens(closed.0));
      OperandTokensOfOperators(closed.0);
    } else if IsAlphabetic(c) {
      var t := TokenAt(s, st.pos);
      assert Step(s, st).output == st.output + [t];
      OperandTokensAppend(st.output, [t]);
      OperandTokensOne(t);
    } else if c != ' ' && c != '(' {
      var lexed := Lexeme(s, st.pos);
      if lexed.0.None? {
        OperandTokensAppend(st.output, [Atom([c])]);
        OperandTokensOne(Atom([c]));
      } else {
        var popped := PopFor(st.stack, lexed.0.value);
        OperandTokensAppend(st.output, OpTokens(popped.0));
        OperandTokensOfOperators(popped.0);
      }
    }
  }

  /**
   * A mask for the text from `i` on: mark `i` or not, mark nothing else before `j`, and from `j`
   * on mark what `rest` marks.
   */
  lemma Extend(s: string, rest: seq<bool>, i: nat, j: nat, took: bool) returns (m: seq<bool>)
    requires |rest| == |s| && i < j <= |s| && (took ==> TokenEnd(s, i) <= j)
    ensures |m| == |s|
    ensures Picked(s, m, i) == (if took then [TokenAt(s, i)] else []) + Picked(s, rest, j)
  {
    m := seq(|s|, k requires 0 <= k < |s| => if k == i then took else if k < j then false else rest[k]);
    if took {
      PickedSkip(s, m, TokenEnd(s, i), j);
    } else {
      PickedSkip(s, m, i + 1, j);
    }
    PickedAgree(s, m, rest, j);
  }

  /** From `st` on, the loop outputs operands read at places of the text, left to right. */
  lemma {:induction false} ScanPicks(s: string, st: Tokenizer.State) returns (m: seq<bool>)
    requires st.pos <= |s|
    ensures |m| == |s|
    ensures OperandTokens(Scan(s, st).output) == OperandTokens(st.output) + Picked(s, m, st.pos)
    decreases |s| - st.pos
  {
    var i := st.pos;
    if i == |s| {
      m := seq(|s|, k => false);
      assert OperandTokens(st.output) + [] == OperandTokens(st.output);
    } else {
      var next := Step(s, st);
      StepOperandTokens(s, st);
      var rest := ScanPicks(s, next);
      var took := TakesOperand(s, i);
      m := Extend(s, rest, i, next.pos, took);
      OperandOrder.Associative(OperandTokens(st.output), if took then [TokenAt(s, i)] else [], Picked(s, rest, next.pos));
    }
  }

  /**
   * For every text, the atoms and literals of `Lex` are operands read at places of the text,
   * in the text's order, none overlapping the next.
   */
  lemma LexKeepsOrder(s: string)
    ensures exists m :: |m| == |s| && OperandTokens(Lex(s)) == Picked(s, m, 0)
  {
    var start := Tokenizer.State(0, [], []);
    var m := ScanPicks(s, start);
    var fin := Scan(s, start);
    OperandTokensAppend(fin.output, OpTokens(Reverse(fin.stack)));
    OperandTokensOfOperators(Reverse(fin.stack));
    assert OperandTokens(Lex(s)) == Picked(s, m, 0);
  }

  /**
   * The operands of `s` from `i` on as lexer.rs means them: each letter run as one token, and
   * each other operand character (not a space, parenthesis or operator sign, nor the `>` of an
   * arrow) as an atom of its own.
   */
  function WordsFrom(s: string, i: nat): seq<Token>
    decreases |s| - i
  {
    if i >= |s| then []
    else if IsAlphabetic(s[i]) then [TokenAt(s, i)] + WordsFrom(s, TokenEnd(s, i))
    else (if OperandOrder.OperandAt(s, i) then [Atom([s[i]])] else []) + WordsFrom(s, i + 1)
  }

  lemma {:induction false} WordsSkip(s: string, i: nat, j: nat)
    requires i <= j <= |s|
    requires forall k :: i <= k < j ==> !IsAlphabetic(s[k]) && !OperandOrder.OperandAt(s, k)
    ensures WordsFrom(s, i) == WordsFrom(s, j)
    decreases j - i
  {
    if i < j {
      WordsSkip(s, i + 1, j);
    }
  }

  /** What an operator consumes holds no letter: its signs, and the `>` of an arrow. */
  lemma ConsumedHoldsNoLetter(s: string, i: nat)
    requires i < |s| && i < Lexeme(s, i).1 && Lexeme(s, i).0.Some?
    ensures forall k :: i <= k < Lexeme(s, i).1 ==> !IsAlphabetic(s[k])
  {
    var c := s[i];
    if c == '-' {
      assert Lexeme(s, i).1 == i + 2 && s[i + 1] == '>';
    } else if c == '<' {
      assert Lexeme(s, i).1 == i + 3 && s[i + 1] == '-' && s[i + 2] == '>';
    } else {
      assert c == '&' || c == '|';
      assert forall k :: i <= k < Lexeme(s, i).1 ==> s[k] == c;
    }
  }

  /**
   * A turn from `i` to `k` outputs exactly the operands between them, and `k` does not follow
   * a `-`.
   */
  predicate TurnKeepsWords(s: string, i: nat, k: nat)
    requires i < |s| && k <= |s|
  {
    && (0 < k < |s| ==> s[k - 1] != '-')
    && (if TakesOperand(s, i) then [TokenAt(s, i)] else []) + WordsFrom(s, k) == WordsFrom(s, i)
  }

  lemma TurnOnLetters(s: string, st: Tokenizer.State)
    requires st.pos < |s| && IsAlphabetic(s[st.pos])
    ensures TurnKeepsWords(s, st.pos, Step(s, st).pos)
  {
    StepOnLetters(s, st);
  }

  lemma TurnOnOneCharacter(s: string, st: Tokenizer.State)
    requires st.pos < |s| && !IsAlphabetic(s[st.pos]) && (0 < st.pos ==> s[st.pos - 1] != '-')
    requires var c := s[st.pos]; c == ' ' || c == '(' || c == ')' || Lexeme(s, st.pos).1 == st.pos
    ensures TurnKeepsWords(s, st.pos, Step(s, st).pos)
  {
    var i := st.pos;
    assert s[i] != '-';
    assert TakesOperand(s, i) <==> OperandOrder.OperandAt(s, i);
    assert Step(s, st).pos == i + 1;
  }

  lemma TurnOnOperator(s: string, st: Tokenizer.State)
    requires st.pos < |s| && !IsAlphabetic(s[st.pos])
    requires s[st.pos] != ' ' && s[st.pos] != '(' && s[st.pos] != ')'
    requires st.pos < Lexeme(s, st.pos).1 && Lexeme(s, st.pos).0.Some?
    requires Lexeme(s, st.pos).1 == |s| || s[Lexeme(s, st.pos).1] == ' '
    ensures TurnKeepsWords(s, st.pos, Step(s, st).pos)
  {
    var i, j := st.pos, Lexeme(s, st.pos).1;
    assert !TakesOperand(s, i);
    assert Step(s, st).pos == Next(s, j);
    OperandOrder.ConsumedHoldsNoOperand(s, i);
    ConsumedHoldsNoLetter(s, i);
    WordsSkip(s, i, Next(s, j));
  }

  /** On spaced text a turn outputs exactly the operands it passes over. */
  lemma StepWords(s: string, st: Tokenizer.State)
    requires st.pos < |s| && OperandOrder.Spaced(s)
    requires 0 < st.pos ==> s[st.pos - 1] != '-'
    ensures TurnKeepsWords(s, st.pos, Step(s, st).pos)
  {
    var i := st.pos;
    if IsAlphabetic(s[i]) {
      TurnOnLetters(s, st);
    } else if s[i] == ' ' || s[i] == '(' || s[i] == ')' || Lexeme(s, i).1 == i {
      TurnOnOneCharacter(s, st);
    } else {
      OperandOrder.SpacedAt(s, i);
      TurnOnOperator(s, st);
    }
  }

  lemma {:induction false} ScanWords(s: string, st: Tokenizer.State)
    requires st.pos <= |s| && OperandOrder.Spaced(s)
    requires 0 < st.pos < |s| ==> s[st.pos - 1] != '-'
    ensures OperandTokens(Scan(s, st).output) == OperandTokens(st.output) + WordsFrom(s, st.pos)
    decreases |s| - st.pos
  {
    if st.pos == |s| {
      assert OperandTokens(st.output) + [] == OperandTokens(st.output);
    } else {
      var next := Step(s, st);
      var took := if TakesOperand(s, st.pos) then [TokenAt(s, st.pos)] else [];
      StepWords(s, st);
      StepOperandTokens(s, st);
      ScanWords(s, next);
      OperandOrder.Associative(OperandTokens(st.output), took, WordsFrom(s, next.pos));
    }
  }

  /**
   * When every operator is complete and followed by a space or the end, the atoms and
   * literals of `Lex` are exactly the text's words and other operand characters, in order.
   */
  lemma SpacedWords(s: string)
    requires OperandOrder.Spaced(s)
    ensures OperandTokens(Lex(s)) == WordsFrom(s, 0)
  {
    var start := Tokenizer.State(0, [], []);
    ScanWords(s, start);
    var fin := Scan(s, start);
    OperandTokensAppend(fin.output, OpTokens(Reverse(fin.stack)));
    OperandTokensOfOperators(Reverse(fin.stack));
  }

  /**
   * A formula written with spaces around its operators keeps its words whole and in order:
   * `ab` is one atom, and `t` is the literal true.
   */
  lemma SpacedFormula(s: string)
    requires s == "ab & ~c -> t"
    ensures OperandTokens(Lex(s)) == [Atom("ab"), Atom("c"), Value(true)]
  {
    SpacedFormulaIsSpaced(s);
    SpacedWords(s);
    SpacedFormulaWords(s);
  }

  lemma SpacedFormulaIsSpaced(s: string)
    requires s == "ab & ~c -> t"
    ensures OperandOrder.Spaced(s)
  {
    forall i | 0 <= i < |s| && i < Lexeme(s, i).1
      ensures Lexeme(s, i).0.Some? && (Lexeme(s, i).1 == |s| || s[Lexeme(s, i).1] == ' ')
    {
      assert i == 3 || i == 8;
    }
  }

  lemma SpacedFormulaWords(s: string)
    requires s == "ab & ~c -> t"
    ensures WordsFrom(s, 0) == [Atom("ab"), Atom("c"), Value(true)]
  {
    SpacedFormulaFirstWord(s);
    WordsSkip(s, 2, 6);
    SpacedFormulaLastWords(s);
  }

  lemma SpacedFormulaFirstWord(s: string)
    requires s == "ab & ~c -> t"
    ensures WordsFrom(s, 0) == [Atom("ab")] + WordsFrom(s, 2)
  {
    assert RunEnd(s, 2) == 2;
    assert RunEnd(s, 0) == 2;
    assert s[0..2] == "ab";
  }

  lemma SpacedFormulaLastWords(s: string)
    requires s == "ab & ~c -> t"
    ensures WordsFrom(s, 6) == [Atom("c"), Value(true)]
  {
    assert RunEnd(s, 7) == 7;
    assert RunEnd(s, 6) == 7 && s[6..7] == "c";
    WordsSkip(s, 7, 11);
    assert RunEnd(s, 11) == 12 && s[11..12] == "t";
    assert Lower("t") == "t";
    assert WordsFrom(s, 11) == [Value(true)];
  }
}
