/**
 * The operands of lib.rs's tokenizer (lib.rs:19-22, 33-36) keep the order they have in the
 * text. Every atom token is one character of the text, and the atoms come out in the order
 * of those characters, whatever the text. When every operator is complete and followed by a
 * space or the end, the atoms are exactly the text's operand characters.
 */
module OperandOrder {
  import opened Operators
  import opened OperatorStack
  import opened Tokens
  import opened Tokenizer

  /** The names of the atom tokens, in order, run together. */
  function AtomText(ts: seq<Token>): string
  {
    if ts == [] then []
    else AtomText(ts[..|ts| - 1]) + (if ts[|ts| - 1].Atom? then ts[|ts| - 1].name else [])
  }

  lemma {:induction false} AtomTextAppend(a: seq<Token>, b: seq<Token>)
    ensures AtomText(a + b) == AtomText(a) + AtomText(b)
    decreases |b|
  {
    if b == [] {
      assert a + b == a;
    } else {
      assert (a + b)[..|a + b| - 1] == a + b[..|b| - 1];
      AtomTextAppend(a, b[..|b| - 1]);
    }
  }

  lemma AtomTextOne(t: Token)
    ensures AtomText([t]) == if t.Atom? then t.name else []
  {
    assert [t][..0] == [];
  }

  /** Operator tokens hold no atom. */
  lemma {:induction false} AtomTextOfOperators(ops: seq<Operator>)
    ensures AtomText(OpTokens(ops)) == []
    decreases |ops|
  {
    if ops != [] {
      assert OpTokens(ops)[..|ops| - 1] == OpTokens(ops[..|ops| - 1]);
      AtomTextOfOperators(ops[..|ops| - 1]);
    }
  }

  /** Every atom token holds a single character. */
  predicate OneCharAtoms(ts: seq<Token>)
  {
    forall k :: 0 <= k < |ts| && ts[k].Atom? ==> |ts[k].name| == 1
  }

  lemma {:induction false} ScanOneCharAtoms(s: string, st: State)
    requires st.pos <= |s| && OneCharAtoms(st.output)
    ensures OneCharAtoms(Scan(s, st).output)
    decreases |s| - st.pos
  {
    if st.pos < |s| {
      ScanOneCharAtoms(s, Step(s, st));
    }
  }

  /** The characters of `s` from `i` on that the mask `m` keeps, in order. */
  function Selected(s: string, m: seq<bool>, i: nat): string
    requires |m| == |s|
    decreases |s| - i
  {
    if i >= |s| then [] else (if m[i] then [s[i]] else []) + Selected(s, m, i + 1)
  }

  lemma {:induction false} SelectedAgree(s: string, m: seq<bool>, m': seq<bool>, i: nat)
    requires |m| == |s| && |m'| == |s|
    requires forall k :: i <= k < |s| ==> m[k] == m'[k]
    ensures Selected(s, m, i) == Selected(s, m', i)
    decreases |s| - i
  {
    if i < |s| {
      assert m[i] == m'[i];
      SelectedAgree(s, m, m', i + 1);
    }
  }

  lemma {:induction false} SelectedSkip(s: string, m: seq<bool>, i: nat, j: nat)
    requires |m| == |s| && i <= j <= |s|
    requires forall k :: i <= k < j ==> !m[k]
    ensures Selected(s, m, i) == Selected(s, m, j)
    decreases j - i
  {
    if i < j {
      SelectedSkip(s, m, i + 1, j);
    }
  }

  /** Whether a turn of the loop at `i` outputs the character there as an atom. */
  predicate TakesAtom(s: string, i: nat)
    requires i < |s|
  {
    s[i] != ' ' && s[i] != '(' && s[i] != ')' && Lexeme(s, i).0.None?
  }

  /** A turn outputs at most its own character as an atom. */
  lemma StepAtoms(s: string, st: State)
    requires st.pos < |s|
    ensures AtomText(Step(s, st).output)
      == AtomText(st.output) + if TakesAtom(s, st.pos) then [s[st.pos]] else []
  {
    var c := s[st.pos];
    if c == ')' {
      var closed := Close(st.stack);
      AtomTextAppend(st.output, OpTokens(closed.0));
      AtomTextOfOperators(closed.0);
    } else if c != ' ' && c != '(' {
      var lexed := Lexeme(s, st.pos);
      if lexed.0.None? {
        AtomTextAppend(st.output, [Atom([c])]);
        AtomTextOne(Atom([c]));
      } else {
        var popped := PopFor(st.stack, lexed.0.value);
        AtomTextAppend(st.output, OpTokens(popped.0));
        AtomTextOfOperators(popped.0);
      }
    }
  }

  /**
   * A mask for the text from `i` on: keep the character at `i` or not, drop the ones before
   * `j`, and from `j` on keep what `rest` keeps.
   */
  lemma Extend(s: string, rest: seq<bool>, i: nat, j: nat, took: bool) returns (m: seq<bool>)
    requires |rest| == |s| && i < j <= |s|
    ensures |m| == |s|
    ensures Selected(s, m, i) == (if took then [s[i]] else []) + Selected(s, rest, j)
  {
    m := seq(|s|, k requires 0 <= k < |s| => if k == i then took else if k < j then false else rest[k]);
    SelectedSkip(s, m, i + 1, j);
    SelectedAgree(s, m, rest, j);
  }

  /** From `st` on, the loop outputs as atoms characters of the text, in the text's order. */
  lemma {:induction false} ScanSelects(s: string, st: State) returns (m: seq<bool>)
    requires st.pos <= |s|
    ensures |m| == |s|
    ensures AtomText(Scan(s, st).output) == AtomText(st.output) + Selected(s, m, st.pos)
    decreases |s| - st.pos
  {
    var i := st.pos;
    if i == |s| {
      m := seq(|s|, k => false);
      assert AtomText(st.output) + [] == AtomText(st.output);
    } else {
      var next := Step(s, st);
      StepAtoms(s, st);
      var rest := ScanSelects(s, next);
      var took := TakesAtom(s, i);
      m := Extend(s, rest, i, next.pos, took);
      Associative(AtomText(st.output), if took then [s[i]] else [], Selected(s, rest, next.pos));
    }
  }

  lemma Associative<T>(a: seq<T>, b: seq<T>, c: seq<T>)
    ensures (a + b) + c == a + (b + c)
  {
  }

  /**
   * For every text, each atom of `Tokenize` is one character, and the atoms spell a selection
   * of the text's characters kept in their order.
   */
  lemma TokenizeKeepsOrder(s: string)
    ensures OneCharAtoms(Tokenize(s))
    ensures exists m :: |m| == |s| && AtomText(Tokenize(s)) == Selected(s, m, 0)
  {
    var start := State(0, [], []);
    var m := ScanSelects(s, start);
    ScanOneCharAtoms(s, start);
    var fin := Scan(s, start);
    AtomTextAppend(fin.output, OpTokens(Reverse(fin.stack)));
    AtomTextOfOperators(Reverse(fin.stack));
    assert AtomText(Tokenize(s)) == Selected(s, m, 0);
  }

  /** A character of the text that is an operand: plain, and not the `>` of an arrow. */
  predicate OperandAt(s: string, k: nat)
    requires k < |s|
  {
    Plain(s[k]) && !(s[k] == '>' && 0 < k && s[k - 1] == '-')
  }

  /** The operand characters of `s` from `i` on, in order. */
  function OperandsFrom(s: string, i: nat): string
    decreases |s| - i
  {
    if i >= |s| then [] else (if OperandAt(s, i) then [s[i]] else []) + OperandsFrom(s, i + 1)
  }

  lemma {:induction false} OperandsSkip(s: string, i: nat, j: nat)
    requires i <= j <= |s|
    requires forall k :: i <= k < j ==> !OperandAt(s, k)
    ensures OperandsFrom(s, i) == OperandsFrom(s, j)
    decreases j - i
  {
    if i < j {
      OperandsSkip(s, i + 1, j);
    }
  }

  /**
   * Every operator of the text is complete and followed by a space or the end: wherever the
   * operator table consumes characters, it found an operator, and the next character is a space.
   */
  predicate Spaced(s: string)
  {
    forall i :: 0 <= i < |s| && i < Lexeme(s, i).1 ==>
      Lexeme(s, i).0.Some? && (Lexeme(s, i).1 == |s| || s[Lexeme(s, i).1] == ' ')
  }

  /** What an operator consumes holds no operand: its signs, and the `>` of an arrow. */
  lemma ConsumedHoldsNoOperand(s: string, i: nat)
    requires i < |s| && i < Lexeme(s, i).1 && Lexeme(s, i).0.Some?
    ensures forall k :: i <= k < Lexeme(s, i).1 ==> !OperandAt(s, k)
  {
    var c := s[i];
    if c == '-' {
      assert Lexeme(s, i).1 == i + 2 && s[i + 1] == '>';
    } else if c == '<' {
      assert Lexeme(s, i).1 == i + 3 && s[i + 1] == '-' && s[i + 2] == '>';
    } else {
      assert c == '&' || c == '|';
      assert forall k :: i <= k < Lexeme(s, i).1 ==> s[k] == c;
    }
  }

  /** A turn that consumes no more than its own character moves on by one. */
  lemma StepOnOneCharacter(s: string, st: State)
    requires st.pos < |s|
    requires var c := s[st.pos]; c == ' ' || c == '(' || c == ')' || Lexeme(s, st.pos).1 == st.pos
    ensures Step(s, st).pos == st.pos + 1
  {
  }

  /** Past a character that the operator table does not consume, the operands go on from the next one. */
  lemma OneCharacterOperands(s: string, i: nat)
    requires i < |s| && (0 < i ==> s[i - 1] != '-')
    requires s[i] == ' ' || s[i] == '(' || s[i] == ')' || Lexeme(s, i).1 == i
    ensures s[i] != '-'
    ensures (if TakesAtom(s, i) then [s[i]] else []) + OperandsFrom(s, i + 1) == OperandsFrom(s, i)
  {
    assert TakesAtom(s, i) <==> OperandAt(s, i);
  }

  /** A turn on an operator outputs no atom and moves past the operator and one character. */
  lemma StepOverOperator(s: string, st: State)
    requires st.pos < |s|
    requires var c := s[st.pos]; c != ' ' && c != '(' && c != ')' && Lexeme(s, st.pos).0.Some?
    ensures !TakesAtom(s, st.pos)
    ensures Step(s, st).pos == Next(s, Lexeme(s, st.pos).1)
  {
  }

  /** What spacing says about one operator. */
  lemma SpacedAt(s: string, i: nat)
    requires Spaced(s) && i < |s| && i < Lexeme(s, i).1
    ensures Lexeme(s, i).0.Some? && (Lexeme(s, i).1 == |s| || s[Lexeme(s, i).1] == ' ')
  {
  }

  /** Past an operator followed by a space or the end, the operands go on after the space. */
  lemma OperatorOperands(s: string, i: nat, j: nat)
    requires i < |s| && j == Lexeme(s, i).1 && i < j && Lexeme(s, i).0.Some?
    requires j == |s| || s[j] == ' '
    ensures 0 < Next(s, j) < |s| ==> s[Next(s, j) - 1] == ' '
    ensures OperandsFrom(s, i) == OperandsFrom(s, Next(s, j))
  {
    ConsumedHoldsNoOperand(s, i);
    OperandsSkip(s, i, Next(s, j));
  }

  /**
   * A turn from `i` to `k` outputs as atoms exactly the operands between them, and `k` does
   * not follow a `-`.
   */
  predicate TurnKeepsOperands(s: string, i: nat, k: nat)
    requires i < |s| && k <= |s|
  {
    && (0 < k < |s| ==> s[k - 1] != '-')
    && (if TakesAtom(s, i) then [s[i]] else []) + OperandsFrom(s, k) == OperandsFrom(s, i)
  }

  lemma TurnOnOneCharacter(s: string, st: State)
    requires st.pos < |s| && (0 < st.pos ==> s[st.pos - 1] != '-')
    requires var c := s[st.pos]; c == ' ' || c == '(' || c == ')' || Lexeme(s, st.pos).1 == st.pos
    ensures TurnKeepsOperands(s, st.pos, Step(s, st).pos)
  {
    OneCharacterOperands(s, st.pos);
    StepOnOneCharacter(s, st);
  }

  lemma TurnOnOperator(s: string, st: State)
    requires st.pos < |s| && s[st.pos] != ' ' && s[st.pos] != '(' && s[st.pos] != ')'
    requires st.pos < Lexeme(s, st.pos).1 && Lexeme(s, st.pos).0.Some?
    requires Lexeme(s, st.pos).1 == |s| || s[Lexeme(s, st.pos).1] == ' '
    ensures TurnKeepsOperands(s, st.pos, Step(s, st).pos)
  {
    OperatorOperands(s, st.pos, Lexeme(s, st.pos).1);
    StepOverOperator(s, st);
  }

  /** On spaced text a turn outputs exactly the operands it passes over. */
  lemma StepOperands(s: string, st: State)
    requires st.pos < |s| && Spaced(s)
    requires 0 < st.pos ==> s[st.pos - 1] != '-'
    ensures TurnKeepsOperands(s, st.pos, Step(s, st).pos)
  {
    var i := st.pos;
    if s[i] == ' ' || s[i] == '(' || s[i] == ')' || Lexeme(s, i).1 == i {
      TurnOnOneCharacter(s, st);
    } else {
      SpacedAt(s, i);
      TurnOnOperator(s, st);
    }
  }

  lemma {:induction false} ScanOperands(s: string, st: State)
    requires st.pos <= |s| && Spaced(s)
    requires 0 < st.pos < |s| ==> s[st.pos - 1] != '-'
    ensures AtomText(Scan(s, st).output) == AtomText(st.output) + OperandsFrom(s, st.pos)
    decreases |s| - st.pos
  {
    if st.pos == |s| {
      assert AtomText(st.output) + [] == AtomText(st.output);
    } else {
      var next := Step(s, st);
      var took := if TakesAtom(s, st.pos) then [s[st.pos]] else [];
      StepOperands(s, st);
      StepAtoms(s, st);
      ScanOperands(s, next);
      Associative(AtomText(st.output), took, OperandsFrom(s, next.pos));
    }
  }

  /**
   * When every operator is complete and followed by a space or the end, the atoms of
   * `Tokenize` are exactly the text's operand characters: all characters but spaces,
   * parentheses and operators, in their order.
   */
  lemma SpacedOperands(s: string)
    requires Spaced(s)
    ensures AtomText(Tokenize(s)) == OperandsFrom(s, 0)
  {
    var start := State(0, [], []);
    ScanOperands(s, start);
    var fin := Scan(s, start);
    AtomTextAppend(fin.output, OpTokens(Reverse(fin.stack)));
    AtomTextOfOperators(Reverse(fin.stack));
  }

  /** A formula written with spaces around its operators keeps all its operands, in order. */
  lemma SpacedFormula(s: string)
    requires s == "a & ~b -> c"
    ensures AtomText(Tokenize(s)) == "abc"
  {
    SpacedFormulaIsSpaced(s);
    SpacedOperands(s);
    OperandsSkip(s, 1, 5);
    OperandsSkip(s, 6, 10);
  }

  lemma SpacedFormulaIsSpaced(s: string)
    requires s == "a & ~b -> c"
    ensures Spaced(s)
  {
    forall i | 0 <= i < |s| && i < Lexeme(s, i).1
      ensures Lexeme(s, i).0.Some? && (Lexeme(s, i).1 == |s| || s[Lexeme(s, i).1] == ' ')
    {
      assert i == 2 || i == 7;
    }
  }
}
