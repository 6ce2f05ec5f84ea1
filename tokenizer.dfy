/**
 * The shunting-yard tokenizer of lib.rs: infix text to postfix tokens, every operand a
 * one-character atom. `Step` is one turn of the source's `while let` loop, `Scan` the whole
 * loop, and `Tokenize` adds the drain of the operator stack at the end of the input.
 */
module Tokenizer {
  import opened Options
  import opened Operators
  import opened OperatorStack
  import opened Tokens

  /** The loop's variables: the input cursor, the output so far and the operator stack. */
  datatype State = State(pos: nat, output: seq<Token>, stack: seq<Operator>)

  /** One turn of the main loop, at a character that is there. */
  function Step(s: string, st: State): (r: State)
    requires st.pos < |s|
    ensures st.pos < r.pos <= |s|
  {
    var c := s[st.pos];
    if c == ' ' then
      st.(pos := st.pos + 1)
    else if c == '(' then
      State(st.pos + 1, st.output, st.stack + [Parenthesis])
    else if c == ')' then
      var closed := Close(st.stack);
      State(st.pos + 1, st.output + OpTokens(closed.0), closed.1)
    else
      var lexed := Lexeme(s, st.pos);
      if lexed.0.None? then
        State(Next(s, lexed.1), st.output + [Atom([c])], st.stack)
      else
        var o := lexed.0.value;
        var popped := PopFor(st.stack, o);
        State(Next(s, lexed.1), st.output + OpTokens(popped.0), popped.1 + [o])
  }

  /** The main loop, from `st` to the end of the input. */
  function Scan(s: string, st: State): (r: State)
    requires st.pos <= |s|
    ensures r.pos == |s|
    decreases |s| - st.pos
  {
    if st.pos == |s| then st else Scan(s, Step(s, st))
  }

  /** The whole conversion: the loop, then what is left on the stack, top first. */
  function Tokenize(s: string): seq<Token>
  {
    var fin := Scan(s, State(0, [], []));
    fin.output + OpTokens(Reverse(fin.stack))
  }

  /** `shunting_yard` (lib.rs:12-57). */
  method ShuntingYard(input: string) returns (output: seq<Token>)
    ensures output == Tokenize(input)
  {
    output := [];
    var stack: seq<Operator> := [];
    var i: nat := 0;
    while i < |input|
      invariant i <= |input|
      invariant Scan(input, State(i, output, stack)) == Scan(input, State(0, [], []))
      decreases |input| - i
    {
      ghost var before := State(i, output, stack);
      var c := input[i];
      if c == ' ' {
        i := i + 1;
        continue;
      }
      if c == '(' {
        stack := stack + [Parenthesis];
      } else if c == ')' {
        var popped;
        popped, stack := PopToParenthesis(stack);
        output := output + OpTokens(popped);
      } else {
        var o, j := FromPeekable(input, i);
        if o.None? {
          output := output + [Atom([c])];
          i := Next(input, j);
          assert State(i, output, stack) == Step(input, before);
          continue;
        }
        var popped;
        popped, stack := PopHigher(stack, o.value);
        output := output + OpTokens(popped);
        stack := stack + [o.value];
        i := j;
      }
      i := Next(input, i);
      assert State(i, output, stack) == Step(input, before);
    }
    output := output + OpTokens(Reverse(stack));
  }

  /** Nothing but a drain can put a Parenthesis marker into the output. */
  lemma {:induction false} ScanNoMarker(s: string, st: State)
    requires st.pos <= |s| && NoMarker(st.output)
    ensures NoMarker(Scan(s, st).output)
    decreases |s| - st.pos
  {
    if st.pos < |s| {
      var c := s[st.pos];
      if c == ')' {
        CloseSpec(st.stack);
      } else if c != ' ' && c != '(' {
        var lexed := Lexeme(s, st.pos);
        if lexed.0.Some? {
          PopForNoMarker(st.stack, lexed.0.value);
        }
      }
      ScanNoMarker(s, Step(s, st));
    }
  }

  /**
   * The output holds a Parenthesis marker exactly when a `(` is left unclosed on the stack at
   * the end of the input; an unmatched `)` leaves no trace.
   */
  lemma TokenizeMarkerIffUnclosed(s: string)
    ensures NoMarker(Tokenize(s)) <==> Parenthesis !in Scan(s, State(0, [], [])).stack
  {
    var fin := Scan(s, State(0, [], []));
    ScanNoMarker(s, State(0, [], []));
    var drained := OpTokens(Reverse(fin.stack));
    if Parenthesis in fin.stack {
      var k :| 0 <= k < |fin.stack| && fin.stack[k] == Parenthesis;
      assert Tokenize(s)[|fin.output| + (|fin.stack| - 1 - k)] == Op(Parenthesis);
    } else {
      forall k | 0 <= k < |drained|
        ensures drained[k] != Op(Parenthesis)
      {
        assert drained[k] == Op(fin.stack[|fin.stack| - 1 - k]);
      }
    }
  }

  /** Without a `(` in the input, no marker ever reaches the stack. */
  lemma {:induction false} ScanNoOpen(s: string, st: State)
    requires st.pos <= |s| && '(' !in s && Parenthesis !in st.stack
    ensures Parenthesis !in Scan(s, st).stack
    decreases |s| - st.pos
  {
    if st.pos < |s| {
      var c := s[st.pos];
      if c == ')' {
        CloseSpec(st.stack);
      } else if c != ' ' {
        var lexed := Lexeme(s, st.pos);
        if lexed.0.Some? {
          PopForShape(st.stack, lexed.0.value);
          var rest := PopFor(st.stack, lexed.0.value).1;
          assert forall x :: x in rest ==> x in st.stack;
        }
      }
      ScanNoOpen(s, Step(s, st));
    }
  }

  /** Text without `(` tokenizes without a Parenthesis marker. */
  lemma NoOpenNoMarker(s: string)
    requires '(' !in s
    ensures NoMarker(Tokenize(s))
  {
    ScanNoOpen(s, State(0, [], []));
    TokenizeMarkerIffUnclosed(s);
  }

  /** lib.rs has no `Value` token: the output holds atoms and operators only. */
  lemma {:induction false} ScanNoValues(s: string, st: State)
    requires st.pos <= |s| && NoValues(st.output)
    ensures NoValues(Scan(s, st).output)
    decreases |s| - st.pos
  {
    if st.pos < |s| {
      ScanNoValues(s, Step(s, st));
    }
  }

  lemma TokenizeNoValues(s: string)
    ensures NoValues(Tokenize(s))
  {
    ScanNoValues(s, State(0, [], []));
  }

  /** A character that is neither a space, a parenthesis nor the start of an operator. */
  predicate Plain(c: char)
  {
    c != ' ' && c != '(' && c != ')' && c != '&' && c != '|' && c != '~' && c != '!' && c != '-' && c != '<'
  }

  /** The one-character atoms of a text, in order, with the spaces left out. */
  function Operands(t: string): (r: seq<Token>)
    ensures |r| <= |t|
  {
    if t == [] then [] else (if t[0] == ' ' then [] else [Atom([t[0]])]) + Operands(t[1..])
  }

  /** A space is passed over and a plain character is output as an atom, with nothing skipped. */
  lemma StepPlain(s: string, i: nat, out: seq<Token>)
    requires i < |s| && (s[i] == ' ' || Plain(s[i]))
    ensures Step(s, State(i, out, [])) == State(i + 1, if s[i] == ' ' then out else out + [Atom([s[i]])], [])
  {
    if s[i] != ' ' {
      assert FromChar(s[i]) == None;
      assert Lexeme(s, i) == (None, i);
    }
  }

  lemma {:induction false} ScanPlain(s: string, i: nat, out: seq<Token>)
    requires i <= |s|
    requires forall k :: i <= k < |s| ==> s[k] == ' ' || Plain(s[k])
    ensures Scan(s, State(i, out, [])) == State(|s|, out + Operands(s[i..]), [])
    decreases |s| - i
  {
    if i < |s| {
      var next := if s[i] == ' ' then out else out + [Atom([s[i]])];
      OperandsStep(s, i, out);
      StepPlain(s, i, out);
      ScanPlain(s, i + 1, next);
    } else {
      assert s[i..] == [];
    }
  }

  /** The operands from `i` on are those from `i + 1` on, after the one at `i` if any. */
  lemma OperandsStep(s: string, i: nat, out: seq<Token>)
    requires i < |s|
    ensures var next := if s[i] == ' ' then out else out + [Atom([s[i]])];
      next + Operands(s[i + 1..]) == out + Operands(s[i..])
  {
    var took: seq<Token> := if s[i] == ' ' then [] else [Atom([s[i]])];
    assert s[i..][1..] == s[i + 1..];
    assert Operands(s[i..]) == took + Operands(s[i + 1..]);
    assert (out + took) + Operands(s[i + 1..]) == out + (took + Operands(s[i + 1..]));
  }

  /**
   * Text made only of spaces and characters that are not operators becomes one atom per
   * character, in input order.
   */
  lemma PlainTextIsOperands(s: string)
    requires forall k :: 0 <= k < |s| ==> s[k] == ' ' || Plain(s[k])
    ensures Tokenize(s) == Operands(s)
  {
    ScanPlain(s, 0, []);
    assert s[0..] == s;
    assert Scan(s, State(0, [], [])) == State(|s|, Operands(s), []);
    assert OpTokens(Reverse([])) == [];
  }

  /** The character after a recognised `&` is consumed unseen: `a&b` loses its `b`. */
  lemma SkipAfterAnd(s: string)
    requires s == "a&b"
    ensures Tokenize(s) == [Atom("a"), Op(And)]
  {
    SkipAfterAndScan(s);
    assert OpTokens(Reverse([And])) == [Op(And)];
  }

  /** The cursor, output and stack when the loop of `SkipAfterAnd` ends, before the stack is drained. */
  lemma SkipAfterAndScan(s: string)
    requires s == "a&b"
    ensures Scan(s, State(0, [], [])) == State(3, [Atom("a")], [And])
  {
    assert s[0] == 'a' && s[1] == '&' && s[2] == 'b' && |s| == 3;
    var s1 := State(1, [Atom("a")], []);
    var s2 := State(3, [Atom("a")], [And]);
    assert Lexeme(s, 0) == (None, 0);
    assert Step(s, State(0, [], [])) == s1;
    assert Lexeme(s, 1) == (Some(And), 2);
    assert PopFor([], And) == ([], []);
    assert Step(s, s1) == s2;
    assert Scan(s, s2) == s2;
    assert Scan(s, s1) == s2;
    assert Scan(s, State(0, [], [])) == s2;
  }

  /** The character after a recognised `->` is consumed unseen: `a->b` loses its `b`. */
  lemma SkipAfterArrow(s: string)
    requires s == "a->b"
    ensures Tokenize(s) == [Atom("a"), Op(If)]
  {
    SkipAfterArrowScan(s);
    assert OpTokens(Reverse([If])) == [Op(If)];
  }

  /** The cursor, output and stack when the loop of `SkipAfterArrow` ends, before the stack is drained. */
  lemma SkipAfterArrowScan(s: string)
    requires s == "a->b"
    ensures Scan(s, State(0, [], [])) == State(4, [Atom("a")], [If])
  {
    assert s[0] == 'a' && s[1] == '-' && s[2] == '>' && s[3] == 'b' && |s| == 4;
    var s1 := State(1, [Atom("a")], []);
    var s2 := State(4, [Atom("a")], [If]);
    assert Lexeme(s, 0) == (None, 0);
    assert Step(s, State(0, [], [])) == s1;
    assert Lexeme(s, 1) == (Some(If), 3);
    assert PopFor([], If) == ([], []);
    assert Step(s, s1) == s2;
    assert Scan(s, s2) == s2;
    assert Scan(s, s1) == s2;
    assert Scan(s, State(0, [], [])) == s2;
  }

  /** An incomplete `-` becomes an atom and takes the next character with it. */
  lemma IncompleteArrowIsAtom(s: string)
    requires s == "a-b"
    ensures Tokenize(s) == [Atom("a"), Atom("-")]
  {
    IncompleteArrowIsAtomScan(s);
    assert OpTokens(Reverse([])) == [];
  }

  /** The cursor, output and stack when the loop of `IncompleteArrowIsAtom` ends, before the stack is drained. */
  lemma IncompleteArrowIsAtomScan(s: string)
    requires s == "a-b"
    ensures Scan(s, State(0, [], [])) == State(3, [Atom("a"), Atom("-")], [])
  {
    assert s[0] == 'a' && s[1] == '-' && s[2] == 'b' && |s| == 3;
    var s1 := State(1, [Atom("a")], []);
    var s2 := State(3, [Atom("a"), Atom("-")], []);
    assert Lexeme(s, 0) == (None, 0);
    assert Step(s, State(0, [], [])) == s1;
    assert Lexeme(s, 1) == (None, 2);
    assert Step(s, s1) == s2;
    assert Scan(s, s2) == s2;
    assert Scan(s, s1) == s2;
    assert Scan(s, State(0, [], [])) == s2;
  }

  /** An incomplete `<-` becomes an atom `<` and takes the next character with it. */
  lemma IncompleteDoubleArrowIsAtom(s: string)
    requires s == "<-b"
    ensures Tokenize(s) == [Atom("<")]
  {
    IncompleteDoubleArrowIsAtomScan(s);
    assert OpTokens(Reverse([])) == [];
  }

  /** The cursor, output and stack when the loop of `IncompleteDoubleArrowIsAtom` ends, before the stack is drained. */
  lemma IncompleteDoubleArrowIsAtomScan(s: string)
    requires s == "<-b"
    ensures Scan(s, State(0, [], [])) == State(3, [Atom("<")], [])
  {
    assert s[0] == '<' && s[1] == '-' && s[2] == 'b' && |s| == 3;
    var s1 := State(3, [Atom("<")], []);
    assert Lexeme(s, 0) == (None, 2);
    assert Step(s, State(0, [], [])) == s1;
    assert Scan(s, s1) == s1;
    assert Scan(s, State(0, [], [])) == s1;
  }

  /** Only a space is skipped; a tab is an atom. */
  lemma OnlySpaceIsSkipped(s: string)
    requires s == "a\tb"
    ensures Tokenize(s) == [Atom("a"), Atom("\t"), Atom("b")]
  {
    assert s[0] == 'a' && s[1] == '\t' && s[2] == 'b' && |s| == 3;
    assert forall k :: 0 <= k < |s| ==> s[k] == ' ' || Plain(s[k]);
    PlainTextIsOperands(s);
    assert s[1..][1..] == s[2..] && s[2..][1..] == [];
    assert Operands(s[2..]) == [Atom("b")];
    assert Operands(s[1..]) == [Atom("\t"), Atom("b")];
  }

  /** An unmatched `(` leaks a marker into the output. */
  lemma UnclosedParenthesisLeaks(s: string)
    requires s == "(a"
    ensures Tokenize(s) == [Atom("a"), Op(Parenthesis)]
  {
    UnclosedParenthesisLeaksScan(s);
    assert OpTokens(Reverse([Parenthesis])) == [Op(Parenthesis)];
  }

  /** The cursor, output and stack when the loop of `UnclosedParenthesisLeaks` ends, before the stack is drained. */
  lemma UnclosedParenthesisLeaksScan(s: string)
    requires s == "(a"
    ensures Scan(s, State(0, [], [])) == State(2, [Atom("a")], [Parenthesis])
  {
    assert s[0] == '(' && s[1] == 'a' && |s| == 2;
    var s1 := State(1, [], [Parenthesis]);
    var s2 := State(2, [Atom("a")], [Parenthesis]);
    assert Step(s, State(0, [], [])) == s1;
    assert Lexeme(s, 1) == (None, 1);
    assert Step(s, s1) == s2;
    assert Scan(s, s2) == s2;
    assert Scan(s, s1) == s2;
    assert Scan(s, State(0, [], [])) == s2;
  }

  /** An unmatched `)` is ignored. */
  lemma UnmatchedParenthesisIgnored(s: string)
    requires s == "a)"
    ensures Tokenize(s) == [Atom("a")]
  {
    UnmatchedParenthesisIgnoredScan(s);
    assert OpTokens(Reverse([])) == [];
  }

  /** The cursor, output and stack when the loop of `UnmatchedParenthesisIgnored` ends, before the stack is drained. */
  lemma UnmatchedParenthesisIgnoredScan(s: string)
    requires s == "a)"
    ensures Scan(s, State(0, [], [])) == State(2, [Atom("a")], [])
  {
    assert s[0] == 'a' && s[1] == ')' && |s| == 2;
    var s1 := State(1, [Atom("a")], []);
    assert Lexeme(s, 0) == (None, 0);
    assert Step(s, State(0, [], [])) == s1;
    assert Close([]) == ([], []);
    assert Step(s, s1) == s1.(pos := 2);
    assert Scan(s, s1.(pos := 2)) == s1.(pos := 2);
    assert Scan(s, s1) == s1.(pos := 2);
    assert Scan(s, State(0, [], [])) == s1.(pos := 2);
  }
}
