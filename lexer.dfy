/**
 * The shunting-yard tokenizer of lexer.rs. It differs from the one of lib.rs only in its
 * operands: a run of letters is one token, a `Value` literal when it starts with t, T, f or F
 * and an `Atom` holding the whole run otherwise. `is_alphabetic` is taken over ASCII letters.
 */
module Lexer {
  import opened Options
  import opened Operators
  import opened OperatorStack
  import opened Tokens
  import Tokenizer

  predicate IsAlphabetic(c: char)
  {
    'a' <= c <= 'z' || 'A' <= c <= 'Z'
  }

  /** `make_ascii_lowercase` on one character. */
  function ToLower(c: char): (d: char)
    ensures 'A' <= c <= 'Z' ==> d as int == c as int + 32
    ensures !('A' <= c <= 'Z') ==> d == c
  {
    if 'A' <= c <= 'Z' then (c as int + 32) as char else c
  }

  function Lower(s: string): (t: string)
    ensures |t| == |s| && forall k :: 0 <= k < |s| ==> t[k] == ToLower(s[k])
  {
    seq(|s|, k requires 0 <= k < |s| => ToLower(s[k]))
  }

  /** The literal a letter run stands for: true exactly for "true" or "t" in any letter case. */
  function Truth(word: string): bool
  {
    var w := Lower(word);
    w == "true" || w == "t"
  }

  /** `t`, `T`, `f` and `F` start a literal. */
  predicate StartsLiteral(c: char)
  {
    c == 't' || c == 'T' || c == 'f' || c == 'F'
  }

  /** The end of the run of letters that starts at `i`. */
  function RunEnd(s: string, i: nat): (j: nat)
    requires i <= |s|
    ensures i <= j <= |s|
    ensures forall k :: i <= k < j ==> IsAlphabetic(s[k])
    ensures j < |s| ==> !IsAlphabetic(s[j])
    decreases |s| - i
  {
    if i < |s| && IsAlphabetic(s[i]) then RunEnd(s, i + 1) else i
  }

  /** The inner `while let` loops (lexer.rs:33-40, 46-53): take letters while there are some. */
  method ReadRun(s: string, i: nat) returns (run: string, j: nat)
    requires i <= |s|
    ensures j == RunEnd(s, i) && run == s[i..j]
  {
    run, j := "", i;
    while j < |s| && IsAlphabetic(s[j])
      invariant i <= j <= |s| && RunEnd(s, j) == RunEnd(s, i) && run == s[i..j]
      decreases |s| - j
    {
      run := run + [s[j]];
      j := j + 1;
    }
  }

  /** One turn of the main loop of lexer.rs. */
  function Step(s: string, st: Tokenizer.State): (r: Tokenizer.State)
    requires st.pos < |s|
    ensures st.pos < r.pos <= |s|
    ensures st.output <= r.output
  {
    var c := s[st.pos];
    if c == ' ' then
      st.(pos := st.pos + 1)
    else if c == '(' then
      Tokenizer.State(st.pos + 1, st.output, st.stack + [Parenthesis])
    else if c == ')' then
      var closed := Close(st.stack);
      Tokenizer.State(st.pos + 1, st.output + OpTokens(closed.0), closed.1)
    else if IsAlphabetic(c) then
      var j := RunEnd(s, st.pos);
      var token := if StartsLiteral(c) then Value(Truth(s[st.pos..j])) else Atom(s[st.pos..j]);
      Tokenizer.State(j, st.output + [token], st.stack)
    else
      var lexed := Lexeme(s, st.pos);
      if lexed.0.None? then
        Tokenizer.State(Next(s, lexed.1), st.output + [Atom([c])], st.stack)
      else
        var o := lexed.0.value;
        var popped := PopFor(st.stack, o);
        Tokenizer.State(Next(s, lexed.1), st.output + OpTokens(popped.0), popped.1 + [o])
  }

  function Scan(s: string, st: Tokenizer.State): (r: Tokenizer.State)
    requires st.pos <= |s|
    ensures r.pos == |s|
    ensures st.output <= r.output
    decreases |s| - st.pos
  {
    if st.pos == |s| then st else Scan(s, Step(s, st))
  }

  /** The whole of lexer.rs's conversion: the loop, then the drain of the stack, top first. */
  function Lex(s: string): seq<Token>
  {
    var fin := Scan(s, Tokenizer.State(0, [], []));
    fin.output + OpTokens(Reverse(fin.stack))
  }

  /** `shunting_yard` (lexer.rs:10-82). */
  method ShuntingYard(input: string) returns (output: seq<Token>)
    ensures output == Lex(input)
  {
    output := [];
    var stack: seq<Operator> := [];
    var currentAtom: string := "";
    var i: nat := 0;
    while i < |input|
      invariant i <= |input| && currentAtom == ""
      invariant Scan(input, Tokenizer.State(i, output, stack)) == Scan(input, Tokenizer.State(0, [], []))
      decreases |input| - i
    {
      ghost var before := Tokenizer.State(i, output, stack);
      var c := input[i];
      if c == ' ' {
        i := i + 1;
        continue;
      }
      if c == '(' {
        stack := stack + [Parenthesis];
      } else if c == ')' {
        var popped;
        popped, stack := PopToParenthesis(stack);
        output := output + OpTokens(popped);
      } else if StartsLiteral(c) {
        var value;
        value, i := ReadRun(input, i);
        value := Lower(value);
        output := output + [Value(value == "true" || value == "t")];
        assert Tokenizer.State(i, output, stack) == Step(input, before);
        continue;
      } else if IsAlphabetic(c) {
        currentAtom, i := ReadRun(input, i);
        output := output + [Atom(currentAtom)];
        currentAtom := "";
        assert Tokenizer.State(i, output, stack) == Step(input, before);
        continue;
      } else {
        var o, j := FromPeekable(input, i);
        if o.None? {
          output := output + [Atom([c])];
          i := Next(input, j);
          assert Tokenizer.State(i, output, stack) == Step(input, before);
          continue;
        }
        var popped;
        popped, stack := PopHigher(stack, o.value);
        output := output + OpTokens(popped);
        stack := stack + [o.value];
        i := j;
      }
      i := Next(input, i);
      assert Tokenizer.State(i, output, stack) == Step(input, before);
    }
    output := output + OpTokens(Reverse(stack));
  }

  /**
   * A letter emits one token for the whole maximal run of letters it starts and the cursor
   * moves just past the run, with no character skipped after it.
   */
  lemma StepOnLetters(s: string, st: Tokenizer.State)
    requires st.pos < |s| && IsAlphabetic(s[st.pos])
    ensures var r := Step(s, st);
      && r.stack == st.stack && st.pos < r.pos == RunEnd(s, st.pos)
      && |r.output| == |st.output| + 1 && r.output[..|st.output|] == st.output
      && var t := r.output[|st.output|];
         && (StartsLiteral(s[st.pos]) ==> t == Value(Truth(s[st.pos..r.pos])))
         && (!StartsLiteral(s[st.pos]) ==> t == Atom(s[st.pos..r.pos]) && |t.name| >= 1)
  {
  }

  /** The literal spellings: "true" and "t" in any case are true; every other letter run is false. */
  lemma TruthOfWords()
    ensures Truth("true") && Truth("TRUE") && Truth("True") && Truth("t") && Truth("T")
    ensures !Truth("false") && !Truth("f") && !Truth("foo") && !Truth("tru")
  {
    assert Lower("TRUE") == "true";
    assert Lower("True") == "true";
    assert Lower("T") == "t";
    assert Lower("tru") == "tru";
    assert Lower("f") == "f";
  }

  /** Without letters, lexer.rs and lib.rs make the same turn of the loop. */
  lemma {:induction false} ScanAgreesWithoutLetters(s: string, st: Tokenizer.State)
    requires st.pos <= |s|
    requires forall k :: st.pos <= k < |s| ==> !IsAlphabetic(s[k])
    ensures Scan(s, st) == Tokenizer.Scan(s, st)
    decreases |s| - st.pos
  {
    if st.pos < |s| {
      assert Step(s, st) == Tokenizer.Step(s, st);
      ScanAgreesWithoutLetters(s, Step(s, st));
    }
  }

  /**
   * On text without letters the two tokenizers give the same tokens: the operator, parenthesis,
   * space and one-character operand rules of lexer.rs are those of lib.rs.
   */
  lemma LexAgreesWithoutLetters(s: string)
    requires forall k :: 0 <= k < |s| ==> !IsAlphabetic(s[k])
    ensures Lex(s) == Tokenizer.Tokenize(s)
  {
    ScanAgreesWithoutLetters(s, Tokenizer.State(0, [], []));
  }

  /** Text in which no letter run starts with t, T, f or F yields no literal. */
  lemma {:induction false} ScanNoValues(s: string, st: Tokenizer.State)
    requires st.pos <= |s| && NoValues(st.output)
    requires forall k :: 0 <= k < |s| ==> !StartsLiteral(s[k])
    ensures NoValues(Scan(s, st).output)
    decreases |s| - st.pos
  {
    if st.pos < |s| {
      ScanNoValues(s, Step(s, st));
    }
  }

  lemma LexNoValues(s: string)
    requires forall k :: 0 <= k < |s| ==> !StartsLiteral(s[k])
    ensures NoValues(Lex(s))
  {
    ScanNoValues(s, Tokenizer.State(0, [], []));
  }

  /** A whole letter run is one token; "foo" starts with f, so it is the literal false. */
  lemma WordIsOneToken()
    ensures Lex("foo") == [Value(false)]
  {
  }

  /** A word is not followed by a skip: the space after it and the next word are both read. */
  lemma NoSkipAfterWord()
    ensures Lex("abc x") == [Atom("abc"), Atom("x")]
  {
    var s := "abc x";
    var s0, s3, s4 := Tokenizer.State(0, [], []), Tokenizer.State(3, [Atom("abc")], []), Tokenizer.State(4, [Atom("abc")], []);
    assert RunEnd(s, 0) == 3 && s[0..3] == "abc";
    assert Step(s, s0) == s3;
    assert Step(s, s3) == s4;
    assert RunEnd(s, 4) == 5 && s[4..5] == "x";
    assert Scan(s, s4) == Tokenizer.State(5, [Atom("abc"), Atom("x")], []);
  }

  /** The character right after an operator is still skipped. */
  lemma SkipAfterOperatorAfterWord()
    ensures Lex("ab&c") == [Atom("ab"), Op(And)]
  {
    var s := "ab&c";
    assert RunEnd(s, 0) == 2 && s[0..2] == "ab";
    assert Step(s, Tokenizer.State(0, [], [])) == Tokenizer.State(2, [Atom("ab")], []);
    assert Step(s, Tokenizer.State(2, [Atom("ab")], [])) == Tokenizer.State(4, [Atom("ab")], [And]);
  }
}
