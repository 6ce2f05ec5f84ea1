/**
 * The variant in main.rs, the one its tests exercise. Its tokenizer writes operators back as
 * characters (`to_char`), its operator table has no `!` and no `&&`/`||`, and its parser reads
 * the character stream from a `pos` field, taking every character that is not an operator
 * character as a one-character atom. Its formula keeps the variables as a list, in pre-order,
 * with repeats.
 */
module CharPipeline {
  import opened Options
  import opened Operators
  import opened OperatorStack
  import opened Tokens
  import Tokenizer
  import Ast
  import Parser

  /** `from_char` of main.rs (main.rs:275-283): no `!`. */
  function MainFromChar(c: char): (r: Option<Operator>)
    ensures r.Some? <==> c in "&|~()"
    ensures r == Some(And) <==> c == '&'
    ensures r == Some(Or) <==> c == '|'
    ensures r == Some(Not) <==> c == '~'
    ensures r == Some(Parenthesis) <==> c == '(' || c == ')'
  {
    match c
    case '&' => Some(And)
    case '|' => Some(Or)
    case '~' => Some(Not)
    case '(' => Some(Parenthesis)
    case ')' => Some(Parenthesis)
    case _ => None
  }

  /**
   * `from_peekable` of main.rs (main.rs:254-273): only `-` and `<` are consumed while they are
   * examined; `&` and `|` are single characters that are only peeked at.
   */
  function MainLexeme(s: string, i: nat): (r: (Option<Operator>, nat))
    requires i <= |s|
    ensures i <= r.1 <= |s|
  {
    if i == |s| then (None, i)
    else
      match s[i]
      case '-' =>
        if i + 1 < |s| && s[i + 1] == '>' then (Some(If), i + 2) else (None, i + 1)
      case '<' =>
        if i + 1 < |s| && s[i + 1] == '-' then
          if i + 2 < |s| && s[i + 2] == '>' then (Some(Iff), i + 3) else (None, i + 2)
        else (None, i + 1)
      case c => (MainFromChar(c), i)
  }

  /**
   * `->` and `<->` are recognised whole; any other operator is one character that is not
   * consumed; a `-` or `<` that starts no arrow is not an operator, yet is consumed.
   */
  lemma MainLexemeSpec(s: string, i: nat)
    requires i <= |s|
    ensures var r := MainLexeme(s, i);
      && r.1 <= i + 3
      && (r.0 == Some(If) ==> s[i..r.1] == "->")
      && (r.0 == Some(Iff) ==> s[i..r.1] == "<->")
      && (r.0.Some? && r.0 != Some(If) && r.0 != Some(Iff) ==> r.1 == i && i < |s| && s[i] in "&|~()")
      && (r.0 == None && r.1 > i ==> s[i] == '-' || s[i] == '<')
  {
  }

  /** The two tables agree on the arrows and on `-`/`<` left incomplete. */
  lemma MainLexemeArrowsAsOperatorTable(s: string, i: nat)
    requires i < |s| && (s[i] == '-' || s[i] == '<')
    ensures MainLexeme(s, i) == Lexeme(s, i)
  {
  }

  /** `&` and `|` consume nothing here, so only the loop's own step moves past them. */
  lemma MainLexemeSingleCharacter(s: string, i: nat)
    requires i < |s| && s[i] in "&|~()"
    ensures MainLexeme(s, i) == (MainFromChar(s[i]), i)
  {
  }

  method MainFromPeekable(s: string, i: nat) returns (o: Option<Operator>, j: nat)
    requires i <= |s|
    ensures (o, j) == MainLexeme(s, i)
  {
    j := i;
    if j == |s| {
      return None, j;
    }
    var c := s[j];
    if c == '-' {
      j := j + 1;
      if j == |s| || s[j] != '>' {
        return None, j;
      }
      j := j + 1;
      o := Some(If);
    } else if c == '<' {
      j := j + 1;
      if j == |s| || s[j] != '-' {
        return None, j;
      }
      j := j + 1;
      if j == |s| || s[j] != '>' {
        return None, j;
      }
      j := j + 1;
      o := Some(Iff);
    } else {
      o := MainFromChar(c);
    }
  }

  /** `to_char` (main.rs:302-311). */
  function ToChar(o: Operator): char
  {
    match o
    case And => '&'
    case Or => '|'
    case Not => '~'
    case If => '-'
    case Iff => '<'
    case Parenthesis => '('
  }

  function ToChars(ops: seq<Operator>): (cs: seq<char>)
    ensures |cs| == |ops| && forall k :: 0 <= k < |ops| ==> cs[k] == ToChar(ops[k])
  {
    if ops == [] then [] else [ToChar(ops[0])] + ToChars(ops[1..])
  }

  /** The loop's variables in main.rs: the cursor, the characters output so far and the stack. */
  datatype State = State(pos: nat, output: seq<char>, stack: seq<Operator>)

  function Step(s: string, st: State): (r: State)
    requires st.pos < |s|
    ensures st.pos < r.pos <= |s|
    ensures st.output <= r.output
  {
    var c := s[st.pos];
    if c == ' ' then
      st.(pos := st.pos + 1)
    else if c == '(' then
      State(st.pos + 1, st.output, st.stack + [Parenthesis])
    else if c == ')' then
      var closed := Close(st.stack);
      State(st.pos + 1, st.output + ToChars(closed.0), closed.1)
    else
      var lexed := MainLexeme(s, st.pos);
      if lexed.0.None? then
        State(Next(s, lexed.1), st.output + [c], st.stack)
      else
        var o := lexed.0.value;
        var popped := PopFor(st.stack, o);
        State(Next(s, lexed.1), st.output + ToChars(popped.0), popped.1 + [o])
  }

  function Scan(s: string, st: State): (r: State)
    requires st.pos <= |s|
    ensures r.pos == |s|
    ensures st.output <= r.output
    decreases |s| - st.pos
  {
    if st.pos == |s| then st else Scan(s, Step(s, st))
  }

  /** The postfix characters main.rs makes of a text: the loop, then the stack drained top first. */
  function Convert(s: string): seq<char>
  {
    var fin := Scan(s, State(0, [], []));
    fin.output + ToChars(Reverse(fin.stack))
  }

  /** `shunting_yard` (main.rs:29-73). */
  method ShuntingYard(input: string) returns (output: seq<char>)
    ensures output == Convert(input)
  {
    output := [];
    var stack: seq<Operator> := [];
    var i: nat := 0;
    while i < |input|
      invariant i <= |input|
      invariant Scan(input, State(i, output, stack)) == Scan(input, State(0, [], []))
      decreases |input| - i
    {
      ghost var before := State(i, output, stack);
      var c := input[i];
      if c == ' ' {
        i := i + 1;
        continue;
      }
      if c == '(' {
        stack := stack + [Parenthesis];
      } else if c == ')' {
        var popped;
        popped, stack := PopToParenthesis(stack);
        output := output + ToChars(popped);
      } else {
        var o, j := MainFromPeekable(input, i);
        if o.None? {
          output := output + [c];
          i := Next(input, j);
          assert State(i, output, stack) == Step(input, before);
          continue;
        }
        var popped;
        popped, stack := PopHigher(stack, o.value);
        output := output + ToChars(popped);
        stack := stack + [o.value];
        i := j;
      }
      i := Next(input, i);
      assert State(i, output, stack) == Step(input, before);
    }
    output := output + ToChars(Reverse(stack));
  }

  /**
   * lib.rs's tokens written the way main.rs writes its output: an atom as its name, an
   * operator by `to_char`. (lib.rs's tokenizer makes no literal token, which is written as
   * nothing.)
   */
  function Spell(ts: seq<Token>): seq<char>
  {
    if ts == [] then [] else SpellToken(ts[0]) + Spell(ts[1..])
  }

  function SpellToken(t: Token): seq<char>
  {
    match t
    case Atom(name) => name
    case Op(o) => [ToChar(o)]
    case Value(_) => []
  }

  lemma {:induction false} SpellAppend(a: seq<Token>, b: seq<Token>)
    ensures Spell(a + b) == Spell(a) + Spell(b)
  {
    if a == [] {
      assert a + b == b;
    } else {
      assert (a + b)[1..] == a[1..] + b;
      SpellAppend(a[1..], b);
    }
  }

  /** Operators spelled one by one are `to_char` applied along the list. */
  lemma {:induction false} SpellOperators(ops: seq<Operator>)
    ensures Spell(OpTokens(ops)) == ToChars(ops)
  {
    if ops != [] {
      assert OpTokens(ops)[1..] == OpTokens(ops[1..]);
      SpellOperators(ops[1..]);
    }
  }

  /** The main.rs loop state that mirrors a lib.rs loop state. */
  function Spelled(st: Tokenizer.State): State
  {
    State(st.pos, Spell(st.output), st.stack)
  }

  /** One turn of main.rs's loop does what one turn of lib.rs's does, spelled out. */
  lemma StepAgreesWithoutAndOr(s: string, st: Tokenizer.State)
    requires st.pos < |s| && s[st.pos] != '&' && s[st.pos] != '|' && s[st.pos] != '!'
    ensures Step(s, Spelled(st)) == Spelled(Tokenizer.Step(s, st))
  {
    var c := s[st.pos];
    if c == ')' {
      var closed := Close(st.stack);
      SpellAppend(st.output, OpTokens(closed.0));
      SpellOperators(closed.0);
    } else if c != ' ' && c != '(' {
      if c == '-' || c == '<' {
        MainLexemeArrowsAsOperatorTable(s, st.pos);
      } else {
        assert MainLexeme(s, st.pos) == Lexeme(s, st.pos);
      }
      var lexed := Lexeme(s, st.pos);
      if lexed.0.None? {
        SpellAppend(st.output, [Atom([c])]);
        assert [Atom([c])][1..] == [];
      } else {
        var popped := PopFor(st.stack, lexed.0.value);
        SpellAppend(st.output, OpTokens(popped.0));
        SpellOperators(popped.0);
      }
    }
  }

  /**
   * On `&` or `|` followed by a space or the end, lib.rs's turn consumes the sign and, with its
   * extra `input.next()`, the space; main.rs only peeks at the sign, steps past it, and passes
   * over the space on its next turn. Both then stand at the same state.
   */
  lemma ScanOverAndOr(s: string, st: Tokenizer.State)
    requires st.pos < |s| && (s[st.pos] == '&' || s[st.pos] == '|')
    requires st.pos + 1 == |s| || s[st.pos + 1] == ' '
    ensures Scan(s, Spelled(st)) == Scan(s, Spelled(Tokenizer.Step(s, st)))
  {
    var o := if s[st.pos] == '&' then And else Or;
    var popped := PopFor(st.stack, o);
    LibTurnOnAndOr(s, st, o);
    MainTurnOnAndOr(s, Spelled(st), o);
    SpellAppend(st.output, OpTokens(popped.0));
    SpellOperators(popped.0);
    var r := Step(s, Spelled(st));
    var after := Spelled(Tokenizer.Step(s, st));
    assert Scan(s, Spelled(st)) == Scan(s, r);
    if r.pos < |s| {
      assert Step(s, r) == after;
      assert Scan(s, r) == Scan(s, after);
    } else {
      assert r == after;
    }
  }

  /** lib.rs on a lone `&` or `|`: the sign is consumed, then the character after it. */
  lemma LibTurnOnAndOr(s: string, st: Tokenizer.State, o: Operator)
    requires st.pos < |s| && o == (if s[st.pos] == '&' then And else Or)
    requires s[st.pos] == '&' || s[st.pos] == '|'
    requires st.pos + 1 == |s| || s[st.pos + 1] == ' '
    ensures var popped := PopFor(st.stack, o);
      Tokenizer.Step(s, st)
      == Tokenizer.State(Next(s, st.pos + 1), st.output + OpTokens(popped.0), popped.1 + [o])
  {
    assert Lexeme(s, st.pos) == (Some(o), st.pos + 1);
  }

  /** main.rs on `&` or `|`: the sign is peeked at, and only the loop's own step passes it. */
  lemma MainTurnOnAndOr(s: string, st: State, o: Operator)
    requires st.pos < |s| && o == (if s[st.pos] == '&' then And else Or)
    requires s[st.pos] == '&' || s[st.pos] == '|'
    ensures var popped := PopFor(st.stack, o);
      Step(s, st) == State(st.pos + 1, st.output + ToChars(popped.0), popped.1 + [o])
  {
    assert MainLexeme(s, st.pos) == (Some(o), st.pos);
  }

  /**
   * Text on which the two loops make the same progress: no `!` (an operator in lib.rs only) and
   * every `&` and `|` followed by a space or the end, so that neither `&&` nor `||` occurs and
   * the character lib.rs skips after the sign is the space main.rs passes over.
   */
  predicate SpacedAndOr(s: string)
  {
    forall k :: 0 <= k < |s| ==>
      s[k] != '!' && (s[k] == '&' || s[k] == '|' ==> k + 1 == |s| || s[k + 1] == ' ')
  }

  lemma {:induction false} ScanAgreesOnSpacedAndOr(s: string, st: Tokenizer.State)
    requires st.pos <= |s| && SpacedAndOr(s)
    ensures Scan(s, Spelled(st)) == Spelled(Tokenizer.Scan(s, st))
    decreases |s| - st.pos
  {
    if st.pos < |s| {
      var c := s[st.pos];
      if c == '&' || c == '|' {
        ScanOverAndOr(s, st);
      } else {
        StepAgreesWithoutAndOr(s, st);
      }
      ScanAgreesOnSpacedAndOr(s, Tokenizer.Step(s, st));
    }
  }

  /**
   * Where every `&` and `|` is followed by a space or the end and no `!` occurs, main.rs's
   * postfix characters are lib.rs's postfix tokens spelled out: atoms as their characters,
   * operators by `to_char`, an unclosed parenthesis as `(`.
   */
  lemma ConvertAgreesOnSpacedAndOr(s: string)
    requires SpacedAndOr(s)
    ensures Convert(s) == Spell(Tokenizer.Tokenize(s))
  {
    var start := Tokenizer.State(0, [], []);
    assert Spelled(start) == State(0, [], []);
    ScanAgreesOnSpacedAndOr(s, start);
    var fin := Tokenizer.Scan(s, start);
    SpellAppend(fin.output, OpTokens(Reverse(fin.stack)));
    SpellOperators(Reverse(fin.stack));
  }

  /** How main.rs's `parse_expr` reads one character: an operator, or a one-character atom. */
  function Decode(c: char): (t: Token)
    ensures !t.Value?
  {
    match c
    case '&' => Op(And)
    case '|' => Op(Or)
    case '~' => Op(Not)
    case '-' => Op(If)
    case '<' => Op(Iff)
    case _ => Atom([c])
  }

  function DecodeAll(cs: seq<char>): (ts: seq<Token>)
    ensures |ts| == |cs| && NoValues(ts) && NoMarker(ts)
  {
    if cs == [] then [] else DecodeAll(cs[..|cs| - 1]) + [Decode(cs[|cs| - 1])]
  }

  lemma {:induction false} DecodeAllAppend(a: seq<char>, b: seq<char>)
    ensures DecodeAll(a + b) == DecodeAll(a) + DecodeAll(b)
    decreases |b|
  {
    if b == [] {
      assert a + b == a;
    } else {
      assert (a + b)[..|a + b| - 1] == a + b[..|b| - 1];
      DecodeAllAppend(a, b[..|b| - 1]);
    }
  }

  /** The first character of a non-empty text is read first. */
  lemma DecodeAllFirst(cs: seq<char>)
    requires cs != []
    ensures DecodeAll(cs) == [Decode(cs[0])] + DecodeAll(cs[1..])
  {
    assert cs == [cs[0]] + cs[1..];
    DecodeAllAppend([cs[0]], cs[1..]);
  }

  /**
   * `to_char` and the parser's reading invert each other on the five operators; a leaked
   * Parenthesis marker comes back as the atom "(".
   */
  lemma DecodeToChar(o: Operator)
    ensures o != Parenthesis ==> Decode(ToChar(o)) == Op(o)
    ensures o == Parenthesis ==> Decode(ToChar(o)) == Atom("(")
  {
  }

  /** The characters main.rs's tokenizer writes for a tree: its postfix form, operators by `to_char`. */
  function PostfixChars(n: Ast.Node): seq<char>
  {
    match n
    case Atom(name) => name
    case Not(x) => PostfixChars(x) + [ToChar(Not)]
    case And(l, r) => PostfixChars(l) + PostfixChars(r) + [ToChar(And)]
    case Or(l, r) => PostfixChars(l) + PostfixChars(r) + [ToChar(Or)]
    case If(l, r) => PostfixChars(l) + PostfixChars(r) + [ToChar(If)]
    case Iff(l, r) => PostfixChars(l) + PostfixChars(r) + [ToChar(Iff)]
  }

  /** lib.rs's postfix tokens of a tree, spelled out, are the characters main.rs writes for it. */
  lemma {:induction false} SpellPostfix(n: Ast.Node)
    ensures Spell(Parser.Postfix(n)) == PostfixChars(n)
  {
    if n.Atom? {
      assert Parser.Postfix(n)[1..] == [];
    } else if n.Not? {
      SpellPostfix(n.operand);
      SpellAppend(Parser.Postfix(n.operand), [Op(Not)]);
      assert [Op(Not)][1..] == [];
    } else {
      var o := Parser.OperatorOf(n);
      SpellPostfix(n.left);
      SpellPostfix(n.right);
      assert PostfixChars(n) == PostfixChars(n.left) + PostfixChars(n.right) + [ToChar(o)];
      SpellAppend(Parser.Postfix(n.left), Parser.Postfix(n.right));
      SpellAppend(Parser.Postfix(n.left) + Parser.Postfix(n.right), [Op(o)]);
      assert [Op(o)][1..] == [];
    }
  }

  /** A tree main.rs can write out and read back: every atom is one character read as itself. */
  predicate Readable(n: Ast.Node)
  {
    match n
    case Atom(name) => |name| == 1 && Decode(name[0]) == Atom(name)
    case Not(x) => Readable(x)
    case And(l, r) => Readable(l) && Readable(r)
    case Or(l, r) => Readable(l) && Readable(r)
    case If(l, r) => Readable(l) && Readable(r)
    case Iff(l, r) => Readable(l) && Readable(r)
  }

  /**
   * Reading a readable tree's characters gives back its postfix tokens, so main.rs's parser
   * rebuilds the tree from them.
   */
  lemma {:induction false} DecodePostfixChars(n: Ast.Node)
    requires Readable(n)
    ensures DecodeAll(PostfixChars(n)) == Parser.Postfix(n)
    ensures Parser.Build(DecodeAll(PostfixChars(n))) == Ok(n)
  {
    if n.Atom? {
      assert n.name == [n.name[0]];
    } else if n.Not? {
      DecodePostfixChars(n.operand);
      DecodeAllAppend(PostfixChars(n.operand), [ToChar(Not)]);
    } else {
      var o := Parser.OperatorOf(n);
      DecodePostfixChars(n.left);
      DecodePostfixChars(n.right);
      assert PostfixChars(n) == PostfixChars(n.left) + PostfixChars(n.right) + [ToChar(o)];
      DecodeAllAppend(PostfixChars(n.left), PostfixChars(n.right));
      DecodeAllAppend(PostfixChars(n.left) + PostfixChars(n.right), [ToChar(o)]);
      DecodeToChar(o);
    }
    Parser.BuildPostfix(n);
  }

  /** A formula of main.rs: its variables are a list. */
  datatype ListFormula = ListFormula(root: Ast.Node, variables: seq<string>)
  {
    /** `Formula::eval` (main.rs:207-209): the same evaluator as lib.rs. */
    function Eval(vars: map<string, bool>): Option<bool>
    {
      Ast.EvalInner(root, vars)
    }
  }

  /** main.rs's `FormulaParser`: the postfix characters and a read position into them. */
  class FormulaParser {
    var source: seq<char>
    var pos: nat

    /** `FormulaParser::new` (main.rs:130-134). */
    constructor(text: string)
      ensures source == Convert(text) && pos == 0
    {
      var postfix := ShuntingYard(text);
      source := postfix;
      pos := 0;
    }

    /**
     * `parse_expr` (main.rs:151-198): the characters from `pos` on, read as tokens and reduced
     * as in lib.rs. `pos` ends at the end of the source unless an operand was missing.
     */
    method ParseExpr() returns (r: Result<Ast.Node, Parser.ParseError>)
      requires pos <= |source|
      modifies this
      ensures source == old(source)
      ensures r == Parser.Build(DecodeAll(old(source)[old(pos)..]))
      ensures r != Err(Parser.EmptyStack) ==> pos == |source|
    {
      ghost var ts := DecodeAll(source[pos..]);
      var stack: seq<Ast.Node> := [];
      ghost var start := pos;
      while pos < |source|
        invariant start <= pos <= |source| && source == old(source)
        invariant Parser.Reduce(DecodeAll(source[pos..]), stack) == Parser.Reduce(ts, [])
        decreases |source| - pos
      {
        ghost var before := stack;
        DecodeAllFirst(source[pos..]);
        assert source[pos..][1..] == source[pos + 1..];
        var token := source[pos];
        pos := pos + 1;
        if token == '~' {
          if |stack| == 0 {
            return Err(Parser.EmptyStack);
          }
          var operand := stack[|stack| - 1];
          stack := stack[..|stack| - 1] + [Ast.Not(operand)];
          assert Parser.Apply(Not, before) == Ok(stack);
        } else if token in "&|-<" {
          if |stack| == 0 {
            return Err(Parser.EmptyStack);
          }
          var right := stack[|stack| - 1];
          stack := stack[..|stack| - 1];
          if |stack| == 0 {
            return Err(Parser.EmptyStack);
          }
          var left := stack[|stack| - 1];
          stack := stack[..|stack| - 1];
          assert stack == before[..|before| - 2];
          var n := match token
            case '&' => Ast.And(left, right)
            case '|' => Ast.Or(left, right)
            case '-' => Ast.If(left, right)
            case '<' => Ast.Iff(left, right);
          stack := stack + [n];
          assert Parser.Apply(Decode(token).op, before) == Ok(stack);
        } else {
          stack := stack + [Ast.Atom([token])];
        }
      }
      assert source[pos..] == [];
      if |stack| != 1 {
        return Err(Parser.InvalidExpression);
      }
      r := Ok(stack[0]);
    }

    /**
     * `parse` (main.rs:136-149): the tree, and the names of the atoms among its proper
     * descendants in pre-order, repeats kept.
     */
    method Parse() returns (r: Result<ListFormula, Parser.ParseError>)
      requires pos <= |source|
      modifies this
      ensures r.Ok? <==> Parser.Build(DecodeAll(old(source)[old(pos)..])).Ok?
      ensures r.Err? ==> r.error == Parser.Build(DecodeAll(old(source)[old(pos)..])).error
      ensures r.Ok? ==>
        && r.value.root == Parser.Build(DecodeAll(old(source)[old(pos)..])).value
        && r.value.variables == Ast.AtomNames(Ast.Descendants(r.value.root))
    {
      var root := ParseExpr();
      if root.Err? {
        return Err(root.error);
      }
      var children := Ast.Children(root.value);
      r := Ok(ListFormula(root.value, Ast.AtomNames(children)));
    }
  }

  /** The whole of main.rs's `FormulaParser::new(text).parse()`, as a value. */
  function Compile(text: string): Result<ListFormula, Parser.ParseError>
  {
    match Parser.Build(DecodeAll(Convert(text)))
    case Err(e) => Err(e)
    case Ok(root) => Ok(ListFormula(root, Ast.AtomNames(Ast.Descendants(root))))
  }

  /**
   * A text compiles to a tree exactly when the characters main.rs makes of it, read back as
   * tokens, spell that tree in postfix; the variables are then the atoms among the tree's proper
   * descendants.
   */
  lemma CompileIff(text: string, n: Ast.Node)
    ensures (Compile(text).Ok? && Compile(text).value.root == n) <==> DecodeAll(Convert(text)) == Parser.Postfix(n)
    ensures DecodeAll(Convert(text)) == Parser.Postfix(n) ==>
      Compile(text) == Ok(ListFormula(n, Ast.AtomNames(Ast.Descendants(n))))
  {
    Parser.BuildPostfix(n);
    if Parser.Build(DecodeAll(Convert(text))) == Ok(n) {
      Parser.BuildOnlyFromPostfix(DecodeAll(Convert(text)), n);
    }
  }

  /** A fresh parser parses the text it was made from, with the result `Compile` gives. */
  method CompileText(text: string) returns (r: Result<ListFormula, Parser.ParseError>)
    ensures r == Compile(text)
  {
    var p := new FormulaParser(text);
    assert p.source[0..] == p.source;
    r := p.Parse();
  }
}
