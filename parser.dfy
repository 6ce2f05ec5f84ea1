/**
 * `FormulaParser::parse_expr` and `parse` of lib.rs, repeated word for word in parser.rs:
 * postfix tokens are reduced to a tree on an operand stack, and the variables are the atom
 * names among the tree's proper descendants. The panics of the source (`unwrap` on an empty
 * stack, "Invalid token", "Invalid expression") are the three errors of `ParseError`.
 */
module Parser {
  import opened Options
  import Operators
  import opened OperatorStack
  import opened Tokens
  import Ast

  datatype ParseError =
    | EmptyStack         // `stack.pop().unwrap()` on an empty operand stack
    | InvalidToken       // a Parenthesis marker reached the builder
    | InvalidExpression  // the operand stack did not end with exactly one tree

  /** The number of operands an operator takes off the operand stack. */
  function Arity(o: Operators.Operator): nat
  {
    match o
    case Not => 1
    case Parenthesis => 0
    case _ => 2
  }

  /** The binary node an operator builds from its two operands. */
  function Combine(o: Operators.Operator, l: Ast.Node, r: Ast.Node): (n: Ast.Node)
    requires Arity(o) == 2
  {
    match o
    case And => Ast.And(l, r)
    case Or => Ast.Or(l, r)
    case If => Ast.If(l, r)
    case Iff => Ast.Iff(l, r)
  }

  /** The operator of a binary node. */
  function OperatorOf(n: Ast.Node): (o: Operators.Operator)
    requires !n.Atom? && !n.Not?
    ensures Arity(o) == 2 && Combine(o, n.left, n.right) == n
  {
    match n
    case And(_, _) => Operators.And
    case Or(_, _) => Operators.Or
    case If(_, _) => Operators.If
    case Iff(_, _) => Operators.Iff
  }

  /**
   * One operator applied to the operand stack: the first pop is the right child, the second
   * the left, so the children keep their order in the text.
   */
  function Apply(o: Operators.Operator, stack: seq<Ast.Node>): Result<seq<Ast.Node>, ParseError>
  {
    if o == Operators.Parenthesis then Err(InvalidToken)
    else if |stack| < Arity(o) then Err(EmptyStack)
    else if o == Operators.Not then Ok(stack[..|stack| - 1] + [Ast.Not(stack[|stack| - 1])])
    else Ok(stack[..|stack| - 2] + [Combine(o, stack[|stack| - 2], stack[|stack| - 1])])
  }

  /**
   * A marker is an invalid token, too few operands an empty-stack error; otherwise the
   * operands are replaced by one node and what lies below them is kept.
   */
  lemma ApplySpec(o: Operators.Operator, stack: seq<Ast.Node>)
    ensures Apply(o, stack).Ok? <==> o != Operators.Parenthesis && Arity(o) <= |stack|
    ensures Apply(o, stack) == Err(InvalidToken) <==> o == Operators.Parenthesis
    ensures Apply(o, stack).Ok? ==>
      && |Apply(o, stack).value| == |stack| - Arity(o) + 1
      && Apply(o, stack).value[..|stack| - Arity(o)] == stack[..|stack| - Arity(o)]
  {
  }

  /** The loop over the tokens, from operand stack `stack`; the first error stops it. */
  function Reduce(ts: seq<Token>, stack: seq<Ast.Node>): Result<seq<Ast.Node>, ParseError>
    requires NoValues(ts)
  {
    if ts == [] then Ok(stack)
    else
      match ts[0]
      case Atom(name) => Reduce(ts[1..], stack + [Ast.Atom(name)])
      case Op(o) =>
        (match Apply(o, stack)
         case Err(e) => Err(e)
         case Ok(next) => Reduce(ts[1..], next))
  }

  /** The whole of `parse_expr`: the loop, then the check that one tree is left. */
  function Build(ts: seq<Token>): Result<Ast.Node, ParseError>
    requires NoValues(ts)
  {
    match Reduce(ts, [])
    case Err(e) => Err(e)
    case Ok(stack) => if |stack| == 1 then Ok(stack[0]) else Err(InvalidExpression)
  }

  /** `parse_expr` (lib.rs:193-276, parser.rs:32-74). */
  method ParseExpr(ts: seq<Token>) returns (r: Result<Ast.Node, ParseError>)
    requires NoValues(ts)
    ensures r == Build(ts)
  {
    var stack: seq<Ast.Node> := [];
    var i := 0;
    while i < |ts|
      invariant i <= |ts|
      invariant Reduce(ts[i..], stack) == Reduce(ts, [])
      decreases |ts| - i
    {
      assert ts[i..][1..] == ts[i + 1..];
      ghost var before := stack;
      match ts[i] {
        case Atom(name) =>
          stack := stack + [Ast.Atom(name)];
        case Op(o) =>
          if o == Operators.Parenthesis {
            return Err(InvalidToken);
          }
          if |stack| == 0 {
            return Err(EmptyStack);
          }
          var right := stack[|stack| - 1];
          stack := stack[..|stack| - 1];
          if o == Operators.Not {
            stack := stack + [Ast.Not(right)];
            assert Apply(o, before) == Ok(stack);
          } else {
            if |stack| == 0 {
              return Err(EmptyStack);
            }
            var left := stack[|stack| - 1];
            stack := stack[..|stack| - 1];
            var n := match o
              case And => Ast.And(left, right)
              case Or => Ast.Or(left, right)
              case If => Ast.If(left, right)
              case Iff => Ast.Iff(left, right);
            assert stack == before[..|before| - 2];
            stack := stack + [n];
            assert n == Combine(o, left, right);
            assert Apply(o, before) == Ok(stack);
          }
      }
      i := i + 1;
    }
    assert ts[i..] == [];
    if |stack| != 1 {
      return Err(InvalidExpression);
    }
    r := Ok(stack[0]);
  }

  /** The postfix form of a tree: children left to right, then the node's own operator. */
  function Postfix(n: Ast.Node): (ts: seq<Token>)
    ensures NoValues(ts) && NoMarker(ts)
  {
    match n
    case Atom(s) => [Atom(s)]
    case Not(x) => Postfix(x) + [Op(Operators.Not)]
    case _ => Postfix(n.left) + Postfix(n.right) + [Op(OperatorOf(n))]
  }

  lemma PostfixCombine(o: Operators.Operator, l: Ast.Node, r: Ast.Node)
    requires Arity(o) == 2
    ensures Postfix(Combine(o, l, r)) == Postfix(l) + Postfix(r) + [Op(o)]
  {
  }

  /** One operator token read from the front of the rest of the input. */
  lemma ReduceOp(o: Operators.Operator, rest: seq<Token>, stack: seq<Ast.Node>)
    requires NoValues(rest) && Apply(o, stack).Ok?
    ensures NoValues([Op(o)] + rest)
    ensures Reduce([Op(o)] + rest, stack) == Reduce(rest, Apply(o, stack).value)
  {
    assert ([Op(o)] + rest)[1..] == rest;
  }

  /** Reducing the postfix form of a tree pushes exactly that tree, whatever lies below or follows. */
  lemma {:induction false} ReducePostfix(n: Ast.Node, rest: seq<Token>, stack: seq<Ast.Node>)
    requires NoValues(rest)
    ensures NoValues(Postfix(n) + rest)
    ensures Reduce(Postfix(n) + rest, stack) == Reduce(rest, stack + [n])
  {
    if n.Atom? {
      var ts := Postfix(n) + rest;
      assert ts[0] == Atom(n.name) && ts[1..] == rest;
      ReduceFirst(ts, stack);
    } else if n.Not? {
      var x, not := n.operand, [Op(Operators.Not)];
      SpellsAfter(Postfix(x), not, rest);
      ReduceOp(Operators.Not, rest, stack + [x]);
      ReducePostfix(x, not + rest, stack);
      assert (stack + [x])[..|stack|] == stack;
    } else {
      var l, r, o := n.left, n.right, OperatorOf(n);
      SpellsAfter(Postfix(l) + Postfix(r), [Op(o)], rest);
      SpellsAfter(Postfix(l), Postfix(r), [Op(o)] + rest);
      ReduceOp(o, rest, stack + [l] + [r]);
      ReducePostfix(r, [Op(o)] + rest, stack + [l]);
      ReducePostfix(l, Postfix(r) + ([Op(o)] + rest), stack);
      assert (stack + [l] + [r])[..|stack|] == stack;
    }
  }

  /** The builder inverts the postfix form: every tree comes back from its postfix tokens. */
  lemma BuildPostfix(n: Ast.Node)
    ensures Build(Postfix(n)) == Ok(n)
  {
    ReducePostfix(n, [], []);
    assert Postfix(n) + [] == Postfix(n);
  }

  /** The postfix forms of the trees on an operand stack, bottom first. */
  function Flatten(stack: seq<Ast.Node>): (ts: seq<Token>)
  {
    if stack == [] then [] else Flatten(stack[..|stack| - 1]) + Postfix(stack[|stack| - 1])
  }

  lemma FlattenPush(stack: seq<Ast.Node>, n: Ast.Node)
    ensures Flatten(stack + [n]) == Flatten(stack) + Postfix(n)
  {
    assert (stack + [n])[..|stack|] == stack;
  }

  /**
   * The flattened operand stack followed by the tokens still to read is the same at every
   * step, so a successful reduction ends with a stack whose postfix forms spell the input.
   */
  lemma {:induction false} ReduceSpells(ts: seq<Token>, stack: seq<Ast.Node>)
    requires NoValues(ts) && Reduce(ts, stack).Ok?
    ensures Flatten(stack) + ts == Flatten(Reduce(ts, stack).value)
  {
    if ts != [] {
      var next := Shift(ts[0], stack).value;
      ReduceFirst(ts, stack);
      ShiftSpells(ts[0], stack);
      ReduceSpells(ts[1..], next);
      SpellsAfter(Flatten(stack), [ts[0]], ts[1..]);
      assert [ts[0]] + ts[1..] == ts;
    }
  }

  /** One token read onto the operand stack: an atom is pushed, an operator applied. */
  function Shift(t: Token, stack: seq<Ast.Node>): Result<seq<Ast.Node>, ParseError>
    requires !t.Value?
  {
    if t.Atom? then Ok(stack + [Ast.Atom(t.name)]) else Apply(t.op, stack)
  }

  /** The reduction reads its first token and goes on with the rest, or stops at an error. */
  lemma ReduceFirst(ts: seq<Token>, stack: seq<Ast.Node>)
    requires NoValues(ts) && ts != []
    ensures NoValues(ts[1..])
    ensures Reduce(ts, stack) == match Shift(ts[0], stack)
      case Err(e) => Err(e)
      case Ok(next) => Reduce(ts[1..], next)
  {
  }

  /** A token read onto the stack is the token that the stack's postfix forms gain. */
  lemma ShiftSpells(t: Token, stack: seq<Ast.Node>)
    requires !t.Value? && Shift(t, stack).Ok?
    ensures Flatten(stack) + [t] == Flatten(Shift(t, stack).value)
  {
    if t.Atom? {
      FlattenPush(stack, Ast.Atom(t.name));
    } else {
      ApplySpells(t.op, stack);
    }
  }

  /** Applying an operator turns the postfix forms of its operands, then the operator, into one tree's. */
  lemma ApplySpells(o: Operators.Operator, stack: seq<Ast.Node>)
    requires Apply(o, stack).Ok?
    ensures Flatten(stack) + [Op(o)] == Flatten(Apply(o, stack).value)
  {
    if o == Operators.Not {
      NegationSpells(stack);
    } else {
      CombinationSpells(o, stack);
    }
  }

  lemma NegationSpells(stack: seq<Ast.Node>)
    requires |stack| >= 1
    ensures var x := stack[|stack| - 1];
      Flatten(stack) + [Op(Operators.Not)] == Flatten(stack[..|stack| - 1] + [Ast.Not(x)])
  {
    var below, x := stack[..|stack| - 1], stack[|stack| - 1];
    SpellsAfter(Flatten(below), Postfix(x), [Op(Operators.Not)]);
    FlattenPush(below, Ast.Not(x));
  }

  lemma CombinationSpells(o: Operators.Operator, stack: seq<Ast.Node>)
    requires Arity(o) == 2 && |stack| >= 2
    ensures var l, r := stack[|stack| - 2], stack[|stack| - 1];
      Flatten(stack) + [Op(o)] == Flatten(stack[..|stack| - 2] + [Combine(o, l, r)])
  {
    var below, l, r := stack[..|stack| - 2], stack[|stack| - 2], stack[|stack| - 1];
    FlattenTopTwo(stack);
    SpellsAfter(Flatten(below) + Postfix(l), Postfix(r), [Op(o)]);
    SpellsAfter(Flatten(below), Postfix(l), Postfix(r) + [Op(o)]);
    PostfixCombine(o, l, r);
    FlattenPush(below, Combine(o, l, r));
  }

  lemma FlattenTopTwo(stack: seq<Ast.Node>)
    requires |stack| >= 2
    ensures Flatten(stack) == Flatten(stack[..|stack| - 2]) + Postfix(stack[|stack| - 2]) + Postfix(stack[|stack| - 1])
  {
    assert stack[..|stack| - 1][..|stack| - 2] == stack[..|stack| - 2];
  }

  lemma SpellsAfter(a: seq<Token>, b: seq<Token>, c: seq<Token>)
    ensures (a + b) + c == a + (b + c)
  {
  }

  /** A tree is built only from its own postfix form: the postfix form is the unique input for it. */
  lemma BuildOnlyFromPostfix(ts: seq<Token>, n: Ast.Node)
    requires NoValues(ts) && Build(ts) == Ok(n)
    ensures ts == Postfix(n)
  {
    ReduceSpells(ts, []);
    var fin := Reduce(ts, []).value;
    assert fin == [n];
    assert [] + ts == ts;
    assert Flatten(fin) == Flatten([]) + Postfix(n);
  }

  /** The change in operand-stack height a token makes: +1 for an atom, -1 for a binary operator. */
  function Effect(t: Token): int
  {
    match t
    case Atom(_) => 1
    case Op(o) => 1 - Arity(o)
    case Value(_) => 1
  }

  /** The operand-stack height after a run of tokens, counted from zero. */
  function Height(ts: seq<Token>): int
  {
    if ts == [] then 0 else Effect(ts[0]) + Height(ts[1..])
  }

  /**
   * The token at `i` can be applied: it is not a marker, and the stack reached so far holds
   * the operands it takes.
   */
  predicate Fits(ts: seq<Token>, base: int, i: nat)
    requires i < |ts|
  {
    ts[i].Op? ==> ts[i].op != Operators.Parenthesis && Arity(ts[i].op) <= base + Height(ts[..i])
  }

  /**
   * The reduction succeeds exactly when no token is a marker and no pop underflows, and then
   * the stack has grown by the height of the tokens.
   */
  lemma {:induction false} ReduceOkIff(ts: seq<Token>, stack: seq<Ast.Node>)
    requires NoValues(ts)
    ensures Reduce(ts, stack).Ok? <==> forall i :: 0 <= i < |ts| ==> Fits(ts, |stack|, i)
    ensures Reduce(ts, stack).Ok? ==> |Reduce(ts, stack).value| == |stack| + Height(ts)
  {
    if ts != [] {
      var t := ts[0];
      var rest := ts[1..];
      forall i | 0 <= i < |rest|
        ensures ts[..i + 1][1..] == rest[..i]
        ensures Height(ts[..i + 1]) == Effect(t) + Height(rest[..i])
      {
        assert ts[..i + 1][0] == t;
      }
      assert Height(ts[..0]) == 0;
      var ok := t.Op? && Apply(t.op, stack).Ok?;
      if t.Op? && !ok {
        assert !Fits(ts, |stack|, 0);
      } else {
        var next := if t.Atom? then stack + [Ast.Atom(t.name)] else Apply(t.op, stack).value;
        assert |next| == |stack| + Effect(t);
        ReduceOkIff(rest, next);
        assert Reduce(ts, stack) == Reduce(rest, next);
        assert Fits(ts, |stack|, 0);
        forall i | 0 <= i < |rest|
          ensures Fits(ts, |stack|, i + 1) == Fits(rest, |next|, i)
        {
        }
        if forall i :: 0 <= i < |rest| ==> Fits(rest, |next|, i) {
          forall i | 0 <= i < |ts|
            ensures Fits(ts, |stack|, i)
          {
            if i > 0 {
              assert Fits(rest, |next|, i - 1);
            }
          }
        } else {
          var i :| 0 <= i < |rest| && !Fits(rest, |next|, i);
          assert !Fits(ts, |stack|, i + 1);
        }
      }
    }
  }

  /** A token run is accepted exactly when no step underflows, no marker appears, and the height ends at one. */
  lemma BuildOkIff(ts: seq<Token>)
    requires NoValues(ts)
    ensures Build(ts).Ok? <==> (forall i :: 0 <= i < |ts| ==> Fits(ts, 0, i)) && Height(ts) == 1
  {
    ReduceOkIff(ts, []);
  }

  /** The variables of a tree: the atom names among its proper descendants (`parse`). */
  method Parse(ts: seq<Token>) returns (r: Result<Ast.Formula, ParseError>)
    requires NoValues(ts)
    ensures r.Ok? <==> Build(ts).Ok?
    ensures r.Err? ==> r.error == Build(ts).error
    ensures r.Ok? ==> r.value.root == Build(ts).value && r.value.variables == Ast.Variables(r.value.root)
  {
    var root := ParseExpr(ts);
    if root.Err? {
      return Err(root.error);
    }
    var children := Ast.Children(root.value);
    var variables := set d | d in children && d.Atom? :: d.name;
    r := Ok(Ast.Formula(root.value, variables));
  }
}
