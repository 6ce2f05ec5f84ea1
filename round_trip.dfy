/**
 * Printing a tree and reading the text back with lib.rs's tokenizer and builder. The printer
 * of lib.rs prints the right child of a binary node against the node's own precedence, so a
 * right child of the same level loses its parentheses and is read back grouped to the left:
 * `a -> (b -> c)` prints as `a -> b -> c`, which lib.rs reads as `(a -> b) -> c`. The
 * corrected printer `PrintFixed` prints the right child against a higher bound, and for it
 * the text reads back to the very tree printed.
 */
module RoundTrip {
  import opened Options
  import opened Operators
  import opened OperatorStack
  import opened Tokens
  import opened Tokenizer
  import Ast
  import Parser

  /**
   * The bound the right child of a binary node is printed against: one above the node's own
   * precedence, and above If for Iff, since the tokenizer gives If and Iff the same level.
   */
  function RightBound(n: Ast.Node): (b: nat)
    requires !n.Atom? && !n.Not?
    ensures b > Ast.Precedence(n)
  {
    if n.Iff? then 2 else Ast.Precedence(n) + 1
  }

  /** `fmt_with_precedence` with the right child printed against `RightBound`. */
  function PrintFixed(n: Ast.Node, parent: nat): string
  {
    var p := Ast.Precedence(n);
    var body :=
      match n
      case Atom(s) => s
      case Not(x) => "~" + PrintFixed(x, p)
      case _ => PrintFixed(n.left, p) + Ast.Symbol(n) + PrintFixed(n.right, RightBound(n));
    if p < parent then "(" + body + ")" else body
  }

  function ToStringFixed(n: Ast.Node): string
  {
    PrintFixed(n, 0)
  }

  /** Every atom is a one-character name that the tokenizer reads as an operand. */
  predicate PlainAtoms(n: Ast.Node)
  {
    match n
    case Atom(s) => |s| == 1 && Plain(s[0])
    case Not(x) => PlainAtoms(x)
    case _ => PlainAtoms(n.left) && PlainAtoms(n.right)
  }

  /** The printing precedence of the node an operator builds. */
  function PrintLevel(o: Operator): (p: nat)
    ensures o != Parenthesis && o != Not ==> p < 4
  {
    match o
    case Not => 4
    case And => 3
    case Or => 2
    case If => 1
    case Iff => 0
    case Parenthesis => 5
  }

  /** The text `t` sits in `s` at `i`. */
  predicate Within(s: string, i: nat, t: string)
  {
    i + |t| <= |s| && s[i..i + |t|] == t
  }

  lemma WithinConcat(s: string, i: nat, j: nat, a: string, b: string)
    requires Within(s, i, a + b) && j == i + |a|
    ensures Within(s, i, a) && Within(s, j, b)
  {
    var whole := s[i..i + |a| + |b|];
    assert s[i..i + |a|] == whole[..|a|] == (a + b)[..|a|] == a;
    assert s[i + |a|..i + |a| + |b|] == whole[|a|..] == (a + b)[|a|..] == b;
  }

  lemma WithinFirst(s: string, i: nat, t: string)
    requires Within(s, i, t) && 0 < |t|
    ensures s[i] == t[0]
  {
    assert s[i] == s[i..i + |t|][0];
  }

  lemma WithinAt(s: string, i: nat, t: string, k: nat)
    requires Within(s, i, t) && k < |t|
    ensures s[i + k] == t[k]
  {
    assert s[i + k] == s[i..i + |t|][k];
  }

  lemma Associative<T>(a: seq<T>, b: seq<T>, c: seq<T>)
    ensures a + b + c == a + (b + c)
  {
  }

  lemma OpTokensOne(o: Operator)
    ensures OpTokens([o]) == [Op(o)]
  {
  }

  /**
   * The operator stack below a printed subtree never pops before an operator of the
   * subtree's top level, that is one printed at level `b` or above.
   */
  predicate Guard(stack: seq<Operator>, b: nat)
  {
    |stack| == 0 || forall o :: o != Parenthesis && PrintLevel(o) >= b ==> !PopsBefore(stack[|stack| - 1], o)
  }

  /** An operator printed at the level of a binary operator or above pops before it. */
  lemma LevelPops(x: Operator, m: Operator)
    requires x != Parenthesis && m != Parenthesis && m != Not && PrintLevel(x) >= PrintLevel(m)
    ensures PopsBefore(x, m)
  {
  }

  /** After a binary operator is pushed, it stays below what its right child puts above it. */
  lemma GuardRight(n: Ast.Node, stack: seq<Operator>)
    requires !n.Atom? && !n.Not?
    ensures Guard(stack + [Parser.OperatorOf(n)], RightBound(n))
  {
    assert (stack + [Parser.OperatorOf(n)])[|stack|] == Parser.OperatorOf(n);
  }

  /** A `(` or a `~` pushed on any stack does not pop before what follows it. */
  lemma GuardPushed(stack: seq<Operator>, o: Operator, b: nat)
    requires o == Parenthesis || (o == Not && b == 4)
    ensures Guard(stack + [o], b)
  {
    assert (stack + [o])[|stack|] == o;
  }

  lemma OperatorLevel(n: Ast.Node)
    requires !n.Atom? && !n.Not?
    ensures PrintLevel(Parser.OperatorOf(n)) == Ast.Precedence(n)
  {
  }

  /** Operators that all pop before `o`, above a top that does not, are popped exactly. */
  lemma {:induction false} PopForAbove(stack: seq<Operator>, pend: seq<Operator>, o: Operator)
    requires forall x :: x in pend ==> PopsBefore(x, o)
    requires |stack| == 0 || !PopsBefore(stack[|stack| - 1], o)
    ensures PopFor(stack + pend, o) == (Reverse(pend), stack)
    decreases |pend|
  {
    if pend == [] {
      assert stack + pend == stack;
    } else {
      var init := pend[..|pend| - 1];
      PopForAbove(stack, init, o);
      assert (stack + pend)[..|stack + pend| - 1] == stack + init;
    }
  }

  /** A `)` outputs the operators above the marker, top first, and removes the marker. */
  lemma {:induction false} CloseAbove(stack: seq<Operator>, pend: seq<Operator>)
    requires Parenthesis !in pend
    ensures Close(stack + [Parenthesis] + pend) == (Reverse(pend), stack)
    decreases |pend|
  {
    if pend == [] {
      assert stack + [Parenthesis] + pend == stack + [Parenthesis];
      assert (stack + [Parenthesis])[..|stack|] == stack;
    } else {
      var init := pend[..|pend| - 1];
      CloseAbove(stack, init);
      assert (stack + [Parenthesis] + pend)[..|stack| + |pend|] == stack + [Parenthesis] + init;
    }
  }

  /** A turn of the loop leaves the rest of the scan to the state it reaches. */
  lemma ScanTurn(s: string, st: State)
    requires st.pos < |s|
    ensures Scan(s, st) == Scan(s, Step(s, st))
  {
  }

  lemma StepOperand(s: string, i: nat, j: nat, out: seq<Token>, stack: seq<Operator>)
    requires i < |s| && Plain(s[i]) && j == i + 1
    ensures Step(s, State(i, out, stack)) == State(j, out + [Atom([s[i]])], stack)
  {
    assert FromChar(s[i]) == None;
    assert Lexeme(s, i) == (None, i);
  }

  lemma StepNegation(s: string, i: nat, out: seq<Token>, stack: seq<Operator>)
    requires i < |s| && s[i] == '~'
    ensures Step(s, State(i, out, stack)) == State(i + 1, out, stack + [Not])
  {
    assert Lexeme(s, i) == (Some(Not), i);
    assert PopFor(stack, Not) == ([], stack);
  }

  lemma StepOpen(s: string, i: nat, out: seq<Token>, stack: seq<Operator>)
    requires i < |s| && s[i] == '('
    ensures Step(s, State(i, out, stack)) == State(i + 1, out, stack + [Parenthesis])
  {
  }

  lemma StepClose(s: string, i: nat, j: nat, out: seq<Token>, stack: seq<Operator>, pend: seq<Operator>)
    requires i < |s| && s[i] == ')' && Parenthesis !in pend && j == i + 1
    ensures Step(s, State(i, out, stack + [Parenthesis] + pend))
      == State(j, out + OpTokens(Reverse(pend)), stack)
  {
    CloseAbove(stack, pend);
  }

  lemma StepSpace(s: string, i: nat, out: seq<Token>, stack: seq<Operator>)
    requires i < |s| && s[i] == ' '
    ensures Step(s, State(i, out, stack)) == State(i + 1, out, stack)
  {
  }

  /** `&` and `|` followed by a space: the operator is pushed and the space passed over. */
  lemma StepSingleSign(s: string, k: nat, j: nat, out: seq<Token>, stack: seq<Operator>, o: Operator)
    requires k + 2 <= |s| && s[k + 1] == ' ' && j == k + 2
    requires (o == And && s[k] == '&') || (o == Or && s[k] == '|')
    ensures Step(s, State(k, out, stack))
      == State(j, out + OpTokens(PopFor(stack, o).0), PopFor(stack, o).1 + [o])
  {
    assert Lexeme(s, k) == (Some(o), k + 1);
  }

  /** `->` followed by a space. */
  lemma StepArrow(s: string, k: nat, j: nat, out: seq<Token>, stack: seq<Operator>)
    requires k + 3 <= |s| && s[k] == '-' && s[k + 1] == '>' && s[k + 2] == ' ' && j == k + 3
    ensures Step(s, State(k, out, stack))
      == State(j, out + OpTokens(PopFor(stack, If).0), PopFor(stack, If).1 + [If])
  {
    assert Lexeme(s, k) == (Some(If), k + 2);
  }

  /** `<->` followed by a space. */
  lemma StepDoubleArrow(s: string, k: nat, j: nat, out: seq<Token>, stack: seq<Operator>)
    requires k + 4 <= |s| && s[k] == '<' && s[k + 1] == '-' && s[k + 2] == '>' && s[k + 3] == ' ' && j == k + 4
    ensures Step(s, State(k, out, stack))
      == State(j, out + OpTokens(PopFor(stack, Iff).0), PopFor(stack, Iff).1 + [Iff])
  {
    assert Lexeme(s, k) == (Some(Iff), k + 3);
  }

  /** The width of the symbol of a binary node, its spaces included. */
  function SymbolWidth(n: Ast.Node): (w: nat)
    requires !n.Atom? && !n.Not?
    ensures w == |Ast.Symbol(n)|
  {
    match n
    case And(_, _) => 3
    case Or(_, _) => 3
    case If(_, _) => 4
    case Iff(_, _) => 5
  }

  /** The length of the text `PrintFixed` gives, counted on the tree. */
  function Width(n: Ast.Node, b: nat): nat
    decreases n, if Ast.Precedence(n) < b then 1 else 0
  {
    var p := Ast.Precedence(n);
    if p < b then Width(n, p) + 2
    else
      match n
      case Atom(name) => |name|
      case Not(x) => 1 + Width(x, p)
      case _ => Width(n.left, p) + SymbolWidth(n) + Width(n.right, RightBound(n))
  }

  lemma {:induction false} WidthIsLength(n: Ast.Node, b: nat)
    ensures |PrintFixed(n, b)| == Width(n, b)
    decreases n, if Ast.Precedence(n) < b then 1 else 0
  {
    var p := Ast.Precedence(n);
    if p < b {
      WidthIsLength(n, p);
    } else if n.Not? {
      WidthIsLength(n.operand, p);
    } else if !n.Atom? {
      WidthIsLength(n.left, p);
      WidthIsLength(n.right, RightBound(n));
    }
  }

  /** The symbol of a binary node sits in `s` at `k`. */
  predicate SymbolAt(s: string, k: nat, n: Ast.Node)
    requires !n.Atom? && !n.Not?
  {
    k + SymbolWidth(n) <= |s| && s[k] == ' ' && s[k + SymbolWidth(n) - 1] == ' '
    && match n
      case And(_, _) => s[k + 1] == '&'
      case Or(_, _) => s[k + 1] == '|'
      case If(_, _) => s[k + 1] == '-' && s[k + 2] == '>'
      case Iff(_, _) => s[k + 1] == '<' && s[k + 2] == '-' && s[k + 3] == '>'
  }

  /**
   * The text `PrintFixed(n, b)` sits in `s` at `i`, read off the tree: parentheses around a
   * node that binds more loosely than `b`, then the node's own characters, its atoms plain.
   */
  predicate Printed(s: string, i: nat, n: Ast.Node, b: nat)
    decreases n, if Ast.Precedence(n) < b then 1 else 0
  {
    var p := Ast.Precedence(n);
    if p < b then
      i + Width(n, p) + 2 <= |s| && s[i] == '(' && Printed(s, i + 1, n, p) && s[i + 1 + Width(n, p)] == ')'
    else
      match n
      case Atom(name) => i < |s| && name == [s[i]] && Plain(s[i])
      case Not(x) => i < |s| && s[i] == '~' && Printed(s, i + 1, x, p)
      case _ =>
        Printed(s, i, n.left, p) && SymbolAt(s, i + Width(n.left, p), n)
        && Printed(s, i + Width(n.left, p) + SymbolWidth(n), n.right, RightBound(n))
  }

  lemma {:induction false} PrintedFits(s: string, i: nat, n: Ast.Node, b: nat)
    requires Printed(s, i, n, b)
    ensures i + Width(n, b) <= |s|
    decreases n, if Ast.Precedence(n) < b then 1 else 0
  {
    var p := Ast.Precedence(n);
    if p >= b && n.Not? {
      PrintedFits(s, i + 1, n.operand, p);
    } else if p >= b && !n.Atom? {
      PrintedFits(s, i + Width(n.left, p) + SymbolWidth(n), n.right, RightBound(n));
    }
  }

  lemma SymbolWithin(s: string, k: nat, n: Ast.Node)
    requires !n.Atom? && !n.Not? && Within(s, k, Ast.Symbol(n))
    ensures SymbolAt(s, k, n)
  {
    var t := Ast.Symbol(n);
    WithinAt(s, k, t, 0);
    WithinAt(s, k, t, 1);
    WithinAt(s, k, t, 2);
    WithinAt(s, k, t, |t| - 1);
    if n.Iff? || n.If? {
      WithinAt(s, k, t, 3);
    }
  }

  lemma PrintedParenthesised(s: string, i: nat, n: Ast.Node, b: nat)
    requires Ast.Precedence(n) < b && i + Width(n, Ast.Precedence(n)) + 2 <= |s|
    requires s[i] == '(' && Printed(s, i + 1, n, Ast.Precedence(n)) && s[i + 1 + Width(n, Ast.Precedence(n))] == ')'
    ensures Printed(s, i, n, b)
  {
  }

  lemma PrintedNegated(s: string, i: nat, n: Ast.Node, b: nat)
    requires n.Not? && b <= 4 && i < |s| && s[i] == '~' && Printed(s, i + 1, n.operand, 4)
    ensures Printed(s, i, n, b)
  {
  }

  lemma PrintedBinary(s: string, i: nat, k: nat, k': nat, n: Ast.Node, b: nat)
    requires !n.Atom? && !n.Not? && b <= Ast.Precedence(n)
    requires k == i + Width(n.left, Ast.Precedence(n)) && k' == k + SymbolWidth(n)
    requires Printed(s, i, n.left, Ast.Precedence(n)) && SymbolAt(s, k, n) && Printed(s, k', n.right, RightBound(n))
    ensures Printed(s, i, n, b)
  {
  }

  /** The parts of the printed text of a binary node, and its width. */
  lemma BinaryParts(s: string, i: nat, n: Ast.Node, b: nat)
    requires !n.Atom? && !n.Not? && b <= Ast.Precedence(n) && Printed(s, i, n, b)
    ensures var p := Ast.Precedence(n);
      && Width(n, b) == Width(n.left, p) + SymbolWidth(n) + Width(n.right, RightBound(n))
      && Printed(s, i, n.left, p) && SymbolAt(s, i + Width(n.left, p), n)
      && Printed(s, i + Width(n.left, p) + SymbolWidth(n), n.right, RightBound(n))
  {
  }

  /** The text of `PrintFixed` anywhere in `s` is `Printed` there. */
  lemma {:induction false} WithinIsPrinted(s: string, i: nat, n: Ast.Node, b: nat)
    requires PlainAtoms(n) && Within(s, i, PrintFixed(n, b))
    ensures Printed(s, i, n, b)
    decreases n, if Ast.Precedence(n) < b then 1 else 0, 1
  {
    var p := Ast.Precedence(n);
    if p < b {
      WithinParenthesised(s, i, n, b);
    } else if n.Atom? {
      WithinFirst(s, i, n.name);
      assert n.name == [s[i]];
    } else if n.Not? {
      WithinNegated(s, i, n, b);
    } else {
      WithinBinary(s, i, n, b);
    }
  }

  lemma {:induction false} WithinParenthesised(s: string, i: nat, n: Ast.Node, b: nat)
    requires Ast.Precedence(n) < b && PlainAtoms(n) && Within(s, i, PrintFixed(n, b))
    ensures Printed(s, i, n, b)
    decreases n, 1, 0
  {
    var p := Ast.Precedence(n);
    var inner, w := PrintFixed(n, p), Width(n, p);
    WidthIsLength(n, p);
    assert PrintFixed(n, b) == "(" + inner + ")";
    var close := i + 1 + w;
    WithinConcat(s, i, close, "(" + inner, ")");
    WithinConcat(s, i, i + 1, "(", inner);
    WithinFirst(s, i, "(");
    WithinFirst(s, close, ")");
    WithinIsPrinted(s, i + 1, n, p);
    PrintedParenthesised(s, i, n, b);
  }

  lemma {:induction false} WithinNegated(s: string, i: nat, n: Ast.Node, b: nat)
    requires n.Not? && b <= Ast.Precedence(n) && PlainAtoms(n) && Within(s, i, PrintFixed(n, b))
    ensures Printed(s, i, n, b)
    decreases n, 0, 0
  {
    var inner := PrintFixed(n.operand, 4);
    assert PrintFixed(n, b) == "~" + inner;
    WithinConcat(s, i, i + 1, "~", inner);
    WithinFirst(s, i, "~");
    WithinIsPrinted(s, i + 1, n.operand, 4);
    PrintedNegated(s, i, n, b);
  }

  lemma {:induction false} WithinBinary(s: string, i: nat, n: Ast.Node, b: nat)
    requires !n.Atom? && !n.Not? && b <= Ast.Precedence(n) && PlainAtoms(n) && Within(s, i, PrintFixed(n, b))
    ensures Printed(s, i, n, b)
    decreases n, 0, 0
  {
    var p := Ast.Precedence(n);
    var tl, sym, tr := PrintFixed(n.left, p), Ast.Symbol(n), PrintFixed(n.right, RightBound(n));
    assert PrintFixed(n, b) == tl + sym + tr;
    WidthIsLength(n.left, p);
    var k := i + Width(n.left, p);
    var k' := k + SymbolWidth(n);
    WithinConcat(s, i, k', tl + sym, tr);
    WithinConcat(s, i, k, tl, sym);
    WithinIsPrinted(s, i, n.left, p);
    SymbolWithin(s, k, n);
    WithinIsPrinted(s, k', n.right, RightBound(n));
    PrintedBinary(s, i, k, k', n, b);
  }

  /**
   * The operators reading the text of `n` printed against `b` leaves on the stack: the Not
   * and binary operators along the right spine of the unparenthesised top.
   */
  function Pending(n: Ast.Node, b: nat): seq<Operator>
  {
    var p := Ast.Precedence(n);
    if p < b then []
    else
      match n
      case Atom(_) => []
      case Not(x) => [Not] + Pending(x, p)
      case _ => [Parser.OperatorOf(n)] + Pending(n.right, RightBound(n))
  }

  /** The tokens reading the text of `n` printed against `b` outputs. */
  function Emitted(n: Ast.Node, b: nat): seq<Token>
  {
    var p := Ast.Precedence(n);
    if p < b then Parser.Postfix(n)
    else
      match n
      case Atom(name) => [Atom(name)]
      case Not(x) => Emitted(x, p)
      case _ => Emitted(n.left, p) + OpTokens(Reverse(Pending(n.left, p))) + Emitted(n.right, RightBound(n))
  }

  /**
   * The operators left pending are all of the subtree's top level or above, so the operator
   * that follows the subtree in the text pops every one of them.
   */
  lemma {:induction false} PendingLevels(n: Ast.Node, b: nat)
    ensures forall x :: x in Pending(n, b) ==> x != Parenthesis && PrintLevel(x) >= b
  {
    var p := Ast.Precedence(n);
    if p >= b && n.Not? {
      PendingLevels(n.operand, p);
    } else if p >= b && !n.Atom? {
      PendingLevels(n.right, RightBound(n));
      OperatorLevel(n);
    }
  }

  lemma AppendNothing<T>(a: seq<T>)
    ensures a + [] == a && [] + a == a
  {
  }

  /** Draining the pending operators after the emitted tokens gives the postfix form. */
  lemma {:induction false} Drain(n: Ast.Node, b: nat)
    ensures Emitted(n, b) + OpTokens(Reverse(Pending(n, b))) == Parser.Postfix(n)
  {
    var p := Ast.Precedence(n);
    if p < b || n.Atom? {
      assert OpTokens(Reverse(Pending(n, b))) == [];
      AppendNothing(Emitted(n, b));
    } else if n.Not? {
      Drain(n.operand, p);
      DrainNegated(Emitted(n.operand, p), Pending(n.operand, p), Parser.Postfix(n.operand));
    } else {
      var rb := RightBound(n);
      Drain(n.left, p);
      Drain(n.right, rb);
      DrainBinary(Emitted(n.left, p), Pending(n.left, p), Emitted(n.right, rb), Pending(n.right, rb),
                  Parser.OperatorOf(n), Parser.Postfix(n.left), Parser.Postfix(n.right));
    }
  }

  lemma DrainNegated(e: seq<Token>, q: seq<Operator>, post: seq<Token>)
    requires e + OpTokens(Reverse(q)) == post
    ensures e + OpTokens(Reverse([Not] + q)) == post + [Op(Not)]
  {
    ReverseAppend([Not], q);
    OpTokensAppend(Reverse(q), [Not]);
    OpTokensOne(Not);
    Associative(e, OpTokens(Reverse(q)), [Op(Not)]);
  }

  lemma DrainBinary(el: seq<Token>, ql: seq<Operator>, er: seq<Token>, qr: seq<Operator>, m: Operator,
                    pl: seq<Token>, pr: seq<Token>)
    requires el + OpTokens(Reverse(ql)) == pl && er + OpTokens(Reverse(qr)) == pr
    ensures el + OpTokens(Reverse(ql)) + er + OpTokens(Reverse([m] + qr)) == pl + pr + [Op(m)]
  {
    ReverseAppend([m], qr);
    OpTokensAppend(Reverse(qr), [m]);
    OpTokensOne(m);
    var dr := OpTokens(Reverse(qr));
    Associative(pl, er, dr + [Op(m)]);
    Associative(er, dr, [Op(m)]);
    Associative(pl, pr, [Op(m)]);
  }

  /** The printed symbol of a binary node is read as its operator, with nothing else lost. */
  lemma ScanSymbol(n: Ast.Node, s: string, k: nat, j: nat, out: seq<Token>, stack: seq<Operator>)
    requires !n.Atom? && !n.Not? && SymbolAt(s, k, n) && j == k + SymbolWidth(n)
    ensures var o := Parser.OperatorOf(n);
      Scan(s, State(k, out, stack)) == Scan(s, State(j, out + OpTokens(PopFor(stack, o).0), PopFor(stack, o).1 + [o]))
  {
    StepSpace(s, k, out, stack);
    if n.And? {
      StepSingleSign(s, k + 1, j, out, stack, And);
    } else if n.Or? {
      StepSingleSign(s, k + 1, j, out, stack, Or);
    } else if n.If? {
      StepArrow(s, k + 1, j, out, stack);
    } else {
      StepDoubleArrow(s, k + 1, j, out, stack);
    }
    ScanTurn(s, State(k, out, stack));
    ScanTurn(s, State(k + 1, out, stack));
  }

  /**
   * Reading the printed text of a subtree, from `i` to its end `j`, over a stack whose top
   * does not pop before the subtree's operators, outputs `Emitted` and leaves `Pending` above
   * the stack.
   */
  lemma {:induction false} ScanPrinted(n: Ast.Node, b: nat, s: string, i: nat, j: nat, out: seq<Token>, stack: seq<Operator>)
    requires Printed(s, i, n, b) && j == i + Width(n, b) && Guard(stack, b)
    ensures j <= |s|
    ensures Scan(s, State(i, out, stack)) == Scan(s, State(j, out + Emitted(n, b), stack + Pending(n, b)))
    decreases n, if Ast.Precedence(n) < b then 1 else 0, 2
  {
    PrintedFits(s, i, n, b);
    var p := Ast.Precedence(n);
    if p < b {
      ScanParenthesised(n, b, s, i, j, out, stack);
      AppendNothing(stack);
    } else if n.Atom? {
      StepOperand(s, i, j, out, stack);
      ScanTurn(s, State(i, out, stack));
      AppendNothing(stack);
    } else if n.Not? {
      ScanNegated(n, b, s, i, j, out, stack);
    } else {
      ScanBinary(n, b, s, i, j, out, stack);
    }
  }

  /** A parenthesised subtree: the marker shields the stack below, and `)` drains down to it. */
  lemma {:induction false} ScanParenthesised(n: Ast.Node, b: nat, s: string, i: nat, j: nat, out: seq<Token>, stack: seq<Operator>)
    requires Ast.Precedence(n) < b && Printed(s, i, n, b) && j == i + Width(n, b)
    ensures Scan(s, State(i, out, stack)) == Scan(s, State(j, out + Parser.Postfix(n), stack))
    decreases n, 1, 0
  {
    var p := Ast.Precedence(n);
    var c := i + 1 + Width(n, p);
    var e, q := Emitted(n, p), Pending(n, p);
    ParenthesisedParts(s, i, n, b);
    PendingLevels(n, p);
    GuardPushed(stack, Parenthesis, p);
    StepOpen(s, i, out, stack);
    StepClose(s, c, j, out + e, stack, q);
    Drain(n, p);
    Associative(out, e, OpTokens(Reverse(q)));
    ScanPrinted(n, p, s, i + 1, c, out, stack + [Parenthesis]);
    ScanTurn(s, State(i, out, stack));
    ScanTurn(s, State(c, out + e, stack + [Parenthesis] + q));
  }

  /** The parts of the printed text of a parenthesised node, and its width. */
  lemma ParenthesisedParts(s: string, i: nat, n: Ast.Node, b: nat)
    requires Ast.Precedence(n) < b && Printed(s, i, n, b)
    ensures var p := Ast.Precedence(n);
      && Width(n, b) == Width(n, p) + 2 && i + Width(n, p) + 2 <= |s|
      && s[i] == '(' && Printed(s, i + 1, n, p) && s[i + 1 + Width(n, p)] == ')'
  {
  }

  /** `~` and its operand: Not waits on the stack above whatever the operand leaves there. */
  lemma {:induction false} ScanNegated(n: Ast.Node, b: nat, s: string, i: nat, j: nat, out: seq<Token>, stack: seq<Operator>)
    requires n.Not? && b <= Ast.Precedence(n) && Printed(s, i, n, b) && j == i + Width(n, b) && Guard(stack, b)
    ensures j <= |s|
    ensures Scan(s, State(i, out, stack)) == Scan(s, State(j, out + Emitted(n, b), stack + Pending(n, b)))
    decreases n, 0, 0
  {
    PrintedFits(s, i, n, b);
    var x := n.operand;
    StepNegation(s, i, out, stack);
    GuardPushed(stack, Not, 4);
    ScanPrinted(x, 4, s, i + 1, j, out, stack + [Not]);
    ScanTurn(s, State(i, out, stack));
    Associative(stack, [Not], Pending(x, 4));
  }

  /** The binary case of `ScanPrinted`: left child and symbol, then right child. */
  lemma {:induction false} ScanBinary(n: Ast.Node, b: nat, s: string, i: nat, j: nat, out: seq<Token>, stack: seq<Operator>)
    requires !n.Atom? && !n.Not? && b <= Ast.Precedence(n) && Printed(s, i, n, b) && j == i + Width(n, b)
    requires Guard(stack, b)
    ensures j <= |s|
    ensures Scan(s, State(i, out, stack)) == Scan(s, State(j, out + Emitted(n, b), stack + Pending(n, b)))
    decreases n, 0, 1
  {
    PrintedFits(s, i, n, b);
    BinaryParts(s, i, n, b);
    var p, m, rb := Ast.Precedence(n), Parser.OperatorOf(n), RightBound(n);
    var k' := i + Width(n.left, p) + SymbolWidth(n);
    var l := Emitted(n.left, p) + OpTokens(Reverse(Pending(n.left, p)));
    GuardRight(n, stack);
    ScanPrinted(n.right, rb, s, k', j, out + l, stack + [m]);
    ScanLeft(n, b, s, i, k', out, stack);
    BinaryPending(n, b);
    Associative(stack, [m], Pending(n.right, rb));
    Associative(out, l, Emitted(n.right, rb));
  }

  /**
   * The left child of a binary node and the node's symbol: the operators the left child leaves
   * pending are popped by the node's operator, which is pushed in their place.
   */
  lemma {:induction false} ScanLeft(n: Ast.Node, b: nat, s: string, i: nat, k': nat, out: seq<Token>, stack: seq<Operator>)
    requires !n.Atom? && !n.Not? && b <= Ast.Precedence(n) && Printed(s, i, n, b)
    requires k' == i + Width(n.left, Ast.Precedence(n)) + SymbolWidth(n) && Guard(stack, b)
    ensures k' <= |s|
    ensures var p := Ast.Precedence(n);
      Scan(s, State(i, out, stack))
      == Scan(s, State(k', out + (Emitted(n.left, p) + OpTokens(Reverse(Pending(n.left, p)))), stack + [Parser.OperatorOf(n)]))
    decreases n, 0, 0
  {
    BinaryParts(s, i, n, b);
    var p := Ast.Precedence(n);
    var k := i + Width(n.left, p);
    var el, ql := Emitted(n.left, p), Pending(n.left, p);
    PendingLevels(n.left, p);
    ScanSymbolOver(n, b, s, k, k', out + el, stack, ql);
    ScanPrinted(n.left, p, s, i, k, out, stack);
    Associative(out, el, OpTokens(Reverse(ql)));
  }

  /**
   * The symbol of a binary node, read over operators `pend` of its level or above: they are
   * output top first and the node's operator takes their place.
   */
  lemma ScanSymbolOver(n: Ast.Node, b: nat, s: string, k: nat, k': nat, out: seq<Token>, stack: seq<Operator>, pend: seq<Operator>)
    requires !n.Atom? && !n.Not? && b <= Ast.Precedence(n) && Guard(stack, b)
    requires SymbolAt(s, k, n) && k' == k + SymbolWidth(n)
    requires forall x :: x in pend ==> x != Parenthesis && PrintLevel(x) >= Ast.Precedence(n)
    ensures Scan(s, State(k, out, stack + pend))
      == Scan(s, State(k', out + OpTokens(Reverse(pend)), stack + [Parser.OperatorOf(n)]))
  {
    var m := Parser.OperatorOf(n);
    OperatorLevel(n);
    forall x | x in pend
      ensures PopsBefore(x, m)
    {
      LevelPops(x, m);
    }
    PopForAbove(stack, pend, m);
    ScanSymbol(n, s, k, k', out, stack + pend);
  }

  /** What a binary node emits and leaves pending, in terms of its children. */
  lemma BinaryPending(n: Ast.Node, b: nat)
    requires !n.Atom? && !n.Not? && b <= Ast.Precedence(n)
    ensures var p, rb := Ast.Precedence(n), RightBound(n);
      && Emitted(n, b) == Emitted(n.left, p) + OpTokens(Reverse(Pending(n.left, p))) + Emitted(n.right, rb)
      && Pending(n, b) == [Parser.OperatorOf(n)] + Pending(n.right, rb)
  {
  }

  /**
   * The round trip of the corrected printer: the text of any tree whose atoms are plain
   * one-character names tokenizes to the tree's postfix form and is built back into the tree.
   */
  lemma RoundTrip(n: Ast.Node)
    requires PlainAtoms(n)
    ensures Tokenize(ToStringFixed(n)) == Parser.Postfix(n)
    ensures Parser.Build(Tokenize(ToStringFixed(n))) == Ok(n)
  {
    var s := ToStringFixed(n);
    assert s[0..|s|] == s;
    WithinIsPrinted(s, 0, n, 0);
    WidthIsLength(n, 0);
    ScanPrinted(n, 0, s, 0, |s|, [], []);
    AppendNothing(Emitted(n, 0));
    AppendNothing(Pending(n, 0));
    assert Scan(s, State(|s|, Emitted(n, 0), Pending(n, 0))) == State(|s|, Emitted(n, 0), Pending(n, 0));
    Drain(n, 0);
    Parser.BuildPostfix(n);
  }

  /**
   * No binary node has a right child that `fmt_with_precedence` as written leaves bare while
   * the tokenizer would regroup it: a right child at the node's own level, or an If right of
   * an Iff. On such trees the two printers agree.
   */
  predicate NoSameLevelRight(n: Ast.Node)
  {
    match n
    case Atom(_) => true
    case Not(x) => NoSameLevelRight(x)
    case _ =>
      var q := Ast.Precedence(n.right);
      (q < Ast.Precedence(n) || RightBound(n) <= q)
      && NoSameLevelRight(n.left) && NoSameLevelRight(n.right)
  }

  /** Printing a node against two parents that both wrap it, or both do not, gives one text. */
  lemma SameWrapping(n: Ast.Node, b: nat, b': nat)
    requires (Ast.Precedence(n) < b) == (Ast.Precedence(n) < b')
    ensures PrintFixed(n, b) == PrintFixed(n, b')
  {
  }

  /** Off the trees where lib.rs loses a right nesting, its printer is the corrected one. */
  lemma {:induction false} PrintAgrees(n: Ast.Node, b: nat)
    requires NoSameLevelRight(n)
    ensures Ast.Print(n, b) == PrintFixed(n, b)
  {
    var p := Ast.Precedence(n);
    match n
    case Atom(_) =>
    case Not(x) =>
      PrintAgrees(x, p);
    case _ =>
      PrintAgrees(n.left, p);
      PrintAgrees(n.right, p);
      SameWrapping(n.right, p, RightBound(n));
  }

  /**
   * `Display for Node` as written reads back: on trees with plain one-character atoms and no
   * same-level right child, tokenizing the printed text gives the postfix form of the tree and
   * building it gives the tree.
   */
  lemma ToStringRoundTrip(n: Ast.Node)
    requires PlainAtoms(n) && NoSameLevelRight(n)
    ensures Tokenize(Ast.ToString(n)) == Parser.Postfix(n)
    ensures Parser.Build(Tokenize(Ast.ToString(n))) == Ok(n)
  {
    PrintAgrees(n, 0);
    RoundTrip(n);
  }

  const A := Ast.Atom("a")
  const B := Ast.Atom("b")
  const C := Ast.Atom("c")

  /**
   * lib.rs prints a -> (b -> c) as `a -> b -> c`, the text that the corrected printer gives
   * for (a -> b) -> c, and that text is read back as (a -> b) -> c. The two trees differ when
   * a, b and c are all false.
   */
  lemma RightNestingIsLost(s: string)
    requires s == "a -> b -> c"
    ensures Ast.ToString(Ast.If(A, Ast.If(B, C))) == s
    ensures ToStringFixed(Ast.If(Ast.If(A, B), C)) == s
    ensures Tokenize(s) == Parser.Postfix(Ast.If(Ast.If(A, B), C))
    ensures Parser.Build(Tokenize(s)) == Ok(Ast.If(Ast.If(A, B), C))
    ensures var vars := map["a" := false, "b" := false, "c" := false];
      Ast.EvalInner(Ast.If(A, Ast.If(B, C)), vars) == Some(true)
      && Ast.EvalInner(Ast.If(Ast.If(A, B), C), vars) == Some(false)
  {
    FlatText(s);
    RoundTrip(Ast.If(Ast.If(A, B), C));
    NestingsDiffer();
  }

  /** The text both printers agree on. */
  lemma FlatText(s: string)
    requires s == "a -> b -> c"
    ensures Ast.ToString(Ast.If(A, Ast.If(B, C))) == s
    ensures ToStringFixed(Ast.If(Ast.If(A, B), C)) == s
  {
  }

  /** a -> (b -> c) and (a -> b) -> c differ when a, b and c are all false. */
  lemma NestingsDiffer()
    ensures var vars := map["a" := false, "b" := false, "c" := false];
      Ast.EvalInner(Ast.If(A, Ast.If(B, C)), vars) == Some(true)
      && Ast.EvalInner(Ast.If(Ast.If(A, B), C), vars) == Some(false)
  {
  }

  /** The corrected printer keeps the parentheses of a right child at the same level. */
  lemma RightNestingIsKept(s: string)
    requires s == "a -> (b -> c)"
    ensures ToStringFixed(Ast.If(A, Ast.If(B, C))) == s
    ensures Tokenize(s) == Parser.Postfix(Ast.If(A, Ast.If(B, C)))
    ensures Parser.Build(Tokenize(s)) == Ok(Ast.If(A, Ast.If(B, C)))
  {
    assert ToStringFixed(Ast.If(A, Ast.If(B, C))) == s;
    RoundTrip(Ast.If(A, Ast.If(B, C)));
  }
}
