/**
 * The conversions to postfix characters that test.rs checks against main.rs's
 * `shunting_yard`, and one more. Each test text is what lib.rs's printer writes for a tree, and
 * its `&` and `|` are followed by spaces, so its conversion is that tree's postfix form spelled
 * out. The text `ab-c` is followed turn by turn: the lemma named From k states where the loop
 * ends when it starts from the k-th state (cursor, characters output, stack).
 */
module MainConversions {
  import opened Operators
  import opened Tokens
  import opened CharPipeline
  import Ast
  import Parser
  import RoundTrip

  const A := Ast.Atom("a")
  const B := Ast.Atom("b")
  const C := Ast.Atom("c")
  const D := Ast.Atom("d")
  const E := Ast.Atom("e")

  /**
   * A text that lib.rs's printer writes for a tree, with every `&` and `|` followed by a space
   * or the end, converts to the characters main.rs writes for the tree.
   */
  lemma ConvertPrinted(s: string, n: Ast.Node)
    requires Ast.ToString(n) == s && SpacedAndOr(s)
    requires RoundTrip.PlainAtoms(n) && RoundTrip.NoSameLevelRight(n)
    ensures Convert(s) == PostfixChars(n)
  {
    ConvertAgreesOnSpacedAndOr(s);
    RoundTrip.ToStringRoundTrip(n);
    SpellPostfix(n);
  }

  /** `a & b | c` (test.rs:7): And binds tighter than Or, which comes after it. */
  lemma ConvertAndOr(s: string)
    requires s == "a & b | c"
    ensures Convert(s) == "ab&c|"
  {
    var n := Ast.Or(Ast.And(A, B), C);
    AndOrText(s, n);
    AndOrSpaced(s);
    AndOrTree(n);
    ConvertPrinted(s, n);
  }

  lemma AndOrText(s: string, n: Ast.Node)
    requires s == "a & b | c" && n == Ast.Or(Ast.And(A, B), C)
    ensures Ast.ToString(n) == s
  {
  }

  lemma AndOrSpaced(s: string)
    requires s == "a & b | c"
    ensures SpacedAndOr(s)
  {
  }

  lemma AndOrTree(n: Ast.Node)
    requires n == Ast.Or(Ast.And(A, B), C)
    ensures RoundTrip.PlainAtoms(n) && RoundTrip.NoSameLevelRight(n) && PostfixChars(n) == "ab&c|"
  {
  }

  /** `a & (b | c)` (test.rs:8): the parentheses keep Or below And. */
  lemma ConvertParenthesised(s: string)
    requires s == "a & (b | c)"
    ensures Convert(s) == "abc|&"
  {
    var n := Ast.And(A, Ast.Or(B, C));
    ParenthesisedText(s, n);
    ParenthesisedSpaced(s);
    ParenthesisedTree(n);
    ConvertPrinted(s, n);
  }

  lemma ParenthesisedText(s: string, n: Ast.Node)
    requires s == "a & (b | c)" && n == Ast.And(A, Ast.Or(B, C))
    ensures Ast.ToString(n) == s
  {
    assert Ast.Print(Ast.Or(B, C), 3) == "(b | c)";
  }

  lemma ParenthesisedSpaced(s: string)
    requires s == "a & (b | c)"
    ensures SpacedAndOr(s)
  {
  }

  lemma ParenthesisedTree(n: Ast.Node)
    requires n == Ast.And(A, Ast.Or(B, C))
    ensures RoundTrip.PlainAtoms(n) && RoundTrip.NoSameLevelRight(n) && PostfixChars(n) == "abc|&"
  {
  }

  /** `~a & b` (test.rs:9): Not takes only the atom right after it. */
  lemma ConvertNot(s: string)
    requires s == "~a & b"
    ensures Convert(s) == "a~b&"
  {
    var n := Ast.And(Ast.Not(A), B);
    NotText(s, n);
    NotSpaced(s);
    NotTree(n);
    ConvertPrinted(s, n);
  }

  lemma NotText(s: string, n: Ast.Node)
    requires s == "~a & b" && n == Ast.And(Ast.Not(A), B)
    ensures Ast.ToString(n) == s
  {
    assert Ast.Print(Ast.Not(A), 3) == "~a";
  }

  lemma NotSpaced(s: string)
    requires s == "~a & b"
    ensures SpacedAndOr(s)
  {
  }

  lemma NotTree(n: Ast.Node)
    requires n == Ast.And(Ast.Not(A), B)
    ensures RoundTrip.PlainAtoms(n) && RoundTrip.NoSameLevelRight(n) && PostfixChars(n) == "a~b&"
  {
  }

  /** `a | b & c` (test.rs:47): And binds tighter when it comes second, too. */
  lemma ConvertOrAnd(s: string)
    requires s == "a | b & c"
    ensures Convert(s) == "abc&|"
  {
    var n := Ast.Or(A, Ast.And(B, C));
    OrAndText(s, n);
    OrAndSpaced(s);
    OrAndTree(n);
    ConvertPrinted(s, n);
  }

  lemma OrAndText(s: string, n: Ast.Node)
    requires s == "a | b & c" && n == Ast.Or(A, Ast.And(B, C))
    ensures Ast.ToString(n) == s
  {
  }

  lemma OrAndSpaced(s: string)
    requires s == "a | b & c"
    ensures SpacedAndOr(s)
  {
  }

  lemma OrAndTree(n: Ast.Node)
    requires n == Ast.Or(A, Ast.And(B, C))
    ensures RoundTrip.PlainAtoms(n) && RoundTrip.NoSameLevelRight(n) && PostfixChars(n) == "abc&|"
  {
  }

  /** `a -> b -> c` (test.rs:116): `->` groups to the left, so the text is what lib.rs prints
   * for (a -> b) -> c. */
  lemma ConvertImplicationChain(s: string)
    requires s == "a -> b -> c"
    ensures Convert(s) == "ab-c-"
  {
    var n := Ast.If(Ast.If(A, B), C);
    ImplicationChainText(s, n);
    ImplicationChainSpaced(s);
    ImplicationChainTree(n);
    ConvertPrinted(s, n);
  }

  lemma ImplicationChainText(s: string, n: Ast.Node)
    requires s == "a -> b -> c" && n == Ast.If(Ast.If(A, B), C)
    ensures Ast.ToString(n) == s
  {
  }

  lemma ImplicationChainSpaced(s: string)
    requires s == "a -> b -> c"
    ensures SpacedAndOr(s)
  {
  }

  lemma ImplicationChainTree(n: Ast.Node)
    requires n == Ast.If(Ast.If(A, B), C)
    ensures RoundTrip.PlainAtoms(n) && RoundTrip.NoSameLevelRight(n) && PostfixChars(n) == "ab-c-"
  {
  }

  /** `(a | b) & ~c -> d <-> e` (test.rs:68). */
  lemma ConvertComplex(s: string)
    requires s == "(a | b) & ~c -> d <-> e"
    ensures Convert(s) == "ab|c~&d-e<"
  {
    var n := Ast.Iff(Ast.If(Ast.And(Ast.Or(A, B), Ast.Not(C)), D), E);
    ComplexText(s, n);
    ComplexSpaced(s);
    ComplexTree(n);
    ConvertPrinted(s, n);
  }

  lemma ComplexText(s: string, n: Ast.Node)
    requires s == "(a | b) & ~c -> d <-> e" && n == Ast.Iff(Ast.If(Ast.And(Ast.Or(A, B), Ast.Not(C)), D), E)
    ensures Ast.ToString(n) == s
  {
    assert Ast.Print(Ast.Or(A, B), 3) == "(a | b)";
    assert Ast.Print(Ast.Not(C), 3) == "~c";
    assert Ast.Print(Ast.And(Ast.Or(A, B), Ast.Not(C)), 1) == "(a | b) & ~c";
    assert Ast.Print(Ast.If(Ast.And(Ast.Or(A, B), Ast.Not(C)), D), 0) == "(a | b) & ~c -> d";
  }

  lemma ComplexSpaced(s: string)
    requires s == "(a | b) & ~c -> d <-> e"
    ensures SpacedAndOr(s)
  {
  }

  lemma ComplexTree(n: Ast.Node)
    requires n == Ast.Iff(Ast.If(Ast.And(Ast.Or(A, B), Ast.Not(C)), D), E)
    ensures RoundTrip.PlainAtoms(n) && RoundTrip.NoSameLevelRight(n) && PostfixChars(n) == "ab|c~&d-e<"
  {
  }

  /** `a & b` (test.rs:102). */
  lemma ConvertAnd(s: string)
    requires s == "a & b"
    ensures Convert(s) == "ab&"
  {
    var n := Ast.And(A, B);
    AndText(s, n);
    AndSpaced(s);
    AndTree(n);
    ConvertPrinted(s, n);
  }

  lemma AndText(s: string, n: Ast.Node)
    requires s == "a & b" && n == Ast.And(A, B)
    ensures Ast.ToString(n) == s
  {
  }

  lemma AndSpaced(s: string)
    requires s == "a & b"
    ensures SpacedAndOr(s)
  {
  }

  lemma AndTree(n: Ast.Node)
    requires n == Ast.And(A, B)
    ensures RoundTrip.PlainAtoms(n) && RoundTrip.NoSameLevelRight(n) && PostfixChars(n) == "ab&"
  {
  }

  lemma ConvertIncompleteArrowFrom0(s: string)
    requires |s| == 4 && s[0] == 'a' && s[1] == 'b' && s[2] == '-' && s[3] == 'c'
    ensures Scan(s, State(0, "", [])) == State(4, "ab-", [])
  {
    assert Step(s, State(0, "", [])) == State(1, "a", []);
    assert Step(s, State(1, "a", [])) == State(2, "ab", []);
    ConvertIncompleteArrowFrom2(s);
  }

  lemma ConvertIncompleteArrowFrom2(s: string)
    requires |s| == 4 && s[0] == 'a' && s[1] == 'b' && s[2] == '-' && s[3] == 'c'
    ensures Scan(s, State(2, "ab", [])) == State(4, "ab-", [])
  {
    assert Step(s, State(2, "ab", [])) == State(4, "ab-", []);
    assert Scan(s, State(4, "ab-", [])) == State(4, "ab-", []);
  }

  /** `ab-c`: a `-` without `>` is output as the character `-`, and the `c` after it is skipped. */
  lemma ConvertIncompleteArrow(s: string)
    requires s == "ab-c"
    ensures Convert(s) == "ab-"
  {
    assert s[0] == 'a';
    assert s[1] == 'b';
    assert s[2] == '-';
    assert s[3] == 'c';
    ConvertIncompleteArrowFrom0(s);
  }
}
