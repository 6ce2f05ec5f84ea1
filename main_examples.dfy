/**
 * The trees and variable lists main.rs builds for the texts of test.rs, and the values the
 * tests expect of them.
 */
module MainExamples {
  import opened Options
  import opened CharPipeline
  import opened MainConversions
  import Ast
  import Parser

  const A := Ast.Atom("a")
  const B := Ast.Atom("b")
  const C := Ast.Atom("c")
  const D := Ast.Atom("d")
  const E := Ast.Atom("e")

  /** The tree of `(a | b) & ~c -> d <-> e`. */
  const Complex := Ast.Iff(Ast.If(Ast.And(Ast.Or(A, B), Ast.Not(C)), D), E)

  // The example trees are readable, and the characters main.rs writes for them are the
  // postfix texts the tests expect.

  lemma CharsOfAndOr()
    ensures Readable(Ast.Or(Ast.And(A, B), C)) && PostfixChars(Ast.Or(Ast.And(A, B), C)) == "ab&c|"
  {
  }

  lemma CharsOfOrAnd()
    ensures Readable(Ast.Or(A, Ast.And(B, C))) && PostfixChars(Ast.Or(A, Ast.And(B, C))) == "abc&|"
  {
  }

  lemma CharsOfImplicationChain()
    ensures Readable(Ast.If(Ast.If(A, B), C)) && PostfixChars(Ast.If(Ast.If(A, B), C)) == "ab-c-"
  {
  }

  lemma CharsOfImplication()
    ensures Readable(Ast.If(A, B)) && PostfixChars(Ast.If(A, B)) == "ab-"
  {
  }

  lemma CharsOfAnd()
    ensures Readable(Ast.And(A, B)) && PostfixChars(Ast.And(A, B)) == "ab&"
  {
  }

  lemma CharsOfComplex()
    ensures Readable(Complex) && PostfixChars(Complex) == "ab|c~&d-e<"
  {
  }

  /** The variable lists main.rs keeps for the example trees, in pre-order. */
  lemma VariablesOfAndOr()
    ensures Ast.AtomNames(Ast.Descendants(Ast.Or(Ast.And(A, B), C))) == ["a", "b", "c"]
  {
    assert Ast.Descendants(Ast.Or(Ast.And(A, B), C)) == [Ast.And(A, B), A, B, C];
    assert Ast.AtomNames([C]) == ["c"];
    assert Ast.AtomNames([B, C]) == ["b", "c"];
  }

  lemma VariablesOfOrAnd()
    ensures Ast.AtomNames(Ast.Descendants(Ast.Or(A, Ast.And(B, C)))) == ["a", "b", "c"]
  {
    assert Ast.Descendants(Ast.Or(A, Ast.And(B, C))) == [A, Ast.And(B, C), B, C];
    assert Ast.AtomNames([C]) == ["c"];
    assert Ast.AtomNames([B, C]) == ["b", "c"];
  }

  lemma VariablesOfImplication()
    ensures Ast.AtomNames(Ast.Descendants(Ast.If(A, B))) == ["a", "b"]
  {
    assert Ast.Descendants(Ast.If(A, B)) == [A, B];
    assert Ast.AtomNames([B]) == ["b"];
  }

  /** `a & b | c` parses to (a & b) | c, with the variables listed in order (test.rs:15-17). */
  lemma CompileAndOr(s: string)
    requires s == "a & b | c"
    ensures Compile(s) == Ok(ListFormula(Ast.Or(Ast.And(A, B), C), ["a", "b", "c"]))
  {
    ConvertAndOr(s);
    CharsOfAndOr();
    DecodePostfixChars(Ast.Or(Ast.And(A, B), C));
    VariablesOfAndOr();
    CompileIff(s, Ast.Or(Ast.And(A, B), C));
  }

  /** `a | b & c` parses to a | (b & c). */
  lemma CompileOrAnd(s: string)
    requires s == "a | b & c"
    ensures Compile(s) == Ok(ListFormula(Ast.Or(A, Ast.And(B, C)), ["a", "b", "c"]))
  {
    ConvertOrAnd(s);
    CharsOfOrAnd();
    DecodePostfixChars(Ast.Or(A, Ast.And(B, C)));
    VariablesOfOrAnd();
    CompileIff(s, Ast.Or(A, Ast.And(B, C)));
  }

  /** `a -> b -> c` parses to (a -> b) -> c. */
  lemma CompileImplicationChain(s: string)
    requires s == "a -> b -> c"
    ensures Compile(s).Ok? && Compile(s).value.root == Ast.If(Ast.If(A, B), C)
  {
    ConvertImplicationChain(s);
    CharsOfImplicationChain();
    DecodePostfixChars(Ast.If(Ast.If(A, B), C));
    CompileIff(s, Ast.If(Ast.If(A, B), C));
  }

  /** `(a | b) & ~c -> d <-> e` parses to (((a | b) & ~c) -> d) <-> e. */
  lemma CompileComplex(s: string)
    requires s == "(a | b) & ~c -> d <-> e"
    ensures Compile(s).Ok? && Compile(s).value.root == Complex
  {
    ConvertComplex(s);
    CharsOfComplex();
    DecodePostfixChars(Complex);
    CompileIff(s, Complex);
  }

  /** `ab-c`: the `-` output for an incomplete arrow is read back as implication. */
  lemma CompileIncompleteArrow(s: string)
    requires s == "ab-c"
    ensures Compile(s) == Ok(ListFormula(Ast.If(A, B), ["a", "b"]))
  {
    ConvertIncompleteArrow(s);
    CharsOfImplication();
    DecodePostfixChars(Ast.If(A, B));
    VariablesOfImplication();
    CompileIff(s, Ast.If(A, B));
  }

  /** test.rs:26-41: `a & b | c` is true at a = T, b = F, c = T and false at c = F. */
  lemma EvalAndOr()
    ensures ListFormula(Ast.Or(Ast.And(A, B), C), []).Eval(map["a" := true, "b" := false, "c" := true]) == Some(true)
    ensures ListFormula(Ast.Or(Ast.And(A, B), C), []).Eval(map["a" := true, "b" := false, "c" := false]) == Some(false)
  {
  }

  /** test.rs:47-62: `a | b & c` is true at a = F, b = T, c = T and false at c = F. */
  lemma EvalOrAnd()
    ensures ListFormula(Ast.Or(A, Ast.And(B, C)), []).Eval(map["a" := false, "b" := true, "c" := true]) == Some(true)
    ensures ListFormula(Ast.Or(A, Ast.And(B, C)), []).Eval(map["a" := false, "b" := true, "c" := false]) == Some(false)
  {
  }

  /** test.rs:68-95: the complex formula is true on both assignments tried. */
  lemma EvalComplex()
    ensures Ast.EvalInner(Complex, map["a" := true, "b" := false, "c" := false, "d" := true, "e" := true]) == Some(true)
    ensures Ast.EvalInner(Complex, map["a" := false, "b" := false, "c" := true, "d" := false, "e" := true]) == Some(true)
  {
  }

  /** test.rs:116-131: `a -> b -> c` is true at (T, F, T) and false at (T, T, F). */
  lemma EvalImplicationChain()
    ensures Ast.EvalInner(Ast.If(Ast.If(A, B), C), map["a" := true, "b" := false, "c" := true]) == Some(true)
    ensures Ast.EvalInner(Ast.If(Ast.If(A, B), C), map["a" := true, "b" := true, "c" := false]) == Some(false)
  {
  }

  /**
   * test.rs:99-111 expects a panic for `a & b` with only a assigned; the evaluator returns None
   * instead, and nothing panics.
   */
  lemma EvalMissingVariable(s: string)
    requires s == "a & b"
    ensures Compile(s).Ok? && Compile(s).value.Eval(map["a" := true]) == None
  {
    ConvertAnd(s);
    CharsOfAnd();
    DecodePostfixChars(Ast.And(A, B));
    CompileIff(s, Ast.And(A, B));
  }
}
