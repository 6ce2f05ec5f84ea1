/**
 * The operator table: the operator kinds, their precedence and associativity on the
 * shunting-yard stack, and recognition of an operator lexeme at a character cursor.
 * The cursor of Rust's `Peekable<Chars>` is an index into the input text.
 */
module Operators {
  import opened Options

  datatype Operator = And | Or | Not | If | Iff | Parenthesis

  datatype Associativity = Left | Right

  /** Stack precedence: Parenthesis 4 > Not 3 > And 2 > Or 1 > If = Iff 0. */
  function Precedence(o: Operator): (p: nat)
    ensures p <= 4
    ensures p == 0 <==> o == If || o == Iff
  {
    match o
    case Parenthesis => 4
    case Not => 3
    case And => 2
    case Or => 1
    case If => 0
    case Iff => 0
  }

  function Assoc(o: Operator): Associativity
  {
    match o
    case Not => Right
    case _ => Left
  }

  /** The levels are strictly ordered; the only tie is between If and Iff. */
  lemma PrecedenceOrder()
    ensures Precedence(Parenthesis) > Precedence(Not) > Precedence(And) > Precedence(Or) > Precedence(If)
    ensures Precedence(If) == Precedence(Iff)
    ensures forall o, q :: Precedence(o) == Precedence(q) ==> o == q || {o, q} == {If, Iff}
  {
  }

  /** Only Not associates to the right. */
  lemma OnlyNotIsRightAssociative(o: Operator)
    ensures Assoc(o) == Right <==> o == Not
  {
  }

  /** Single-character recognition (`from_char`). */
  function FromChar(c: char): (r: Option<Operator>)
    ensures r.Some? <==> c in "&|~!()"
    ensures r == Some(And) <==> c == '&'
    ensures r == Some(Or) <==> c == '|'
    ensures r == Some(Not) <==> c == '~' || c == '!'
    ensures r == Some(Parenthesis) <==> c == '(' || c == ')'
  {
    match c
    case '&' => Some(And)
    case '|' => Some(Or)
    case '~' => Some(Not)
    case '!' => Some(Not)
    case '(' => Some(Parenthesis)
    case ')' => Some(Parenthesis)
    case _ => None
  }

  /** The `input.next()` of the main loop: one step forward, or nothing at the end of the input. */
  function Next(s: string, j: nat): (k: nat)
    requires j <= |s|
    ensures k <= |s| && (j < |s| ==> k == j + 1) && (j == |s| ==> k == j)
  {
    if j < |s| then j + 1 else j
  }

  /**
   * Operator recognition at cursor `i` (`from_peekable`): the operator found, if any, and the
   * cursor after the characters the recognition consumed. `-`, `<`, `&` and `|` are consumed
   * as they are examined; single-character operators are only peeked at.
   */
  function Lexeme(s: string, i: nat): (r: (Option<Operator>, nat))
    requires i <= |s|
    ensures i <= r.1 <= |s| && r.1 <= i + 3
  {
    if i == |s| then (None, i)
    else
      match s[i]
      case '-' =>
        if i + 1 < |s| && s[i + 1] == '>' then (Some(If), i + 2) else (None, i + 1)
      case '<' =>
        if i + 1 < |s| && s[i + 1] == '-' then
          if i + 2 < |s| && s[i + 2] == '>' then (Some(Iff), i + 3) else (None, i + 2)
        else (None, i + 1)
      case '&' => (Some(And), if i + 1 < |s| && s[i + 1] == '&' then i + 2 else i + 1)
      case '|' => (Some(Or), if i + 1 < |s| && s[i + 1] == '|' then i + 2 else i + 1)
      case c => (FromChar(c), i)
  }

  /** `from_peekable` as the source writes it: each `input.next()` advances the cursor `j`. */
  method FromPeekable(s: string, i: nat) returns (o: Option<Operator>, j: nat)
    requires i <= |s|
    ensures (o, j) == Lexeme(s, i)
  {
    j := i;
    if j == |s| {
      return None, j;
    }
    var c := s[j];
    if c == '-' {
      j := j + 1;
      if j == |s| || s[j] != '>' {
        return None, j;
      }
      j := j + 1;
      o := Some(If);
    } else if c == '<' {
      j := j + 1;
      if j == |s| || s[j] != '-' {
        return None, j;
      }
      j := j + 1;
      if j == |s| || s[j] != '>' {
        return None, j;
      }
      j := j + 1;
      o := Some(Iff);
    } else if c == '&' {
      j := j + 1;
      if j < |s| && s[j] == '&' {
        j := j + 1;
      }
      o := Some(And);
    } else if c == '|' {
      j := j + 1;
      if j < |s| && s[j] == '|' {
        j := j + 1;
      }
      o := Some(Or);
    } else {
      o := FromChar(c);
    }
  }

  /** What each outcome of the recognition consumed. */
  lemma LexemeSpec(s: string, i: nat)
    requires i <= |s|
    ensures var r := Lexeme(s, i);
      && (r.0 == Some(If) ==> s[i..r.1] == "->")
      && (r.0 == Some(Iff) ==> s[i..r.1] == "<->")
      && (r.0 == Some(And) ==> s[i..r.1] == "&" || s[i..r.1] == "&&")
      && (r.0 == Some(Or) ==> s[i..r.1] == "|" || s[i..r.1] == "||")
      && (r.0 == Some(Not) ==> i < |s| && r.1 == i && (s[i] == '~' || s[i] == '!'))
      && (r.0 == Some(Parenthesis) ==> i < |s| && r.1 == i && (s[i] == '(' || s[i] == ')'))
      && (r.0 == None && r.1 > i ==> s[i] == '-' || s[i] == '<')
  {
  }

  /** `->` gives If after two characters, `<->` gives Iff after three, whatever follows. */
  lemma LexemeArrows(s: string, i: nat)
    requires i <= |s|
    ensures i + 2 <= |s| && s[i..i + 2] == "->" ==> Lexeme(s, i) == (Some(If), i + 2)
    ensures i + 3 <= |s| && s[i..i + 3] == "<->" ==> Lexeme(s, i) == (Some(Iff), i + 3)
  {
    if i + 2 <= |s| && s[i..i + 2] == "->" {
      assert s[i] == s[i..i + 2][0] && s[i + 1] == s[i..i + 2][1];
    }
    if i + 3 <= |s| && s[i..i + 3] == "<->" {
      assert s[i] == s[i..i + 3][0] && s[i + 1] == s[i..i + 3][1] && s[i + 2] == s[i..i + 3][2];
    }
  }

  /** `&`/`&&` give And and `|`/`||` give Or, consuming one character, or two when doubled. */
  lemma LexemeDoubled(s: string, i: nat)
    requires i < |s| && (s[i] == '&' || s[i] == '|')
    ensures Lexeme(s, i).0 == Some(if s[i] == '&' then And else Or)
    ensures Lexeme(s, i).1 == if i + 1 < |s| && s[i + 1] == s[i] then i + 2 else i + 1
  {
  }

  /** An incomplete `-` or `<` is not an operator, yet the characters examined are gone. */
  lemma LexemeIncomplete(s: string, i: nat)
    requires i < |s|
    ensures s[i] == '-' && (i + 1 == |s| || s[i + 1] != '>') ==> Lexeme(s, i) == (None, i + 1)
    ensures s[i] == '<' && (i + 1 == |s| || s[i + 1] != '-') ==> Lexeme(s, i) == (None, i + 1)
    ensures s[i] == '<' && i + 1 < |s| && s[i + 1] == '-' && (i + 2 == |s| || s[i + 2] != '>')
      ==> Lexeme(s, i) == (None, i + 2)
  {
  }

  /** Every other character is only peeked at; empty input gives no operator. */
  lemma LexemePeekOnly(s: string, i: nat)
    requires i <= |s|
    requires i < |s| ==> s[i] !in "-<&|"
    ensures Lexeme(s, i) == (if i == |s| then None else FromChar(s[i]), i)
  {
  }
}
