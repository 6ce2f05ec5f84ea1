/**
 * Tokens of the postfix stream. This is the token of lexer.rs, with its `Value` literal;
 * the token of lib.rs is the same without `Value`.
 */
module Tokens {
  import opened Operators

  datatype Token = Op(op: Operator) | Atom(name: string) | Value(value: bool)

  /** Operators moved to the output, in the order given. */
  function OpTokens(ops: seq<Operator>): (r: seq<Token>)
    ensures |r| == |ops| && forall k :: 0 <= k < |ops| ==> r[k] == Op(ops[k])
  {
    seq(|ops|, k requires 0 <= k < |ops| => Op(ops[k]))
  }

  lemma OpTokensAppend(a: seq<Operator>, b: seq<Operator>)
    ensures OpTokens(a + b) == OpTokens(a) + OpTokens(b)
  {
  }

  /** No Parenthesis marker among the tokens. */
  predicate NoMarker(ts: seq<Token>)
  {
    forall k :: 0 <= k < |ts| ==> ts[k] != Op(Parenthesis)
  }

  /** No `Value` literal among the tokens. */
  predicate NoValues(ts: seq<Token>)
  {
    forall k :: 0 <= k < |ts| ==> !ts[k].Value?
  }
}
