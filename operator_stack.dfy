/**
 * The operator-stack discipline that every `shunting_yard` variant repeats: the pops before
 * an operator is pushed, the pops on `)`, and the drain at the end of the input. The stack is
 * a sequence whose last element is the top, as in Rust's `Vec`; popped operators are listed
 * in the order they are popped, which is the order in which they reach the output.
 */
module OperatorStack {
  import opened Operators

  /** A sequence read back to front: the order in which a stack's elements are popped. */
  function Reverse<T>(s: seq<T>): (r: seq<T>)
    ensures |r| == |s|
    ensures forall k :: 0 <= k < |s| ==> r[k] == s[|s| - 1 - k]
  {
    if s == [] then [] else [s[|s| - 1]] + Reverse(s[..|s| - 1])
  }

  lemma {:induction false} ReverseAppend<T>(a: seq<T>, b: seq<T>)
    ensures Reverse(a + b) == Reverse(b) + Reverse(a)
  {
    var r, l := Reverse(a + b), Reverse(b) + Reverse(a);
    assert |r| == |l|;
    forall k | 0 <= k < |r|
      ensures r[k] == l[k]
    {
      if k < |b| {
        assert l[k] == Reverse(b)[k] == b[|b| - 1 - k];
      } else {
        assert l[k] == Reverse(a)[k - |b|] == a[|a| - 1 - (k - |b|)];
      }
    }
  }

  /**
   * True when `top` must go to the output before `o` is pushed: it is not a parenthesis
   * marker, and it binds tighter than `o`, or equally tight with `o` left-associative.
   */
  predicate PopsBefore(top: Operator, o: Operator)
  {
    top != Parenthesis
    && (Precedence(top) > Precedence(o) || (Precedence(top) == Precedence(o) && Assoc(o) == Left))
  }

  /**
   * The pops made before `o` is pushed: the operators popped, in pop order, and the stack
   * that remains.
   */
  function PopFor(stack: seq<Operator>, o: Operator): (r: (seq<Operator>, seq<Operator>))
    decreases |stack|
  {
    if |stack| > 0 && PopsBefore(stack[|stack| - 1], o) then
      var rest := PopFor(stack[..|stack| - 1], o);
      ([stack[|stack| - 1]] + rest.0, rest.1)
    else
      ([], stack)
  }

  /**
   * What stays on the stack when `o` is pushed is a prefix of the old stack, and the operators
   * popped are the rest of it, taken top first.
   */
  lemma {:induction false} PopForShape(stack: seq<Operator>, o: Operator)
    ensures |PopFor(stack, o).1| <= |stack|
    ensures PopFor(stack, o).1 == stack[..|PopFor(stack, o).1|]
    ensures PopFor(stack, o).0 == Reverse(stack[|PopFor(stack, o).1|..])
    decreases |stack|
  {
    if |stack| > 0 && PopsBefore(stack[|stack| - 1], o) {
      var init, top := stack[..|stack| - 1], stack[|stack| - 1];
      PopForShape(init, o);
      var k := |PopFor(init, o).1|;
      assert stack[..k] == init[..k];
      assert stack[k..] == init[k..] + [top];
      ReverseAppend(init[k..], [top]);
    }
  }

  /**
   * The operators popped before `o` is pushed are exactly the maximal run at the top of the
   * stack that pops before `o`: each of them pops before `o`, and the new top does not.
   */
  lemma {:induction false} PopForMaximal(stack: seq<Operator>, o: Operator)
    ensures |PopFor(stack, o).1| <= |stack|
    ensures forall j :: |PopFor(stack, o).1| <= j < |stack| ==> PopsBefore(stack[j], o)
    ensures |PopFor(stack, o).1| > 0 ==> !PopsBefore(stack[|PopFor(stack, o).1| - 1], o)
    decreases |stack|
  {
    if |stack| > 0 && PopsBefore(stack[|stack| - 1], o) {
      var init := stack[..|stack| - 1];
      PopForMaximal(init, o);
      var k := |PopFor(init, o).1|;
      assert |PopFor(stack, o).1| == k;
      forall j | k <= j < |stack|
        ensures PopsBefore(stack[j], o)
      {
        if j < |init| {
          assert stack[j] == init[j];
        }
      }
      if k > 0 {
        assert stack[k - 1] == init[k - 1];
      }
    }
  }

  /** A Parenthesis marker never pops before anything, so it is never output on a push. */
  lemma {:induction false} PopForNoMarker(stack: seq<Operator>, o: Operator)
    ensures Parenthesis !in PopFor(stack, o).0
    decreases |stack|
  {
    if |stack| > 0 && PopsBefore(stack[|stack| - 1], o) {
      PopForNoMarker(stack[..|stack| - 1], o);
    }
  }

  /** The pops made on `)`: the operators popped, in pop order, and the stack that remains. */
  function Close(stack: seq<Operator>): (r: (seq<Operator>, seq<Operator>))
    decreases |stack|
  {
    if |stack| == 0 then ([], [])
    else if stack[|stack| - 1] == Parenthesis then ([], stack[..|stack| - 1])
    else
      var rest := Close(stack[..|stack| - 1]);
      ([stack[|stack| - 1]] + rest.0, rest.1)
  }

  /**
   * `)` outputs everything above the nearest Parenthesis marker, top first, and removes the
   * marker without outputting it; with no marker it outputs the whole stack, without an error.
   */
  lemma {:induction false} CloseSpec(stack: seq<Operator>)
    ensures var r := Close(stack);
      && Parenthesis !in r.0
      && (Parenthesis in stack ==>
            && |r.1| < |stack| && r.1 == stack[..|r.1|] && stack[|r.1|] == Parenthesis
            && Parenthesis !in stack[|r.1| + 1..] && r.0 == Reverse(stack[|r.1| + 1..]))
      && (Parenthesis !in stack ==> r == (Reverse(stack), []))
    decreases |stack|
  {
    if |stack| > 0 && stack[|stack| - 1] != Parenthesis {
      var init := stack[..|stack| - 1];
      var top := stack[|stack| - 1];
      assert stack == init + [top];
      CloseSpec(init);
      var r := Close(init);
      assert Close(stack) == ([top] + r.0, r.1);
      assert Parenthesis !in [top] + r.0;
      if Parenthesis in stack {
        assert Parenthesis in init;
        var k := |r.1|;
        assert stack[..k] == init[..k] && stack[k] == init[k];
        assert stack[k + 1..] == init[k + 1..] + [top];
        ReverseAppend(init[k + 1..], [top]);
      } else {
        assert Parenthesis !in init;
        ReverseAppend(init, [top]);
      }
    }
  }

  /**
   * A pop before a push keeps the loop's account: the operators popped so far followed by the
   * pops still due from the rest of the stack are the pops due from the whole stack.
   */
  lemma PopForTop(stack: seq<Operator>, o: Operator, popped: seq<Operator>, rest: seq<Operator>)
    requires PopFor(stack, o) == (popped + PopFor(rest, o).0, PopFor(rest, o).1)
    requires |rest| > 0 && PopsBefore(rest[|rest| - 1], o)
    ensures var init := rest[..|rest| - 1];
      PopFor(stack, o) == ((popped + [rest[|rest| - 1]]) + PopFor(init, o).0, PopFor(init, o).1)
  {
    var init := rest[..|rest| - 1];
    assert PopFor(rest, o) == ([rest[|rest| - 1]] + PopFor(init, o).0, PopFor(init, o).1);
    assert popped + ([rest[|rest| - 1]] + PopFor(init, o).0) == (popped + [rest[|rest| - 1]]) + PopFor(init, o).0;
  }

  /** The loop before a push (lib.rs:38-49): pop while the top pops before `o`. */
  method PopHigher(stack: seq<Operator>, o: Operator) returns (popped: seq<Operator>, rest: seq<Operator>)
    ensures (popped, rest) == PopFor(stack, o)
  {
    popped, rest := [], stack;
    assert [] + PopFor(stack, o).0 == PopFor(stack, o).0;
    while |rest| > 0
      invariant PopFor(stack, o) == (popped + PopFor(rest, o).0, PopFor(rest, o).1)
      decreases |rest|
    {
      var top := rest[|rest| - 1];
      if top == Parenthesis {
        break;
      }
      if Precedence(top) <= Precedence(o)
        && (Precedence(top) != Precedence(o) || Assoc(o) == Right)
      {
        break;
      }
      PopForTop(stack, o, popped, rest);
      popped, rest := popped + [top], rest[..|rest| - 1];
    }
    assert PopFor(rest, o) == ([], rest);
    assert popped + [] == popped;
  }

  /** The loop on `)` (lib.rs:25-30): pop until a marker is popped or the stack is empty. */
  method PopToParenthesis(stack: seq<Operator>) returns (popped: seq<Operator>, rest: seq<Operator>)
    ensures (popped, rest) == Close(stack)
  {
    popped, rest := [], stack;
    while |rest| > 0
      invariant Close(stack).0 == popped + Close(rest).0
      invariant Close(stack).1 == Close(rest).1
      decreases |rest|
    {
      var top := rest[|rest| - 1];
      ghost var before := rest;
      rest := rest[..|rest| - 1];
      if top == Parenthesis {
        assert Close(before) == ([], rest) && popped + [] == popped;
        break;
      }
      assert Close(before).0 == [top] + Close(rest).0;
      popped := popped + [top];
    }
    assert popped + [] == popped;
  }
}
