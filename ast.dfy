/**
 * The formula tree of lib.rs (the same enum in main.rs): the printer with minimal
 * parentheses, the pre-order list of proper descendants that feeds variable collection,
 * and the evaluator with its short-circuit and missing-variable behaviour.
 */
module Ast {
  import opened Options

  datatype Node =
    | And(left: Node, right: Node)
    | Or(left: Node, right: Node)
    | Not(operand: Node)
    | If(left: Node, right: Node)
    | Iff(left: Node, right: Node)
    | Atom(name: string)

  /** Printing precedence: Atom 5 > Not 4 > And 3 > Or 2 > If 1 > Iff 0. */
  function Precedence(n: Node): (p: nat)
    ensures p <= 5
  {
    match n
    case Atom(_) => 5
    case Not(_) => 4
    case And(_, _) => 3
    case Or(_, _) => 2
    case If(_, _) => 1
    case Iff(_, _) => 0
  }

  /** The infix symbol of a binary node, with its surrounding spaces. */
  function Symbol(n: Node): string
    requires !n.Atom? && !n.Not?
  {
    match n
    case And(_, _) => " & "
    case Or(_, _) => " | "
    case If(_, _) => " -> "
    case Iff(_, _) => " <-> "
  }

  /**
   * `fmt_with_precedence` (lib.rs:90-135): the node is wrapped in parentheses when it binds
   * more loosely than its parent; both children of a binary node are printed against the
   * node's own precedence, the operand of Not too.
   */
  function Print(n: Node, parent: nat): string
  {
    var p := Precedence(n);
    var body :=
      match n
      case Atom(s) => s
      case Not(x) => "~" + Print(x, p)
      case _ => Print(n.left, p) + Symbol(n) + Print(n.right, p);
    if p < parent then "(" + body + ")" else body
  }

  /** `Display for Node` (lib.rs:72-76): printing against parent precedence 0. */
  function ToString(n: Node): string
  {
    Print(n, 0)
  }

  /** The proper descendants of a node in pre-order, left before right (`children`). */
  function Descendants(n: Node): seq<Node>
  {
    match n
    case Atom(_) => []
    case Not(x) => [x] + Descendants(x)
    case _ => [n.left] + Descendants(n.left) + [n.right] + Descendants(n.right)
  }

  /** `_children` (lib.rs:137-154): appends the proper descendants to a shared deque. */
  method CollectChildren(n: Node, deque: seq<Node>) returns (out: seq<Node>)
    ensures out == deque + Descendants(n)
    decreases n
  {
    out := deque;
    if n.Not? {
      out := out + [n.operand];
      out := CollectChildren(n.operand, out);
      assert out == deque + ([n.operand] + Descendants(n.operand));
    } else if !n.Atom? {
      out := out + [n.left];
      out := CollectChildren(n.left, out);
      ghost var middle := out;
      assert middle == deque + ([n.left] + Descendants(n.left));
      out := out + [n.right];
      out := CollectChildren(n.right, out);
      assert out == middle + ([n.right] + Descendants(n.right));
      assert Descendants(n) == ([n.left] + Descendants(n.left)) + ([n.right] + Descendants(n.right));
    }
  }

  /** `children` (lib.rs:155-159). */
  method Children(n: Node) returns (cs: seq<Node>)
    ensures cs == Descendants(n)
  {
    cs := CollectChildren(n, []);
  }

  /** The number of nodes in a tree. */
  function Size(n: Node): (k: nat)
    ensures k >= 1
  {
    match n
    case Atom(_) => 1
    case Not(x) => 1 + Size(x)
    case _ => 1 + Size(n.left) + Size(n.right)
  }

  /** Every node of the tree except the root is listed once, and each one is a proper part of it. */
  lemma {:induction false} DescendantsAreProper(n: Node)
    ensures |Descendants(n)| == Size(n) - 1
    ensures forall d :: d in Descendants(n) ==> d < n
  {
    if n.Not? {
      var x := n.operand;
      DescendantsAreProper(x);
      assert forall d :: d in Descendants(n) ==> d == x || d in Descendants(x);
    } else if !n.Atom? {
      var l, r := n.left, n.right;
      DescendantsAreProper(l);
      DescendantsAreProper(r);
      assert forall d :: d in Descendants(n) ==> d == l || d in Descendants(l) || d == r || d in Descendants(r);
    }
  }

  /** The names of all the atoms in a tree, the root included. */
  function Atoms(n: Node): set<string>
  {
    match n
    case Atom(s) => {s}
    case Not(x) => Atoms(x)
    case _ => Atoms(n.left) + Atoms(n.right)
  }

  /** The names of the atoms in a list of nodes, in list order, repeats kept. */
  function AtomNames(ds: seq<Node>): seq<string>
  {
    if ds == [] then []
    else (if ds[0].Atom? then [ds[0].name] else []) + AtomNames(ds[1..])
  }

  /** The names carried by the atoms of a list of nodes. */
  function AtomNameSet(ds: seq<Node>): set<string>
  {
    set d | d in ds && d.Atom? :: d.name
  }

  lemma AtomNameSetAppend(a: seq<Node>, b: seq<Node>)
    ensures AtomNameSet(a + b) == AtomNameSet(a) + AtomNameSet(b)
  {
    assert forall d :: d in a + b <==> d in a || d in b;
  }

  /** A name is listed exactly when some atom of the list carries it. */
  lemma {:induction false} AtomNamesElements(ds: seq<Node>)
    ensures (set x | x in AtomNames(ds)) == AtomNameSet(ds)
  {
    if ds != [] {
      AtomNamesElements(ds[1..]);
      assert ds == [ds[0]] + ds[1..];
      AtomNameSetAppend([ds[0]], ds[1..]);
      var head := if ds[0].Atom? then [ds[0].name] else [];
      assert AtomNames(ds) == head + AtomNames(ds[1..]);
      assert (set x | x in AtomNames(ds)) == (set x | x in head) + (set x | x in AtomNames(ds[1..]));
    }
  }

  /**
   * `parse` (lib.rs:178-190) keeps the Atom names among the proper descendants: all the
   * atoms of the tree, except that a tree that is a bare atom has none.
   */
  function Variables(root: Node): (vs: set<string>)
    ensures vs <= Atoms(root)
    ensures !root.Atom? ==> vs == Atoms(root)
    ensures root.Atom? ==> vs == {}
  {
    VariablesAreAtoms(root);
    AtomNameSet(Descendants(root))
  }

  /** The atom names among the proper descendants are all the atoms below the root. */
  lemma VariablesAreAtoms(n: Node)
    ensures AtomNameSet(Descendants(n)) == if n.Atom? then {} else Atoms(n)
  {
    AtomAmongSelfAndDescendants(n);
    AtomNameSetAppend([n], Descendants(n));
    assert AtomNameSet([n]) == if n.Atom? then {n.name} else {};
  }

  /**
   * The list of variables main.rs keeps (main.rs:136-149) holds the same names as the set lib.rs
   * keeps: every atom below the root, and none for a tree that is a bare atom.
   */
  lemma ListVariablesAreVariables(root: Node)
    ensures (set x | x in AtomNames(Descendants(root))) == Variables(root)
  {
    AtomNamesElements(Descendants(root));
  }

  /** The atoms of a tree are those among the tree itself and its proper descendants. */
  lemma {:induction false} AtomAmongSelfAndDescendants(n: Node)
    ensures AtomNameSet([n] + Descendants(n)) == Atoms(n)
  {
    AtomNameSetAppend([n], Descendants(n));
    if n.Atom? {
      assert Descendants(n) == [];
    } else if n.Not? {
      AtomAmongSelfAndDescendants(n.operand);
    } else {
      var l, r := n.left, n.right;
      AtomAmongSelfAndDescendants(l);
      AtomAmongSelfAndDescendants(r);
      assert Descendants(n) == ([l] + Descendants(l)) + ([r] + Descendants(r));
      AtomNameSetAppend([l] + Descendants(l), [r] + Descendants(r));
    }
  }

  /**
   * `eval_inner` (lib.rs:290-308): each `?` returns None at once, and `&&` and `||` do not
   * look at the right operand once the left one decides the result.
   */
  function EvalInner(n: Node, vars: map<string, bool>): Option<bool>
  {
    match n
    case Atom(s) => if s in vars then Some(vars[s]) else None
    case Not(x) =>
      (match EvalInner(x, vars)
       case None => None
       case Some(b) => Some(!b))
    case And(l, r) =>
      (match EvalInner(l, vars)
       case None => None
       case Some(false) => Some(false)
       case Some(true) => EvalInner(r, vars))
    case Or(l, r) =>
      (match EvalInner(l, vars)
       case None => None
       case Some(true) => Some(true)
       case Some(false) => EvalInner(r, vars))
    case If(l, r) =>
      (match EvalInner(l, vars)
       case None => None
       case Some(false) => Some(true)
       case Some(true) => EvalInner(r, vars))
    case Iff(l, r) =>
      (match EvalInner(l, vars)
       case None => None
       case Some(a) =>
         match EvalInner(r, vars)
         case None => None
         case Some(b) => Some(a == b))
  }

  /** The truth-table meaning of a formula under an assignment that covers its atoms. */
  function Holds(n: Node, vars: map<string, bool>): bool
    requires Atoms(n) <= vars.Keys
  {
    match n
    case Atom(s) => vars[s]
    case Not(x) => !Holds(x, vars)
    case And(l, r) => Holds(l, vars) && Holds(r, vars)
    case Or(l, r) => Holds(l, vars) || Holds(r, vars)
    case If(l, r) => !Holds(l, vars) || Holds(r, vars)
    case Iff(l, r) => Holds(l, vars) == Holds(r, vars)
  }

  /** With every atom assigned, evaluation is defined and follows the truth tables. */
  lemma {:induction false} EvalFollowsTruthTables(n: Node, vars: map<string, bool>)
    requires Atoms(n) <= vars.Keys
    ensures EvalInner(n, vars) == Some(Holds(n, vars))
  {
    match n {
      case Atom(_) =>
      case Not(x) =>
        EvalFollowsTruthTables(x, vars);
      case _ =>
        EvalFollowsTruthTables(n.left, vars);
        EvalFollowsTruthTables(n.right, vars);
    }
  }

  /** An undefined result always has a missing atom behind it. */
  lemma {:induction false} UndefinedNeedsMissingAtom(n: Node, vars: map<string, bool>)
    requires EvalInner(n, vars) == None
    ensures exists a :: a in Atoms(n) && a !in vars
  {
    match n {
      case Atom(_) =>
      case Not(x) =>
        UndefinedNeedsMissingAtom(x, vars);
      case _ =>
        if EvalInner(n.left, vars) == None {
          UndefinedNeedsMissingAtom(n.left, vars);
        } else {
          UndefinedNeedsMissingAtom(n.right, vars);
        }
    }
  }

  /** A defined result agrees with the truth tables under every assignment that extends the one used. */
  lemma {:induction false} DefinedIsStable(n: Node, vars: map<string, bool>, more: map<string, bool>)
    requires EvalInner(n, vars).Some?
    requires forall a :: a in vars ==> a in more && more[a] == vars[a]
    ensures EvalInner(n, more) == EvalInner(n, vars)
  {
    match n {
      case Atom(_) =>
      case Not(x) =>
        DefinedIsStable(x, vars, more);
      case _ =>
        DefinedIsStable(n.left, vars, more);
        if EvalInner(n.right, vars).Some? {
          DefinedIsStable(n.right, vars, more);
        }
    }
  }

  /**
   * Evaluation runs left to right and stops early: a decisive left operand makes a missing
   * variable on the right harmless, while one on the left, or under Iff, is not.
   */
  lemma ShortCircuit(l: Node, r: Node, vars: map<string, bool>)
    ensures EvalInner(l, vars) == Some(false) ==> EvalInner(And(l, r), vars) == Some(false)
    ensures EvalInner(l, vars) == Some(true) ==> EvalInner(Or(l, r), vars) == Some(true)
    ensures EvalInner(l, vars) == Some(false) ==> EvalInner(If(l, r), vars) == Some(true)
    ensures EvalInner(l, vars) == None ==>
      && EvalInner(And(l, r), vars) == None && EvalInner(Or(l, r), vars) == None
      && EvalInner(If(l, r), vars) == None && EvalInner(Iff(l, r), vars) == None
    ensures EvalInner(r, vars) == None ==> EvalInner(Iff(l, r), vars) == None
  {
  }

  /** `a & b` with only a = false assigned is false, with only a = true it is undefined. */
  lemma MissingVariableOnTheRight()
    ensures EvalInner(And(Atom("a"), Atom("b")), map["a" := false]) == Some(false)
    ensures EvalInner(And(Atom("a"), Atom("b")), map["a" := true]) == None
  {
  }

  /** `Formula` of lib.rs: the root and the set of variable names gathered when it was built. */
  datatype Formula = Formula(root: Node, variables: set<string>)
  {
    /** `Formula::eval` (lib.rs:286-288). */
    function Eval(vars: map<string, bool>): Option<bool>
    {
      EvalInner(root, vars)
    }
  }
}
