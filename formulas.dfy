/**
  Formulas of propositional logic as the truth-table decider (00-Logics/sat-tt.cpp)
  represents them: atoms with alphanumeric names, the constants, negation and the three
  binary connectives; their infix printing, the atoms they mention, and their value
  under an assignment of truth values to atom names.
*/
module Formulas {
  import opened Wrappers

  datatype BinOp = And | Or | Imp

  /** The symbol the infix printer writes for a connective. */
  function BinOpToString(op: BinOp): (s: string)
    ensures |s| == 2
    ensures s[0] != s[1] <==> op == Imp
  {
    match op
    case And => "&&"
    case Or => "||"
    case Imp => "=>"
  }

  datatype Formula =
    | Atom(name: string)
    | Const(value: bool)
    | Neg(operand: Formula)
    | Bin(op: BinOp, left: Formula, right: Formula)

  /** `isalpha` in the C locale. */
  predicate IsAlpha(ch: char) {
    'a' <= ch <= 'z' || 'A' <= ch <= 'Z'
  }

  /** `isalnum` in the C locale. */
  predicate IsAlnum(ch: char) {
    IsAlpha(ch) || '0' <= ch <= '9'
  }

  /** A name the `Atom` constructor accepts: a letter, then letters and digits. */
  predicate ValidName(name: string) {
    |name| > 0 && IsAlpha(name[0]) && forall i :: 0 <= i < |name| ==> IsAlnum(name[i])
  }

  /** The `Atom` constructor, which throws for a name that is not `ValidName`. */
  function MakeAtom(name: string): (r: Result<Formula>)
    ensures r.Ok? <==> ValidName(name)
    ensures r.Ok? ==> r.value == Atom(name)
  {
    if |name| == 0 || !IsAlpha(name[0]) then Err("Atom name must start with a letter.")
    else if exists i :: 0 <= i < |name| && !IsAlnum(name[i]) then Err("Atom name must be alphanumeric.")
    else Ok(Atom(name))
  }

  /** Every atom of `f` has a valid name, as every formula built through `MakeAtom` does. */
  predicate WellNamed(f: Formula) {
    match f
    case Atom(name) => ValidName(name)
    case Const(_) => true
    case Neg(x) => WellNamed(x)
    case Bin(_, l, r) => WellNamed(l) && WellNamed(r)
  }

  /** `to_string`: the infix form, with every negation and binary formula parenthesised. */
  function ToString(f: Formula): string {
    match f
    case Atom(name) => name
    case Const(b) => if b then "true" else "false"
    case Neg(x) => "!(" + ToString(x) + ")"
    case Bin(op, l, r) => "(" + ToString(l) + " " + BinOpToString(op) + " " + ToString(r) + ")"
  }

  /** The number of occurrences of `ch` in `s`. */
  function Count(s: string, ch: char): nat {
    if s == [] then 0 else (if s[0] == ch then 1 else 0) + Count(s[1..], ch)
  }

  lemma {:induction false} CountAppend(a: string, b: string, ch: char)
    ensures Count(a + b, ch) == Count(a, ch) + Count(b, ch)
  {
    if a == [] {
      assert a + b == b;
    } else {
      assert (a + b)[1..] == a[1..] + b;
      CountAppend(a[1..], b, ch);
    }
  }

  lemma {:induction false} CountAlnum(s: string, ch: char)
    requires !IsAlnum(ch) && forall i :: 0 <= i < |s| ==> IsAlnum(s[i])
    ensures Count(s, ch) == 0
  {
    if s != [] {
      CountAlnum(s[1..], ch);
    }
  }

  /**
    The printed form of a well-named formula has as many closing as opening parentheses,
    one pair for each negation and each binary connective.
  */
  lemma {:induction false} ToStringBalanced(f: Formula)
    requires WellNamed(f)
    ensures Count(ToString(f), '(') == Count(ToString(f), ')') == Connectives(f)
  {
    match f
    case Atom(name) =>
      CountAlnum(name, '(');
      CountAlnum(name, ')');
    case Const(b) =>
      CountAlnum(ToString(f), '(');
      CountAlnum(ToString(f), ')');
    case Neg(x) =>
      ToStringBalanced(x);
      CountAppend("!(" + ToString(x), ")", '(');
      CountAppend("!(" + ToString(x), ")", ')');
      CountAppend("!(", ToString(x), '(');
      CountAppend("!(", ToString(x), ')');
    case Bin(op, l, r) =>
      ToStringBalanced(l);
      ToStringBalanced(r);
      CountBin(op, l, r, '(');
      CountBin(op, l, r, ')');
  }

  /** A parenthesis in the printed form of a binary formula is one of its operands' or one of its own pair. */
  lemma CountBin(op: BinOp, l: Formula, r: Formula, ch: char)
    requires ch == '(' || ch == ')'
    ensures Count(ToString(Bin(op, l, r)), ch) == Count(ToString(l), ch) + Count(ToString(r), ch) + 1
  {
    var sl, sop, sr := ToString(l), BinOpToString(op), ToString(r);
    CountAppend("(" + sl + " " + sop + " " + sr, ")", ch);
    CountAppend("(" + sl + " " + sop + " ", sr, ch);
    CountAppend("(" + sl + " " + sop, " ", ch);
    CountAppend("(" + sl + " ", sop, ch);
    CountAppend("(" + sl, " ", ch);
    CountAppend("(", sl, ch);
    assert Count(" ", ch) == 0;
    assert Count("(", ch) + Count(")", ch) == 1;
    assert Count(sop, ch) == 0 by {
      assert sop[0] != ch && sop[1] != ch;
      assert sop[1..][1..] == [];
    }
  }

  /** The number of negations and binary connectives in `f`. */
  function Connectives(f: Formula): nat {
    match f
    case Atom(_) => 0
    case Const(_) => 0
    case Neg(x) => 1 + Connectives(x)
    case Bin(_, l, r) => 1 + Connectives(l) + Connectives(r)
  }

  /** The atom `name` occurs in `f`. */
  predicate Occurs(f: Formula, name: string) {
    match f
    case Atom(n) => n == name
    case Const(_) => false
    case Neg(x) => Occurs(x, name)
    case Bin(_, l, r) => Occurs(l, name) || Occurs(r, name)
  }

  /** `collectAtoms`: adds the names of the atoms of `f` to `result`. */
  function CollectAtoms(f: Formula, result: set<string>): (r: set<string>)
    ensures forall name :: name in r <==> name in result || Occurs(f, name)
  {
    match f
    case Atom(name) => result + {name}
    case Const(_) => result
    case Neg(x) => CollectAtoms(x, result)
    case Bin(_, l, r) => CollectAtoms(r, CollectAtoms(l, result))
  }

  /** `getAllAtomicProps`: exactly the names of the atoms occurring in `f`. */
  function GetAllAtomicProps(f: Formula): (atoms: set<string>)
    ensures forall name :: name in atoms <==> Occurs(f, name)
  {
    CollectAtoms(f, {})
  }

  /**
    `evaluate`: negation, conjunction, disjunction and implication as `!l || r`, the left
    operand first; it fails on the first atom (from the left) the assignment leaves out.
  */
  function Evaluate(f: Formula, assignment: map<string, bool>): (r: Result<bool>)
    ensures r.Ok? <==> forall name :: Occurs(f, name) ==> name in assignment
  {
    match f
    case Atom(name) =>
      if name !in assignment then Err("Unassigned variable: " + name) else Ok(assignment[name])
    case Const(b) => Ok(b)
    case Neg(x) =>
      var v :- Evaluate(x, assignment);
      Ok(!v)
    case Bin(op, l, r) =>
      var left :- Evaluate(l, assignment);
      var right :- Evaluate(r, assignment);
      match op
      case And => Ok(left && right)
      case Or => Ok(left || right)
      case Imp => Ok(!left || right)
  }

  /** The value of `f` depends only on the atoms occurring in it. */
  lemma {:induction false} EvaluateAgree(f: Formula, a: map<string, bool>, b: map<string, bool>)
    requires forall name :: Occurs(f, name) ==> name in a && name in b && a[name] == b[name]
    ensures Evaluate(f, a) == Evaluate(f, b)
  {
    match f
    case Atom(_) =>
    case Const(_) =>
    case Neg(x) =>
      EvaluateAgree(x, a, b);
    case Bin(_, l, r) =>
      EvaluateAgree(l, a, b);
      EvaluateAgree(r, a, b);
  }

  /** An implication has the value of the disjunction of the negated premise and the conclusion. */
  lemma ImpIsOr(l: Formula, r: Formula, a: map<string, bool>)
    ensures Evaluate(Bin(Imp, l, r), a) == Evaluate(Bin(Or, Neg(l), r), a)
  {
  }
}
