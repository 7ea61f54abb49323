/**
  The truth-table decider of 00-Logics/sat-tt.cpp: `FormulaInterpreter` lists the atoms of
  a formula and tries every assignment to them, `false` before `true`, one atom per level
  of recursion. The assignment map the source threads through the recursion is a value
  here: each level sets its own atom before it recurses, so the map a level sees is the
  one it was given with that atom overwritten.
*/
module TruthTable {
  import opened Wrappers
  import opened Formulas

  /** The atoms from position `i` of the list on. */
  function Rest(atoms: seq<string>, i: nat): set<string> {
    set k | i <= k < |atoms| :: atoms[k]
  }

  /**
    `b` is one of the assignments the search from level `i` can reach from `a`: it assigns
    the atoms of `a` and the atoms still to try, and agrees with `a` on every atom the
    search leaves alone.
  */
  ghost predicate Extends(b: map<string, bool>, a: map<string, bool>, atoms: seq<string>, i: nat) {
    b.Keys == a.Keys + Rest(atoms, i)
    && forall name :: name in a && name !in Rest(atoms, i) ==> b[name] == a[name]
  }

  /** Every atom of `f` is assigned in `a` or still to be tried. */
  ghost predicate Covered(f: Formula, atoms: seq<string>, i: nat, a: map<string, bool>) {
    forall name :: Occurs(f, name) ==> name in a || name in Rest(atoms, i)
  }

  /** `tryAssignments(index, assignment)`: stops at the first assignment that makes `f` true. */
  function TrySat(f: Formula, atoms: seq<string>, i: nat, a: map<string, bool>): (r: Result<bool>)
    requires i <= |atoms|
    decreases |atoms| - i
  {
    if i == |atoms| then Evaluate(f, a)
    else
      var low :- TrySat(f, atoms, i + 1, a[atoms[i] := false]);
      if low then Ok(true) else TrySat(f, atoms, i + 1, a[atoms[i] := true])
  }

  /** `tryAllAssignmentsForValidity(index, assignment)`: stops at the first assignment that makes `f` false. */
  function TryValid(f: Formula, atoms: seq<string>, i: nat, a: map<string, bool>): (r: Result<bool>)
    requires i <= |atoms|
    decreases |atoms| - i
  {
    if i == |atoms| then Evaluate(f, a)
    else
      var low :- TryValid(f, atoms, i + 1, a[atoms[i] := false]);
      if !low then Ok(false) else TryValid(f, atoms, i + 1, a[atoms[i] := true])
  }

  lemma RestStep(atoms: seq<string>, i: nat)
    requires i < |atoms|
    ensures Rest(atoms, i) == {atoms[i]} + Rest(atoms, i + 1)
  {
  }

  /** With nothing left to try, the only reachable assignment is the one at hand. */
  lemma ExtendsDone(b: map<string, bool>, a: map<string, bool>, atoms: seq<string>)
    ensures Extends(b, a, atoms, |atoms|) <==> b == a
  {
    assert Rest(atoms, |atoms|) == {};
  }

  /**
    From level `i`, the assignments reachable from `a` are those reachable one level down
    with the atom of level `i` set to `false` or to `true`.
  */
  lemma ExtendsStep(b: map<string, bool>, a: map<string, bool>, atoms: seq<string>, i: nat)
    requires i < |atoms|
    ensures Extends(b, a, atoms, i) <==>
      Extends(b, a[atoms[i] := false], atoms, i + 1) || Extends(b, a[atoms[i] := true], atoms, i + 1)
  {
    var x := atoms[i];
    RestStep(atoms, i);
    if Extends(b, a, atoms, i) {
      var v := b[x];
      assert Extends(b, a[x := v], atoms, i + 1);
    }
  }

  lemma CoveredStep(f: Formula, atoms: seq<string>, i: nat, a: map<string, bool>, v: bool)
    requires i < |atoms| && Covered(f, atoms, i, a)
    ensures Covered(f, atoms, i + 1, a[atoms[i] := v])
  {
    RestStep(atoms, i);
  }

  /**
    The satisfiability search from level `i` never meets an unassigned atom, and it answers
    true exactly when some assignment it can reach makes `f` true.
  */
  lemma {:induction false} TrySatIff(f: Formula, atoms: seq<string>, i: nat, a: map<string, bool>)
    requires i <= |atoms| && Covered(f, atoms, i, a)
    ensures TrySat(f, atoms, i, a).Ok?
    ensures TrySat(f, atoms, i, a).value <==>
      exists b :: Extends(b, a, atoms, i) && Evaluate(f, b) == Ok(true)
    decreases |atoms| - i
  {
    if i == |atoms| {
      forall b | Extends(b, a, atoms, i)
        ensures b == a
      {
        ExtendsDone(b, a, atoms);
      }
      ExtendsDone(a, a, atoms);
    } else {
      var x := atoms[i];
      var a0, a1 := a[x := false], a[x := true];
      CoveredStep(f, atoms, i, a, false);
      CoveredStep(f, atoms, i, a, true);
      TrySatIff(f, atoms, i + 1, a0);
      TrySatIff(f, atoms, i + 1, a1);
      forall b
        ensures Extends(b, a, atoms, i) <==> Extends(b, a0, atoms, i + 1) || Extends(b, a1, atoms, i + 1)
      {
        ExtendsStep(b, a, atoms, i);
      }
    }
  }

  /**
    The validity search from level `i` never meets an unassigned atom, and it answers true
    exactly when every assignment it can reach makes `f` true.
  */
  lemma {:induction false} TryValidIff(f: Formula, atoms: seq<string>, i: nat, a: map<string, bool>)
    requires i <= |atoms| && Covered(f, atoms, i, a)
    ensures TryValid(f, atoms, i, a).Ok?
    ensures TryValid(f, atoms, i, a).value <==>
      forall b :: Extends(b, a, atoms, i) ==> Evaluate(f, b) == Ok(true)
    decreases |atoms| - i
  {
    if i == |atoms| {
      forall b | Extends(b, a, atoms, i)
        ensures b == a
      {
        ExtendsDone(b, a, atoms);
      }
      ExtendsDone(a, a, atoms);
    } else {
      var x := atoms[i];
      var a0, a1 := a[x := false], a[x := true];
      CoveredStep(f, atoms, i, a, false);
      CoveredStep(f, atoms, i, a, true);
      TryValidIff(f, atoms, i + 1, a0);
      TryValidIff(f, atoms, i + 1, a1);
      forall b
        ensures Extends(b, a, atoms, i) <==> Extends(b, a0, atoms, i + 1) || Extends(b, a1, atoms, i + 1)
      {
        ExtendsStep(b, a, atoms, i);
      }
    }
  }

  /** From the empty assignment, the reachable assignments are those over exactly the listed atoms. */
  lemma ExtendsEmpty(b: map<string, bool>, atoms: seq<string>)
    ensures Extends(b, map[], atoms, 0) <==> b.Keys == Rest(atoms, 0)
  {
  }

  /** The interpreter of one formula, with the atoms it tries in a fixed order. */
  class FormulaInterpreter {
    const formula: Formula
    const atoms: seq<string>

    /** The listed atoms are exactly the atoms of the formula, each once. */
    ghost predicate Valid() {
      (forall name :: name in atoms <==> Occurs(formula, name))
      && forall j, k :: 0 <= j < k < |atoms| ==> atoms[j] != atoms[k]
    }

    /** The constructor lists the set from `getAllAtomicProps`. */
    constructor (formula: Formula)
      ensures this.formula == formula && Valid()
    {
      var rest := GetAllAtomicProps(formula);
      var listed: seq<string> := [];
      while rest != {}
        invariant forall name :: name in listed || name in rest <==> Occurs(formula, name)
        invariant forall name :: name in listed ==> name !in rest
        invariant forall j, k :: 0 <= j < k < |listed| ==> listed[j] != listed[k]
        decreases |rest|
      {
        var name :| name in rest;
        listed := listed + [name];
        rest := rest - {name};
      }
      this.formula := formula;
      this.atoms := listed;
    }

    lemma AtomsAreRest()
      requires Valid()
      ensures Rest(atoms, 0) == GetAllAtomicProps(formula)
    {
      forall name | Occurs(formula, name)
        ensures name in Rest(atoms, 0)
      {
        var k :| 0 <= k < |atoms| && atoms[k] == name;
      }
    }

    /** `isSatisfiable`: some assignment to the atoms of the formula makes it true. */
    method IsSatisfiable() returns (sat: bool)
      requires Valid()
      ensures sat <==> exists b: map<string, bool> :: b.Keys == GetAllAtomicProps(formula) && Evaluate(formula, b) == Ok(true)
    {
      AtomsAreRest();
      TrySatIff(formula, atoms, 0, map[]);
      forall b
        ensures Extends(b, map[], atoms, 0) <==> b.Keys == GetAllAtomicProps(formula)
      {
        ExtendsEmpty(b, atoms);
      }
      sat := TrySat(formula, atoms, 0, map[]).value;
    }

    /** `isValid`: every assignment to the atoms of the formula makes it true. */
    method IsValid() returns (valid: bool)
      requires Valid()
      ensures valid <==> forall b: map<string, bool> :: b.Keys == GetAllAtomicProps(formula) ==> Evaluate(formula, b) == Ok(true)
    {
      AtomsAreRest();
      TryValidIff(formula, atoms, 0, map[]);
      forall b
        ensures Extends(b, map[], atoms, 0) <==> b.Keys == GetAllAtomicProps(formula)
      {
        ExtendsEmpty(b, atoms);
      }
      valid := TryValid(formula, atoms, 0, map[]).value;
    }
  }

  /** A valid formula is satisfiable: the all-false assignment is one of those tried. */
  lemma ValidIsSatisfiable(f: Formula, atoms: seq<string>)
    requires Covered(f, atoms, 0, map[])
    requires TryValid(f, atoms, 0, map[]) == Ok(true)
    ensures TrySat(f, atoms, 0, map[]) == Ok(true)
  {
    TryValidIff(f, atoms, 0, map[]);
    TrySatIff(f, atoms, 0, map[]);
    var b := map name | name in Rest(atoms, 0) :: false;
    ExtendsEmpty(b, atoms);
  }
}
