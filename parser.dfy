/**
  The recursive-descent parser of the truth-table decider (00-Logics/sat-tt.cpp) for the
  prefix syntax `pAnd(pAtom("p"), pNeg(pConst("true")))`: the `FormulaBuilder` class with
  its token cursor, the functions that specify it, and the printer of that syntax that
  the parser reads back.
*/
module Parser {
  import opened Wrappers
  import opened Formulas
  import opened Tokenizer

  /** A parsed formula and the position of the first token after it. */
  datatype Parsed = Parsed(formula: Formula, next: nat)

  /** The tokens a formula can start with. */
  predicate IsHead(token: string) {
    token == "pAtom" || token == "pConst" || token == "pNeg" || IsBinHead(token)
  }

  predicate IsBinHead(token: string) {
    token == "pAnd" || token == "pOr" || token == "pImp"
  }

  function OpOf(token: string): BinOp
    requires IsBinHead(token)
  {
    if token == "pAnd" then And else if token == "pOr" then Or else Imp
  }

  /** `expect(s)` at position `pos`: the position after the token, or the error it throws. */
  function ExpectAt(ts: seq<string>, pos: nat, s: string): (r: Result<nat>)
    ensures r.Ok? ==> pos < |ts| && ts[pos] == s && r.value == pos + 1
  {
    if pos >= |ts| then Err("Out of tokens")
    else if ts[pos] != s then Err("Expected '" + s + "'")
    else Ok(pos + 1)
  }

  /** `consume()` at position `pos`. */
  function ConsumeAt(ts: seq<string>, pos: nat): (r: Result<string>)
    ensures r.Ok? ==> pos < |ts| && r.value == ts[pos]
  {
    if pos >= |ts| then Err("Out of tokens") else Ok(ts[pos])
  }

  /** `substr(1, size - 2)`: the token without its first and last characters. */
  function Unquote(t: string): (r: Result<string>)
    ensures |t| >= 2 ==> r == Ok(t[1..|t| - 1])
    ensures |t| == 1 ==> r == Ok([])
    ensures r.Err? <==> t == []
  {
    if |t| == 0 then Err("basic_string::substr") else if |t| == 1 then Ok([]) else Ok(t[1..|t| - 1])
  }

  /**
    `buildFormula` from position `pos`: a formula starts with one of the six head
    tokens, and every atom it yields has a valid name.
  */
  function BuildAt(ts: seq<string>, pos: nat): (r: Result<Parsed>)
    ensures r.Ok? ==> pos < r.value.next <= |ts| && IsHead(ts[pos]) && WellNamed(r.value.formula)
    decreases |ts| - pos, 1
  {
    if pos >= |ts| then Err("Unexpected end of input")
    else
      var token := ts[pos];
      if token == "pAtom" then AtomAt(ts, pos)
      else if token == "pConst" then ConstAt(ts, pos)
      else if token == "pNeg" then NegAt(ts, pos)
      else if IsBinHead(token) then BinAt(ts, pos, token)
      else Err("Unexpected token: " + token)
  }

  /** `pAtom`: the name token loses its first and last characters, quotes or not. */
  function AtomAt(ts: seq<string>, pos: nat): (r: Result<Parsed>)
    ensures r.Ok? ==> pos < r.value.next <= |ts| && WellNamed(r.value.formula)
  {
    var p1 :- ExpectAt(ts, pos, "pAtom");
    var p2 :- ExpectAt(ts, p1, "(");
    var name :- ConsumeAt(ts, p2);
    var p4 :- ExpectAt(ts, p2 + 1, ")");
    var inner :- Unquote(name);
    var atom :- MakeAtom(inner);
    Ok(Parsed(atom, p4))
  }

  /** `pConst`: true exactly for the token `"true"` with its quotes, false for any other. */
  function ConstAt(ts: seq<string>, pos: nat): (r: Result<Parsed>)
    ensures r.Ok? ==> pos < r.value.next <= |ts| && WellNamed(r.value.formula)
  {
    var p1 :- ExpectAt(ts, pos, "pConst");
    var p2 :- ExpectAt(ts, p1, "(");
    var val :- ConsumeAt(ts, p2);
    var p4 :- ExpectAt(ts, p2 + 1, ")");
    Ok(Parsed(Const(val == "\"true\""), p4))
  }

  function NegAt(ts: seq<string>, pos: nat): (r: Result<Parsed>)
    ensures r.Ok? ==> pos < r.value.next <= |ts| && WellNamed(r.value.formula)
    decreases |ts| - pos, 0
  {
    var p1 :- ExpectAt(ts, pos, "pNeg");
    var p2 :- ExpectAt(ts, p1, "(");
    var operand :- BuildAt(ts, p2);
    var p3 :- ExpectAt(ts, operand.next, ")");
    Ok(Parsed(Neg(operand.formula), p3))
  }

  function BinAt(ts: seq<string>, pos: nat, opToken: string): (r: Result<Parsed>)
    requires IsBinHead(opToken)
    ensures r.Ok? ==> pos < r.value.next <= |ts| && WellNamed(r.value.formula)
    decreases |ts| - pos, 0
  {
    var p1 :- ExpectAt(ts, pos, opToken);
    var p2 :- ExpectAt(ts, p1, "(");
    var left :- BuildAt(ts, p2);
    var p3 :- ExpectAt(ts, left.next, ",");
    var right :- BuildAt(ts, p3);
    var p4 :- ExpectAt(ts, right.next, ")");
    Ok(Parsed(Bin(OpOf(opToken), left.formula, right.formula), p4))
  }

  /** The formula of a parse, dropping the position. */
  function FormulaOf(r: Result<Parsed>): Result<Formula> {
    match r
    case Ok(p) => Ok(p.formula)
    case Err(msg) => Err(msg)
  }

  /** `buildFromTokens`: one formula from the start of the tokens; tokens after it are ignored. */
  function Parse(ts: seq<string>): Result<Formula> {
    FormulaOf(BuildAt(ts, 0))
  }

  /** The parser with its cursor `pos` into the tokens. */
  class FormulaBuilder {
    const tokens: seq<string>
    var pos: nat

    constructor (tokens: seq<string>)
      ensures this.tokens == tokens && pos == 0
    {
      this.tokens := tokens;
      pos := 0;
    }

    /** `consume`: the token at the cursor, which moves past it. */
    method Consume() returns (r: Result<string>)
      requires pos <= |tokens|
      modifies this
      ensures r == ConsumeAt(tokens, old(pos))
      ensures pos == if old(pos) < |tokens| then old(pos) + 1 else old(pos)
    {
      if pos >= |tokens| {
        return Err("Out of tokens");
      }
      r := Ok(tokens[pos]);
      pos := pos + 1;
    }

    /** `expect`: consume a token and fail unless it is `expected`. */
    method Expect(expected: string) returns (r: Result<string>)
      requires pos <= |tokens|
      modifies this
      ensures r.Ok? <==> ExpectAt(tokens, old(pos), expected).Ok?
      ensures r.Err? ==> r.msg == ExpectAt(tokens, old(pos), expected).msg
      ensures pos == if old(pos) < |tokens| then old(pos) + 1 else old(pos)
    {
      r := Consume();
      if r.Ok? && r.value != expected {
        r := Err("Expected '" + expected + "'");
      }
    }

    /** `buildFormula`: dispatch on the token at the cursor. */
    method BuildFormula() returns (r: Result<Formula>)
      requires pos <= |tokens|
      modifies this
      ensures pos <= |tokens|
      ensures r == FormulaOf(BuildAt(tokens, old(pos)))
      ensures r.Ok? ==> pos == BuildAt(tokens, old(pos)).value.next
      decreases |tokens| - pos, 2
    {
      if pos >= |tokens| {
        return Err("Unexpected end of input");
      }
      var token := tokens[pos];
      if token == "pAtom" {
        r := PAtom();
      } else if token == "pConst" {
        r := PConst();
      } else if token == "pNeg" {
        r := PNeg();
      } else if token == "pAnd" || token == "pOr" || token == "pImp" {
        r := PBinFormula(token);
      } else {
        r := Err("Unexpected token: " + token);
      }
    }

    method PAtom() returns (r: Result<Formula>)
      requires pos <= |tokens|
      modifies this
      ensures pos <= |tokens|
      ensures r == FormulaOf(AtomAt(tokens, old(pos)))
      ensures r.Ok? ==> pos == AtomAt(tokens, old(pos)).value.next
    {
      var head :- Expect("pAtom");
      var open :- Expect("(");
      var name :- Consume();
      var close :- Expect(")");
      var inner :- Unquote(name);
      r := MakeAtom(inner);
    }

    method PConst() returns (r: Result<Formula>)
      requires pos <= |tokens|
      modifies this
      ensures pos <= |tokens|
      ensures r == FormulaOf(ConstAt(tokens, old(pos)))
      ensures r.Ok? ==> pos == ConstAt(tokens, old(pos)).value.next
    {
      var head :- Expect("pConst");
      var open :- Expect("(");
      var val :- Consume();
      var close :- Expect(")");
      r := Ok(Const(val == "\"true\""));
    }

    method PNeg() returns (r: Result<Formula>)
      requires pos <= |tokens|
      modifies this
      ensures pos <= |tokens|
      ensures r == FormulaOf(NegAt(tokens, old(pos)))
      ensures r.Ok? ==> pos == NegAt(tokens, old(pos)).value.next
      decreases |tokens| - pos, 1
    {
      var head :- Expect("pNeg");
      var open :- Expect("(");
      var operand :- BuildFormula();
      var close :- Expect(")");
      r := Ok(Neg(operand));
    }

    method PBinFormula(opToken: string) returns (r: Result<Formula>)
      requires IsBinHead(opToken) && pos <= |tokens|
      modifies this
      ensures pos <= |tokens|
      ensures r == FormulaOf(BinAt(tokens, old(pos), opToken))
      ensures r.Ok? ==> pos == BinAt(tokens, old(pos), opToken).value.next
      decreases |tokens| - pos, 1
    {
      var op := OpOf(opToken);
      var head :- Expect(opToken);
      var open :- Expect("(");
      var left :- BuildFormula();
      var comma :- Expect(",");
      var right :- BuildFormula();
      var close :- Expect(")");
      r := Ok(Bin(op, left, right));
    }
  }

  /** `buildFromTokens`. */
  method BuildFromTokens(tokens: seq<string>) returns (r: Result<Formula>)
    ensures r == Parse(tokens)
  {
    var builder := new FormulaBuilder(tokens);
    r := builder.BuildFormula();
  }

  // ---------------------------------------------------------------------------
  // The prefix syntax the parser reads
  // ---------------------------------------------------------------------------

  function OpName(op: BinOp): (token: string)
    ensures IsBinHead(token) && OpOf(token) == op
  {
    match op
    case And => "pAnd"
    case Or => "pOr"
    case Imp => "pImp"
  }

  function Quote(name: string): string {
    "\"" + name + "\""
  }

  /** The constant token of the prefix syntax. */
  function ConstToken(b: bool): string {
    if b then "\"true\"" else "\"false\""
  }

  /** The number of prefix tokens of `f`. */
  function Width(f: Formula): nat {
    match f
    case Atom(_) => 4
    case Const(_) => 4
    case Neg(x) => 3 + Width(x)
    case Bin(_, l, r) => 4 + Width(l) + Width(r)
  }

  /** The tokens of `f` in the prefix syntax, names and constants in double quotes. */
  function PrefixTokens(f: Formula): (ts: seq<string>)
    ensures |ts| == Width(f)
  {
    match f
    case Atom(name) => ["pAtom", "(", Quote(name), ")"]
    case Const(b) => ["pConst", "(", ConstToken(b), ")"]
    case Neg(x) => ["pNeg", "("] + PrefixTokens(x) + [")"]
    case Bin(op, l, r) => [OpName(op), "("] + PrefixTokens(l) + [","] + PrefixTokens(r) + [")"]
  }

  /** `f` written in the prefix syntax, with no white space. */
  function PrefixText(f: Formula): string {
    Concat(PrefixTokens(f))
  }

  /** The prefix tokens of `f` stand in `ts` from position `pos` on, token by token. */
  predicate TokensAt(ts: seq<string>, pos: nat, f: Formula)
    decreases f
  {
    match f
    case Atom(name) =>
      pos + 4 <= |ts| && ts[pos] == "pAtom" && ts[pos + 1] == "(" && ts[pos + 2] == Quote(name) && ts[pos + 3] == ")"
    case Const(b) =>
      pos + 4 <= |ts| && ts[pos] == "pConst" && ts[pos + 1] == "(" && ts[pos + 2] == ConstToken(b) && ts[pos + 3] == ")"
    case Neg(x) =>
      pos + 3 + Width(x) <= |ts| && ts[pos] == "pNeg" && ts[pos + 1] == "("
      && TokensAt(ts, pos + 2, x) && ts[pos + 2 + Width(x)] == ")"
    case Bin(op, l, r) =>
      pos + 4 + Width(l) + Width(r) <= |ts| && ts[pos] == OpName(op) && ts[pos + 1] == "("
      && TokensAt(ts, pos + 2, l) && ts[pos + 2 + Width(l)] == ","
      && TokensAt(ts, pos + 3 + Width(l), r) && ts[pos + 3 + Width(l) + Width(r)] == ")"
  }

  /** `buildFormula` at `pos` yields `f` and stops at `next`. */
  predicate BuildsAt(ts: seq<string>, pos: nat, f: Formula, next: nat) {
    BuildAt(ts, pos) == Ok(Parsed(f, next))
  }

  /** The parser reads a well-named formula back from its prefix tokens, wherever they stand. */
  lemma {:induction false} BuildPrefix(f: Formula, ts: seq<string>, pos: nat)
    requires WellNamed(f) && TokensAt(ts, pos, f)
    ensures BuildsAt(ts, pos, f, pos + Width(f))
    decreases f, 1
  {
    match f
    case Atom(name) =>
      BuildAtomFrom(ts, pos, name);
    case Const(b) =>
      BuildConstFrom(ts, pos, b);
    case Neg(x) =>
      BuildNegPrefix(x, ts, pos);
    case Bin(op, l, r) =>
      BuildBinPrefix(op, l, r, ts, pos);
  }

  lemma {:induction false} BuildNegPrefix(x: Formula, ts: seq<string>, pos: nat)
    requires WellNamed(x) && TokensAt(ts, pos, Neg(x))
    ensures BuildsAt(ts, pos, Neg(x), pos + 3 + Width(x))
    decreases Neg(x), 0
  {
    BuildPrefix(x, ts, pos + 2);
    BuildNegFrom(ts, pos, x, Width(x));
  }

  lemma {:induction false} BuildBinPrefix(op: BinOp, l: Formula, r: Formula, ts: seq<string>, pos: nat)
    requires WellNamed(l) && WellNamed(r) && TokensAt(ts, pos, Bin(op, l, r))
    ensures BuildsAt(ts, pos, Bin(op, l, r), pos + 4 + Width(l) + Width(r))
    decreases Bin(op, l, r), 0
  {
    BuildPrefix(l, ts, pos + 2);
    BuildPrefix(r, ts, pos + 3 + Width(l));
    BuildBinFrom(ts, pos, op, l, r, Width(l), Width(r));
  }

  lemma BuildAtomFrom(ts: seq<string>, pos: nat, name: string)
    requires ValidName(name) && pos + 4 <= |ts|
    requires ts[pos] == "pAtom" && ts[pos + 1] == "(" && ts[pos + 2] == Quote(name) && ts[pos + 3] == ")"
    ensures BuildsAt(ts, pos, Atom(name), pos + 4)
  {
    assert Quote(name)[1..|Quote(name)| - 1] == name;
  }

  lemma BuildConstFrom(ts: seq<string>, pos: nat, b: bool)
    requires pos + 4 <= |ts|
    requires ts[pos] == "pConst" && ts[pos + 1] == "(" && ts[pos + 2] == ConstToken(b) && ts[pos + 3] == ")"
    ensures BuildsAt(ts, pos, Const(b), pos + 4)
  {
    assert "\"false\""[1] != "\"true\""[1];
  }

  lemma BuildNegFrom(ts: seq<string>, pos: nat, x: Formula, n: nat)
    requires pos + 3 + n <= |ts| && ts[pos] == "pNeg" && ts[pos + 1] == "("
    requires BuildsAt(ts, pos + 2, x, pos + 2 + n) && ts[pos + 2 + n] == ")"
    ensures BuildsAt(ts, pos, Neg(x), pos + 3 + n)
  {
  }

  lemma BuildBinFrom(ts: seq<string>, pos: nat, op: BinOp, l: Formula, r: Formula, nl: nat, nr: nat)
    requires pos + 4 + nl + nr <= |ts| && ts[pos] == OpName(op) && ts[pos + 1] == "("
    requires BuildsAt(ts, pos + 2, l, pos + 2 + nl) && ts[pos + 2 + nl] == ","
    requires BuildsAt(ts, pos + 3 + nl, r, pos + 3 + nl + nr) && ts[pos + 3 + nl + nr] == ")"
    ensures BuildsAt(ts, pos, Bin(op, l, r), pos + 4 + nl + nr)
  {
  }

  /** `pt` stands in `ts` from position `pos` on. */
  predicate Matches(ts: seq<string>, pos: nat, pt: seq<string>) {
    pos + |pt| <= |ts| && forall k :: 0 <= k < |pt| ==> ts[pos + k] == pt[k]
  }

  /** The prefix tokens of `f`, wherever they stand in a token sequence, stand there token by token. */
  lemma {:induction false} MatchesTokensAt(f: Formula, ts: seq<string>, pos: nat)
    requires Matches(ts, pos, PrefixTokens(f))
    ensures TokensAt(ts, pos, f)
    decreases f, 1
  {
    var pt := PrefixTokens(f);
    match f
    case Atom(_) =>
      assert ts[pos + 0] == pt[0] && ts[pos + 1] == pt[1] && ts[pos + 2] == pt[2] && ts[pos + 3] == pt[3];
    case Const(_) =>
      assert ts[pos + 0] == pt[0] && ts[pos + 1] == pt[1] && ts[pos + 2] == pt[2] && ts[pos + 3] == pt[3];
    case Neg(x) =>
      MatchesTokensAtNeg(x, ts, pos);
    case Bin(op, l, r) =>
      MatchesTokensAtBin(op, l, r, ts, pos);
  }

  lemma {:induction false} MatchesTokensAtNeg(x: Formula, ts: seq<string>, pos: nat)
    requires Matches(ts, pos, PrefixTokens(Neg(x)))
    ensures TokensAt(ts, pos, Neg(x))
    decreases Neg(x), 0
  {
    var pt := PrefixTokens(Neg(x));
    NegParts(x);
    assert ts[pos + 0] == pt[0] && ts[pos + 1] == pt[1] && ts[pos + (2 + Width(x))] == pt[2 + Width(x)];
    MatchesInner(ts, pos, pt, 2, PrefixTokens(x));
    MatchesTokensAt(x, ts, pos + 2);
    TokensAtNeg(ts, pos, x);
  }

  lemma TokensAtNeg(ts: seq<string>, pos: nat, x: Formula)
    requires pos + 3 + Width(x) <= |ts| && ts[pos] == "pNeg" && ts[pos + 1] == "("
    requires TokensAt(ts, pos + 2, x) && ts[pos + 2 + Width(x)] == ")"
    ensures TokensAt(ts, pos, Neg(x))
  {
  }

  lemma {:induction false} MatchesTokensAtBin(op: BinOp, l: Formula, r: Formula, ts: seq<string>, pos: nat)
    requires Matches(ts, pos, PrefixTokens(Bin(op, l, r)))
    ensures TokensAt(ts, pos, Bin(op, l, r))
    decreases Bin(op, l, r), 0
  {
    BinMarks(op, l, r, ts, pos);
    BinInner(op, l, r, ts, pos);
    MatchesTokensAt(l, ts, pos + 2);
    MatchesTokensAt(r, ts, pos + 3 + Width(l));
    TokensAtBin(ts, pos, op, l, r);
  }

  /** Tokens matching the prefix tokens of a binary formula hold its connective and punctuation. */
  lemma BinMarks(op: BinOp, l: Formula, r: Formula, ts: seq<string>, pos: nat)
    requires Matches(ts, pos, PrefixTokens(Bin(op, l, r)))
    ensures pos + 4 + Width(l) + Width(r) <= |ts| && ts[pos] == OpName(op) && ts[pos + 1] == "("
    ensures ts[pos + 2 + Width(l)] == "," && ts[pos + 3 + Width(l) + Width(r)] == ")"
  {
    var pt := PrefixTokens(Bin(op, l, r));
    var nl, nr := Width(l), Width(r);
    BinPoints(op, l, r);
    assert ts[pos + 0] == pt[0] && ts[pos + 1] == pt[1];
    assert ts[pos + (2 + nl)] == pt[2 + nl] && ts[pos + (3 + nl + nr)] == pt[3 + nl + nr];
  }

  /** Tokens matching the prefix tokens of a binary formula match those of its operands in place. */
  lemma BinInner(op: BinOp, l: Formula, r: Formula, ts: seq<string>, pos: nat)
    requires Matches(ts, pos, PrefixTokens(Bin(op, l, r)))
    ensures Matches(ts, pos + 2, PrefixTokens(l)) && Matches(ts, pos + 3 + Width(l), PrefixTokens(r))
  {
    var pt := PrefixTokens(Bin(op, l, r));
    BinParts(op, l, r);
    MatchesInner(ts, pos, pt, 2, PrefixTokens(l));
    MatchesInner(ts, pos, pt, 3 + Width(l), PrefixTokens(r));
  }

  lemma TokensAtBin(ts: seq<string>, pos: nat, op: BinOp, l: Formula, r: Formula)
    requires pos + 4 + Width(l) + Width(r) <= |ts| && ts[pos] == OpName(op) && ts[pos + 1] == "("
    requires TokensAt(ts, pos + 2, l) && ts[pos + 2 + Width(l)] == ","
    requires TokensAt(ts, pos + 3 + Width(l), r) && ts[pos + 3 + Width(l) + Width(r)] == ")"
    ensures TokensAt(ts, pos, Bin(op, l, r))
  {
  }

  lemma MatchesInner(ts: seq<string>, pos: nat, pt: seq<string>, at: nat, sub: seq<string>)
    requires Matches(ts, pos, pt) && at + |sub| <= |pt| && pt[at..at + |sub|] == sub
    ensures Matches(ts, pos + at, sub)
  {
    forall k | 0 <= k < |sub|
      ensures ts[pos + at + k] == sub[k]
    {
      assert pt[at..at + |sub|][k] == pt[at + k];
      assert ts[pos + (at + k)] == pt[at + k];
    }
  }

  /** Where the prefix tokens of a negation keep their parts. */
  lemma NegParts(x: Formula)
    ensures PrefixTokens(Neg(x))[0] == "pNeg" && PrefixTokens(Neg(x))[1] == "("
    ensures PrefixTokens(Neg(x))[2..2 + Width(x)] == PrefixTokens(x)
    ensures PrefixTokens(Neg(x))[2 + Width(x)] == ")"
  {
  }

  /** Where the prefix tokens of a binary formula keep its connective and punctuation. */
  lemma BinPoints(op: BinOp, l: Formula, r: Formula)
    ensures PrefixTokens(Bin(op, l, r))[0] == OpName(op) && PrefixTokens(Bin(op, l, r))[1] == "("
    ensures PrefixTokens(Bin(op, l, r))[2 + Width(l)] == ","
    ensures PrefixTokens(Bin(op, l, r))[3 + Width(l) + Width(r)] == ")"
  {
    var pt, pl, pr := PrefixTokens(Bin(op, l, r)), PrefixTokens(l), PrefixTokens(r);
    var left := [OpName(op), "("] + pl;
    assert pt == left + [","] + pr + [")"];
  }

  /** Where the prefix tokens of a binary formula keep their parts. */
  lemma BinParts(op: BinOp, l: Formula, r: Formula)
    ensures PrefixTokens(Bin(op, l, r))[0] == OpName(op) && PrefixTokens(Bin(op, l, r))[1] == "("
    ensures PrefixTokens(Bin(op, l, r))[2..2 + Width(l)] == PrefixTokens(l)
    ensures PrefixTokens(Bin(op, l, r))[2 + Width(l)] == ","
    ensures PrefixTokens(Bin(op, l, r))[3 + Width(l)..3 + Width(l) + Width(r)] == PrefixTokens(r)
    ensures PrefixTokens(Bin(op, l, r))[3 + Width(l) + Width(r)] == ")"
  {
    var pt, pl, pr := PrefixTokens(Bin(op, l, r)), PrefixTokens(l), PrefixTokens(r);
    var left := [OpName(op), "("] + pl;
    assert pt == left + [","] + pr + [")"];
    assert pt[..|left|] == left;
    assert left[2..] == pl;
    assert pt[3 + Width(l)..3 + Width(l) + Width(r)] == pr;
  }

  lemma QuoteClosed(name: string)
    requires ValidName(name)
    ensures IsClosedQuoted(Quote(name))
  {
    var q := Quote(name);
    assert forall i :: 0 < i < |q| - 1 ==> q[i] == name[i - 1];
  }

  /** The prefix tokens of a well-named formula can be written without separators. */
  lemma {:induction false} PrefixSeparated(f: Formula)
    requires WellNamed(f)
    ensures Separated(PrefixTokens(f))
  {
    var pt := PrefixTokens(f);
    match f
    case Atom(name) =>
      QuoteClosed(name);
      assert Fits(pt, 0) && Fits(pt, 1) && Fits(pt, 2) && Fits(pt, 3);
    case Const(b) =>
      assert Fits(pt, 0) && Fits(pt, 1) && Fits(pt, 2) && Fits(pt, 3);
    case Neg(x) =>
      PrefixSeparated(x);
      NegSeparated(x);
    case Bin(op, l, r) =>
      PrefixSeparated(l);
      PrefixSeparated(r);
      BinSeparated(op, l, r);
  }

  lemma NegSeparated(x: Formula)
    requires Separated(PrefixTokens(x))
    ensures Separated(PrefixTokens(Neg(x)))
  {
    var open := ["pNeg", "("];
    assert Fits(open, 0) && Fits(open, 1);
    assert Separated([")"]) by {
      assert Fits([")"], 0);
    }
    SeparatedAppend(open, PrefixTokens(x));
    SeparatedAppend(open + PrefixTokens(x), [")"]);
  }

  lemma BinSeparated(op: BinOp, l: Formula, r: Formula)
    requires Separated(PrefixTokens(l)) && Separated(PrefixTokens(r))
    ensures Separated(PrefixTokens(Bin(op, l, r)))
  {
    var open := [OpName(op), "("];
    var pl, pr := PrefixTokens(l), PrefixTokens(r);
    assert Fits(open, 0) && Fits(open, 1);
    assert Separated([","]) by {
      assert Fits([","], 0);
    }
    assert Separated([")"]) by {
      assert Fits([")"], 0);
    }
    SeparatedAppend(open, pl);
    SeparatedAppend(open + pl, [","]);
    SeparatedAppend(open + pl + [","], pr);
    SeparatedAppend(open + pl + [","] + pr, [")"]);
  }

  /**
    Tokenizing the prefix text of a well-named formula and building a formula from the
    tokens gives back the formula.
  */
  lemma RoundTrip(f: Formula)
    requires WellNamed(f)
    ensures Parse(Tokenization(PrefixText(f))) == Ok(f)
  {
    PrefixSeparated(f);
    TokenizationOfConcat(PrefixTokens(f));
    var ts := PrefixTokens(f);
    assert Matches(ts, 0, ts) by {
      assert forall k :: 0 <= k < |ts| ==> ts[0 + k] == ts[k];
    }
    MatchesTokensAt(f, ts, 0);
    BuildPrefix(f, ts, 0);
  }

  lemma ExpectAtExtends(ts: seq<string>, rest: seq<string>, pos: nat, s: string)
    requires ExpectAt(ts, pos, s).Ok?
    ensures ExpectAt(ts + rest, pos, s) == ExpectAt(ts, pos, s)
  {
    assert (ts + rest)[pos] == ts[pos];
  }

  /** Tokens after a complete formula do not change how it is parsed. */
  lemma {:induction false} BuildIgnoresRest(ts: seq<string>, rest: seq<string>, pos: nat)
    requires BuildAt(ts, pos).Ok?
    ensures BuildAt(ts + rest, pos) == BuildAt(ts, pos)
    decreases |ts| - pos
  {
    var all := ts + rest;
    assert all[pos] == ts[pos];
    var token := ts[pos];
    ExpectAtExtends(ts, rest, pos, token);
    ExpectAtExtends(ts, rest, pos + 1, "(");
    if token == "pAtom" || token == "pConst" {
      assert all[pos + 2] == ts[pos + 2];
      ExpectAtExtends(ts, rest, pos + 3, ")");
    } else if token == "pNeg" {
      var operand := BuildAt(ts, pos + 2).value;
      BuildIgnoresRest(ts, rest, pos + 2);
      ExpectAtExtends(ts, rest, operand.next, ")");
    } else {
      var left := BuildAt(ts, pos + 2).value;
      BuildIgnoresRest(ts, rest, pos + 2);
      ExpectAtExtends(ts, rest, left.next, ",");
      var right := BuildAt(ts, left.next + 1).value;
      BuildIgnoresRest(ts, rest, left.next + 1);
      ExpectAtExtends(ts, rest, right.next, ")");
    }
  }
}
