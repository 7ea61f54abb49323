/**
  The tokenizer of the truth-table decider (00-Logics/sat-tt.cpp): white space outside
  double quotes is dropped, each of `(`, `)` and `,` outside quotes is a token of its own,
  a double-quoted run (quotes included) is one token, and every other run of characters
  is a word.
*/
module Tokenizer {
  import opened Decimal

  predicate IsPunct(ch: char) {
    ch == '(' || ch == ')' || ch == ','
  }

  /** The variables of the tokenizer's loop: the tokens so far, the token being read, and the quote flag. */
  datatype State = State(tokens: seq<string>, current: string, inQuotes: bool)

  const Start := State([], "", false)

  /** `tokens` with the token being read pushed, when there is one. */
  function Flush(tokens: seq<string>, current: string): seq<string> {
    if current == [] then tokens else tokens + [current]
  }

  /** One pass of the tokenizer's loop, over the character `ch`. */
  function Step(st: State, ch: char): State {
    if st.inQuotes then
      if ch == '"' then State(st.tokens + [st.current + [ch]], "", false)
      else st.(current := st.current + [ch])
    else if ch == '"' then State(Flush(st.tokens, st.current), [ch], true)
    else if IsSpace(ch) then st
    else if IsPunct(ch) then State(Flush(st.tokens, st.current) + [[ch]], "", false)
    else st.(current := st.current + [ch])
  }

  /** The loop's state after the characters of `s`, starting from `st`. */
  function Scan(st: State, s: string): State
    decreases |s|
  {
    if s == [] then st else Step(Scan(st, s[..|s| - 1]), s[|s| - 1])
  }

  /** The tokens of `input`: the loop over all of it, then the last token pushed. */
  function Tokenization(input: string): seq<string> {
    var st := Scan(Start, input);
    Flush(st.tokens, st.current)
  }

  /** `tokenize`. */
  method Tokenize(input: string) returns (tokens: seq<string>)
    ensures tokens == Tokenization(input)
  {
    tokens := [];
    var current := "";
    var inQuotes := false;
    var i := 0;
    while i < |input|
      invariant 0 <= i <= |input|
      invariant Scan(Start, input[..i]) == State(tokens, current, inQuotes)
    {
      assert input[..i + 1][..i] == input[..i];
      var ch := input[i];
      if inQuotes {
        current := current + [ch];
        if ch == '"' {
          inQuotes := false;
          tokens := tokens + [current];
          current := "";
        }
      } else if ch == '"' {
        if current != [] {
          tokens := tokens + [current];
          current := "";
        }
        current := current + [ch];
        inQuotes := true;
      } else if IsSpace(ch) {
      } else if IsPunct(ch) {
        if current != [] {
          tokens := tokens + [current];
          current := "";
        }
        tokens := tokens + [[ch]];
      } else {
        current := current + [ch];
      }
      i := i + 1;
    }
    assert input[..i] == input;
    if current != [] {
      tokens := tokens + [current];
    }
  }

  // ---------------------------------------------------------------------------
  // The shape of the tokens
  // ---------------------------------------------------------------------------

  /** A run of characters that are neither white space, punctuation nor quotes. */
  predicate IsWord(t: string) {
    |t| > 0 && forall i :: 0 <= i < |t| ==> !IsSpace(t[i]) && !IsPunct(t[i]) && t[i] != '"'
  }

  predicate IsPunctToken(t: string) {
    |t| == 1 && IsPunct(t[0])
  }

  /** A quote, characters other than quotes, and the closing quote unless the input ended first. */
  predicate IsQuoted(t: string) {
    |t| > 0 && t[0] == '"' && forall i :: 0 < i < |t| - 1 ==> t[i] != '"'
  }

  /** Every token is one of the three kinds, so none is empty. */
  predicate TokenShape(t: string) {
    IsWord(t) || IsPunctToken(t) || IsQuoted(t)
  }

  predicate Shaped(st: State) {
    && (forall k :: 0 <= k < |st.tokens| ==> TokenShape(st.tokens[k]))
    && (st.inQuotes ==> |st.current| > 0 && st.current[0] == '"' && forall i :: 0 < i < |st.current| ==> st.current[i] != '"')
    && (!st.inQuotes ==> st.current == [] || IsWord(st.current))
  }

  lemma StepShaped(st: State, ch: char)
    requires Shaped(st)
    ensures Shaped(Step(st, ch))
  {
    var st' := Step(st, ch);
    if st.inQuotes && ch == '"' {
      assert TokenShape(st.current + [ch]);
    }
    assert forall k :: 0 <= k < |st'.tokens| ==> TokenShape(st'.tokens[k]);
  }

  lemma {:induction false} ScanShaped(s: string)
    ensures Shaped(Scan(Start, s))
    decreases |s|
  {
    if s != [] {
      ScanShaped(s[..|s| - 1]);
      StepShaped(Scan(Start, s[..|s| - 1]), s[|s| - 1]);
    }
  }

  /**
    Every token is a word, a single `(`, `)` or `,`, or a quoted run; in particular no
    token is empty, and punctuation outside quotes never ends up inside a longer token.
  */
  lemma TokenizationShapes(input: string)
    ensures forall k :: 0 <= k < |Tokenization(input)| ==> |Tokenization(input)[k]| > 0 && TokenShape(Tokenization(input)[k])
  {
    ScanShaped(input);
  }

  // ---------------------------------------------------------------------------
  // What the tokens spell
  // ---------------------------------------------------------------------------

  /** Whether a quoted run is open after the characters of `s`. */
  function InQuotes(s: string): bool
    decreases |s|
  {
    if s == [] then false
    else if InQuotes(s[..|s| - 1]) then s[|s| - 1] != '"'
    else s[|s| - 1] == '"'
  }

  /** `s` without the white space that lies outside quoted runs. */
  function Strip(s: string): string
    decreases |s|
  {
    if s == [] then []
    else
      var init, ch := s[..|s| - 1], s[|s| - 1];
      Strip(init) + if !InQuotes(init) && IsSpace(ch) then [] else [ch]
  }

  /** The tokens written one after the other. */
  function Concat(ts: seq<string>): string {
    if ts == [] then [] else ts[0] + Concat(ts[1..])
  }

  lemma {:induction false} ConcatAppend(ts: seq<string>, t: string)
    ensures Concat(ts + [t]) == Concat(ts) + t
  {
    if ts == [] {
      assert [t][1..] == [];
    } else {
      assert (ts + [t])[1..] == ts[1..] + [t];
      ConcatAppend(ts[1..], t);
    }
  }

  lemma ConcatFlush(ts: seq<string>, current: string)
    ensures Concat(Flush(ts, current)) == Concat(ts) + current
  {
    if current != [] {
      ConcatAppend(ts, current);
    }
  }

  lemma {:induction false} ScanSpells(s: string)
    ensures var st := Scan(Start, s);
      Concat(st.tokens) + st.current == Strip(s) && st.inQuotes == InQuotes(s)
    decreases |s|
  {
    if s != [] {
      var init, ch := s[..|s| - 1], s[|s| - 1];
      ScanSpells(init);
      var st := Scan(Start, init);
      ConcatFlush(st.tokens, st.current);
      ConcatAppend(st.tokens, st.current + [ch]);
      ConcatAppend(Flush(st.tokens, st.current), [ch]);
    }
  }

  /** The tokens spell out the input with the white space outside quoted runs removed. */
  lemma TokenizationSpells(input: string)
    ensures Concat(Tokenization(input)) == Strip(input)
  {
    ScanSpells(input);
    var st := Scan(Start, input);
    ConcatFlush(st.tokens, st.current);
  }

  // ---------------------------------------------------------------------------
  // Tokenizing text written token by token
  // ---------------------------------------------------------------------------

  predicate IsClosedQuoted(t: string) {
    |t| >= 2 && t[0] == '"' && t[|t| - 1] == '"' && forall i :: 0 < i < |t| - 1 ==> t[i] != '"'
  }

  /**
    Tokens that can be written without separators and read back: punctuation, closed
    quoted runs, and words each followed by punctuation.
  */
  predicate Separated(ts: seq<string>) {
    forall i :: 0 <= i < |ts| ==> Fits(ts, i)
  }

  /** The `i`-th of the tokens `ts` can be read back where it stands. */
  predicate Fits(ts: seq<string>, i: int)
    requires 0 <= i < |ts|
  {
    || IsPunctToken(ts[i])
    || IsClosedQuoted(ts[i])
    || (IsWord(ts[i]) && i + 1 < |ts| && IsPunctToken(ts[i + 1]))
  }

  lemma SeparatedAppend(a: seq<string>, b: seq<string>)
    requires Separated(a) && Separated(b)
    ensures Separated(a + b)
  {
    var ab := a + b;
    forall i | 0 <= i < |ab|
      ensures Fits(ab, i)
    {
      if i < |a| {
        assert Fits(a, i);
        assert ab[i] == a[i];
        if i + 1 < |a| {
          assert ab[i + 1] == a[i + 1];
        }
      } else {
        assert Fits(b, i - |a|);
        assert ab[i] == b[i - |a|];
        if i + 1 < |ab| {
          assert ab[i + 1] == b[i + 1 - |a|];
        }
      }
    }
  }

  /** Dropping tokens from the front keeps the tokens separated. */
  lemma SeparatedSuffix(ts: seq<string>, k: int)
    requires Separated(ts) && 0 <= k <= |ts|
    ensures Separated(ts[k..])
  {
    var rest := ts[k..];
    forall i | 0 <= i < |rest|
      ensures Fits(rest, i)
    {
      assert Fits(ts, i + k);
      assert rest[i] == ts[i + k];
      if i + 1 < |rest| {
        assert rest[i + 1] == ts[i + 1 + k];
      }
    }
  }

  function Clean(ts: seq<string>): State {
    State(ts, "", false)
  }

  lemma {:induction false} ScanAppend(st: State, a: string, b: string)
    ensures Scan(st, a + b) == Scan(Scan(st, a), b)
    decreases |b|
  {
    if b == [] {
      assert a + b == a;
    } else {
      assert (a + b)[..|a + b| - 1] == a + b[..|b| - 1];
      ScanAppend(st, a, b[..|b| - 1]);
    }
  }

  lemma {:induction false} ScanWordPrefix(ts: seq<string>, w: string, k: nat)
    requires IsWord(w) && k <= |w|
    ensures Scan(Clean(ts), w[..k]) == State(ts, w[..k], false)
  {
    if k > 0 {
      assert w[..k][..k - 1] == w[..k - 1];
      ScanWordPrefix(ts, w, k - 1);
    }
  }

  lemma {:induction false} ScanQuotedPrefix(ts: seq<string>, t: string, k: nat)
    requires IsClosedQuoted(t) && 1 <= k < |t|
    ensures Scan(Clean(ts), t[..k]) == State(ts, t[..k], true)
  {
    if k == 1 {
      assert t[..1][..0] == [];
    } else {
      assert t[..k][..k - 1] == t[..k - 1];
      ScanQuotedPrefix(ts, t, k - 1);
    }
  }

  /** A closed quoted run read from a clean state is one token. */
  lemma ScanQuoted(ts: seq<string>, t: string)
    requires IsClosedQuoted(t)
    ensures Scan(Clean(ts), t) == Clean(ts + [t])
  {
    ScanQuotedPrefix(ts, t, |t| - 1);
    assert t[..|t|] == t;
    assert t[..|t| - 1] + [t[|t| - 1]] == t;
  }

  /** A word and the punctuation after it, read from a clean state, are two tokens. */
  lemma ScanWordPunct(ts: seq<string>, w: string, p: string)
    requires IsWord(w) && IsPunctToken(p)
    ensures Scan(Clean(ts), w + p) == Clean(ts + [w, p])
  {
    ScanWordPrefix(ts, w, |w|);
    assert w[..|w|] == w;
    ScanAppend(Clean(ts), w, p);
    assert p[..0] == [];
    assert [p[0]] == p;
    assert ts + [w] + [p] == ts + [w, p];
  }

  lemma ScanPunct(ts: seq<string>, p: string)
    requires IsPunctToken(p)
    ensures Scan(Clean(ts), p) == Clean(ts + [p])
  {
    assert p[..0] == [];
    assert [p[0]] == p;
  }

  lemma {:induction false} ScanSeparated(acc: seq<string>, ts: seq<string>)
    requires Separated(ts)
    ensures Scan(Clean(acc), Concat(ts)) == Clean(acc + ts)
    decreases |ts|
  {
    if ts == [] {
      assert acc + ts == acc;
    } else if !IsPunctToken(ts[0]) && !IsClosedQuoted(ts[0]) {
      assert Fits(ts, 0);
      SeparatedSuffix(ts, 2);
      ScanSeparated(acc + [ts[0], ts[1]], ts[2..]);
      ScanWordStep(acc, ts);
    } else {
      SeparatedSuffix(ts, 1);
      ScanSeparated(acc + [ts[0]], ts[1..]);
      ScanTokenStep(acc, ts);
    }
  }

  lemma ScanWordStep(acc: seq<string>, ts: seq<string>)
    requires |ts| >= 2 && IsWord(ts[0]) && IsPunctToken(ts[1])
    requires Scan(Clean(acc + [ts[0], ts[1]]), Concat(ts[2..])) == Clean(acc + [ts[0], ts[1]] + ts[2..])
    ensures Scan(Clean(acc), Concat(ts)) == Clean(acc + ts)
  {
    var rest := Concat(ts[2..]);
    ScanWordPunct(acc, ts[0], ts[1]);
    ConcatTwo(ts);
    ScanAppend(Clean(acc), ts[0] + ts[1], rest);
    TokensTwo(acc, ts);
  }

  lemma ConcatTwo(ts: seq<string>)
    requires |ts| >= 2
    ensures Concat(ts) == (ts[0] + ts[1]) + Concat(ts[2..])
  {
    assert ts[1..][1..] == ts[2..];
  }

  lemma TokensTwo(acc: seq<string>, ts: seq<string>)
    requires |ts| >= 2
    ensures acc + [ts[0], ts[1]] + ts[2..] == acc + ts
  {
  }

  lemma ScanTokenStep(acc: seq<string>, ts: seq<string>)
    requires |ts| >= 1 && (IsPunctToken(ts[0]) || IsClosedQuoted(ts[0]))
    requires Scan(Clean(acc + [ts[0]]), Concat(ts[1..])) == Clean(acc + [ts[0]] + ts[1..])
    ensures Scan(Clean(acc), Concat(ts)) == Clean(acc + ts)
  {
    var rest := Concat(ts[1..]);
    if IsPunctToken(ts[0]) {
      ScanPunct(acc, ts[0]);
    } else {
      ScanQuoted(acc, ts[0]);
    }
    calc {
      Scan(Clean(acc), Concat(ts));
      Scan(Clean(acc), ts[0] + rest);
      { ScanAppend(Clean(acc), ts[0], rest); }
      Scan(Scan(Clean(acc), ts[0]), rest);
      Scan(Clean(acc + [ts[0]]), rest);
      Clean(acc + [ts[0]] + ts[1..]);
      { assert acc + [ts[0]] + ts[1..] == acc + ts; }
      Clean(acc + ts);
    }
  }

  /** Separated tokens written one after the other are tokenized back into themselves. */
  lemma TokenizationOfConcat(ts: seq<string>)
    requires Separated(ts)
    ensures Tokenization(Concat(ts)) == ts
  {
    ScanSeparated([], ts);
    assert [] + ts == ts;
  }
}
