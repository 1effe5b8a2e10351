/**
 Textual member signatures as they appear in the diff report and in
 reflection output: splitting `Name(T1,T2)` at its first parenthesis, and the
 lexical extraction of parameter-type tokens (maximal runs of the characters
 `[a-zA-Z0-9.]`). The tokenizer is a lexical approximation: generic types,
 arrays and by-reference markers are not understood, and this model keeps
 that limitation.
 */
module Signatures {

  /** The character class `[a-zA-Z0-9.]` of the tokenizer's pattern. */
  predicate IsTokenChar(c: char) {
    ('a' <= c <= 'z') || ('A' <= c <= 'Z') || ('0' <= c <= '9') || c == '.'
  }

  /** A non-empty string made only of token characters. */
  predicate IsToken(w: string) {
    |w| > 0 && forall i :: 0 <= i < |w| ==> IsTokenChar(w[i])
  }

  /** A (possibly empty) string without any token character. */
  predicate IsGap(g: string) {
    forall i :: 0 <= i < |g| ==> !IsTokenChar(g[i])
  }

  /** Length of the longest prefix of `s` made of token characters. */
  function RunLength(s: string): (n: nat)
    ensures n <= |s|
    ensures forall i :: 0 <= i < n ==> IsTokenChar(s[i])
    ensures n < |s| ==> !IsTokenChar(s[n])
  {
    if |s| == 0 || !IsTokenChar(s[0]) then 0 else 1 + RunLength(s[1..])
  }

  /** Length of the longest prefix of `s` free of token characters. */
  function GapLength(s: string): (n: nat)
    ensures n <= |s|
    ensures forall i :: 0 <= i < n ==> !IsTokenChar(s[i])
    ensures n < |s| ==> IsTokenChar(s[n])
  {
    if |s| == 0 || IsTokenChar(s[0]) then 0 else 1 + GapLength(s[1..])
  }

  /** The tokens of `GetTypesFromSignature`, before each is resolved to a type. */
  function Tokens(s: string): (r: seq<string>)
    ensures forall i :: 0 <= i < |r| ==> IsToken(r[i])
    decreases |s|
  {
    if |s| == 0 then []
    else if !IsTokenChar(s[0]) then Tokens(s[1..])
    else
      var n := RunLength(s);
      [s[..n]] + Tokens(s[n..])
  }

  /** Position of the first `(` in `s`: `String.IndexOf('(')`. */
  function IndexOfParen(s: string): (i: nat)
    requires '(' in s
    ensures i < |s| && s[i] == '('
    ensures '(' !in s[..i]
  {
    if s[0] == '(' then 0
    else
      assert '(' in s[1..] by {
        var k :| 0 <= k < |s| && s[k] == '(';
        assert s[1..][k - 1] == '(';
      }
      var j := IndexOfParen(s[1..]);
      assert s[..j + 1] == [s[0]] + s[1..][..j];
      j + 1
  }

  /**
   Splits a flagged signature at its first `(` into the member name and the
   parenthesised signature. The source takes `Substring` at `IndexOf('(')`
   and fails when there is no parenthesis, hence the precondition.
   */
  function SplitSignature(s: string): (r: (string, string))
    requires '(' in s
    ensures r.0 + r.1 == s
    ensures '(' !in r.0
    ensures |r.1| > 0 && r.1[0] == '('
  {
    var i := IndexOfParen(s);
    assert s[..i] + s[i..] == s;
    (s[..i], s[i..])
  }

  /** The split is unique: any decomposition with the contract's three properties is the one returned. */
  lemma SplitSignatureUnique(s: string, name: string, sign: string)
    requires name + sign == s
    requires '(' !in name
    requires |sign| > 0 && sign[0] == '('
    ensures SplitSignature(s) == (name, sign)
  {
    assert s[|name|] == '(';
    var (n', g') := SplitSignature(s);
    assert |n'| <= |name| by {
      assert '(' !in n';
      assert s[..|n'|] == n';
    }
    assert |n'| >= |name| by {
      assert s[..|name|] == name;
      assert s[|n'|] == g'[0] == '(';
    }
    assert n' == s[..|name|] == name;
    assert g' == s[|name|..] == sign;
  }

  // ----- layouts: the inverse of tokenizing -----

  /** Token/gap pairs written one after the other. */
  function Concat(parts: seq<(string, string)>): string {
    if parts == [] then [] else parts[0].0 + parts[0].1 + Concat(parts[1..])
  }

  /** A text laid out as a leading gap followed by token/gap pairs. */
  function Join(lead: string, parts: seq<(string, string)>): string {
    lead + Concat(parts)
  }

  /** The tokens of a layout, in order. */
  function Words(parts: seq<(string, string)>): (ws: seq<string>)
    ensures |ws| == |parts|
    ensures forall i :: 0 <= i < |parts| ==> ws[i] == parts[i].0
  {
    if parts == [] then [] else [parts[0].0] + Words(parts[1..])
  }

  /**
   Every word is a token, every gap is free of token characters, and two
   consecutive words are separated by a non-empty gap, so that each word is
   a maximal run.
   */
  predicate WellParted(parts: seq<(string, string)>) {
    && (forall i :: 0 <= i < |parts| ==> IsToken(parts[i].0) && IsGap(parts[i].1))
    && (forall i :: 0 <= i < |parts| - 1 ==> |parts[i].1| > 0)
  }

  predicate WellLaidOut(lead: string, parts: seq<(string, string)>) {
    IsGap(lead) && WellParted(parts)
  }

  /** A leading gap contributes no token. */
  lemma {:induction false} TokensSkipGap(g: string, rest: string)
    requires IsGap(g)
    ensures Tokens(g + rest) == Tokens(rest)
    decreases |g|
  {
    if |g| > 0 {
      assert !IsTokenChar((g + rest)[0]) by {
        assert (g + rest)[0] == g[0];
      }
      assert (g + rest)[1..] == g[1..] + rest;
      TokensSkipGap(g[1..], rest);
    } else {
      assert g + rest == rest;
    }
  }

  /** A token followed by a gap that is non-empty (or by nothing) is one maximal run. */
  lemma TokensAfterWord(w: string, g: string, rest: string)
    requires IsToken(w) && IsGap(g)
    requires |g| > 0 || rest == []
    ensures Tokens(w + g + rest) == [w] + Tokens(g + rest)
  {
    var s := w + g + rest;
    var n := RunLength(s);
    assert n <= |w| by {
      if |w| < |s| {
        assert s[|w|] == (g + rest)[0];
      }
    }
    assert s[..n] == w;
    assert s[n..] == g + rest;
  }

  lemma {:induction false} TokensOfParts(parts: seq<(string, string)>)
    requires WellParted(parts)
    ensures Tokens(Concat(parts)) == Words(parts)
  {
    if parts != [] {
      var (w, g) := parts[0];
      var rest := Concat(parts[1..]);
      assert WellParted(parts[1..]);
      if |parts| == 1 {
        assert parts[1..] == [];
      }
      TokensAfterWord(w, g, rest);
      TokensSkipGap(g, rest);
      TokensOfParts(parts[1..]);
      assert Concat(parts) == w + g + rest;
    }
  }

  /** Tokenizing a layout returns exactly its words: no run is split or merged. */
  lemma TokensOfLayout(lead: string, parts: seq<(string, string)>)
    requires WellLaidOut(lead, parts)
    ensures Tokens(Join(lead, parts)) == Words(parts)
  {
    TokensSkipGap(lead, Concat(parts));
    TokensOfParts(parts);
  }

  /** Prepending one token/gap pair keeps a layout well parted. */
  lemma ConsPart(w: string, g: string, tail: seq<(string, string)>)
    requires IsToken(w) && IsGap(g) && WellParted(tail)
    requires |g| > 0 || tail == []
    ensures WellParted([(w, g)] + tail)
    ensures Concat([(w, g)] + tail) == w + g + Concat(tail)
  {
    var parts := [(w, g)] + tail;
    assert parts[1..] == tail;
    forall i | 0 <= i < |parts|
      ensures IsToken(parts[i].0) && IsGap(parts[i].1)
    {
      if i > 0 {
        assert parts[i] == tail[i - 1];
      }
    }
    forall i | 0 <= i < |parts| - 1
      ensures |parts[i].1| > 0
    {
      if i > 0 {
        assert parts[i] == tail[i - 1];
      }
    }
  }

  /** Cuts a text that starts with a token character (or is empty) into token/gap pairs. */
  function LayoutParts(s: string): (parts: seq<(string, string)>)
    requires s == [] || IsTokenChar(s[0])
    ensures Concat(parts) == s
    ensures WellParted(parts)
    decreases |s|
  {
    if s == [] then []
    else
      var n := RunLength(s);
      var after := s[n..];
      var m := GapLength(after);
      var (w, g, rest) := (s[..n], after[..m], after[m..]);
      assert s == w + g + rest;
      var tail := LayoutParts(rest);
      ConsPart(w, g, tail);
      [(w, g)] + tail
  }

  /** Cuts any text into a leading gap and token/gap pairs. */
  function Layout(s: string): (r: (string, seq<(string, string)>))
    ensures Join(r.0, r.1) == s
    ensures WellLaidOut(r.0, r.1)
  {
    var g := GapLength(s);
    assert s[..g] + s[g..] == s;
    (s[..g], LayoutParts(s[g..]))
  }

  /**
   The tokens of any text are the words of its unique layout: one entry per
   maximal run of token characters, in left-to-right order.
   */
  lemma TokensAreMaximalRuns(s: string)
    ensures var (lead, parts) := Layout(s);
      Join(lead, parts) == s && WellLaidOut(lead, parts) && Tokens(s) == Words(parts)
  {
    var (lead, parts) := Layout(s);
    TokensOfLayout(lead, parts);
  }

  /** An empty parameter list gives no tokens. */
  lemma EmptyParameterList()
    ensures Tokens("()") == []
  {
  }
}
