/** src/app/sh.c: what the tokens of a command line are. */
module ShellTokens {
  predicate IsSpace(c: char)
  {
    c == ' ' || c == '\t' || c == '\r' || c == '\n' || c == '\U{0B}'
  }

  predicate IsSymbol(c: char)
  {
    c == '<' || c == '|' || c == '>' || c == '&' || c == ';' || c == '(' || c == ')'
  }

  predicate IsWordChar(c: char)
  {
    !IsSpace(c) && !IsSymbol(c)
  }

  /** A word, as the positions of its first character and of the one behind it; or a symbol,
      with '+' standing for two '>' in a row. */
  datatype Tok = Word(q: int, eq: int) | Sym(c: char)

  /** The first position from s on that is not a space. */
  function Skip(t: string, s: nat): (k: nat)
    requires s <= |t|
    ensures s <= k <= |t| && (forall i | s <= i < k :: IsSpace(t[i])) && (k < |t| ==> !IsSpace(t[k]))
    decreases |t| - s
  {
    if s < |t| && IsSpace(t[s]) then Skip(t, s + 1) else s
  }

  /** The end of the run of word characters from s on. */
  function WordEnd(t: string, s: nat): (k: nat)
    requires s <= |t|
    ensures s <= k <= |t| && (forall i | s <= i < k :: IsWordChar(t[i])) && (k < |t| ==> !IsWordChar(t[k]))
    decreases |t| - s
  {
    if s < |t| && IsWordChar(t[s]) then WordEnd(t, s + 1) else s
  }

  /** The token at s and where it ends. */
  function TokAt(t: string, s: nat): (r: (Tok, nat))
    requires s < |t| && !IsSpace(t[s])
    ensures s < r.1 <= |t| && (r.0.Sym? ==> r.0.c != 'a' && r.0.c != '\0')
  {
    if t[s] == '>' && s + 1 < |t| && t[s + 1] == '>' then (Sym('+'), s + 2)
    else if IsSymbol(t[s]) then (Sym(t[s]), s + 1)
    else (Word(s, WordEnd(t, s)), WordEnd(t, s))
  }

  /** The tokens from s on. */
  function Lex(t: string, s: nat): seq<Tok>
    requires s <= |t|
    decreases |t| - s
  {
    var k := Skip(t, s);
    if k == |t| then [] else [TokAt(t, k).0] + Lex(t, TokAt(t, k).1)
  }

  lemma SkipAgain(t: string, s: nat)
    requires s <= |t|
    ensures Skip(t, Skip(t, s)) == Skip(t, s) && Lex(t, Skip(t, s)) == Lex(t, s)
  {}

  /** A maximal run of word characters. */
  ghost predicate IsWord(t: string, w: Tok)
  {
    && w.Word? && 0 <= w.q < w.eq <= |t| && (forall i | w.q <= i < w.eq :: IsWordChar(t[i]))
    && (w.eq < |t| ==> !IsWordChar(t[w.eq]))
  }

  /** Every word token is a maximal run of word characters. */
  lemma {:induction false} LexWords(t: string, s: nat)
    requires s <= |t|
    ensures forall w | w in Lex(t, s) && w.Word? :: IsWord(t, w)
    decreases |t| - s
  {
    var k := Skip(t, s);
    if k >= |t| {
    } else {
      LexWords(t, TokAt(t, k).1);
    }
  }

  /** And every word character belongs to one. */
  lemma {:induction false} LexCovers(t: string, s: nat, i: nat)
    requires s <= i < |t| && IsWordChar(t[i])
    ensures exists w :: w in Lex(t, s) && w.Word? && w.q <= i < w.eq
    decreases |t| - s
  {
    var k := Skip(t, s);
    var (tok, e) := TokAt(t, k);
    if i < e {
      assert tok.Word? && tok in Lex(t, s);
    } else {
      LexCovers(t, e, i);
      var w :| w in Lex(t, e) && w.Word? && w.q <= i < w.eq;
      assert w in Lex(t, s);
    }
  }
}
