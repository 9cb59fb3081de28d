/** Command trees written out as characters: a line can be found for every tree and every choice of
    texts for its words. */
module ShellSpell {
  import opened ShellTokens
  import opened ShellGrammar
  import opened ShellShow

  // ---------- words in order ----------

  /** The words of a tree, from left to right. */
  function Words(cmd: Cmd): seq<Tok>
  {
    match cmd
    case Exec(args) => args
    case Redir(c, _, file) => Words(c) + [file]
    case Pipe(l, r) => Words(l) + Words(r)
    case List(l, r) => Words(l) + Words(r)
    case Back(c) => Words(c)
  }

  function WordsIn(ts: seq<Tok>): seq<Tok>
  {
    if ts == [] then [] else (if ts[0].Word? then [ts[0]] else []) + WordsIn(ts[1..])
  }

  lemma {:induction false} WordsAppend(a: seq<Tok>, b: seq<Tok>)
    ensures WordsIn(a + b) == WordsIn(a) + WordsIn(b)
    decreases |a|
  {
    if a == [] {
      assert a + b == b;
    } else {
      assert (a + b)[1..] == a[1..] + b;
      WordsAppend(a[1..], b);
    }
  }

  lemma {:induction false} AllWords(ts: seq<Tok>)
    requires forall i | 0 <= i < |ts| :: ts[i].Word?
    ensures WordsIn(ts) == ts
    decreases |ts|
  {
    if ts == [] {
    } else {
      AllWords(ts[1..]);
    }
  }

  /** Symbols that have a spelling. */
  ghost predicate Plain(ts: seq<Tok>)
  {
    forall i | 0 <= i < |ts| :: ts[i].Word? || IsSymbol(ts[i].c) || ts[i].c == '+'
  }

  function Files(tos: seq<To>): seq<Tok>
  {
    seq(|tos|, i requires 0 <= i < |tos| => tos[i].file)
  }

  lemma {:induction false} TosWords(tos: seq<To>)
    requires AllFiles(tos)
    ensures WordsIn(ShowTos(tos)) == Files(tos) && Plain(ShowTos(tos))
    decreases |tos|
  {
    if tos == [] {
    } else {
      TosWords(tos[1..]);
      var s, r := ShowTos(tos), ShowTos(tos[1..]);
      assert s[1..][1..] == r && s[1..][0] == tos[0].file;
      assert WordsIn(s) == [tos[0].file] + WordsIn(r);
    }
  }

  lemma {:induction false} CoreWords(cmd: Cmd)
    ensures Words(cmd) == Words(Core(cmd)) + Files(Outer(cmd))
  {
    if !cmd.Redir? {
    } else {
      CoreWords(cmd.cmd);
      assert Files(Outer(cmd)) == Files(Outer(cmd.cmd)) + [cmd.file];
    }
  }

  ghost predicate Holds(ts: seq<Tok>, cmd: Cmd)
  {
    WordsIn(ts) == Words(cmd) && Plain(ts)
  }

  lemma SymWords(a: seq<Tok>, c: char, b: seq<Tok>)
    ensures WordsIn(a + [Sym(c)] + b) == WordsIn(a) + WordsIn(b)
  {
    WordsAppend(a + [Sym(c)], b);
    WordsAppend(a, [Sym(c)]);
  }

  lemma {:induction false} ExecWords(cmd: Cmd)
    requires Proper(cmd)
    ensures Holds(ShowExec(cmd), cmd)
    decreases cmd, Rank(0, cmd)
  {
    CoreSmaller(cmd);
    CoreProper(cmd);
    CoreWords(cmd);
    var core, tos := Core(cmd), ShowTos(Outer(cmd));
    TosWords(Outer(cmd));
    if core.Exec? {
      AllWords(core.args);
      WordsAppend(core.args, tos);
    } else {
      LineWords(core);
      var line := ShowLine(core);
      assert [Sym('(')] + line + [Sym(')')] + tos == [] + [Sym('(')] + (line + [Sym(')')] + tos);
      SymWords([], '(', line + [Sym(')')] + tos);
      SymWords(line, ')', tos);
    }
  }

  lemma {:induction false} PipeWords(cmd: Cmd)
    requires Proper(cmd)
    ensures Holds(ShowPipe(cmd), cmd)
    decreases cmd, Rank(1, cmd)
  {
    if cmd.Pipe? {
      ExecWords(cmd.left);
      PipeWords(cmd.right);
      SymWords(ShowExec(cmd.left), '|', ShowPipe(cmd.right));
    } else {
      ExecWords(cmd);
    }
  }

  lemma {:induction false} BackWords(cmd: Cmd)
    requires Proper(cmd)
    ensures Holds(ShowBack(cmd), cmd)
    decreases cmd, Rank(2, cmd)
  {
    if cmd.Back? {
      BackWords(cmd.cmd);
      WordsAppend(ShowBack(cmd.cmd), [Sym('&')]);
    } else {
      PipeWords(cmd);
    }
  }

  /** The words of a tree stand in its line in the same order. */
  lemma {:induction false} LineWords(cmd: Cmd)
    requires Proper(cmd)
    ensures Holds(ShowLine(cmd), cmd)
    decreases cmd, Rank(3, cmd)
  {
    if cmd.List? {
      BackWords(cmd.left);
      LineWords(cmd.right);
      SymWords(ShowBack(cmd.left), ';', ShowLine(cmd.right));
    } else {
      BackWords(cmd);
    }
  }

  // ---------- trees alike but for their words ----------

  ghost predicate Alike(a: Cmd, b: Cmd)
  {
    match a
    case Exec(args) => b.Exec? && |b.args| == |args|
    case Redir(c, k, _) => b.Redir? && b.kind == k && Alike(c, b.cmd)
    case Pipe(l, r) => b.Pipe? && Alike(l, b.left) && Alike(r, b.right)
    case List(l, r) => b.List? && Alike(l, b.left) && Alike(r, b.right)
    case Back(c) => b.Back? && Alike(c, b.cmd)
  }

  /** The same symbols, and words in the same places. */
  ghost predicate Similar(a: seq<Tok>, b: seq<Tok>)
  {
    |a| == |b| && forall i | 0 <= i < |a| :: if a[i].Word? then b[i].Word? else a[i] == b[i]
  }

  /** The words make the difference. */
  lemma {:induction false} SameWords(a: seq<Tok>, b: seq<Tok>)
    requires Similar(a, b)
    ensures |WordsIn(a)| == |WordsIn(b)| && (WordsIn(a) == WordsIn(b) ==> a == b)
    decreases |a|
  {
    if a == [] {
    } else {
      SameWords(a[1..], b[1..]);
      if WordsIn(a) == WordsIn(b) {
        assert WordsIn(a)[|WordsIn(a)| - |WordsIn(a[1..])|..] == WordsIn(a[1..]);
        assert WordsIn(b)[|WordsIn(b)| - |WordsIn(b[1..])|..] == WordsIn(b[1..]);
        assert a[0].Word? ==> WordsIn(a)[0] == a[0] && WordsIn(b)[0] == b[0];
        assert a == [a[0]] + a[1..] && b == [b[0]] + b[1..];
      }
    }
  }

  /** The tree with other words. */
  function Put(cmd: Cmd, ws: seq<Tok>): Cmd
    requires |ws| == |Words(cmd)|
  {
    match cmd
    case Exec(_) => Exec(ws)
    case Redir(c, k, _) => Redir(Put(c, ws[..|ws| - 1]), k, ws[|ws| - 1])
    case Pipe(l, r) => Pipe(Put(l, ws[..|Words(l)|]), Put(r, ws[|Words(l)|..]))
    case List(l, r) => List(Put(l, ws[..|Words(l)|]), Put(r, ws[|Words(l)|..]))
    case Back(c) => Back(Put(c, ws))
  }

  lemma {:induction false} PutAlike(cmd: Cmd, ws: seq<Tok>)
    requires |ws| == |Words(cmd)| && Proper(cmd) && forall i | 0 <= i < |ws| :: ws[i].Word?
    ensures Alike(cmd, Put(cmd, ws)) && Words(Put(cmd, ws)) == ws && Proper(Put(cmd, ws))
    decreases cmd
  {
    match cmd
    case Exec(_) =>
    case Redir(c, _, _) =>
      PutAlike(c, ws[..|ws| - 1]);
    case Pipe(l, r) =>
      PutAlike(l, ws[..|Words(l)|]);
      PutAlike(r, ws[|Words(l)|..]);
    case List(l, r) =>
      PutAlike(l, ws[..|Words(l)|]);
      PutAlike(r, ws[|Words(l)|..]);
    case Back(c) =>
      PutAlike(c, ws);
  }

  ghost predicate SimilarTos(a: seq<To>, b: seq<To>)
  {
    |a| == |b| && AllFiles(a) && AllFiles(b) && forall i | 0 <= i < |a| :: a[i].kind == b[i].kind
  }

  lemma {:induction false} TosSimilar(a: seq<To>, b: seq<To>)
    requires SimilarTos(a, b)
    ensures Similar(ShowTos(a), ShowTos(b))
    decreases |a|
  {
    if a == [] {
    } else {
      TosSimilar(a[1..], b[1..]);
    }
  }

  lemma {:induction false} CoreAlike(a: Cmd, b: Cmd)
    requires Alike(a, b) && Proper(a) && Proper(b)
    ensures Alike(Core(a), Core(b)) && SimilarTos(Outer(a), Outer(b))
  {
    if !a.Redir? {
    } else {
      CoreAlike(a.cmd, b.cmd);
    }
  }

  lemma {:induction false} ExecAlike(a: Cmd, b: Cmd)
    requires Alike(a, b) && Proper(a) && Proper(b)
    ensures Similar(ShowExec(a), ShowExec(b))
    decreases a, Rank(0, a)
  {
    CoreSmaller(a);
    CoreSmaller(b);
    CoreAlike(a, b);
    CoreProper(a);
    CoreProper(b);
    TosSimilar(Outer(a), Outer(b));
    if Core(a).Exec? {
    } else {
      LineAlike(Core(a), Core(b));
    }
  }

  lemma {:induction false} PipeAlike(a: Cmd, b: Cmd)
    requires Alike(a, b) && Proper(a) && Proper(b)
    ensures Similar(ShowPipe(a), ShowPipe(b))
    decreases a, Rank(1, a)
  {
    if a.Pipe? {
      ExecAlike(a.left, b.left);
      PipeAlike(a.right, b.right);
    } else {
      ExecAlike(a, b);
    }
  }

  lemma {:induction false} BackAlike(a: Cmd, b: Cmd)
    requires Alike(a, b) && Proper(a) && Proper(b)
    ensures Similar(ShowBack(a), ShowBack(b))
    decreases a, Rank(2, a)
  {
    if a.Back? {
      BackAlike(a.cmd, b.cmd);
    } else {
      PipeAlike(a, b);
    }
  }

  lemma {:induction false} LineAlike(a: Cmd, b: Cmd)
    requires Alike(a, b) && Proper(a) && Proper(b)
    ensures Similar(ShowLine(a), ShowLine(b))
    decreases a, Rank(3, a)
  {
    if a.List? {
      BackAlike(a.left, b.left);
      LineAlike(a.right, b.right);
    } else {
      BackAlike(a, b);
    }
  }

  // ---------- characters ----------

  /** A text a word can have. */
  ghost predicate Name(s: string)
  {
    s != "" && forall i | 0 <= i < |s| :: IsWordChar(s[i]) && s[i] != '\0'
  }

  ghost predicate Named(ts: seq<Tok>, name: Tok -> string)
  {
    forall tok | tok in ts && tok.Word? :: Name(name(tok))
  }

  lemma {:induction false} WordIn(ts: seq<Tok>, tok: Tok)
    requires tok in ts && tok.Word?
    ensures tok in WordsIn(ts)
    decreases |ts|
  {
    if tok == ts[0] {
    } else {
      WordIn(ts[1..], tok);
    }
  }

  function Letters(tok: Tok, name: Tok -> string): string
  {
    if tok.Word? then name(tok) else if tok.c == '+' then ">>" else [tok.c]
  }

  /** The tokens with a space after each. */
  function Spell(ts: seq<Tok>, name: Tok -> string): string
  {
    if ts == [] then "" else Letters(ts[0], name) + " " + Spell(ts[1..], name)
  }

  /** The words at ws in the line have the texts of vs. */
  ghost predicate Reads(t: string, ws: seq<Tok>, vs: seq<Tok>, name: Tok -> string)
  {
    |ws| == |vs| && forall i | 0 <= i < |ws| :: IsWord(t, ws[i]) && t[ws[i].q..ws[i].eq] == name(vs[i])
  }

  lemma {:induction false} WordEndAt(t: string, s: nat, k: nat)
    requires s <= k < |t| && !IsWordChar(t[k]) && forall i | s <= i < k :: IsWordChar(t[i])
    ensures WordEnd(t, s) == k
    decreases k - s
  {
    if s >= k {
    } else {
      WordEndAt(t, s + 1, k);
    }
  }

  /** Token k stands for tok in the line. */
  ghost predicate Took(t: string, k: Tok, tok: Tok, name: Tok -> string)
  {
    if tok.Word? then IsWord(t, k) && t[k.q..k.eq] == name(tok) else k == tok
  }

  /** Where a token is spelled at s, the lexer takes it. */
  lemma TokSpelled(t: string, s: nat, e: nat, tok: Tok, name: Tok -> string)
    requires s < e < |t| && t[e] == ' ' && t[s..e] == Letters(tok, name)
    requires if tok.Word? then Name(name(tok)) else IsSymbol(tok.c) || tok.c == '+'
    ensures !IsSpace(t[s]) && TokAt(t, s).1 == e && Took(t, TokAt(t, s).0, tok, name)
  {
    var x := Letters(tok, name);
    assert forall i | s <= i < e :: t[i] == x[i - s];
    if tok.Word? {
      WordEndAt(t, s, e);
    }
  }

  /** The next token and the space behind it. */
  lemma LexNext(t: string, s: nat, e: nat)
    requires s < e < |t| && t[e] == ' ' && !IsSpace(t[s]) && TokAt(t, s).1 == e
    ensures Lex(t, s) == [TokAt(t, s).0] + Lex(t, e + 1)
  {
    assert Skip(t, e) == Skip(t, e + 1);
  }

  lemma LexHead(t: string, s: nat, tok: Tok, rest: string, name: Tok -> string) returns (e: nat, k: Tok)
    requires s <= |t| && t[s..] == Letters(tok, name) + " " + rest
    requires if tok.Word? then Name(name(tok)) else IsSymbol(tok.c) || tok.c == '+'
    ensures e <= |t| && t[e..] == rest && Lex(t, s) == [k] + Lex(t, e) && Took(t, k, tok, name)
  {
    var x := Letters(tok, name);
    Spelled(t, s, x, rest);
    e, k := s + |x| + 1, TokAt(t, s).0;
    assert Took(t, k, tok, name) && !IsSpace(t[s]) && TokAt(t, s).1 == e - 1 by {
      TokSpelled(t, s, e - 1, tok, name);
    }
    LexNext(t, s, e - 1);
  }

  /** The characters of a token sequence have the same tokens, with the words read as named. */
  lemma {:induction false} LexSpell(t: string, s: nat, ts: seq<Tok>, name: Tok -> string)
    requires s <= |t| && t[s..] == Spell(ts, name) && Plain(ts) && Named(ts, name)
    ensures Similar(ts, Lex(t, s)) && Reads(t, WordsIn(Lex(t, s)), WordsIn(ts), name)
    decreases |ts|
  {
    if ts == [] {
    } else {
      var e, k := LexHead(t, s, ts[0], Spell(ts[1..], name), name);
      LexSpell(t, e, ts[1..], name);
      LexCons(t, ts, k, Lex(t, e), name);
    }
  }

  lemma Spelled(t: string, s: nat, x: string, rest: string)
    requires s <= |t| && t[s..] == x + " " + rest && x != ""
    ensures var e := s + |x|; e < |t| && t[e] == ' ' && t[s..e] == x && t[e + 1..] == rest
  {
    var u := t[s..];
    assert u[|x|] == ' ' && u[..|x|] == x && u[|x| + 1..] == rest;
  }

  lemma LexCons(t: string, ts: seq<Tok>, tok: Tok, more: seq<Tok>, name: Tok -> string)
    requires ts != [] && Similar(ts[1..], more) && Reads(t, WordsIn(more), WordsIn(ts[1..]), name)
    requires Took(t, tok, ts[0], name)
    ensures Similar(ts, [tok] + more) && Reads(t, WordsIn([tok] + more), WordsIn(ts), name)
  {
    var l := [tok] + more;
    assert l[1..] == more;
    assert forall i | 0 < i < |ts| :: ts[i] == ts[1..][i - 1] && l[i] == more[i - 1];
    if tok.Word? {
      assert WordsIn(l) == [tok] + WordsIn(more) && WordsIn(ts) == [ts[0]] + WordsIn(ts[1..]);
    } else {
      assert WordsIn(l) == WordsIn(more) && WordsIn(ts) == WordsIn(ts[1..]);
    }
  }

  lemma {:induction false} NoNul(ts: seq<Tok>, name: Tok -> string)
    requires Plain(ts) && Named(ts, name)
    ensures '\0' !in Spell(ts, name)
    decreases |ts|
  {
    if ts == [] {
    } else {
      NoNul(ts[1..], name);
    }
  }

  /** For every command tree and every naming of its words there is a line of characters that
      parses to a tree of the same form whose words read as named. */
  lemma Written(cmd: Cmd, name: Tok -> string) returns (t: string, c: Cmd)
    requires Proper(cmd) && Named(Words(cmd), name)
    ensures '\0' !in t && ParseCmd(Lex(t, 0)) == Done(c, [])
    ensures Alike(cmd, c) && Reads(t, Words(c), Words(cmd), name)
  {
    var ts := ShowLine(cmd);
    LineWords(cmd);
    forall tok | tok in ts && tok.Word?
      ensures Name(name(tok))
    {
      WordIn(ts, tok);
    }
    t := Spell(ts, name);
    NoNul(ts, name);
    assert t[0..] == t;
    LexSpell(t, 0, ts, name);
    var l := Lex(t, 0);
    var ws := WordsIn(l);
    c := Put(cmd, ws);
    PutAlike(cmd, ws);
    LineAlike(cmd, c);
    LineWords(c);
    assert Similar(ShowLine(c), l);
    SameWords(ShowLine(c), l);
    RoundTrip(c);
  }
}
