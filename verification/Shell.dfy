/** src/app/sh.c: the parser as it runs over the characters of the line. `assert` failing in
the source ends the parse; here the methods then return false. */
module Shell {
  import opened ShellTokens
  import opened ShellGrammar
  import opened ShellShow

  /** The line without the terminating 0. */
  ghost predicate Text(t: string)
  {
    '\0' !in t
  }

  /** `*s`, with the 0 at the end of the line. */
  function At(t: string, s: nat): char
  {
    if s < |t| then t[s] else '\0'
  }

  /** The loop over white space. */
  method SkipSpace(t: string, s: nat) returns (k: nat)
    requires s <= |t|
    ensures k == Skip(t, s)
  {
    k := s;
    while k < |t| && IsSpace(t[k])
      invariant s <= k <= |t| && Skip(t, k) == Skip(t, s)
    {
      k := k + 1;
    }
  }

  /** The loop over the characters of a word. */
  method SkipWord(t: string, s: nat) returns (k: nat)
    requires s <= |t|
    ensures k == WordEnd(t, s)
  {
    k := s;
    while k < |t| && IsWordChar(t[k])
      invariant s <= k <= |t| && WordEnd(t, k) == WordEnd(t, s)
    {
      k := k + 1;
    }
  }

  /** gettoken: takes the first token. */
  method GetToken(t: string, s: nat) returns (ret: char, q: nat, eq: nat, next: nat)
    requires Text(t) && s <= |t|
    ensures next <= |t| && next == Skip(t, next)
    ensures Lex(t, s) == [] <==> ret == '\0'
    ensures Lex(t, s) == [] ==> Lex(t, next) == []
    ensures Lex(t, s) != [] ==>
      Lex(t, s)[0] == (if ret == 'a' then Word(q, eq) else Sym(ret)) && Lex(t, next) == Lex(t, s)[1..]
  {
    var k := SkipSpace(t, s);
    q := k;
    ret := At(t, k);
    match At(t, k) {
      case '\0' =>
      case '|' => k := k + 1;
      case '(' => k := k + 1;
      case ')' => k := k + 1;
      case ';' => k := k + 1;
      case '&' => k := k + 1;
      case '<' => k := k + 1;
      case '>' =>
        k := k + 1;
        if At(t, k) == '>' {
          ret := '+';
          k := k + 1;
        }
      case _ =>
        ret := 'a';
        k := SkipWord(t, k);
    }
    assert q < |t| ==> TokAt(t, q) == (if ret == 'a' then Word(q, k) else Sym(ret), k);
    eq := k;
    next := SkipSpace(t, k);
    SkipAgain(t, k);
  }

  /** peek */
  method PeekAt(t: string, s: nat, cs: set<char>) returns (found: bool, next: nat)
    requires Text(t) && s <= |t| && '\0' !in cs && (forall c | c in cs :: IsSymbol(c))
    ensures next == Skip(t, s) && Lex(t, next) == Lex(t, s) && found == Peek(Lex(t, s), cs)
  {
    next := SkipSpace(t, s);
    found := At(t, next) != '\0' && At(t, next) in cs;
    SkipAgain(t, s);
  }

  /** parseredirs: collects the redirections to be put around the command. */
  method RedirsAt(t: string, s: nat, tos: seq<To>) returns (ok: bool, all: seq<To>, next: nat)
    requires Text(t) && s <= |t|
    ensures next <= |t| && ok == TakeRedirs(tos, Lex(t, s)).Redirs?
    ensures ok ==> TakeRedirs(tos, Lex(t, s)) == Redirs(all, Lex(t, next))
  {
    all, next := tos, s;
    while true
      invariant next <= |t| && TakeRedirs(all, Lex(t, next)) == TakeRedirs(tos, Lex(t, s))
      decreases |Lex(t, next)|
    {
      var found;
      found, next := PeekAt(t, next, {'<', '>'});
      if !found {
        return true, all, next;
      }
      ghost var ts := Lex(t, next);
      var tok, _, _, mid := GetToken(t, next);
      var ret, q, eq, after := GetToken(t, mid);
      next := after;
      if ret != 'a' {
        return false, all, next;
      }
      assert ts[1..][0] == ts[1] && ts[1..][1..] == ts[2..];
      all := all + [To(KindOf(tok), Word(q, eq))];
    }
  }

  /** parseexec, when the command is not a block. */
  method SimpleAt(t: string, s: nat) returns (ok: bool, cmd: Cmd, next: nat)
    requires Text(t) && s <= |t| && !Peek(Lex(t, s), {'('})
    ensures next <= |t| && ok == ParseExec(Lex(t, s)).Done?
    ensures ok ==> ParseExec(Lex(t, s)) == Done(cmd, Lex(t, next))
  {
    var args, tos: seq<To> := [], [];
    cmd := Exec([]);
    ok, tos, next := RedirsAt(t, s, tos);
    if !ok {
      return;
    }
    while true
      invariant next <= |t| && |args| < MAXARGS && ParseArgs(args, tos, Lex(t, next)) == ParseExec(Lex(t, s))
      decreases |Lex(t, next)|
    {
      var found;
      found, next := PeekAt(t, next, {'|', ')', '&', ';'});
      if found {
        break;
      }
      var tok, q, eq, after := GetToken(t, next);
      if tok == '\0' {
        next := after;
        break;
      }
      if tok != 'a' || |args| + 1 >= MAXARGS {
        return false, cmd, after;
      }
      args := args + [Word(q, eq)];
      ok, tos, next := RedirsAt(t, after, tos);
      if !ok {
        return;
      }
    }
    ok, cmd := true, Wrap(Exec(args), tos);
  }

  /** parseexec */
  method ExecAt(t: string, s: nat) returns (ok: bool, cmd: Cmd, next: nat)
    requires Text(t) && s <= |t|
    ensures next <= |t| && ok == ParseExec(Lex(t, s)).Done?
    ensures ok ==> ParseExec(Lex(t, s)) == Done(cmd, Lex(t, next))
    decreases |Lex(t, s)|, 1
  {
    var found, k := PeekAt(t, s, {'('});
    if found {
      ok, cmd, next := BlockAt(t, k);
    } else {
      ok, cmd, next := SimpleAt(t, k);
    }
  }

  /** parseblock */
  method BlockAt(t: string, s: nat) returns (ok: bool, cmd: Cmd, next: nat)
    requires Text(t) && s <= |t| && Peek(Lex(t, s), {'('})
    ensures next <= |t| && ok == ParseBlock(Lex(t, s)).Done?
    ensures ok ==> ParseBlock(Lex(t, s)) == Done(cmd, Lex(t, next))
    decreases |Lex(t, s)|, 0
  {
    var _, _, _, k := GetToken(t, s);
    ok, cmd, next := LineAt(t, k);
    if !ok {
      return;
    }
    ok, next := PeekAt(t, next, {')'});
    if !ok {
      return;
    }
    var _, _, _, after := GetToken(t, next);
    var tos;
    ok, tos, next := RedirsAt(t, after, []);
    cmd := Wrap(cmd, tos);
  }

  /** parsepipe */
  method PipeAt(t: string, s: nat) returns (ok: bool, cmd: Cmd, next: nat)
    requires Text(t) && s <= |t|
    ensures next <= |t| && ok == ParsePipe(Lex(t, s)).Done?
    ensures ok ==> ParsePipe(Lex(t, s)) == Done(cmd, Lex(t, next))
    decreases |Lex(t, s)|, 2
  {
    ok, cmd, next := ExecAt(t, s);
    if !ok {
      return;
    }
    var found;
    found, next := PeekAt(t, next, {'|'});
    if found {
      var _, _, _, after := GetToken(t, next);
      var right;
      ok, right, next := PipeAt(t, after);
      cmd := Pipe(cmd, right);
    }
  }

  /** The loop of parseline over '&'. */
  method BacksAt(t: string, s: nat, cmd0: Cmd) returns (cmd: Cmd, next: nat)
    requires Text(t) && s <= |t|
    ensures next <= |t| && ParseBacks(cmd0, Lex(t, s)) == Done(cmd, Lex(t, next))
  {
    cmd, next := cmd0, s;
    while true
      invariant next <= |t| && ParseBacks(cmd, Lex(t, next)) == ParseBacks(cmd0, Lex(t, s))
      decreases |Lex(t, next)|
    {
      var found;
      found, next := PeekAt(t, next, {'&'});
      if !found {
        break;
      }
      var _, _, _, after := GetToken(t, next);
      next := after;
      cmd := Back(cmd);
    }
  }

  /** parseline */
  method LineAt(t: string, s: nat) returns (ok: bool, cmd: Cmd, next: nat)
    requires Text(t) && s <= |t|
    ensures next <= |t| && ok == ParseLine(Lex(t, s)).Done?
    ensures ok ==> ParseLine(Lex(t, s)) == Done(cmd, Lex(t, next))
    decreases |Lex(t, s)|, 3
  {
    ok, cmd, next := PipeAt(t, s);
    if !ok {
      return;
    }
    cmd, next := BacksAt(t, next, cmd);
    var found;
    found, next := PeekAt(t, next, {';'});
    if found {
      var _, _, _, after := GetToken(t, next);
      var right;
      ok, right, next := LineAt(t, after);
      cmd := List(cmd, right);
    }
  }

  // ---------- terminating the strings ----------

  /** The positions behind the words of a command. */
  ghost function Ends(cmd: Cmd): set<int>
    requires Proper(cmd)
  {
    match cmd
    case Exec(args) => set i | 0 <= i < |args| :: args[i].eq
    case Redir(c, _, file) => Ends(c) + {file.eq}
    case Pipe(l, r) => Ends(l) + Ends(r)
    case List(l, r) => Ends(l) + Ends(r)
    case Back(c) => Ends(c)
  }

  /** buf with 0 at the given positions. */
  ghost predicate Stamped(was: seq<char>, buf: seq<char>, ends: set<int>)
  {
    |buf| == |was| && forall i | 0 <= i < |buf| :: buf[i] == if i in ends then '\0' else was[i]
  }

  ghost predicate Within(ends: set<int>, n: nat)
  {
    forall e | e in ends :: 0 <= e < n
  }

  lemma WithinBoth(a: set<int>, b: set<int>, n: nat)
    requires Within(a + b, n)
    ensures Within(a, n) && Within(b, n)
  {
    assert forall e | e in a || e in b :: e in a + b;
  }

  /** nulterminate */
  method NulTerminate(cmd: Cmd, buf: array<char>)
    requires Proper(cmd) && Within(Ends(cmd), buf.Length)
    modifies buf
    ensures Stamped(old(buf[..]), buf[..], Ends(cmd))
    decreases cmd
  {
    match cmd {
      case Exec(args) =>
        var i := 0;
        while i < |args|
          invariant 0 <= i <= |args| && Stamped(old(buf[..]), buf[..], set j | 0 <= j < i :: args[j].eq)
        {
          assert args[i].eq in Ends(cmd);
          buf[args[i].eq] := '\0';
          i := i + 1;
        }
      case Redir(c, _, file) =>
        WithinBoth(Ends(c), {file.eq}, buf.Length);
        assert file.eq in {file.eq};
        NulTerminate(c, buf);
        buf[file.eq] := '\0';
      case Pipe(l, r) =>
        WithinBoth(Ends(l), Ends(r), buf.Length);
        NulTerminate(l, buf);
        NulTerminate(r, buf);
      case List(l, r) =>
        WithinBoth(Ends(l), Ends(r), buf.Length);
        NulTerminate(l, buf);
        NulTerminate(r, buf);
      case Back(c) =>
        NulTerminate(c, buf);
    }
  }

  lemma {:induction false} Occurring(ts: seq<Tok>, w: Tok)
    ensures Occurs(ts, w) > 0 <==> w in ts
  {
    if ts == [] {
    } else {
      Occurring(ts[1..], w);
      assert ts == [ts[0]] + ts[1..];
    }
  }

  /** Each such position is behind a word that the command uses. */
  lemma {:induction false} EndOfWord(cmd: Cmd, e: int) returns (w: Tok)
    requires Proper(cmd) && e in Ends(cmd)
    ensures w.Word? && w.eq == e && Uses(cmd, w) > 0
  {
    match cmd
    case Exec(args) =>
      var i :| 0 <= i < |args| && args[i].eq == e;
      w := args[i];
      Occurring(args, w);
    case Redir(c, _, file) =>
      if e == file.eq {
        w := file;
      } else {
        w := EndOfWord(c, e);
      }
    case Pipe(l, r) =>
      if e in Ends(l) {
        w := EndOfWord(l, e);
      } else {
        w := EndOfWord(r, e);
      }
    case List(l, r) =>
      if e in Ends(l) {
        w := EndOfWord(l, e);
      } else {
        w := EndOfWord(r, e);
      }
    case Back(c) => w := EndOfWord(c, e);
  }

  /** A parsed line uses each of its words as often as it occurs, and no others. */
  lemma UsesWords(t: string, w: Tok)
    requires ParseCmd(Lex(t, 0)).Done? && w.Word?
    ensures Uses(ParseCmd(Lex(t, 0)).cmd, w) == Occurs(Lex(t, 0), w)
    ensures Uses(ParseCmd(Lex(t, 0)).cmd, w) > 0 ==> IsWord(t, w)
  {
    LineUses(Lex(t, 0), w);
    Occurring(Lex(t, 0), w);
    LexWords(t, 0);
  }

  /** The string at q: up to the first 0. */
  ghost function CString(buf: seq<char>, q: int): string
    requires 0 <= q
    decreases |buf| - q
  {
    if q < |buf| && buf[q] != '\0' then [buf[q]] + CString(buf, q + 1) else []
  }

  lemma {:induction false} CStringIs(buf: seq<char>, q: int, e: int)
    requires 0 <= q <= e < |buf| && buf[e] == '\0' && forall i | q <= i < e :: buf[i] != '\0'
    ensures CString(buf, q) == buf[q..e]
    decreases e - q
  {
    if q >= e {
    } else {
      CStringIs(buf, q + 1, e);
      assert buf[q..e] == [buf[q]] + buf[q + 1..e];
    }
  }

  /** The word w of the line t stands in the buffer as a string. */
  ghost predicate Reads(t: string, buf: seq<char>, w: Tok)
  {
    IsWord(t, w) && CString(buf, w.q) == t[w.q..w.eq]
  }

  /** No 0 lands inside a word, so every word of the line reads back as its text. */
  lemma ReadBack(t: string, cmd: Cmd, buf: seq<char>, w: Tok)
    requires Text(t) && ParseCmd(Lex(t, 0)) == Done(cmd, []) && Proper(cmd)
    requires Stamped(t + ['\0'], buf, Ends(cmd)) && w.Word? && Uses(cmd, w) > 0 && w.eq in Ends(cmd)
    ensures Reads(t, buf, w)
  {
    UsesWords(t, w);
    forall i | w.q <= i < w.eq
      ensures i !in Ends(cmd)
    {
      if i in Ends(cmd) {
        var v := EndOfWord(cmd, i);
        UsesWords(t, v);
        assert false;
      }
    }
    CStringIs(buf, w.q, w.eq);
    assert buf[w.q..w.eq] == t[w.q..w.eq];
  }

  lemma {:induction false} UsedEnds(cmd: Cmd, w: Tok)
    requires Proper(cmd) && w.Word? && Uses(cmd, w) > 0
    ensures w.eq in Ends(cmd)
  {
    match cmd
    case Exec(args) => Occurring(args, w);
    case Redir(c, _, file) => if file != w { UsedEnds(c, w); }
    case Pipe(l, r) => if Uses(l, w) > 0 { UsedEnds(l, w); } else { UsedEnds(r, w); }
    case List(l, r) => if Uses(l, w) > 0 { UsedEnds(l, w); } else { UsedEnds(r, w); }
    case Back(c) => UsedEnds(c, w);
  }

  /** parsecmd on a line t in its buffer: succeeds exactly if the grammar accepts its tokens, and
      then every word of the line is used by the command and stands in the buffer as a string. */
  method ParseBuffer(buf: array<char>, t: string) returns (ok: bool, cmd: Cmd)
    requires Text(t) && buf[..] == t + ['\0']
    modifies buf
    ensures ok <==> ParseCmd(Lex(t, 0)).Done?
    ensures !ok ==> buf[..] == old(buf[..])
    ensures ok ==> ParseCmd(Lex(t, 0)) == Done(cmd, []) && Proper(cmd)
    ensures ok ==> forall w: Tok | w.Word? && w in Lex(t, 0) :: Uses(cmd, w) > 0 && Reads(t, buf[..], w)
  {
    var next;
    ok, cmd, next := LineAt(t, 0);
    if !ok {
      return;
    }
    var _, end := PeekAt(t, next, {});
    if end != |t| {
      return false, cmd;
    }
    LineProper(Lex(t, 0));
    EndsInside(t, cmd, buf.Length);
    NulTerminate(cmd, buf);
    forall w: Tok | w.Word? && w in Lex(t, 0)
      ensures Uses(cmd, w) > 0 && Reads(t, buf[..], w)
    {
      Occurring(Lex(t, 0), w);
      UsesWords(t, w);
      UsedEnds(cmd, w);
      ReadBack(t, cmd, buf[..], w);
    }
  }

  lemma EndsInside(t: string, cmd: Cmd, n: nat)
    requires ParseCmd(Lex(t, 0)) == Done(cmd, []) && Proper(cmd) && n == |t| + 1
    ensures Within(Ends(cmd), n)
  {
    forall e | e in Ends(cmd)
      ensures 0 <= e < n
    {
      var w := EndOfWord(cmd, e);
      UsesWords(t, w);
    }
  }
}
