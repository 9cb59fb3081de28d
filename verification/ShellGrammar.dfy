/** src/app/sh.c: the grammar of command lines, over their tokens. */
module ShellGrammar {
  import opened ShellTokens

  const MAXARGS := 10

  datatype Kind = In | Out | Append

  datatype Cmd =
    | Exec(args: seq<Tok>)
    | Redir(cmd: Cmd, kind: Kind, file: Tok)
    | Pipe(left: Cmd, right: Cmd)
    | List(left: Cmd, right: Cmd)
    | Back(cmd: Cmd)

  /** A redirection that is still to be put around a command. */
  datatype To = To(kind: Kind, file: Tok)

  datatype Parse = Fail | Done(cmd: Cmd, rest: seq<Tok>)

  /** peek: the next character is one of a set, which is to say the next token is a symbol
      beginning with it. */
  predicate Peek(ts: seq<Tok>, cs: set<char>)
  {
    ts != [] && ts[0].Sym? && (if ts[0].c == '+' then '>' else ts[0].c) in cs
  }

  function KindOf(c: char): Kind
  {
    if c == '<' then In else if c == '>' then Out else Append
  }

  datatype Redirs = NoRedirs | Redirs(tos: seq<To>, rest: seq<Tok>)

  /** parseredirs: the redirections at the beginning of ts, behind those in tos. */
  function TakeRedirs(tos: seq<To>, ts: seq<Tok>): (r: Redirs)
    ensures r.Redirs? ==> |r.rest| <= |ts|
    decreases |ts|
  {
    if !Peek(ts, {'<', '>'}) then Redirs(tos, ts)
    else if |ts| < 2 || !ts[1].Word? then NoRedirs
    else TakeRedirs(tos + [To(KindOf(ts[0].c), ts[1])], ts[2..])
  }

  /** Redirections go around a command from the inside out. */
  function Wrap(cmd: Cmd, tos: seq<To>): Cmd
    decreases |tos|
  {
    if tos == [] then cmd else Wrap(Redir(cmd, tos[0].kind, tos[0].file), tos[1..])
  }

  /** The loop of parseexec, with args and tos collected so far. */
  function ParseArgs(args: seq<Tok>, tos: seq<To>, ts: seq<Tok>): (p: Parse)
    ensures p.Done? ==> |p.rest| <= |ts|
    decreases |ts|
  {
    if ts == [] || Peek(ts, {'|', ')', '&', ';'}) then Done(Wrap(Exec(args), tos), ts)
    else if !ts[0].Word? || |args| + 1 >= MAXARGS then Fail
    else
      var r := TakeRedirs(tos, ts[1..]);
      if r.NoRedirs? then Fail else ParseArgs(args + [ts[0]], r.tos, r.rest)
  }

  /** parseexec */
  function ParseExec(ts: seq<Tok>): (p: Parse)
    ensures p.Done? ==> |p.rest| <= |ts|
    decreases |ts|, 1
  {
    if Peek(ts, {'('}) then ParseBlock(ts)
    else
      var r := TakeRedirs([], ts);
      if r.NoRedirs? then Fail else ParseArgs([], r.tos, r.rest)
  }

  /** parseblock */
  function ParseBlock(ts: seq<Tok>): (p: Parse)
    requires Peek(ts, {'('})
    ensures p.Done? ==> |p.rest| <= |ts|
    decreases |ts|, 0
  {
    var p := ParseLine(ts[1..]);
    if p.Fail? || !Peek(p.rest, {')'}) then Fail
    else
      var r := TakeRedirs([], p.rest[1..]);
      if r.NoRedirs? then Fail else Done(Wrap(p.cmd, r.tos), r.rest)
  }

  /** parsepipe */
  function ParsePipe(ts: seq<Tok>): (p: Parse)
    ensures p.Done? ==> |p.rest| <= |ts|
    decreases |ts|, 2
  {
    var p := ParseExec(ts);
    if p.Fail? || !Peek(p.rest, {'|'}) then p
    else
      var r := ParsePipe(p.rest[1..]);
      if r.Fail? then Fail else Done(Pipe(p.cmd, r.cmd), r.rest)
  }

  /** The loop of parseline over '&'. */
  function ParseBacks(cmd: Cmd, ts: seq<Tok>): (p: Parse)
    ensures p.Done? && |p.rest| <= |ts|
    decreases |ts|
  {
    if Peek(ts, {'&'}) then ParseBacks(Back(cmd), ts[1..]) else Done(cmd, ts)
  }

  /** parseline */
  function ParseLine(ts: seq<Tok>): (p: Parse)
    ensures p.Done? ==> |p.rest| <= |ts|
    decreases |ts|, 3
  {
    var p := ParsePipe(ts);
    if p.Fail? then Fail
    else
      var b := ParseBacks(p.cmd, p.rest);
      if !Peek(b.rest, {';'}) then b
      else
        var r := ParseLine(b.rest[1..]);
        if r.Fail? then Fail else Done(List(b.cmd, r.cmd), r.rest)
  }

  /** parsecmd, up to the termination of the strings. */
  function ParseCmd(ts: seq<Tok>): (p: Parse)
    ensures p.Done? ==> p.rest == []
  {
    var p := ParseLine(ts);
    if p.Done? && p.rest == [] then p else Fail
  }

  // ---------- every word is used once ----------

  function Occurs(ts: seq<Tok>, w: Tok): nat
  {
    if ts == [] then 0 else (if ts[0] == w then 1 else 0) + Occurs(ts[1..], w)
  }

  function Uses(cmd: Cmd, w: Tok): nat
  {
    match cmd
    case Exec(args) => Occurs(args, w)
    case Redir(c, _, file) => Uses(c, w) + if file == w then 1 else 0
    case Pipe(l, r) => Uses(l, w) + Uses(r, w)
    case List(l, r) => Uses(l, w) + Uses(r, w)
    case Back(c) => Uses(c, w)
  }

  function Redirected(tos: seq<To>, w: Tok): nat
  {
    if tos == [] then 0 else (if tos[0].file == w then 1 else 0) + Redirected(tos[1..], w)
  }

  lemma {:induction false} OccursAppend(ts: seq<Tok>, x: Tok, w: Tok)
    ensures Occurs(ts + [x], w) == Occurs(ts, w) + if x == w then 1 else 0
    decreases |ts|
  {
    if ts == [] {
    } else {
      OccursAppend(ts[1..], x, w);
      assert (ts + [x])[1..] == ts[1..] + [x];
    }
  }

  lemma {:induction false} RedirectedAppend(tos: seq<To>, to: To, w: Tok)
    ensures Redirected(tos + [to], w) == Redirected(tos, w) + if to.file == w then 1 else 0
    decreases |tos|
  {
    if tos == [] {
    } else {
      RedirectedAppend(tos[1..], to, w);
      assert (tos + [to])[1..] == tos[1..] + [to];
    }
  }

  lemma {:induction false} TakeUses(tos: seq<To>, ts: seq<Tok>, w: Tok)
    requires w.Word? && TakeRedirs(tos, ts).Redirs?
    ensures var r := TakeRedirs(tos, ts);
      Redirected(r.tos, w) + Occurs(r.rest, w) == Redirected(tos, w) + Occurs(ts, w)
    decreases |ts|
  {
    if !Peek(ts, {'<', '>'}) {
    } else {
      var to := To(KindOf(ts[0].c), ts[1]);
      TakeUses(tos + [to], ts[2..], w);
      RedirectedAppend(tos, to, w);
      assert Occurs(ts, w) == Occurs(ts[1..], w) && ts[1..][1..] == ts[2..];
    }
  }

  lemma {:induction false} WrapUses(cmd: Cmd, tos: seq<To>, w: Tok)
    ensures Uses(Wrap(cmd, tos), w) == Uses(cmd, w) + Redirected(tos, w)
    decreases |tos|
  {
    if tos == [] {
    } else {
      WrapUses(Redir(cmd, tos[0].kind, tos[0].file), tos[1..], w);
    }
  }

  lemma {:induction false} ArgsUses(args: seq<Tok>, tos: seq<To>, ts: seq<Tok>, w: Tok)
    requires w.Word? && ParseArgs(args, tos, ts).Done?
    ensures var p := ParseArgs(args, tos, ts);
      Uses(p.cmd, w) + Occurs(p.rest, w) == Occurs(args, w) + Redirected(tos, w) + Occurs(ts, w)
    decreases |ts|
  {
    if ts == [] || Peek(ts, {'|', ')', '&', ';'}) {
      WrapUses(Exec(args), tos, w);
    } else {
      var r := TakeRedirs(tos, ts[1..]);
      TakeUses(tos, ts[1..], w);
      ArgsUses(args + [ts[0]], r.tos, r.rest, w);
      OccursAppend(args, ts[0], w);
    }
  }

  lemma {:induction false} BacksUses(cmd: Cmd, ts: seq<Tok>, w: Tok)
    requires w.Word?
    ensures var p := ParseBacks(cmd, ts); Uses(p.cmd, w) + Occurs(p.rest, w) == Uses(cmd, w) + Occurs(ts, w)
    decreases |ts|
  {
    if !Peek(ts, {'&'}) {
    } else {
      BacksUses(Back(cmd), ts[1..], w);
    }
  }

  lemma {:induction false} ExecUses(ts: seq<Tok>, w: Tok)
    requires w.Word? && ParseExec(ts).Done?
    ensures Uses(ParseExec(ts).cmd, w) + Occurs(ParseExec(ts).rest, w) == Occurs(ts, w)
    decreases |ts|, 1
  {
    if Peek(ts, {'('}) {
      var p := ParseLine(ts[1..]);
      LineUses(ts[1..], w);
      TakeUses([], p.rest[1..], w);
      WrapUses(p.cmd, TakeRedirs([], p.rest[1..]).tos, w);
    } else {
      var r := TakeRedirs([], ts);
      TakeUses([], ts, w);
      ArgsUses([], r.tos, r.rest, w);
    }
  }

  lemma {:induction false} PipeUses(ts: seq<Tok>, w: Tok)
    requires w.Word? && ParsePipe(ts).Done?
    ensures Uses(ParsePipe(ts).cmd, w) + Occurs(ParsePipe(ts).rest, w) == Occurs(ts, w)
    decreases |ts|, 2
  {
    var p := ParseExec(ts);
    ExecUses(ts, w);
    if Peek(p.rest, {'|'}) {
      PipeUses(p.rest[1..], w);
    }
  }

  /** Every word of the tokens taken is in the command, as often as it occurs. */
  lemma {:induction false} LineUses(ts: seq<Tok>, w: Tok)
    requires w.Word? && ParseLine(ts).Done?
    ensures Uses(ParseLine(ts).cmd, w) + Occurs(ParseLine(ts).rest, w) == Occurs(ts, w)
    decreases |ts|, 3
  {
    var p := ParsePipe(ts);
    PipeUses(ts, w);
    var b := ParseBacks(p.cmd, p.rest);
    BacksUses(p.cmd, p.rest, w);
    if Peek(b.rest, {';'}) {
      LineUses(b.rest[1..], w);
    }
  }
}
