/** Command trees written back as command lines: every tree has a line that parses to it. */
module ShellShow {
  import opened ShellTokens
  import opened ShellGrammar

  /** A tree the parser can build: at most nine arguments to a command, all of them words. */
  ghost predicate Proper(cmd: Cmd)
  {
    match cmd
    case Exec(args) => |args| < MAXARGS && forall i | 0 <= i < |args| :: args[i].Word?
    case Redir(c, _, file) => file.Word? && Proper(c)
    case Pipe(l, r) => Proper(l) && Proper(r)
    case List(l, r) => Proper(l) && Proper(r)
    case Back(c) => Proper(c)
  }

  /** The command inside its redirections, and the redirections. */
  function Core(cmd: Cmd): Cmd
  {
    if cmd.Redir? then Core(cmd.cmd) else cmd
  }

  function Outer(cmd: Cmd): seq<To>
  {
    if cmd.Redir? then Outer(cmd.cmd) + [To(cmd.kind, cmd.file)] else []
  }

  function KindChar(k: Kind): char
  {
    match k
    case In => '<'
    case Out => '>'
    case Append => '+'
  }

  function ShowTos(tos: seq<To>): seq<Tok>
  {
    if tos == [] then [] else [Sym(KindChar(tos[0].kind)), tos[0].file] + ShowTos(tos[1..])
  }

  /** How tightly a tree binds: it can be written without parentheses from its level up. */
  function Level(cmd: Cmd): nat
  {
    match cmd
    case Exec(_) => 0
    case Redir(_, _, _) => 0
    case Pipe(_, _) => 1
    case Back(_) => 2
    case List(_, _) => 3
  }

  function Rank(level: nat, cmd: Cmd): nat
    requires level <= 3
  {
    if level >= Level(cmd) then level - Level(cmd) else level + 4 - Level(cmd)
  }

  function ShowExec(cmd: Cmd): seq<Tok>
    decreases cmd, Rank(0, cmd)
  {
    CoreSmaller(cmd);
    if Core(cmd).Exec? then Core(cmd).args + ShowTos(Outer(cmd))
    else [Sym('(')] + ShowLine(Core(cmd)) + [Sym(')')] + ShowTos(Outer(cmd))
  }

  function ShowPipe(cmd: Cmd): seq<Tok>
    decreases cmd, Rank(1, cmd)
  {
    if cmd.Pipe? then ShowExec(cmd.left) + [Sym('|')] + ShowPipe(cmd.right) else ShowExec(cmd)
  }

  function ShowBack(cmd: Cmd): seq<Tok>
    decreases cmd, Rank(2, cmd)
  {
    if cmd.Back? then ShowBack(cmd.cmd) + [Sym('&')] else ShowPipe(cmd)
  }

  function ShowLine(cmd: Cmd): seq<Tok>
    decreases cmd, Rank(3, cmd)
  {
    if cmd.List? then ShowBack(cmd.left) + [Sym(';')] + ShowLine(cmd.right) else ShowBack(cmd)
  }

  lemma {:induction false} CoreSmaller(cmd: Cmd)
    ensures !Core(cmd).Redir? && if cmd.Redir? then Core(cmd) < cmd else Core(cmd) == cmd
  {
    if !cmd.Redir? {
    } else {
      CoreSmaller(cmd.cmd);
    }
  }

  lemma {:induction false} CoreProper(cmd: Cmd)
    requires Proper(cmd)
    ensures Proper(Core(cmd)) && forall i | 0 <= i < |Outer(cmd)| :: Outer(cmd)[i].file.Word?
  {
    if !cmd.Redir? {
    } else {
      CoreProper(cmd.cmd);
    }
  }

  lemma {:induction false} WrapAppend(cmd: Cmd, tos: seq<To>, to: To)
    ensures Wrap(cmd, tos + [to]) == Redir(Wrap(cmd, tos), to.kind, to.file)
    decreases |tos|
  {
    if tos == [] {
    } else {
      assert (tos + [to])[1..] == tos[1..] + [to];
      WrapAppend(Redir(cmd, tos[0].kind, tos[0].file), tos[1..], to);
    }
  }

  lemma {:induction false} WrapCore(cmd: Cmd)
    ensures Wrap(Core(cmd), Outer(cmd)) == cmd
  {
    if !cmd.Redir? {
    } else {
      WrapCore(cmd.cmd);
      WrapAppend(Core(cmd), Outer(cmd.cmd), To(cmd.kind, cmd.file));
    }
  }

  // ---------- the round trip ----------

  ghost predicate Stops(rest: seq<Tok>, cs: set<char>)
  {
    rest == [] || Peek(rest, cs)
  }

  lemma {:induction false} RedirsTrip(tos: seq<To>, more: seq<To>, rest: seq<Tok>)
    requires !Peek(rest, {'<', '>'}) && forall i | 0 <= i < |more| :: more[i].file.Word?
    ensures TakeRedirs(tos, ShowTos(more) + rest) == Redirs(tos + more, rest)
    decreases |more|
  {
    var ts := ShowTos(more) + rest;
    if more == [] {
      assert ts == rest && tos + more == tos;
    } else {
      assert ts[2..] == ShowTos(more[1..]) + rest;
      RedirsTrip(tos + [more[0]], more[1..], rest);
      assert tos + [more[0]] + more[1..] == tos + more;
    }
  }

  lemma {:induction false} ArgsTrip(args: seq<Tok>, words: seq<Tok>, tos: seq<To>, rest: seq<Tok>)
    requires words != [] && |args| + |words| < MAXARGS && Stops(rest, {'|', ')', '&', ';'})
    requires (forall i | 0 <= i < |words| :: words[i].Word?) && forall i | 0 <= i < |tos| :: tos[i].file.Word?
    ensures ParseArgs(args, [], words + ShowTos(tos) + rest) == Done(Wrap(Exec(args + words), tos), rest)
    decreases |words|
  {
    var ts := words + ShowTos(tos) + rest;
    assert ts[1..] == words[1..] + ShowTos(tos) + rest;
    if |words| == 1 {
      assert ts[1..] == ShowTos(tos) + rest;
      RedirsTrip([], tos, rest);
      assert [] + tos == tos && [words[0]] == words;
    } else {
      ArgsTrip(args + [words[0]], words[1..], tos, rest);
      assert args + [words[0]] + words[1..] == args + words;
    }
  }

  lemma NoArgsTrip(tos: seq<To>, rest: seq<Tok>)
    requires Stops(rest, {'|', ')', '&', ';'}) && forall i | 0 <= i < |tos| :: tos[i].file.Word?
    ensures ParseExec(ShowTos(tos) + rest) == Done(Wrap(Exec([]), tos), rest)
  {
    var ts := ShowTos(tos) + rest;
    if tos == [] {
      assert ts == rest;
    } else {
      assert ts[0] == Sym(KindChar(tos[0].kind));
    }
    RedirsTrip([], tos, rest);
    assert [] + tos == tos;
  }

  lemma SimpleTrip(args: seq<Tok>, tos: seq<To>, rest: seq<Tok>)
    requires |args| < MAXARGS && Stops(rest, {'|', ')', '&', ';'})
    requires (forall i | 0 <= i < |args| :: args[i].Word?) && forall i | 0 <= i < |tos| :: tos[i].file.Word?
    ensures ParseExec(args + ShowTos(tos) + rest) == Done(Wrap(Exec(args), tos), rest)
  {
    var ts := args + ShowTos(tos) + rest;
    if args == [] {
      assert ts == ShowTos(tos) + rest;
      NoArgsTrip(tos, rest);
    } else {
      assert ts[0] == args[0] && TakeRedirs([], ts) == Redirs([], ts);
      ArgsTrip([], args, tos, rest);
      assert [] + args == args;
    }
  }

  lemma {:induction false} ExecTrip(cmd: Cmd, rest: seq<Tok>)
    requires Proper(cmd) && Stops(rest, {'|', ')', '&', ';'})
    ensures ParseExec(ShowExec(cmd) + rest) == Done(cmd, rest)
    decreases cmd, Rank(0, cmd)
  {
    CoreSmaller(cmd);
    CoreProper(cmd);
    WrapCore(cmd);
    var core, tos := Core(cmd), Outer(cmd);
    if core.Exec? {
      SimpleTrip(core.args, tos, rest);
    } else {
      var inner := [Sym(')')] + (ShowTos(tos) + rest);
      LineTrip(core, inner);
      BlockTail(ShowLine(core), ShowTos(tos), rest);
      BlockTrip(core, tos, ShowExec(cmd) + rest, inner, rest);
    }
  }

  lemma BlockTail(line: seq<Tok>, x: seq<Tok>, rest: seq<Tok>)
    ensures ([Sym('(')] + line + [Sym(')')] + x + rest)[1..] == line + ([Sym(')')] + (x + rest))
  {}

  lemma BlockTrip(core: Cmd, tos: seq<To>, ts: seq<Tok>, inner: seq<Tok>, rest: seq<Tok>)
    requires !Peek(rest, {'<', '>'}) && AllFiles(tos)
    requires ts != [] && ts[0] == Sym('(') && ParseLine(ts[1..]) == Done(core, inner)
    requires inner != [] && inner[0] == Sym(')') && inner[1..] == ShowTos(tos) + rest
    ensures ParseExec(ts) == Done(Wrap(core, tos), rest)
  {
    RedirsTrip([], tos, rest);
    assert [] + tos == tos;
  }

  lemma {:induction false} PipeTrip(cmd: Cmd, rest: seq<Tok>)
    requires Proper(cmd) && Stops(rest, {')', '&', ';'})
    ensures ParsePipe(ShowPipe(cmd) + rest) == Done(cmd, rest)
    decreases cmd, Rank(1, cmd)
  {
    if cmd.Pipe? {
      var more := [Sym('|')] + (ShowPipe(cmd.right) + rest);
      assert ShowPipe(cmd) + rest == ShowExec(cmd.left) + more;
      ExecTrip(cmd.left, more);
      PipeTrip(cmd.right, rest);
      assert more[1..] == ShowPipe(cmd.right) + rest;
    } else {
      ExecTrip(cmd, rest);
    }
  }

  /** parsepipe and the loop over '&' after it. */
  function ParseBack(ts: seq<Tok>): Parse
  {
    var p := ParsePipe(ts);
    if p.Fail? then Fail else ParseBacks(p.cmd, p.rest)
  }

  lemma {:induction false} BackTrip(cmd: Cmd, rest: seq<Tok>)
    requires Proper(cmd) && Stops(rest, {')', '&', ';'})
    ensures ParseBack(ShowBack(cmd) + rest) == ParseBacks(cmd, rest)
    decreases cmd, Rank(2, cmd)
  {
    if cmd.Back? {
      var more := [Sym('&')] + rest;
      assert ShowBack(cmd) + rest == ShowBack(cmd.cmd) + more;
      BackTrip(cmd.cmd, more);
      assert more[1..] == rest;
    } else {
      PipeTrip(cmd, rest);
    }
  }

  lemma {:induction false} LineTrip(cmd: Cmd, rest: seq<Tok>)
    requires Proper(cmd) && Stops(rest, {')'})
    ensures ParseLine(ShowLine(cmd) + rest) == Done(cmd, rest)
    decreases cmd, Rank(3, cmd)
  {
    if cmd.List? {
      var more := [Sym(';')] + (ShowLine(cmd.right) + rest);
      assert ShowLine(cmd) + rest == ShowBack(cmd.left) + more;
      BackTrip(cmd.left, more);
      LineTrip(cmd.right, rest);
      assert more[1..] == ShowLine(cmd.right) + rest;
    } else {
      BackTrip(cmd, rest);
    }
  }

  /** Every proper command tree, written out, parses back to itself. */
  lemma RoundTrip(cmd: Cmd)
    requires Proper(cmd)
    ensures ParseCmd(ShowLine(cmd)) == Done(cmd, [])
  {
    LineTrip(cmd, []);
    assert ShowLine(cmd) + [] == ShowLine(cmd);
  }

  // ---------- what the parser builds is proper ----------

  ghost predicate AllFiles(tos: seq<To>)
  {
    forall i | 0 <= i < |tos| :: tos[i].file.Word?
  }

  lemma {:induction false} WrapProper(cmd: Cmd, tos: seq<To>)
    requires Proper(cmd) && AllFiles(tos)
    ensures Proper(Wrap(cmd, tos))
    decreases |tos|
  {
    if tos == [] {
    } else {
      WrapProper(Redir(cmd, tos[0].kind, tos[0].file), tos[1..]);
    }
  }

  lemma {:induction false} TakeFiles(tos: seq<To>, ts: seq<Tok>)
    requires TakeRedirs(tos, ts).Redirs? && AllFiles(tos)
    ensures AllFiles(TakeRedirs(tos, ts).tos)
    decreases |ts|
  {
    if !Peek(ts, {'<', '>'}) {
    } else {
      TakeFiles(tos + [To(KindOf(ts[0].c), ts[1])], ts[2..]);
    }
  }

  lemma {:induction false} ArgsProper(args: seq<Tok>, tos: seq<To>, ts: seq<Tok>)
    requires ParseArgs(args, tos, ts).Done? && Proper(Exec(args)) && AllFiles(tos)
    ensures Proper(ParseArgs(args, tos, ts).cmd)
    decreases |ts|
  {
    if ts == [] || Peek(ts, {'|', ')', '&', ';'}) {
      WrapProper(Exec(args), tos);
    } else {
      TakeFiles(tos, ts[1..]);
      var r := TakeRedirs(tos, ts[1..]);
      ArgsProper(args + [ts[0]], r.tos, r.rest);
    }
  }

  lemma {:induction false} BacksProper(cmd: Cmd, ts: seq<Tok>)
    requires Proper(cmd)
    ensures Proper(ParseBacks(cmd, ts).cmd)
    decreases |ts|
  {
    if !Peek(ts, {'&'}) {
    } else {
      BacksProper(Back(cmd), ts[1..]);
    }
  }

  lemma {:induction false} ExecProper(ts: seq<Tok>)
    requires ParseExec(ts).Done?
    ensures Proper(ParseExec(ts).cmd)
    decreases |ts|, 1
  {
    if Peek(ts, {'('}) {
      LineProper(ts[1..]);
      var p := ParseLine(ts[1..]);
      TakeFiles([], p.rest[1..]);
      WrapProper(p.cmd, TakeRedirs([], p.rest[1..]).tos);
    } else {
      TakeFiles([], ts);
      ArgsProper([], TakeRedirs([], ts).tos, TakeRedirs([], ts).rest);
    }
  }

  lemma {:induction false} PipeProper(ts: seq<Tok>)
    requires ParsePipe(ts).Done?
    ensures Proper(ParsePipe(ts).cmd)
    decreases |ts|, 2
  {
    ExecProper(ts);
    if Peek(ParseExec(ts).rest, {'|'}) {
      PipeProper(ParseExec(ts).rest[1..]);
    }
  }

  /** No command in a parsed line has more than nine arguments, and all of them are words. */
  lemma {:induction false} LineProper(ts: seq<Tok>)
    requires ParseLine(ts).Done?
    ensures Proper(ParseLine(ts).cmd)
    decreases |ts|, 3
  {
    PipeProper(ts);
    var p := ParsePipe(ts);
    BacksProper(p.cmd, p.rest);
    var b := ParseBacks(p.cmd, p.rest);
    if Peek(b.rest, {';'}) {
      LineProper(b.rest[1..]);
    }
  }
}
