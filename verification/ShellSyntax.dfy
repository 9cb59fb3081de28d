/** The language of command lines, as rules for which tokens make which command; the parser accepts
exactly these and builds exactly these trees. */
module ShellSyntax {
  import opened ShellTokens
  import opened ShellGrammar
  import opened ShellShow

  // ---------- the rules ----------

  /** A redirection symbol and its file. */
  predicate IsRedir(ts: seq<Tok>)
  {
    |ts| >= 2 && ts[0].Sym? && (ts[0].c == '<' || ts[0].c == '>' || ts[0].c == '+') && ts[1].Word?
  }

  /** Words and redirections, in any order. */
  predicate Simple(ts: seq<Tok>)
  {
    ts == [] || (ts[0].Word? && Simple(ts[1..])) || (IsRedir(ts) && Simple(ts[2..]))
  }

  /** The words that do not follow a redirection symbol. */
  function Args(ts: seq<Tok>): seq<Tok>
  {
    if ts == [] then [] else if IsRedir(ts) then Args(ts[2..]) else [ts[0]] + Args(ts[1..])
  }

  /** The redirections: < reads from the file, > writes to it and >> appends to it. */
  function Tos(ts: seq<Tok>): seq<To>
  {
    if ts == [] then []
    else if IsRedir(ts) then
      [To(if ts[0].c == '<' then In else if ts[0].c == '>' then Out else Append, ts[1])] + Tos(ts[2..])
    else Tos(ts[1..])
  }

  /** cmd is core with the redirections around it, the first of them inside. */
  ghost predicate Layers(cmd: Cmd, core: Cmd, tos: seq<To>)
  {
    if tos == [] then cmd == core
    else
      var to := tos[|tos| - 1];
      cmd.Redir? && cmd.kind == to.kind && cmd.file == to.file && Layers(cmd.cmd, core, tos[..|tos| - 1])
  }

  /** A simple command, or a line in parentheses, with its redirections. */
  ghost predicate ExecRule(cmd: Cmd, ts: seq<Tok>)
    decreases |ts|, 1
  {
    || (Simple(ts) && |Args(ts)| < MAXARGS && Layers(cmd, Exec(Args(ts)), Tos(ts)))
    || (exists j, core :: BlockRule(cmd, ts, j, core))
  }

  /** `( line )` up to token j, and redirections behind it. */
  ghost predicate BlockRule(cmd: Cmd, ts: seq<Tok>, j: int, core: Cmd)
    decreases |ts|, 0
  {
    && 0 < j < |ts| && ts[0] == Sym('(') && ts[j] == Sym(')') && LineRule(core, ts[1..j])
    && Simple(ts[j + 1..]) && Args(ts[j + 1..]) == [] && Layers(cmd, core, Tos(ts[j + 1..]))
  }

  /** `exec` or `exec | pipe` */
  ghost predicate PipeRule(cmd: Cmd, ts: seq<Tok>)
    decreases |ts|, 2
  {
    ExecRule(cmd, ts) || (cmd.Pipe? && exists j :: PipeAt(cmd, ts, j))
  }

  ghost predicate PipeAt(cmd: Cmd, ts: seq<Tok>, j: int)
    requires cmd.Pipe?
    decreases |ts|, 0
  {
    0 <= j < |ts| && ts[j] == Sym('|') && ExecRule(cmd.left, ts[..j]) && PipeRule(cmd.right, ts[j + 1..])
  }

  /** `pipe` or `back &` */
  ghost predicate BackRule(cmd: Cmd, ts: seq<Tok>)
    decreases |ts|, 3
  {
    || PipeRule(cmd, ts)
    || (cmd.Back? && ts != [] && ts[|ts| - 1] == Sym('&') && BackRule(cmd.cmd, ts[..|ts| - 1]))
  }

  /** `back` or `back ; line` */
  ghost predicate LineRule(cmd: Cmd, ts: seq<Tok>)
    decreases |ts|, 4
  {
    BackRule(cmd, ts) || (cmd.List? && exists j :: LineAt(cmd, ts, j))
  }

  ghost predicate LineAt(cmd: Cmd, ts: seq<Tok>, j: int)
    requires cmd.List?
    decreases |ts|, 0
  {
    0 <= j < |ts| && ts[j] == Sym(';') && BackRule(cmd.left, ts[..j]) && LineRule(cmd.right, ts[j + 1..])
  }

  // ---------- words and redirections ----------

  /** One more word in front, ... */
  lemma WordFirst(w: Tok, ts: seq<Tok>)
    requires w.Word?
    ensures var r := [w] + ts;
      (Simple(r) <==> Simple(ts)) && Args(r) == [w] + Args(ts) && Tos(r) == Tos(ts)
  {
    var r := [w] + ts;
    assert r[1..] == ts;
  }

  /** ... or one more redirection. */
  lemma RedirFirst(x: Tok, f: Tok, ts: seq<Tok>)
    requires x.Sym? && (x.c == '<' || x.c == '>' || x.c == '+') && f.Word?
    ensures var r := [x, f] + ts;
      && IsRedir(r) && Peek(r, {'<', '>'}) && (Simple(r) <==> Simple(ts)) && Args(r) == Args(ts)
      && Tos(r) == [To(KindOf(x.c), f)] + Tos(ts)
  {
    var r := [x, f] + ts;
    assert r[2..] == ts;
  }

  lemma {:induction false} SimpleAppend(a: seq<Tok>, b: seq<Tok>)
    requires Simple(a)
    ensures (Simple(a + b) <==> Simple(b)) && Args(a + b) == Args(a) + Args(b) && Tos(a + b) == Tos(a) + Tos(b)
    decreases |a|
  {
    if a == [] {
      assert a + b == b;
    } else if a[0].Word? {
      SimpleAppend(a[1..], b);
      WordFirst(a[0], a[1..]);
      WordFirst(a[0], a[1..] + b);
      assert a == [a[0]] + a[1..] && a + b == [a[0]] + (a[1..] + b);
    } else {
      SimpleAppend(a[2..], b);
      RedirFirst(a[0], a[1], a[2..]);
      RedirFirst(a[0], a[1], a[2..] + b);
      assert a == [a[0], a[1]] + a[2..] && a + b == [a[0], a[1]] + (a[2..] + b);
    }
  }

  /** Putting redirections around a command one by one. */
  lemma {:induction false} WrapLayers(core: Cmd, tos: seq<To>)
    ensures Layers(Wrap(core, tos), core, tos)
    decreases |tos|
  {
    if tos == [] {
    } else {
      var n := |tos| - 1;
      WrapLayers(core, tos[..n]);
      WrapAppend(core, tos[..n], tos[n]);
      assert tos == tos[..n] + [tos[n]];
    }
  }

  lemma {:induction false} LayersWrap(cmd: Cmd, core: Cmd, tos: seq<To>)
    requires Layers(cmd, core, tos)
    ensures cmd == Wrap(core, tos)
    decreases |tos|
  {
    if tos == [] {
    } else {
      var n := |tos| - 1;
      LayersWrap(cmd.cmd, core, tos[..n]);
      WrapAppend(core, tos[..n], tos[n]);
      assert tos == tos[..n] + [tos[n]];
    }
  }

  // ---------- the rules, from their parts ----------

  lemma Middle(a: seq<Tok>, x: Tok, b: seq<Tok>)
    ensures var t := a + [x] + b; t[..|a|] == a && t[|a|] == x && t[|a| + 1..] == b
  {}

  lemma PipeMade(l: Cmd, r: Cmd, a: seq<Tok>, b: seq<Tok>)
    requires ExecRule(l, a) && PipeRule(r, b)
    ensures PipeRule(Pipe(l, r), a + [Sym('|')] + b)
  {
    Middle(a, Sym('|'), b);
    assert PipeAt(Pipe(l, r), a + [Sym('|')] + b, |a|);
  }

  lemma BackMade(cmd: Cmd, a: seq<Tok>)
    requires BackRule(cmd, a)
    ensures BackRule(Back(cmd), a + [Sym('&')])
  {
    assert (a + [Sym('&')])[..|a|] == a;
  }

  lemma LineMade(l: Cmd, r: Cmd, a: seq<Tok>, b: seq<Tok>)
    requires BackRule(l, a) && LineRule(r, b)
    ensures LineRule(List(l, r), a + [Sym(';')] + b)
  {
    Middle(a, Sym(';'), b);
    assert LineAt(List(l, r), a + [Sym(';')] + b, |a|);
  }

  lemma BlockMade(core: Cmd, a: seq<Tok>, b: seq<Tok>)
    requires LineRule(core, a) && Simple(b) && Args(b) == []
    ensures ExecRule(Wrap(core, Tos(b)), [Sym('(')] + a + [Sym(')')] + b)
  {
    var t := [Sym('(')] + a + [Sym(')')] + b;
    Middle([Sym('(')] + a, Sym(')'), b);
    assert t[1..1 + |a|] == a;
    WrapLayers(core, Tos(b));
    assert BlockRule(Wrap(core, Tos(b)), t, 1 + |a|, core);
  }

  lemma SimpleMade(a: seq<Tok>)
    requires Simple(a) && |Args(a)| < MAXARGS
    ensures ExecRule(Wrap(Exec(Args(a)), Tos(a)), a)
  {
    WrapLayers(Exec(Args(a)), Tos(a));
  }

  // ---------- the parser builds what the rules say ----------

  /** ts is a, then x, then b, then rest. */
  lemma Pieces(ts: seq<Tok>, a: seq<Tok>, mid: seq<Tok>, b: seq<Tok>, rest: seq<Tok>)
    requires ts == a + mid && mid != [] && mid[1..] == b + rest
    ensures ts == a + [mid[0]] + b + rest
  {
    assert mid == [mid[0]] + mid[1..];
  }

  lemma {:induction false} RedirsSound(tos: seq<To>, ts: seq<Tok>) returns (a: seq<Tok>)
    requires TakeRedirs(tos, ts).Redirs?
    ensures var r := TakeRedirs(tos, ts);
      && ts == a + r.rest && Simple(a) && Args(a) == [] && r.tos == tos + Tos(a)
    decreases |ts|
  {
    if !Peek(ts, {'<', '>'}) {
      a := [];
    } else {
      var to := To(KindOf(ts[0].c), ts[1]);
      var b := RedirsSound(tos + [to], ts[2..]);
      RedirFirst(ts[0], ts[1], b);
      a := [ts[0], ts[1]] + b;
      TwoFirst(ts, b, TakeRedirs(tos, ts).rest);
      assert tos + [to] + Tos(b) == tos + ([to] + Tos(b));
    }
  }

  lemma TwoFirst(ts: seq<Tok>, b: seq<Tok>, rest: seq<Tok>)
    requires |ts| >= 2 && ts[2..] == b + rest
    ensures ts == [ts[0], ts[1]] + b + rest
  {
    assert ts == [ts[0], ts[1]] + ts[2..];
  }

  lemma {:induction false} ArgsSound(args: seq<Tok>, tos: seq<To>, ts: seq<Tok>) returns (a: seq<Tok>)
    requires ParseArgs(args, tos, ts).Done? && |args| < MAXARGS
    ensures var p := ParseArgs(args, tos, ts);
      && ts == a + p.rest && Simple(a) && |args + Args(a)| < MAXARGS
      && p.cmd == Wrap(Exec(args + Args(a)), tos + Tos(a))
    decreases |ts|
  {
    if ts == [] || Peek(ts, {'|', ')', '&', ';'}) {
      a := [];
      assert args + Args(a) == args && tos + Tos(a) == tos;
    } else {
      var r := TakeRedirs(tos, ts[1..]);
      var b := RedirsSound(tos, ts[1..]);
      var c := ArgsSound(args + [ts[0]], r.tos, r.rest);
      a := [ts[0]] + (b + c);
      ArgsJoin(args, tos, ts[0], b, c);
      OneFirst(ts, b, c, ParseArgs(args, tos, ts).rest);
    }
  }

  lemma OneFirst(ts: seq<Tok>, b: seq<Tok>, c: seq<Tok>, rest: seq<Tok>)
    requires ts != [] && ts[1..] == b + (c + rest)
    ensures ts == [ts[0]] + (b + c) + rest
  {
    assert ts == [ts[0]] + ts[1..];
  }

  /** A word, redirections behind it, and more of both. */
  lemma ArgsJoin(args: seq<Tok>, tos: seq<To>, w: Tok, b: seq<Tok>, c: seq<Tok>)
    requires w.Word? && Simple(b) && Args(b) == [] && Simple(c)
    ensures var a := [w] + (b + c);
      Simple(a) && args + Args(a) == args + [w] + Args(c) && tos + Tos(a) == tos + Tos(b) + Tos(c)
  {
    SimpleAppend(b, c);
    WordFirst(w, b + c);
    assert [] + Args(c) == Args(c);
    Grouped(args, [w], Args(c));
    Grouped(tos, Tos(b), Tos(c));
  }

  lemma Grouped<T>(a: seq<T>, b: seq<T>, c: seq<T>)
    ensures a + (b + c) == a + b + c
  {}

  lemma {:induction false} ExecSound(ts: seq<Tok>) returns (a: seq<Tok>)
    requires ParseExec(ts).Done?
    ensures ts == a + ParseExec(ts).rest && ExecRule(ParseExec(ts).cmd, a)
    decreases |ts|, 1
  {
    if Peek(ts, {'('}) {
      a := BlockSound(ts);
    } else {
      var r := TakeRedirs([], ts);
      var b := RedirsSound([], ts);
      var c := ArgsSound([], r.tos, r.rest);
      a := b + c;
      SimpleAppend(b, c);
      assert [] + Args(c) == Args(c) && [] + Tos(b) == Tos(b);
      SimpleMade(a);
      Grouped(b, c, ParseExec(ts).rest);
    }
  }

  lemma {:induction false} BlockSound(ts: seq<Tok>) returns (a: seq<Tok>)
    requires Peek(ts, {'('}) && ParseBlock(ts).Done?
    ensures ts == a + ParseBlock(ts).rest && ExecRule(ParseBlock(ts).cmd, a)
    decreases |ts|, 0
  {
    var q := ParseLine(ts[1..]);
    var b := LineSound(ts[1..]);
    var c := RedirsSound([], q.rest[1..]);
    assert [] + Tos(c) == Tos(c);
    BlockMade(q.cmd, b, c);
    a := [Sym('(')] + b + [Sym(')')] + c;
    assert ts == [Sym('(')] + b + q.rest by {
      assert ts == [ts[0]] + ts[1..];
    }
    Pieces(ts, [Sym('(')] + b, q.rest, c, ParseBlock(ts).rest);
  }

  lemma {:induction false} PipeSound(ts: seq<Tok>) returns (a: seq<Tok>)
    requires ParsePipe(ts).Done?
    ensures ts == a + ParsePipe(ts).rest && PipeRule(ParsePipe(ts).cmd, a)
    decreases |ts|, 2
  {
    var q := ParseExec(ts);
    a := ExecSound(ts);
    if Peek(q.rest, {'|'}) {
      var b := PipeSound(q.rest[1..]);
      PipeMade(q.cmd, ParsePipe(q.rest[1..]).cmd, a, b);
      Pieces(ts, a, q.rest, b, ParsePipe(ts).rest);
      a := a + [Sym('|')] + b;
    }
  }

  lemma {:induction false} BacksSound(cmd: Cmd, a: seq<Tok>, ts: seq<Tok>) returns (b: seq<Tok>)
    requires BackRule(cmd, a)
    ensures a + ts == b + ParseBacks(cmd, ts).rest && BackRule(ParseBacks(cmd, ts).cmd, b)
    decreases |ts|
  {
    if !Peek(ts, {'&'}) {
      b := a;
    } else {
      BackMade(cmd, a);
      b := BacksSound(Back(cmd), a + [Sym('&')], ts[1..]);
      assert a + ts == a + [Sym('&')] + ts[1..];
    }
  }

  /** What the parser builds is a command that the rules give for the tokens it has taken. */
  lemma {:induction false} LineSound(ts: seq<Tok>) returns (a: seq<Tok>)
    requires ParseLine(ts).Done?
    ensures ts == a + ParseLine(ts).rest && LineRule(ParseLine(ts).cmd, a)
    decreases |ts|, 3
  {
    var q := ParsePipe(ts);
    a := PipeSound(ts);
    a := BacksSound(q.cmd, a, q.rest);
    var b := ParseBacks(q.cmd, q.rest);
    if Peek(b.rest, {';'}) {
      var c := LineSound(b.rest[1..]);
      LineMade(b.cmd, ParseLine(b.rest[1..]).cmd, a, c);
      Pieces(ts, a, b.rest, c, ParseLine(ts).rest);
      a := a + [Sym(';')] + c;
    }
  }

  // ---------- and it accepts everything the rules allow ----------

  lemma {:induction false} RedirsComplete(tos: seq<To>, a: seq<Tok>, rest: seq<Tok>)
    requires Simple(a) && Args(a) == [] && !Peek(rest, {'<', '>'})
    ensures TakeRedirs(tos, a + rest) == Redirs(tos + Tos(a), rest)
    decreases |a|
  {
    if a == [] {
      assert a + rest == rest && tos + Tos(a) == tos;
    } else {
      var to := To(KindOf(a[0].c), a[1]);
      RedirsComplete(tos + [to], a[2..], rest);
      RedirFirst(a[0], a[1], a[2..]);
      assert a == [a[0], a[1]] + a[2..];
      TwoThen(a, rest);
      Grouped(tos, [to], Tos(a[2..]));
    }
  }

  lemma TwoThen(a: seq<Tok>, rest: seq<Tok>)
    requires |a| >= 2
    ensures (a + rest)[2..] == a[2..] + rest && (a + rest)[0] == a[0] && (a + rest)[1] == a[1]
  {}

  /** The redirections in front. */
  lemma {:induction false} Leading(a: seq<Tok>) returns (r: seq<Tok>, u: seq<Tok>)
    requires Simple(a)
    ensures a == r + u && Simple(r) && Args(r) == [] && Simple(u) && (u == [] || u[0].Word?)
    ensures Args(a) == Args(u) && Tos(a) == Tos(r) + Tos(u)
    decreases |a|
  {
    if a == [] || a[0].Word? {
      r, u := [], a;
      assert [] + Tos(u) == Tos(u);
    } else {
      var r', u' := Leading(a[2..]);
      RedirFirst(a[0], a[1], r');
      RedirFirst(a[0], a[1], a[2..]);
      r, u := [a[0], a[1]] + r', u';
      TwoFirst(a, r', u');
      assert a == [a[0], a[1]] + a[2..];
      Grouped([To(KindOf(a[0].c), a[1])], Tos(r'), Tos(u'));
    }
  }

  lemma {:induction false} ArgsComplete(args: seq<Tok>, tos: seq<To>, u: seq<Tok>, rest: seq<Tok>)
    requires Simple(u) && (u == [] || u[0].Word?) && |args| + |Args(u)| < MAXARGS && Stops(rest, {'|', ')', '&', ';'})
    ensures ParseArgs(args, tos, u + rest) == Done(Wrap(Exec(args + Args(u)), tos + Tos(u)), rest)
    decreases |u|
  {
    if u == [] {
      assert u + rest == rest && args + Args(u) == args && tos + Tos(u) == tos;
    } else {
      var w, r, v := FirstWord(u);
      OneWord(args, tos, w, r, v, u, rest);
      ArgsComplete(args + [w], tos + Tos(r), v, rest);
      Grouped(args, [w], Args(v));
      Grouped(tos, Tos(r), Tos(v));
    }
  }

  /** A word, the redirections after it, and what starts with the next word. */
  lemma FirstWord(u: seq<Tok>) returns (w: Tok, r: seq<Tok>, v: seq<Tok>)
    requires Simple(u) && u != [] && u[0].Word?
    ensures u == [w] + (r + v) && w.Word? && Simple(r) && Args(r) == [] && Simple(v) && (v == [] || v[0].Word?)
    ensures Args(u) == [w] + Args(v) && Tos(u) == Tos(r) + Tos(v) && |v| < |u|
  {
    w := u[0];
    assert u == [w] + u[1..];
    WordFirst(w, u[1..]);
    r, v := Leading(u[1..]);
  }

  /** One round of the loop over the words. */
  lemma OneWord(args: seq<Tok>, tos: seq<To>, w: Tok, r: seq<Tok>, v: seq<Tok>, u: seq<Tok>, rest: seq<Tok>)
    requires u == [w] + (r + v) && w.Word? && Simple(r) && Args(r) == [] && (v == [] || v[0].Word?)
    requires |args| + 1 < MAXARGS && Stops(rest, {'|', ')', '&', ';'})
    ensures ParseArgs(args, tos, u + rest) == ParseArgs(args + [w], tos + Tos(r), v + rest)
  {
    Behind(w, r, v, u, rest);
    RedirsComplete(tos, r, v + rest);
  }

  lemma Behind(w: Tok, r: seq<Tok>, v: seq<Tok>, u: seq<Tok>, rest: seq<Tok>)
    requires u == [w] + (r + v) && Stops(rest, {'|', ')', '&', ';'}) && (v == [] || v[0].Word?)
    ensures (u + rest)[0] == w && (u + rest)[1..] == r + (v + rest) && !Peek(v + rest, {'<', '>'})
  {
    if v == [] {
      assert v + rest == rest;
    }
  }

  lemma SimpleComplete(a: seq<Tok>, rest: seq<Tok>)
    requires Simple(a) && |Args(a)| < MAXARGS && Stops(rest, {'|', ')', '&', ';'})
    ensures ParseExec(a + rest) == Done(Wrap(Exec(Args(a)), Tos(a)), rest)
  {
    var r, u := Leading(a);
    assert !Peek(a + rest, {'('}) by {
      if a == [] {
        assert a + rest == rest;
      }
    }
    assert !Peek(u + rest, {'<', '>'}) by {
      if u == [] {
        assert u + rest == rest;
      }
    }
    Grouped(r, u, rest);
    RedirsComplete([], r, u + rest);
    assert [] + Tos(r) == Tos(r) && [] + Args(u) == Args(u);
    ArgsComplete([], Tos(r), u, rest);
  }

  lemma {:induction false} ExecComplete(cmd: Cmd, a: seq<Tok>, rest: seq<Tok>)
    requires ExecRule(cmd, a) && Stops(rest, {'|', ')', '&', ';'})
    ensures ParseExec(a + rest) == Done(cmd, rest)
    decreases |a|, 1
  {
    if Simple(a) && |Args(a)| < MAXARGS && Layers(cmd, Exec(Args(a)), Tos(a)) {
      SimpleComplete(a, rest);
      LayersWrap(cmd, Exec(Args(a)), Tos(a));
    } else {
      var j, core :| BlockRule(cmd, a, j, core);
      BlockComplete(cmd, a, j, core, rest);
    }
  }

  lemma {:induction false} BlockComplete(cmd: Cmd, a: seq<Tok>, j: int, core: Cmd, rest: seq<Tok>)
    requires BlockRule(cmd, a, j, core) && Stops(rest, {'|', ')', '&', ';'})
    ensures ParseExec(a + rest) == Done(cmd, rest)
    decreases |a|, 0
  {
    var b, c := a[1..j], a[j + 1..];
    var inner := [Sym(')')] + (c + rest);
    LineComplete(core, b, inner);
    RedirsComplete([], c, rest);
    assert [] + Tos(c) == Tos(c);
    LayersWrap(cmd, core, Tos(c));
    Parenthesis(a, j, rest);
    BlockStep(core, Tos(c), a + rest, inner, rest);
  }

  lemma BlockStep(core: Cmd, tos: seq<To>, ts: seq<Tok>, inner: seq<Tok>, rest: seq<Tok>)
    requires ts != [] && ts[0] == Sym('(') && ParseLine(ts[1..]) == Done(core, inner)
    requires inner != [] && inner[0] == Sym(')') && TakeRedirs([], inner[1..]) == Redirs(tos, rest)
    ensures ParseExec(ts) == Done(Wrap(core, tos), rest)
  {}

  lemma Parenthesis(a: seq<Tok>, j: int, rest: seq<Tok>)
    requires 0 < j < |a| && a[0] == Sym('(') && a[j] == Sym(')')
    ensures (a + rest)[0] == Sym('(') && (a + rest)[1..] == a[1..j] + ([Sym(')')] + (a[j + 1..] + rest))
    ensures ([Sym(')')] + (a[j + 1..] + rest))[1..] == a[j + 1..] + rest
  {}

  lemma {:induction false} PipeComplete(cmd: Cmd, a: seq<Tok>, rest: seq<Tok>)
    requires PipeRule(cmd, a) && Stops(rest, {')', '&', ';'})
    ensures ParsePipe(a + rest) == Done(cmd, rest)
    decreases |a|, 2
  {
    if ExecRule(cmd, a) {
      ExecComplete(cmd, a, rest);
    } else {
      var j :| PipeAt(cmd, a, j);
      var more := [Sym('|')] + (a[j + 1..] + rest);
      Cut(a, j, rest);
      ExecComplete(cmd.left, a[..j], more);
      PipeComplete(cmd.right, a[j + 1..], rest);
    }
  }

  lemma Cut(a: seq<Tok>, j: int, rest: seq<Tok>)
    requires 0 <= j < |a|
    ensures var more := [a[j]] + (a[j + 1..] + rest); a + rest == a[..j] + more && more[1..] == a[j + 1..] + rest
  {}

  lemma {:induction false} BackComplete(cmd: Cmd, a: seq<Tok>, rest: seq<Tok>)
    requires BackRule(cmd, a) && Stops(rest, {')', '&', ';'})
    ensures ParseBack(a + rest) == ParseBacks(cmd, rest)
    decreases |a|, 3
  {
    if PipeRule(cmd, a) {
      PipeComplete(cmd, a, rest);
    } else {
      var n := |a| - 1;
      Cut(a, n, rest);
      assert a[n + 1..] + rest == rest;
      BackComplete(cmd.cmd, a[..n], [Sym('&')] + rest);
    }
  }

  lemma {:induction false} LineComplete(cmd: Cmd, a: seq<Tok>, rest: seq<Tok>)
    requires LineRule(cmd, a) && Stops(rest, {')'})
    ensures ParseLine(a + rest) == Done(cmd, rest)
    decreases |a|, 4
  {
    if BackRule(cmd, a) {
      BackComplete(cmd, a, rest);
    } else {
      var j :| LineAt(cmd, a, j);
      var more := [Sym(';')] + (a[j + 1..] + rest);
      Cut(a, j, rest);
      BackComplete(cmd.left, a[..j], more);
      LineComplete(cmd.right, a[j + 1..], rest);
    }
  }

  /** The parser accepts a line exactly when the rules give a command for it, and builds that command;
      so no line can be read in two ways. */
  lemma Accepts(ts: seq<Tok>, cmd: Cmd)
    ensures ParseCmd(ts) == Done(cmd, []) <==> LineRule(cmd, ts)
  {
    assert ts + [] == ts;
    if LineRule(cmd, ts) {
      LineComplete(cmd, ts, []);
    }
    if ParseCmd(ts) == Done(cmd, []) {
      var a := LineSound(ts);
      assert a + [] == a;
    }
  }
}
