/** src/app/libc/stdio: output through a line-buffered stream. The counts that writev returns
come from an oracle, so that every sequence of partial writes and errors is covered. */
module Stdio {
  import opened Order

  type Byte = x: int | 0 <= x < 256

  const NEWLINE: Byte := 10
  const EOF := -1
  const NULL := -1

  /** What writev returns when asked for rem bytes and the oracle says x: an error, or at least
      one byte and at most all of them. */
  function Count(x: int, rem: nat): (n: int)
    ensures n <= rem && (n >= 0 ==> n > 0 || rem == 0) && (n < 0 <==> x < 0)
  {
    if x < 0 then x else if x > rem then rem else if x == 0 && rem > 0 then 1 else x
  }

  /** What became of a call: everything was taken, nothing was, or a write failed. */
  datatype Outcome = Accepted | Refused | Failed

  /** After a failed write: what was sent is a proper prefix of what should have been. */
  ghost predicate Lossy(sent: seq<Byte>, total: seq<Byte>, data: seq<Byte>)
  {
    sent < total + data
  }

  /** `all` is a followed by two pieces. */
  ghost predicate Pieces(all: seq<Byte>, a: seq<Byte>, first: seq<Byte>, second: seq<Byte>)
  {
    all == a + first + second
  }

  lemma Start(a: seq<Byte>, first: seq<Byte>, second: seq<Byte>)
    ensures Pieces(a + first + second, a, first, second) && a <= a + first + second
  {}

  /** Moving cnt bytes from the front of two pieces to the end of a. */
  lemma Taken(all: seq<Byte>, a: seq<Byte>, first: seq<Byte>, second: seq<Byte>, cnt: nat)
    requires Pieces(all, a, first, second) && cnt <= |first| + |second|
    ensures var b := a + (first + second)[..cnt];
      && a <= all && b <= all && |b| == |a| + cnt && |all| == |a| + |first| + |second|
      && (cnt == |first| + |second| ==> b == all)
      && (cnt <= |first| ==> Pieces(all, b, first[cnt..], second))
      && (cnt >= |first| ==> Pieces(all, b, [], second[cnt - |first|..]))
  {
    if cnt <= |first| {
      assert (first + second)[..cnt] == first[..cnt];
    }
    if cnt >= |first| {
      assert (first + second)[..cnt] == first + second[..cnt - |first|];
    }
  }

  class Stream {
    const buf: array<Byte>
    const lined: bool        // lbf == '\n', and not -1
    const readOnly: bool     // F_NOWR
    const oracle: nat -> int
    var calls: nat           // how often writev has been called
    var err: bool            // F_ERR
    var wbase: int
    var wpos: int
    var wend: int
    ghost var sent: seq<Byte>  // what writev has taken

    /** The pointers are null, or delimit the buffer. */
    ghost predicate Valid()
      reads this
    {
      (wbase == wpos == wend == NULL) || (0 == wbase <= wpos <= wend == buf.Length)
    }

    ghost function Buffered(): seq<Byte>
      requires Valid()
      reads this, buf
    {
      if wpos == NULL then [] else buf[..wpos]
    }

    /** Everything that has been accepted. */
    ghost function Total(): seq<Byte>
      requires Valid()
      reads this, buf
    {
      sent + Buffered()
    }

    ghost predicate NoNewline()
      requires Valid()
      reads this, buf
    {
      NEWLINE !in Buffered()
    }

    constructor (size: nat, lined: bool, readOnly: bool, oracle: nat -> int)
      ensures Valid() && NoNewline() && Total() == [] && !err && fresh(buf) && wpos == NULL && calls == 0
      ensures this.lined == lined && this.readOnly == readOnly && this.oracle == oracle && buf.Length == size
    {
      buf := new Byte[size](i => 0);
      this.lined, this.readOnly, this.oracle := lined, readOnly, oracle;
      calls, err, wbase, wpos, wend, sent := 0, false, NULL, NULL, NULL, [];
    }

    /** writev on one or two pieces. */
    method Writev(first: seq<Byte>, second: seq<Byte>) returns (cnt: int)
      modifies this`calls, this`sent
      ensures calls == old(calls) + 1 && cnt == Count(oracle(old(calls)), |first| + |second|)
      ensures sent == if cnt < 0 then old(sent) else old(sent) + (first + second)[..cnt]
    {
      cnt := Count(oracle(calls), |first| + |second|);
      calls := calls + 1;
      sent := if cnt < 0 then sent else sent + (first + second)[..cnt];
    }

    /** __stdio_write: the buffer and then data, in as many writes as it takes. If one of them
        fails, n is how much of data was written before. */
    method StdioWrite(data: seq<Byte>) returns (n: nat, ghost failed: bool)
      requires Valid()
      modifies this`calls, this`sent, this`err, this`wbase, this`wpos, this`wend
      ensures Valid() && Buffered() == [] && n <= |data| && (err <==> old(err) || failed) && (!failed ==> wpos != NULL)
      ensures !failed ==> n == |data| && sent == old(Total()) + data
      ensures failed ==> wpos == NULL && sent <= old(Total()) + data && |old(sent)| <= |sent|
      ensures failed ==> n == Max(0, |sent| - |old(Total())|) && (data != [] ==> n < |data|)
      ensures failed && (data != [] || old(Buffered()) != []) ==> |sent| < |old(Total()) + data|
      ensures oracle(old(calls)) < 0 ==> failed && sent == old(sent)
    {
      var first := BufferPiece();
      var second := data;
      var rem := |first| + |second|;
      var iovcnt := 2;
      failed := false;
      ghost var all, base := old(Total()) + data, |old(Total())|;
      Start(sent, first, data);
      while true
        invariant 1 <= iovcnt <= 2 && (iovcnt == 1 ==> first == []) && rem == |first| + |second|
        invariant Pieces(all, sent, first, second) && |old(sent)| <= |sent| <= |all| && |sent| + rem == |all|
        invariant (iovcnt == 2 ==> second == data) && (data != [] ==> second != []) && sent <= all && |second| <= |data|
        invariant rem > 0 || (data == [] && old(Buffered()) == [])
        invariant err == old(err) && !failed && calls >= old(calls)
        invariant if calls == old(calls) then sent == old(sent) else oracle(old(calls)) >= 0
        decreases rem
      {
        var cnt;
        cnt, first, second, iovcnt := Round(first, second, iovcnt, all);
        if cnt == rem {
          wend := buf.Length;
          wpos, wbase := 0, 0;
          n := |data|;
          return;
        }
        if cnt < 0 {
          wpos, wbase, wend := NULL, NULL, NULL;
          err, failed := true, true;
          n := if iovcnt == 2 then 0 else |data| - |second|;
          return;
        }
        rem := rem - cnt;
      }
    }

    /** One writev, and the pieces that are left. */
    method Round(first: seq<Byte>, second: seq<Byte>, iovcnt: int, ghost all: seq<Byte>)
      returns (cnt: int, first': seq<Byte>, second': seq<Byte>, iovcnt': int)
      requires Pieces(all, sent, first, second) && 1 <= iovcnt <= 2 && (iovcnt == 1 ==> first == [])
      modifies this`calls, this`sent
      ensures 1 <= iovcnt' <= 2 && (iovcnt' == 1 ==> first' == [])
      ensures iovcnt' == 2 ==> iovcnt == 2 && second' == second
      ensures Pieces(all, sent, first', second') && sent <= all && cnt <= |first| + |second| && |second'| <= |second|
      ensures calls == old(calls) + 1 && (cnt < 0 <==> oracle(old(calls)) < 0)
      ensures cnt < 0 ==> sent == old(sent) && first' == first && second' == second && iovcnt' == iovcnt
      ensures cnt >= 0 ==> |sent| == |old(sent)| + cnt && |first'| + |second'| == |first| + |second| - cnt
      ensures 0 <= cnt < |first| + |second| ==> cnt > 0 && (second != [] ==> second' != [])
      ensures cnt == |first| + |second| ==> sent == all
    {
      first', second', iovcnt' := first, second, iovcnt;
      Taken(all, sent, first, second, 0);
      cnt := Writev(first, second);
      if cnt < 0 {
        return;
      }
      Taken(all, old(sent), first, second, cnt);
      if iovcnt == 2 && cnt <= |first| {
        first' := first[cnt..];
      } else {
        second' := second[cnt - |first|..];
        first', iovcnt' := [], 1;
      }
    }

    method BufferPiece() returns (piece: seq<Byte>)
      requires Valid()
      ensures piece == Buffered()
    {
      piece := if wpos == wbase then [] else buf[wbase..wpos];
    }

    /** __towrite */
    method ToWrite() returns (ret: int)
      requires Valid()
      modifies this`err, this`wbase, this`wpos, this`wend
      ensures Valid() && ret == if readOnly then EOF else 0
      ensures readOnly ==> err && wpos == old(wpos) && wbase == old(wbase) && wend == old(wend)
      ensures !readOnly ==> err == old(err) && wpos == wbase == 0 && wend == buf.Length
    {
      if readOnly {
        err := true;
        return EOF;
      }
      wpos, wbase := 0, 0;
      wend := buf.Length;
      ret := 0;
    }

    /** A read-only stream that is not being written. */
    ghost predicate Shut()
      reads this
    {
      readOnly && wpos == NULL
    }

    /** A null stream that is asked to write becomes ready, unless it is read-only. */
    method Ready() returns (ok: bool)
      requires Valid()
      modifies this`err, this`wbase, this`wpos, this`wend
      ensures Valid() && Total() == old(Total()) && (old(NoNewline()) ==> NoNewline())
      ensures ok <==> wpos != NULL
      ensures ok <==> !old(Shut())
      ensures ok ==> err == old(err) && wpos == Max(0, old(wpos))
      ensures !ok ==> err && Buffered() == []
    {
      if wpos == NULL {
        var ret := ToWrite();
        ok := ret == 0;
      } else {
        ok := true;
      }
    }

    /** memcpy(f->wpos, buf, len); f->wpos += len */
    method Append(data: seq<Byte>)
      requires Valid() && wpos != NULL && |data| <= wend - wpos
      modifies this`wpos, buf
      ensures Valid() && wpos != NULL && Buffered() == old(Buffered()) + data
    {
      var i := 0;
      while i < |data|
        invariant 0 <= i <= |data| && wpos == old(wpos)
        invariant buf[..wpos] == old(buf[..wpos]) && buf[wpos..wpos + i] == data[..i]
      {
        buf[wpos + i] := data[i];
        i := i + 1;
      }
      wpos := wpos + |data|;
      assert buf[..wpos] == buf[..old(wpos)] + buf[old(wpos)..wpos];
    }

    /** fputc: c is any int; the byte written is its low eight bits. */
    method Fputc(c: int) returns (ret: int, ghost how: Outcome)
      requires Valid()
      modifies this, buf
      ensures Valid() && (how == Refused <==> old(Shut())) && (err <==> old(err) || how != Accepted)
      ensures how == Accepted ==> Total() == old(Total()) + [c % 256] && (0 <= c < 256 ==> ret == c)
      ensures how == Refused ==> ret == EOF && Total() == old(Total()) && Buffered() == []
      ensures how == Failed ==> ret == EOF && Buffered() == [] && Lossy(sent, old(Total()), [c % 256])
      ensures old(NoNewline()) && lined && how == Accepted ==> (NoNewline() <==> !Slips(c, old(wpos)))
      ensures !old(Shut()) && Max(0, old(wpos)) < buf.Length && !(lined && c == NEWLINE) ==>
        how == Accepted && sent == old(sent) && calls == old(calls)
    {
      var ok := Ready();
      if !ok {
        return EOF, Refused;
      }
      var s: Byte := c % 256;
      if wpos != wend && !(lined && c == NEWLINE) {
        Append([s]);
        return s, Accepted;
      }
      var n, failed := StdioWrite([s]);
      how := if failed then Failed else Accepted;
      if n != 1 {
        return EOF, how;
      }
      ret := c;
    }

    /** A value that is not the newline but whose low byte is, put where there is room. */
    ghost predicate Slips(c: int, pos: int)
    {
      c % 256 == NEWLINE && c != NEWLINE && Max(0, pos) < buf.Length
    }

    /** The backward scan: the length of data up to and with its last newline. */
    method Scan(data: seq<Byte>) returns (i: nat)
      ensures i <= |data| && (i > 0 ==> data[i - 1] == NEWLINE) && NEWLINE !in data[i..]
    {
      i := |data|;
      while i > 0 && data[i - 1] != NEWLINE
        invariant 0 <= i <= |data| && NEWLINE !in data[i..]
      {
        i := i - 1;
      }
    }

    /** Whole lines go out at once, together with what was in the buffer. */
    method SendLines(head: seq<Byte>) returns (k: nat, ghost failed: bool)
      requires Valid() && wpos != NULL
      modifies this`calls, this`sent, this`err, this`wbase, this`wpos, this`wend
      ensures Valid() && (err <==> old(err) || failed) && (k < |head| <==> failed) && k <= |head|
      ensures !failed ==> wpos != NULL && wpos <= old(wpos) && Total() == old(Total()) + head
      ensures !failed && old(NoNewline()) ==> NoNewline()
      ensures failed ==> Buffered() == [] && Lossy(sent, old(Total()), head) && k == Max(0, |sent| - |old(Total())|)
    {
      if head == [] {
        return 0, false;
      }
      k, failed := StdioWrite(head);
    }

    /** The part of __fwritex for data that fits: whole lines go out, the rest is kept. */
    method Keep(data: seq<Byte>) returns (n: nat, ghost failed: bool)
      requires Valid() && wpos != NULL && |data| <= wend - wpos
      modifies this, buf
      ensures Valid() && (err <==> old(err) || failed)
      ensures !failed ==> n == |data| && Total() == old(Total()) + data
      ensures failed ==> Buffered() == [] && Lossy(sent, old(Total()), data) && n == Max(0, |sent| - |old(Total())|)
      ensures old(NoNewline()) && lined ==> NoNewline()
    {
      var i := 0;
      if lined {
        i := Scan(data);
      }
      assert data == data[..i] + data[i..];
      n, failed := KeepParts(data[..i], data[i..]);
    }

    method KeepParts(head: seq<Byte>, tail: seq<Byte>) returns (n: nat, ghost failed: bool)
      requires Valid() && wpos != NULL && |tail| <= wend - wpos && (lined ==> NEWLINE !in tail)
      modifies this, buf
      ensures Valid() && (err <==> old(err) || failed)
      ensures !failed ==> n == |head + tail| && Total() == old(Total()) + (head + tail)
      ensures failed ==>
        Buffered() == [] && Lossy(sent, old(Total()), head + tail) && n == Max(0, |sent| - |old(Total())|)
      ensures old(NoNewline()) && lined ==> NoNewline()
    {
      n, failed := SendLines(head);
      if n < |head| {
        Prefix(sent, old(Total()), head, tail);
        return;
      }
      Carry(sent, Buffered(), tail, old(Total()), head);
      Append(tail);
      n := |head| + |tail|;
    }

    /** __fwritex */
    method Fwritex(data: seq<Byte>) returns (n: nat, ghost how: Outcome)
      requires Valid()
      modifies this, buf
      ensures Valid() && (how == Refused <==> old(Shut())) && (err <==> old(err) || how != Accepted)
      ensures how == Accepted ==> n == |data| && Total() == old(Total()) + data
      ensures how == Refused ==> n == 0 && Total() == old(Total()) && Buffered() == []
      ensures how == Failed ==>
        Buffered() == [] && Lossy(sent, old(Total()), data) && n == Max(0, |sent| - |old(Total())|)
      ensures old(NoNewline()) && lined ==> NoNewline()
    {
      var ok := Ready();
      if !ok {
        return 0, Refused;
      }
      ghost var failed;
      if |data| > wend - wpos {
        n, failed := StdioWrite(data);
      } else {
        n, failed := Keep(data);
      }
      how := if failed then Failed else Accepted;
    }

    /** fwrite: the number of whole elements written. */
    method Fwrite(data: seq<Byte>, size: nat, nmemb: nat) returns (ret: nat, ghost how: Outcome)
      requires Valid() && |data| == size * nmemb
      modifies this, buf
      ensures Valid() && (err <==> old(err) || how != Accepted) && (how == Refused ==> old(Shut()))
      ensures how == Accepted ==> ret == (if size == 0 then 0 else nmemb) && Total() == old(Total()) + data
      ensures how == Refused ==> ret == 0 && Total() == old(Total()) && Buffered() == []
      ensures how == Failed ==> Buffered() == [] && Lossy(sent, old(Total()), data)
      ensures how == Failed ==> size > 0 && ret == Max(0, |sent| - |old(Total())|) / size && ret < nmemb
      ensures old(NoNewline()) && lined ==> NoNewline()
    {
      if size == 0 || nmemb == 0 {
        assert data == [] by {
          assert size * nmemb == 0;
        }
        return 0, Accepted;
      }
      var i;
      i, how := Fwritex(data);
      ret := if i == |data| then nmemb else i / size;
      if i < |data| {
        Fewer(i, size, nmemb);
      }
    }

    /** fflush on one stream: the write is asked for no data of its own, so its result is 0 and
        fflush returns 0 even when it failed; the error flag is what tells. */
    method Fflush() returns (ret: int, ghost failed: bool)
      requires Valid()
      modifies this
      ensures Valid() && Buffered() == [] && ret == 0 && (err <==> old(err) || failed)
      ensures !failed ==> sent == old(Total())
      ensures failed ==> sent < old(Total())
      ensures old(Buffered()) != [] && oracle(old(calls)) < 0 ==> failed && sent == old(sent)
    {
      failed := false;
      if wpos != wbase {
        var n;
        n, failed := StdioWrite([]);
        if n != 0 {
          return EOF, failed;
        }
        assert old(Total()) + [] == old(Total());
      }
      wpos, wend, wbase := NULL, NULL, NULL;
      ret := 0;
    }

    /** Every sequence of calls without a write error: what was sent, and then what is in the
        buffer, is what was given, in order; and no finished line stays in the buffer. */
    method Run(ops: seq<Op>)
      requires Valid() && Total() == [] && NoNewline()
      modifies this, buf
      ensures Valid() && (!err ==> Total() == Given(ops))
      ensures !err && lined && (forall i | 0 <= i < |ops| && ops[i].Putc? :: 0 <= ops[i].c < 256) ==> NoNewline()
    {
      var i := 0;
      assert ops[..0] == [];
      while i < |ops|
        invariant 0 <= i <= |ops| && Valid() && (!err ==> Total() == Given(ops[..i]))
        invariant !err && lined && (forall k | 0 <= k < i && ops[k].Putc? :: 0 <= ops[k].c < 256) ==> NoNewline()
      {
        assert ops[..i + 1][..i] == ops[..i];
        match ops[i] {
          case Putc(c) => var _, _ := Fputc(c);
          case Write(data) => var _, _ := Fwrite(data, 1, |data|);
          case Flush => var _, _ := Fflush();
        }
        i := i + 1;
      }
      assert ops[..|ops|] == ops;
    }
  }

  /** A byte is buffered and the write fails: fflush returns 0, and the byte is neither in the
      buffer nor sent. */
  method FlushLies() returns (ret: int, f: Stream)
    ensures f.Valid() && ret == 0 && f.err && f.Total() == []
  {
    f := new Stream(8, true, false, i => -1);
    var _, how := f.Fputc(65);
    assert f.Total() == [65] && f.Buffered() == [65];
    ghost var failed;
    ret, failed := f.Fflush();
  }

  /** 266 is not the newline character, but its low byte is: the newline stays in the buffer. */
  method NewlineSlips() returns (f: Stream)
    ensures f.Valid() && f.lined && !f.err && f.Buffered() == [NEWLINE]
  {
    f := new Stream(8, true, false, i => 1);
    var _, how := f.Fputc(266);
    assert f.Total() == [266 % 256];
  }

  datatype Op = Putc(c: int) | Write(data: seq<Byte>) | Flush

  /** The bytes given to the calls, in order. */
  function Given(ops: seq<Op>): seq<Byte>
  {
    if ops == [] then []
    else
      var before := Given(ops[..|ops| - 1]);
      match ops[|ops| - 1]
      case Putc(c) => before + [c % 256]
      case Write(data) => before + data
      case Flush => before
  }

  lemma Prefix(a: seq<Byte>, b: seq<Byte>, head: seq<Byte>, tail: seq<Byte>)
    requires a <= b + head
    ensures a <= b + (head + tail) && a <= b + head + tail
  {
    assert b + (head + tail) == (b + head) + tail;
  }

  lemma Carry(a: seq<Byte>, b: seq<Byte>, tail: seq<Byte>, base: seq<Byte>, head: seq<Byte>)
    requires a + b == base + head
    ensures a + (b + tail) == base + (head + tail)
  {
    assert a + (b + tail) == (a + b) + tail;
  }

  lemma Fewer(i: nat, size: nat, nmemb: nat)
    requires size > 0 && i < size * nmemb
    ensures i / size < nmemb
  {}
}
