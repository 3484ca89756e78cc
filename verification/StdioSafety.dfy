/** Over every interleaving of getc and putc: the invariants of the header hold,
    and no byte is lost, duplicated or reordered on its way out or in. */
module StdioSafety {
  import opened Bytes
  import opened StdioModel

  datatype Op = Put(c: int) | Get

  function Do(s: State, op: Op): Result
    requires Inv(s)
  {
    match op
    case Put(c) => Putc(s, c)
    case Get => Getc(s)
  }

  // -------------------------------------------------------------- invariant

  /** When __swbuf gets to its store: the buffer is full, the stream is
      unbuffered, the byte is a newline on a line-buffered stream, or __swsetup
      has just been called. */
  predicate ReadyToStore(s: State, c: Byte) {
    && s.wr && !s.rd && s.buf != [] && s.p <= |s.buf| && s.r == 0
    && s.lbfsize == (if s.lbf then -|s.buf| else 0)
    && (s.nbf ==> |s.buf| == 1 && (!s.lbf ==> s.p == 0))
    && (s.lbf ==> NEWLINE !in s.buf[..s.p])
    && (|| s.p == |s.buf|
        || (s.nbf && !s.lbf)
        || (s.lbf && (c == NEWLINE || (s.p == 0 && s.w == 0)))
        || (!s.lbf && s.p == 0 && s.w == |s.buf|))
  }

  lemma SetupReady(s: State, c: Byte)
    requires Inv(s) && NeedsSetup(s) && CanSetup(s)
    ensures ReadyToStore(Swsetup(s.(w := s.lbfsize)), c)
  {
  }

  lemma SlowPutReady(s: State, c: int)
    requires Inv(s) && !FastPut(s, c) && !NeedsSetup(s)
    ensures ReadyToStore(s.(w := s.lbfsize), c % 256)
  {
  }

  lemma StoreAndFlushInv(s: State, c: Byte)
    requires ReadyToStore(s, c)
    ensures Inv(StoreAndFlush(s, c).state)
  {
    var full := s.p >= |s.buf|;
    if !full || Flushes(s) {
      var t := if full then Sflush(s) else s;
      var u := t.(w := t.w - 1, buf := t.buf[t.p := c], p := t.p + 1);
      if !(u.p == |u.buf| || (u.lbf && c == NEWLINE)) && u.lbf {
        assert u.p == 1 && u.buf[..u.p] == [c];
      }
    }
  }

  lemma FastPutInv(s: State, c: int)
    requires Inv(s) && FastPut(s, c)
    ensures Inv(Putc(s, c).state)
  {
    FastPutIsSafe(s, c);
    var b: Byte := c % 256;
    assert s.buf[s.p := b][..s.p + 1] == s.buf[..s.p] + [b];
  }

  lemma PutcInv(s: State, c: int)
    requires Inv(s)
    ensures Inv(Putc(s, c).state)
  {
    if FastPut(s, c) {
      FastPutInv(s, c);
    } else if !NeedsSetup(s) {
      SlowPutReady(s, c);
      StoreAndFlushInv(s.(w := s.lbfsize), c % 256);
    } else if CanSetup(s) {
      SetupReady(s, c % 256);
      StoreAndFlushInv(Swsetup(s.(w := s.lbfsize)), c % 256);
    }
  }

  predicate ReadyToFill(s: State) {
    && s.rd && !s.wr && s.w == 0 && s.lbfsize == 0 && s.buf != []
    && (s.nbf ==> |s.buf| == 1)
  }

  lemma StartReadingInv(s: State)
    requires Inv(s) && !FastGet(s)
    ensures var (t, ready) := StartReading(s.(r := s.r - 1));
            if ready then ReadyToFill(t) && t.p <= |t.buf| else Inv(t)
  {
  }

  lemma FillInv(s: State)
    requires ReadyToFill(s)
    ensures var (t, ok) := Fill(s);
            && Inv(t) && |t.buf| == |s.buf| && t.p == 0 && t.rd
            && (ok ==> t.r > 0)
  {
  }

  lemma FillAndTakeInv(s: State)
    requires ReadyToFill(s)
    ensures Inv(FillAndTake(s).state)
  {
    FillInv(s);
  }

  lemma GetcInv(s: State)
    requires Inv(s)
    ensures Inv(Getc(s).state)
  {
    if !FastGet(s) {
      StartReadingInv(s);
      var (t, ready) := StartReading(s.(r := s.r - 1));
      if ready { FillAndTakeInv(t); }
    }
  }

  // ----------------------------------------------------------------- output

  /** Bytes that were put and not yet handed to `_write`. */
  function Pending(s: State): seq<Byte> {
    if s.wr && s.p <= |s.buf| then s.buf[..s.p] else []
  }

  /** Everything put so far: what is flushed, then what is buffered. */
  function Out(s: State): seq<Byte> { s.device.written + Pending(s) }

  /** The byte that a call returned, if it did not return EOF. */
  function Accepted(value: int): seq<Byte> {
    if 0 <= value < 256 then [value] else []
  }

  /** Bytes that `_read` has delivered and getc has not yet returned. */
  function Unread(s: State): seq<Byte> {
    if s.rd && 0 <= s.r && s.p + s.r <= |s.buf| then s.buf[s.p..s.p + s.r] else []
  }

  lemma WrittenSoFar(written: seq<Byte>, data: seq<Byte>, t: nat, kept: nat)
    requires t <= kept <= |data|
    ensures (written + data[..t]) + data[t..][..kept - t] == written + data[..kept]
  {
  }

  /** However many calls of `_write` it takes, a flush hands over a prefix of the
      buffer and loses the rest; it loses nothing exactly when it succeeds. */
  lemma {:induction false} WriteAllSplits(d: Device, data: seq<Byte>)
    ensures var e := WriteAll(d, data);
            && d.lost <= e.lost <= d.lost + |data|
            && e.written == d.written + data[..|data| - (e.lost - d.lost)]
            && e == e.(delivered := d.delivered, skipped := d.skipped, replies := d.replies,
                    blksize := d.blksize, tty := d.tty, noMemory := d.noMemory)
    decreases |data|
  {
    if data == [] {
    } else {
      var t := if d.accepts == [] then |data| else Min(d.accepts[0], |data|);
      var rest := if d.accepts == [] then [] else d.accepts[1..];
      if t > 0 {
        var d1 := d.(accepts := rest, written := d.written + data[..t]);
        WriteAllSplits(d1, data[t..]);
        var kept := |data| - (WriteAll(d, data).lost - d.lost);
        WrittenSoFar(d.written, data, t, kept);
      }
    }
  }

  /** Nothing that was put is missing from `t` or added to it. */
  predicate Conserves(s: State, t: State, added: seq<Byte>) {
    && s.device.lost <= t.device.lost
    && (t.device.lost == s.device.lost ==> Out(t) == Out(s) + added)
  }

  lemma SflushConserves(s: State)
    requires s.p <= |s.buf|
    ensures Conserves(s, Sflush(s), [])
    ensures Flushes(s) <==> Sflush(s).device.lost == s.device.lost
    ensures Sflush(s).device.lost > s.device.lost ==> Pending(s) != []
  {
    if s.wr && s.buf != [] { WriteAllSplits(s.device, s.buf[..s.p]); }
  }

  lemma StoreAndFlushConserves(s: State, c: Byte)
    requires ReadyToStore(s, c)
    ensures var r := StoreAndFlush(s, c);
            && Conserves(s, r.state, Accepted(r.value))
            && (r.value == c || r.value == EOF)
            && (r.value == EOF <==> r.state.device.lost > s.device.lost)
  {
    SflushConserves(s);
    var full := s.p >= |s.buf|;
    if !full || Flushes(s) {
      var t := if full then Sflush(s) else s;
      assert Out(t) == Out(s);
      var u := t.(w := t.w - 1, buf := t.buf[t.p := c], p := t.p + 1);
      assert u.buf[..u.p] == t.buf[..t.p] + [c];
      assert Out(u) == Out(t) + [c];
      SflushConserves(u);
    }
  }

  lemma ConservesTrans(s: State, t: State, u: State, a: seq<Byte>, b: seq<Byte>)
    requires Conserves(s, t, a) && Conserves(t, u, b)
    ensures Conserves(s, u, a + b)
  {
    assert (Out(s) + a) + b == Out(s) + (a + b);
  }

  lemma SetupKeepsOut(s: State)
    requires Inv(s) && NeedsSetup(s) && CanSetup(s)
    ensures Swsetup(s.(w := s.lbfsize)).device == s.device.(skipped := s.device.skipped + |Unread(s)|)
    ensures Pending(Swsetup(s.(w := s.lbfsize))) == Pending(s) == []
  {
  }

  predicate PutOutcome(s: State, c: int, r: Result) {
    && Conserves(s, r.state, Accepted(r.value))
    && (r.value == c % 256 || r.value == EOF)
    && (r.value == EOF <==> !CanSetup(s) || r.state.device.lost > s.device.lost)
  }

  lemma FastPutConserves(s: State, c: int)
    requires Inv(s) && FastPut(s, c)
    ensures PutOutcome(s, c, Putc(s, c))
  {
    FastPutIsSafe(s, c);
    var b: Byte := c % 256;
    assert s.buf[s.p := b][..s.p + 1] == s.buf[..s.p] + [b];
  }

  lemma FullPutConserves(s: State, c: int)
    requires Inv(s) && !FastPut(s, c) && !NeedsSetup(s)
    ensures PutOutcome(s, c, Putc(s, c))
  {
    var t := s.(w := s.lbfsize);
    SlowPutReady(s, c);
    StoreAndFlushConserves(t, c % 256);
    assert Putc(s, c) == StoreAndFlush(t, c % 256);
  }

  lemma SetupPutConserves(s: State, c: int)
    requires Inv(s) && !FastPut(s, c) && NeedsSetup(s) && CanSetup(s)
    ensures PutOutcome(s, c, Putc(s, c))
  {
    var t := Swsetup(s.(w := s.lbfsize));
    SetupReady(s, c % 256);
    SetupKeepsOut(s);
    assert Out(t) == Out(s);
    StoreAndFlushConserves(t, c % 256);
    assert Putc(s, c) == StoreAndFlush(t, c % 256);
  }

  /** A putc that returns its byte has added exactly that byte to the output. It
      returns EOF exactly when the stream cannot be written or bytes were lost. */
  lemma PutcConserves(s: State, c: int)
    requires Inv(s)
    ensures PutOutcome(s, c, Putc(s, c))
  {
    if FastPut(s, c) {
      FastPutConserves(s, c);
    } else if !NeedsSetup(s) {
      FullPutConserves(s, c);
    } else if CanSetup(s) {
      SetupPutConserves(s, c);
    } else {
      assert Putc(s, c) == Result(s.(w := s.lbfsize), EOF);
    }
  }

  lemma StartReadingConserves(s: State)
    requires Inv(s) && !FastGet(s)
    ensures var (t, ready) := StartReading(s.(r := s.r - 1));
            Conserves(s, t, []) && (ready ==> !t.wr)
  {
    SflushConserves(s.(r := 0));
  }

  lemma FillConserves(s: State)
    requires ReadyToFill(s)
    ensures var (t, _) := Fill(s);
            && t.device.written == s.device.written && t.device.lost == s.device.lost && !t.wr
            && t.device.accepts == s.device.accepts && t.rw == s.rw
  {
  }

  /** A getc adds nothing to the output, also when it has to flush it first. */
  lemma GetcConserves(s: State)
    requires Inv(s)
    ensures Conserves(s, Getc(s).state, [])
  {
    if !FastGet(s) {
      StartReadingInv(s);
      StartReadingConserves(s);
      var (t, ready) := StartReading(s.(r := s.r - 1));
      if ready {
        FillInv(t);
        FillConserves(t);
      }
    }
  }

  lemma SflushRewinds(s: State)
    requires s.wr && s.buf != [] && s.p <= |s.buf|
    ensures Sflush(s).p == 0 && Sflush(s).wr && Sflush(s).buf == s.buf && Sflush(s).lbf == s.lbf
  {
  }

  lemma NewlineStored(s: State)
    requires s.wr && s.buf != [] && s.p <= |s.buf| && s.lbf
    ensures StoreAndFlush(s, NEWLINE).state.p == 0
  {
    SflushRewinds(s);
    var t := if s.p < |s.buf| then s else Sflush(s);
    var u := t.(w := t.w - 1, buf := t.buf[t.p := NEWLINE], p := t.p + 1);
    SflushRewinds(u);
    assert StoreThenFlush(t, NEWLINE).state == Sflush(u);
  }

  lemma NewlineOnLine(s: State)
    requires s.wr && s.buf != [] && s.p <= |s.buf|
    ensures StoreAndFlush(s, NEWLINE).state.lbf ==> StoreAndFlush(s, NEWLINE).state.p == 0
  {
    if s.lbf { NewlineStored(s); }
  }

  /** On a line-buffered stream a newline never waits in the buffer. */
  lemma NewlineFlushes(s: State, c: int)
    requires Inv(s) && c % 256 == NEWLINE
    ensures Putc(s, c).value != EOF && Putc(s, c).state.lbf ==> Pending(Putc(s, c).state) == []
  {
    PutcInv(s, c);
    if FastPut(s, c) {
      FastPutIsSafe(s, c);
    } else if !NeedsSetup(s) {
      NewlineOnLine(s.(w := s.lbfsize));
    } else if CanSetup(s) {
      SetupReady(s, NEWLINE);
      NewlineOnLine(Swsetup(s.(w := s.lbfsize)));
    }
  }

  // ------------------------------------------------------------------ input

  /** From `s` to `t`, getc has returned `got`: all that was waiting or came in,
      in order, but for what still waits, unless a switch to write mode has
      dropped input. */
  ghost predicate Reads(s: State, t: State, got: seq<Byte>) {
    && s.device.delivered <= t.device.delivered
    && s.device.skipped <= t.device.skipped
    && (t.device.skipped == s.device.skipped ==>
          Unread(s) + t.device.delivered[|s.device.delivered|..] == got + Unread(t))
  }

  lemma Regroup(x: seq<Byte>, y: seq<Byte>, z: seq<Byte>, a: seq<Byte>, v: seq<Byte>, b: seq<Byte>, w: seq<Byte>)
    requires x + y == a + v && v + z == b + w
    ensures x + (y + z) == (a + b) + w
  {
    assert x + (y + z) == (x + y) + z;
    assert (a + v) + z == a + (v + z);
    assert a + (b + w) == (a + b) + w;
  }

  lemma ReadsTrans(s: State, t: State, u: State, a: seq<Byte>, b: seq<Byte>)
    requires Reads(s, t, a) && Reads(t, u, b)
    ensures Reads(s, u, a + b)
  {
    var m, n, all := |s.device.delivered|, |t.device.delivered|, u.device.delivered;
    assert all[m..] == t.device.delivered[m..] + all[n..];
    if u.device.skipped == s.device.skipped {
      Regroup(Unread(s), t.device.delivered[m..], all[n..], a, Unread(t), b, Unread(u));
    }
  }

  lemma FillReads(s: State)
    requires ReadyToFill(s) && s.p <= |s.buf| && s.r == 0
    ensures var (t, ok) := Fill(s);
            && s.device.delivered <= t.device.delivered && t.device.skipped == s.device.skipped
            && t.device.delivered[|s.device.delivered|..] == Unread(t)
            && (!ok ==> Unread(t) == [])
  {
    FillInv(s);
    var (t, ok) := Fill(s);
    if ok { assert t.buf[..t.r] == t.device.delivered[|s.device.delivered|..]; }
  }

  /** A getc returns the oldest byte that was delivered and not yet returned, or EOF
      exactly when there was none and the device delivered none. */
  ghost predicate GetOutcome(s: State, r: Result) {
    && r.state.device.skipped == s.device.skipped
    && Reads(s, r.state, Accepted(r.value))
    && (r.value == EOF || Accepted(r.value) == [r.value])
    && (r.value == EOF <==> Unread(s) == [] && r.state.device.delivered == s.device.delivered)
  }

  lemma FastGetReads(s: State)
    requires Inv(s) && FastGet(s)
    ensures GetOutcome(s, Getc(s))
  {
    assert s.buf[s.p..s.p + s.r] == [s.buf[s.p]] + s.buf[s.p + 1..s.p + s.r];
    assert s.device.delivered[|s.device.delivered|..] == [];
  }

  lemma TakeFirst(s: State)
    requires Inv(s) && s.rd && s.r > 0
    ensures var t := s.(r := s.r - 1, p := s.p + 1);
            Unread(s) == [s.buf[s.p]] + Unread(t)
  {
  }

  lemma FillAndTakeReads(s: State)
    requires ReadyToFill(s) && s.p <= |s.buf| && s.r == 0
    ensures GetOutcome(s, FillAndTake(s))
  {
    FillInv(s);
    FillReads(s);
    var (t, ok) := Fill(s);
    assert Unread(s) == [];
    if ok { TakeFirst(t); }
  }

  lemma StartReadingDelivers(s: State)
    requires Inv(s) && !FastGet(s)
    ensures var (t, _) := StartReading(s.(r := s.r - 1));
            t.device.delivered == s.device.delivered && t.device.skipped == s.device.skipped && t.r == 0
  {
    var s0 := s.(r := 0);
    if s.wr && s.buf != [] { WriteAllSplits(s0.device, s0.buf[..s0.p]); }
  }

  lemma SlowGetReads(s: State)
    requires Inv(s) && !FastGet(s)
    ensures GetOutcome(s, Getc(s))
  {
    StartReadingInv(s);
    StartReadingDelivers(s);
    var (t, ready) := StartReading(s.(r := s.r - 1));
    assert Unread(s) == [] == Unread(t);
    if ready {
      FillAndTakeReads(t);
    } else {
      assert t.device.delivered[|s.device.delivered|..] == [];
    }
  }

  lemma GetcReads(s: State)
    requires Inv(s)
    ensures GetOutcome(s, Getc(s))
  {
    if FastGet(s) { FastGetReads(s); } else { SlowGetReads(s); }
  }

  lemma SflushKeepsInput(s: State)
    requires s.p <= |s.buf|
    ensures Sflush(s).device.delivered == s.device.delivered && Sflush(s).device.skipped == s.device.skipped
    ensures Sflush(s).rd == s.rd && |Sflush(s).buf| == |s.buf|
  {
    if s.wr && s.buf != [] { WriteAllSplits(s.device, s.buf[..s.p]); }
  }

  lemma StoreAndFlushKeepsInput(s: State, c: Byte)
    requires ReadyToStore(s, c)
    ensures var t := StoreAndFlush(s, c).state;
            t.device.delivered == s.device.delivered && t.device.skipped == s.device.skipped && !t.rd
  {
    SflushKeepsInput(s);
    var t := if s.p < |s.buf| then s else Sflush(s);
    SflushKeepsInput(t.(w := t.w - 1, buf := t.buf[t.p := c], p := t.p + 1));
  }

  /** A putc reads nothing; on a stream in read mode it may drop what is waiting. */
  lemma PutcReads(s: State, c: int)
    requires Inv(s)
    ensures Reads(s, Putc(s, c).state, [])
  {
    assert s.device.delivered[|s.device.delivered|..] == [];
    if FastPut(s, c) {
      FastPutIsSafe(s, c);
    } else if !NeedsSetup(s) {
      SlowPutReady(s, c);
      StoreAndFlushKeepsInput(s.(w := s.lbfsize), c % 256);
    } else if CanSetup(s) {
      SetupReady(s, c % 256);
      SetupKeepsOut(s);
      StoreAndFlushKeepsInput(Swsetup(s.(w := s.lbfsize)), c % 256);
    }
  }

  /** What putc and getc promise, together. */
  lemma PutcPromises(s: State, c: int, r: Result)
    requires Inv(s) && r == Putc(s, c)
    ensures Inv(r.state) && PutOutcome(s, c, r) && Reads(s, r.state, [])
  {
    PutcInv(s, c);
    PutcConserves(s, c);
    PutcReads(s, c);
  }

  lemma GetcPromises(s: State, r: Result)
    requires Inv(s) && r == Getc(s)
    ensures Inv(r.state) && Conserves(s, r.state, []) && GetOutcome(s, r)
  {
    GetcInv(s);
    GetcConserves(s);
    GetcReads(s);
  }

  // ------------------------------------------------------------------- runs

  lemma DoInv(s: State, op: Op)
    requires Inv(s)
    ensures Inv(Do(s, op).state)
  {
    match op
    case Put(c) => PutcInv(s, c);
    case Get => GetcInv(s);
  }

  function Run(s: State, ops: seq<Op>): State
    requires Inv(s)
    decreases |ops|
  {
    if ops == [] then s
    else
      DoInv(s, ops[0]);
      Run(Do(s, ops[0]).state, ops[1..])
  }

  /** The values that the calls of a run return. */
  function Values(s: State, ops: seq<Op>): seq<int>
    requires Inv(s)
    decreases |ops|
  {
    if ops == [] then []
    else
      DoInv(s, ops[0]);
      [Do(s, ops[0]).value] + Values(Do(s, ops[0]).state, ops[1..])
  }

  /** The bytes that the putc's of a run returned. */
  function PutLog(s: State, ops: seq<Op>): seq<Byte>
    requires Inv(s)
    decreases |ops|
  {
    if ops == [] then []
    else
      DoInv(s, ops[0]);
      (if ops[0].Put? then Accepted(Do(s, ops[0]).value) else []) + PutLog(Do(s, ops[0]).state, ops[1..])
  }

  function GetLog(s: State, ops: seq<Op>): seq<Byte>
    requires Inv(s)
    decreases |ops|
  {
    if ops == [] then []
    else
      DoInv(s, ops[0]);
      (if ops[0].Get? then Accepted(Do(s, ops[0]).value) else []) + GetLog(Do(s, ops[0]).state, ops[1..])
  }

  /** After `n` operations of a run the stream is `s`, the calls have returned
      `values`, and these were the bytes `put` and `got`. */
  ghost predicate PartOf(start: State, ops: seq<Op>, n: nat, s: State,
                         values: seq<int>, put: seq<Byte>, got: seq<Byte>)
    requires Inv(start) && n <= |ops|
  {
    && Inv(s) && Run(s, ops[n..]) == Run(start, ops)
    && values + Values(s, ops[n..]) == Values(start, ops)
    && put + PutLog(s, ops[n..]) == PutLog(start, ops)
    && got + GetLog(s, ops[n..]) == GetLog(start, ops)
  }

  lemma Regrouped<T>(a: seq<T>, b: seq<T>, c: seq<T>)
    ensures a + (b + c) == (a + b) + c
  {
  }

  lemma NextPart(start: State, ops: seq<Op>, n: nat, s: State, values: seq<int>, put: seq<Byte>, got: seq<Byte>)
    requires Inv(start) && n < |ops| && PartOf(start, ops, n, s, values, put, got)
    ensures var r := Do(s, ops[n]);
            PartOf(start, ops, n + 1, r.state, values + [r.value],
                   put + (if ops[n].Put? then Accepted(r.value) else []),
                   got + (if ops[n].Get? then Accepted(r.value) else []))
  {
    DoInv(s, ops[n]);
    var r, rest := Do(s, ops[n]), ops[n + 1..];
    assert ops[n..][1..] == rest;
    Regrouped(values, [r.value], Values(r.state, rest));
    Regrouped(put, if ops[n].Put? then Accepted(r.value) else [], PutLog(r.state, rest));
    Regrouped(got, if ops[n].Get? then Accepted(r.value) else [], GetLog(r.state, rest));
  }

  /** For every interleaving of getc and putc, flushed plus buffered bytes are
      exactly the bytes that putc accepted, in order, unless a flush failed. */
  lemma {:induction false} RunConserves(s: State, ops: seq<Op>)
    requires Inv(s)
    ensures Inv(Run(s, ops))
    ensures Conserves(s, Run(s, ops), PutLog(s, ops))
    decreases |ops|
  {
    if ops == [] {
      assert Out(s) + [] == Out(s);
    } else {
      var op := ops[0];
      var t := Do(s, op).state;
      DoInv(s, op);
      if op.Put? { PutcConserves(s, op.c); } else { GetcConserves(s); }
      RunConserves(t, ops[1..]);
      var now := if op.Put? then Accepted(Do(s, op).value) else [];
      ConservesTrans(s, t, Run(t, ops[1..]), now, PutLog(t, ops[1..]));
    }
  }

  /** Over every interleaving, the getc's return what the device delivered, in
      order and complete: what is not returned yet is waiting in the buffer,
      unless a switch to write mode dropped it. */
  lemma {:induction false} RunReads(s: State, ops: seq<Op>)
    requires Inv(s)
    ensures Reads(s, Run(s, ops), GetLog(s, ops))
    decreases |ops|
  {
    if ops == [] {
      assert s.device.delivered[|s.device.delivered|..] == [];
    } else {
      var op := ops[0];
      var t := Do(s, op).state;
      DoInv(s, op);
      if op.Put? { PutcReads(s, op.c); } else { GetcReads(s); }
      RunReads(t, ops[1..]);
      var now := if op.Get? then Accepted(Do(s, op).value) else [];
      ReadsTrans(s, t, Run(t, ops[1..]), now, GetLog(t, ops[1..]));
    }
  }

  lemma GetcSkipsNothing(s: State)
    requires Inv(s)
    ensures Getc(s).state.device.skipped == s.device.skipped
  {
    GetcReads(s);
  }

  /** A stream that is only ever read drops nothing. */
  lemma {:induction false} GettingSkipsNothing(s: State, ops: seq<Op>)
    requires Inv(s) && forall i :: 0 <= i < |ops| ==> ops[i].Get?
    ensures Run(s, ops).device.skipped == s.device.skipped
    decreases |ops|
  {
    if ops == [] {
    } else {
      DoInv(s, Get);
      GetcSkipsNothing(s);
      GettingSkipsNothing(Getc(s).state, ops[1..]);
    }
  }

  // ------------------------------------------------------------------ counts

  /** Bytes that are out, waiting to go out, or lost. */
  function OutTally(s: State): int { |Out(s)| + s.device.lost }

  /** Bytes that getc has returned, counted from the device's side: what it has
      delivered less what is waiting and what was dropped. */
  function InTally(s: State): int { |s.device.delivered| - |Unread(s)| - s.device.skipped }

  /** putc gets as far as storing its byte: the stream can be written, and a flush
      that has to come first succeeds. */
  predicate Takes(s: State, c: int) {
    CanSetup(s) && (FastPut(s, c) || NeedsSetup(s) || s.p < |s.buf| || Flushes(s))
  }

  lemma SflushTally(s: State)
    requires s.p <= |s.buf|
    ensures OutTally(Sflush(s)) == OutTally(s)
  {
    if s.wr && s.buf != [] { WriteAllSplits(s.device, s.buf[..s.p]); }
  }

  lemma StoreThenFlushTally(s: State, c: Byte)
    requires s.wr && s.p < |s.buf|
    ensures OutTally(StoreThenFlush(s, c).state) == OutTally(s) + 1
  {
    SflushTally(s.(w := s.w - 1, buf := s.buf[s.p := c], p := s.p + 1));
  }

  lemma StoreAndFlushTally(s: State, c: Byte)
    requires ReadyToStore(s, c)
    ensures OutTally(StoreAndFlush(s, c).state) == OutTally(s) + if s.p < |s.buf| || Flushes(s) then 1 else 0
  {
    if s.p < |s.buf| {
      StoreThenFlushTally(s, c);
    } else {
      SflushTally(s);
      SflushRewinds(s);
      if Flushes(s) { StoreThenFlushTally(Sflush(s), c); }
    }
  }

  lemma SetupRewinds(s: State)
    requires Inv(s) && NeedsSetup(s) && CanSetup(s)
    ensures Swsetup(s.(w := s.lbfsize)).p < |Swsetup(s.(w := s.lbfsize)).buf|
  {
  }

  lemma FullPutTakes(s: State, c: int)
    requires Inv(s) && !FastPut(s, c) && !NeedsSetup(s)
    ensures Putc(s, c).value != EOF ==> Takes(s, c)
  {
    assert Putc(s, c) == StoreAndFlush(s.(w := s.lbfsize), c % 256);
  }

  lemma PutcTally(s: State, c: int)
    requires Inv(s)
    ensures OutTally(Putc(s, c).state) == OutTally(s) + if Takes(s, c) then 1 else 0
    ensures Putc(s, c).value != EOF ==> Takes(s, c)
  {
    PutcConserves(s, c);
    if FastPut(s, c) {
      FastPutIsSafe(s, c);
    } else if !NeedsSetup(s) {
      SlowPutReady(s, c);
      StoreAndFlushTally(s.(w := s.lbfsize), c % 256);
      FullPutTakes(s, c);
    } else if CanSetup(s) {
      SetupReady(s, c % 256);
      SetupKeepsOut(s);
      SetupRewinds(s);
      StoreAndFlushTally(Swsetup(s.(w := s.lbfsize)), c % 256);
    }
  }

  lemma StartReadingTally(s: State)
    requires Inv(s) && !FastGet(s)
    ensures var (t, ready) := StartReading(s.(r := s.r - 1));
            OutTally(t) == OutTally(s) && (ready ==> !t.wr)
  {
    SflushTally(s.(r := 0));
  }

  lemma GetcTally(s: State)
    requires Inv(s)
    ensures OutTally(Getc(s).state) == OutTally(s)
  {
    if !FastGet(s) {
      StartReadingInv(s);
      SflushTally(s.(r := 0));
      StartReadingTally(s);
      var (t, ready) := StartReading(s.(r := s.r - 1));
      if ready {
        FillInv(t);
        FillConserves(t);
      }
    }
  }

  lemma PutcInTally(s: State, c: int)
    requires Inv(s)
    ensures InTally(Putc(s, c).state) == InTally(s)
  {
    if FastPut(s, c) {
      FastPutIsSafe(s, c);
    } else if !NeedsSetup(s) {
      SlowPutReady(s, c);
      StoreAndFlushKeepsInput(s.(w := s.lbfsize), c % 256);
    } else if CanSetup(s) {
      SetupReady(s, c % 256);
      SetupKeepsOut(s);
      StoreAndFlushKeepsInput(Swsetup(s.(w := s.lbfsize)), c % 256);
    }
  }

  lemma GetcInTally(s: State)
    requires Inv(s)
    ensures InTally(Getc(s).state) == InTally(s) + |Accepted(Getc(s).value)|
  {
    GetcReads(s);
    GetcSkipsNothing(s);
  }

  /** The putc's of a run that stored their byte and then lost it in a flush, so that
      they returned EOF. */
  function LostPuts(s: State, ops: seq<Op>): nat
    requires Inv(s)
    decreases |ops|
  {
    if ops == [] then 0
    else
      DoInv(s, ops[0]);
      (if ops[0].Put? && Takes(s, ops[0].c) && Putc(s, ops[0].c).value == EOF then 1 else 0)
      + LostPuts(Do(s, ops[0]).state, ops[1..])
  }

  lemma PutcAccepts(s: State, c: int)
    requires Inv(s)
    ensures |Accepted(Putc(s, c).value)| == if Putc(s, c).value == EOF then 0 else 1
  {
    PutcConserves(s, c);
  }

  /** Over every interleaving, failed flushes and mode switches included: the bytes
      that putc accepted, and those it took and lost at once, are out, waiting or
      lost; and the bytes that were delivered have been returned, dropped or are
      waiting. */
  lemma {:induction false} RunCounts(s: State, ops: seq<Op>)
    requires Inv(s)
    ensures OutTally(Run(s, ops)) == OutTally(s) + |PutLog(s, ops)| + LostPuts(s, ops)
    ensures InTally(Run(s, ops)) == InTally(s) + |GetLog(s, ops)|
    decreases |ops|
  {
    if ops == [] {
    } else {
      var op := ops[0];
      DoInv(s, op);
      match op {
        case Put(c) =>
          PutcTally(s, c);
          PutcInTally(s, c);
          PutcAccepts(s, c);
        case Get =>
          GetcTally(s);
          GetcInTally(s);
      }
      RunCounts(Do(s, op).state, ops[1..]);
    }
  }
}
