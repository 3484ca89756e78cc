/** What the device decides: which bytes a flush hands over, which bytes a getc
    returns, and when either fails, in terms of the answers of `_write` and `_read`
    alone. */
module StdioDevice {
  import opened Bytes
  import opened StdioModel
  import opened StdioSafety

  // ----------------------------------------------------------------- writing

  function Sum(a: seq<nat>): nat {
    if a == [] then 0 else a[0] + Sum(a[1..])
  }

  /** The first call of `_write` that is refused; all of them are accepted if there is
      none. */
  function FirstRefusal(accepts: seq<nat>): (k: nat)
    ensures k <= |accepts|
    ensures forall i :: 0 <= i < k ==> accepts[i] > 0
    ensures k < |accepts| ==> accepts[k] == 0
  {
    if accepts == [] || accepts[0] == 0 then 0 else 1 + FirstRefusal(accepts[1..])
  }

  /** How many of `n` bytes the device takes: all of them, unless a call is refused
      before the calls so far have taken them. */
  function Taken(accepts: seq<nat>, n: nat): (t: nat)
    ensures t <= n
  {
    var k := FirstRefusal(accepts);
    if k == |accepts| then n else Min(n, Sum(accepts[..k]))
  }

  /** `m` calls are as many as it takes to send `n` bytes, or to be refused. */
  predicate Calls(accepts: seq<nat>, n: nat, m: nat)
    requires m <= |accepts|
  {
    if Taken(accepts, n) < n then m == FirstRefusal(accepts) + 1
    else (m == |accepts| || Sum(accepts[..m]) >= n) && (m > 0 ==> Sum(accepts[..m - 1]) < n)
  }

  /** The device after an attempt to send `data`. */
  predicate Wrote(d: Device, e: Device, data: seq<Byte>) {
    var n := Taken(d.accepts, |data|);
    && e == d.(written := d.written + data[..n], lost := d.lost + |data| - n, accepts := e.accepts)
    && |e.accepts| <= |d.accepts|
    && var m := |d.accepts| - |e.accepts|;
    e.accepts == d.accepts[m..] && Calls(d.accepts, |data|, m)
  }

  lemma SumOfPrefix(a: seq<nat>, m: nat)
    requires 0 < m <= |a|
    ensures Sum(a[..m]) == a[0] + Sum(a[1..][..m - 1])
  {
    assert a[..m][1..] == a[1..][..m - 1];
  }

  lemma TakenOneMore(accepts: seq<nat>, n: nat)
    requires accepts != [] && 0 < accepts[0]
    ensures Taken(accepts, n) == if n <= accepts[0] then n else accepts[0] + Taken(accepts[1..], n - accepts[0])
  {
    var k := FirstRefusal(accepts);
    if k < |accepts| { SumOfPrefix(accepts, k); }
  }

  lemma CallsOneMore(accepts: seq<nat>, n: nat, m: nat)
    requires accepts != [] && 0 < accepts[0] < n && m <= |accepts[1..]|
    requires Calls(accepts[1..], n - accepts[0], m)
    ensures Calls(accepts, n, m + 1)
  {
    TakenOneMore(accepts, n);
    SumOfPrefix(accepts, m + 1);
    if m > 0 { SumOfPrefix(accepts, m); }
  }

  lemma WroteNothing(d: Device, data: seq<Byte>)
    requires data != [] && d.accepts != [] && d.accepts[0] == 0
    ensures Wrote(d, d.(accepts := d.accepts[1..], lost := d.lost + |data|), data)
  {
    assert d.accepts[..0] == [] && data[..0] == [];
  }

  lemma WroteAtOnce(d: Device, data: seq<Byte>)
    requires d.accepts == [] || 0 < |data| <= d.accepts[0]
    ensures var rest := if d.accepts == [] then [] else d.accepts[1..];
            Wrote(d, d.(accepts := rest, written := d.written + data), data)
  {
    assert data[..|data|] == data;
    if d.accepts != [] {
      TakenOneMore(d.accepts, |data|);
      SumOfPrefix(d.accepts, 1);
    }
  }

  lemma WroteInParts(d: Device, d1: Device, e: Device, data: seq<Byte>)
    requires d.accepts != [] && 0 < d.accepts[0] < |data|
    requires d1 == d.(accepts := d.accepts[1..], written := d.written + data[..d.accepts[0]])
    requires Wrote(d1, e, data[d.accepts[0]..])
    ensures Wrote(d, e, data)
  {
    var t, n, m := d.accepts[0], Taken(d.accepts, |data|), |d1.accepts| - |e.accepts|;
    var rest := data[t..];
    assert |rest| == |data| - t && e.accepts == d1.accepts[m..];
    TakenOneMore(d.accepts, |data|);
    assert n == t + Taken(d1.accepts, |rest|);
    WrittenSoFar(d.written, data, t, n);
    assert e == d.(written := d.written + data[..n], lost := d.lost + |data| - n, accepts := e.accepts);
    CallsOneMore(d.accepts, |data|, m);
    assert d.accepts[m + 1..] == d1.accepts[m..];
  }

  /** However the writes are cut up, a flush sends exactly what the device takes: all
      of it, unless a call is refused before that. */
  lemma {:induction false} WritesExactly(d: Device, data: seq<Byte>)
    ensures Wrote(d, WriteAll(d, data), data)
    decreases |data|
  {
    if data == [] {
      assert Sum(d.accepts[..0]) == 0;
    } else if d.accepts == [] || d.accepts[0] >= |data| {
      WroteAtOnce(d, data);
      assert data[|data|..] == [] && data[..|data|] == data;
    } else if d.accepts[0] == 0 {
      WroteNothing(d, data);
    } else {
      var d1 := d.(accepts := d.accepts[1..], written := d.written + data[..d.accepts[0]]);
      WritesExactly(d1, data[d.accepts[0]..]);
      WroteInParts(d, d1, WriteAll(d, data), data);
    }
  }

  /** A device that refuses no call takes everything. */
  predicate Willing(d: Device) { forall i :: 0 <= i < |d.accepts| ==> d.accepts[i] > 0 }

  lemma WillingTakesAll(d: Device, e: Device, data: seq<Byte>)
    requires Willing(d) && Wrote(d, e, data)
    ensures Willing(e) && e.lost == d.lost && e.written == d.written + data
  {
    assert data[..|data|] == data;
  }

  /** A flush sends what is pending, and fails exactly when the device does not take
      all of it. */
  lemma FlushExactly(s: State)
    requires s.p <= |s.buf|
    ensures Wrote(s.device, Sflush(s).device, Pending(s))
    ensures Flushes(s) <==> Taken(s.device.accepts, |Pending(s)|) == |Pending(s)|
    ensures Sflush(s).err <==> s.err || !Flushes(s)
    ensures s.wr && s.buf != [] ==> Pending(Sflush(s)) == []
  {
    WritesExactly(s.device, Pending(s));
  }

  /** What fflush promises, on any stream. */
  lemma FlushPromises(s: State)
    requires Inv(s)
    ensures Inv(Sflush(s)) && Pending(Sflush(s)) == [] && Wrote(s.device, Sflush(s).device, Pending(s))
    ensures !CanSetup(s) ==> Sflush(s) == s
    ensures Flushes(s) <==> Sflush(s).device.lost == s.device.lost
    ensures Sflush(s).device.lost >= s.device.lost
  {
    FlushExactly(s);
    SflushConserves(s);
  }

  // ----------------------------------------------------------------- reading

  /** The size of the buffer, or of the one that will be made. */
  function Capacity(s: State): nat {
    if s.buf != [] then |s.buf|
    else if s.nbf || s.device.noMemory then 1
    else if s.device.blksize <= 0 then 1024
    else s.device.blksize
  }

  /** Leaving write mode is refused by the device. */
  predicate FlushRefused(s: State) {
    !s.eof && !s.rd && s.rw && s.wr && Taken(s.device.accepts, |Pending(s)|) < |Pending(s)|
  }

  /** getc may ask the device for more: there was no end of file, and the stream is in
      read mode or can be put into it. */
  predicate CanRead(s: State) {
    !s.eof && (s.rd || s.rw) && !FlushRefused(s)
  }

  /** The answer of the next call of `_read`. */
  function Answer(d: Device): Reply {
    if d.replies == [] then EndOfFile
    else if d.replies[0] == Bytes([]) then EndOfFile
    else d.replies[0]
  }

  function Rest(replies: seq<Reply>): seq<Reply> {
    if replies == [] then [] else replies[1..]
  }

  /** What a getc that asks the device makes of its answer. */
  predicate Asked(s: State, r: Result) {
    var d, e, t := s.device, r.state.device, r.state;
    && e.replies == Rest(d.replies) && t.rd && !t.wr
    && match Answer(d)
       case Bytes(data) =>
         && data != [] && r.value == data[0]
         && var n := Min(|data|, Capacity(s));
         && n > 0 && e.delivered == d.delivered + data[..n] && Unread(t) == data[1..n]
         && t.eof == s.eof && t.err == s.err
       case EndOfFile => r.value == EOF && e.delivered == d.delivered && t.eof && t.err == s.err
       case Failure => r.value == EOF && e.delivered == d.delivered && t.eof == s.eof && t.err
  }

  /** What a getc returns: a byte that is waiting, or what the device answers. */
  predicate GetAnswer(s: State, r: Result) {
    if Unread(s) == [] && CanRead(s) then Asked(s, r)
    else
      && r.value == (if Unread(s) != [] then Unread(s)[0] else EOF)
      && r.state.device.delivered == s.device.delivered && r.state.device.replies == s.device.replies
      && r.state.eof == s.eof && (r.state.err <==> s.err || (Unread(s) == [] && FlushRefused(s)))
  }

  /** What a flush and what making a buffer leave alone. */
  predicate SameSource(s: State, t: State) {
    && t.device.replies == s.device.replies && t.device.delivered == s.device.delivered
    && Capacity(t) == Capacity(s)
  }

  lemma FlushSource(s: State)
    requires s.p <= |s.buf|
    ensures SameSource(s, Sflush(s)) && Sflush(s).buf == s.buf && Sflush(s).eof == s.eof
    ensures Flushes(s) <==> Taken(s.device.accepts, |Pending(s)|) == |Pending(s)|
    ensures Sflush(s).err <==> s.err || !Flushes(s)
  {
    FlushExactly(s);
  }

  lemma BufferMade(s: State)
    requires s.buf == []
    ensures SameSource(s, Smakebuf(s)) && |Smakebuf(s).buf| == Capacity(s)
    ensures Smakebuf(s).err == s.err && Smakebuf(s).eof == s.eof
  {
  }

  lemma StartReadingAnswers(s: State)
    requires Inv(s) && !FastGet(s)
    ensures var (t, ready) := StartReading(s.(r := s.r - 1));
            && (ready <==> CanRead(s)) && (ready ==> |t.buf| == Capacity(s))
            && SameSource(s, t) && t.eof == s.eof && (t.err <==> s.err || FlushRefused(s))
  {
    var s0 := s.(r := 0);
    FlushSource(s0);
    assert Pending(s0) == Pending(s);
    var s1 := if !s0.rd && s0.wr then Sflush(s0).(wr := false, w := 0, lbfsize := 0) else s0;
    assert SameSource(s, s1);
    var s2 := s1.(rd := true);
    if s2.buf == [] { BufferMade(s2); }
  }

  lemma FillFails(s: State)
    requires ReadyToFill(s) && s.p <= |s.buf| && s.r == 0 && !s.eof && !Answer(s.device).Bytes?
    ensures Asked(s, FillAndTake(s)) && Capacity(FillAndTake(s).state) == Capacity(s)
  {
  }

  lemma FillGives(s: State)
    requires ReadyToFill(s) && s.p <= |s.buf| && s.r == 0 && !s.eof && Answer(s.device).Bytes?
    ensures Asked(s, FillAndTake(s)) && Capacity(FillAndTake(s).state) == Capacity(s)
  {
    FillInv(s);
    var (t, ok) := Fill(s);
    TakeFirst(t);
    var got := s.device.replies[0].data[..Min(|s.device.replies[0].data|, |s.buf|)];
    assert Unread(t) == got;
  }

  /** getc returns the bytes that the device answers with, one after the other; it
      asks only when none is waiting, and it fails exactly when it may not ask, or the
      answer is end of file or an error. */
  lemma GetcAnswers(s: State)
    requires Inv(s)
    ensures GetAnswer(s, Getc(s)) && Capacity(Getc(s).state) == Capacity(s)
  {
    if !FastGet(s) {
      StartReadingInv(s);
      StartReadingDelivers(s);
      StartReadingAnswers(s);
      var (t, ready) := StartReading(s.(r := s.r - 1));
      if ready {
        if Answer(t.device).Bytes? { FillGives(t); } else { FillFails(t); }
      }
    }
  }

  // ------------------------------------------------- what putc leaves alone

  lemma StoreThenFlushSource(s: State, c: Byte)
    requires s.p < |s.buf|
    ensures SameSource(s, StoreThenFlush(s, c).state)
  {
    FlushSource(s.(w := s.w - 1, buf := s.buf[s.p := c], p := s.p + 1));
  }

  lemma StoreAndFlushSource(s: State, c: Byte)
    requires ReadyToStore(s, c)
    ensures SameSource(s, StoreAndFlush(s, c).state)
  {
    if s.p < |s.buf| {
      StoreThenFlushSource(s, c);
    } else {
      FlushSource(s);
      SflushRewinds(s);
      StoreThenFlushSource(Sflush(s), c);
    }
  }

  lemma SetupSource(s: State)
    requires Inv(s) && NeedsSetup(s) && CanSetup(s)
    ensures SameSource(s, Swsetup(s.(w := s.lbfsize)))
  {
    var t := EnterWriteMode(s.(w := s.lbfsize));
    assert SameSource(s, t);
    if t.buf == [] { BufferMade(t); }
  }

  lemma PutcSource(s: State, c: int)
    requires Inv(s)
    ensures SameSource(s, Putc(s, c).state)
  {
    if FastPut(s, c) {
      FastPutIsSafe(s, c);
    } else if !NeedsSetup(s) {
      SlowPutReady(s, c);
      StoreAndFlushSource(s.(w := s.lbfsize), c % 256);
    } else if CanSetup(s) {
      SetupReady(s, c % 256);
      SetupSource(s);
      StoreAndFlushSource(Swsetup(s.(w := s.lbfsize)), c % 256);
    }
  }

  // -------------------------------------------------------- input over a run

  /** What arrives of the answers of `_read`: of each as much as fits the buffer. */
  function Fitted(replies: seq<Reply>, capacity: nat): seq<Byte> {
    if replies == [] then []
    else
      (if replies[0].Bytes? then replies[0].data[..Min(|replies[0].data|, capacity)] else [])
      + Fitted(replies[1..], capacity)
  }

  lemma {:induction false} FittedInParts(a: seq<Reply>, b: seq<Reply>, capacity: nat)
    ensures Fitted(a + b, capacity) == Fitted(a, capacity) + Fitted(b, capacity)
    decreases |a|
  {
    if a == [] {
      assert a + b == b;
    } else {
      assert (a + b)[1..] == a[1..] + b;
      FittedInParts(a[1..], b, capacity);
    }
  }

  /** From `s` to `t` the device has given some of its answers, and what was delivered
      is what fits of them. */
  predicate Delivers(s: State, t: State) {
    && Capacity(t) == Capacity(s) && |t.device.replies| <= |s.device.replies|
    && var n := |s.device.replies| - |t.device.replies|;
    && t.device.replies == s.device.replies[n..]
    && t.device.delivered == s.device.delivered + Fitted(s.device.replies[..n], Capacity(s))
  }

  lemma RestOfRest<T>(r: seq<T>, m: nat, n: nat)
    requires m <= n <= |r|
    ensures r[m..][n - m..] == r[n..] && r[..n] == r[..m] + r[m..][..n - m]
  {
  }

  lemma DeliversTrans(s: State, t: State, u: State)
    requires Delivers(s, t) && Delivers(t, u)
    ensures Delivers(s, u)
  {
    var r, size := s.device.replies, Capacity(s);
    var m, n := |r| - |t.device.replies|, |r| - |u.device.replies|;
    var more := t.device.replies[..n - m];
    RestOfRest(r, m, n);
    FittedInParts(r[..m], more, size);
    Regrouped(s.device.delivered, Fitted(r[..m], size), Fitted(more, size));
  }

  lemma FittedOne(reply: Reply, capacity: nat)
    ensures Fitted([reply], capacity) == if reply.Bytes? then reply.data[..Min(|reply.data|, capacity)] else []
  {
    assert [reply][1..] == [];
  }

  lemma AnswerDelivers(s: State, r: Result)
    requires GetAnswer(s, r) && Capacity(r.state) == Capacity(s)
    ensures Delivers(s, r.state)
  {
    var replies := s.device.replies;
    if Unread(s) == [] && CanRead(s) && replies != [] {
      assert replies[..1] == [replies[0]];
      FittedOne(replies[0], Capacity(s));
    } else {
      assert replies[..0] == [];
    }
  }

  lemma GetcDelivers(s: State)
    requires Inv(s)
    ensures Delivers(s, Getc(s).state)
  {
    GetcAnswers(s);
    AnswerDelivers(s, Getc(s));
  }

  /** Over every interleaving of getc and putc, the bytes delivered are those that fit
      the buffer of the answers that the device has given, in order. */
  lemma {:induction false} RunDelivers(s: State, ops: seq<Op>)
    requires Inv(s)
    ensures Delivers(s, Run(s, ops))
    decreases |ops|
  {
    if ops == [] {
      assert s.device.replies[..0] == [];
    } else {
      var t := Do(s, ops[0]).state;
      DoInv(s, ops[0]);
      match ops[0] {
        case Put(c) =>
          PutcSource(s, c);
          assert s.device.replies[..0] == [];
        case Get => GetcDelivers(s);
      }
      RunDelivers(t, ops[1..]);
      DeliversTrans(s, t, Run(t, ops[1..]));
    }
  }

  /** So a stream that is only read returns the bytes of the answers, in order; the
      last of them may still be waiting. */
  lemma GettingReturnsAnswers(s: State, ops: seq<Op>)
    requires Inv(s) && forall i :: 0 <= i < |ops| ==> ops[i].Get?
    ensures var t := Run(s, ops);
            && |t.device.replies| <= |s.device.replies|
            && var given := s.device.replies[..|s.device.replies| - |t.device.replies|];
            GetLog(s, ops) + Unread(t) == Unread(s) + Fitted(given, Capacity(s))
  {
    RunReads(s, ops);
    GettingSkipsNothing(s, ops);
    RunDelivers(s, ops);
    var t := Run(s, ops);
    var given := s.device.replies[..|s.device.replies| - |t.device.replies|];
    assert t.device.delivered[|s.device.delivered|..] == Fitted(given, Capacity(s));
  }

  // -------------------------------------------------------- output over a run

  lemma FlushWilling(s: State)
    requires s.p <= |s.buf| && Willing(s.device)
    ensures Flushes(s) && Willing(Sflush(s).device) && Sflush(s).device.lost == s.device.lost
  {
    FlushExactly(s);
    WillingTakesAll(s.device, Sflush(s).device, Pending(s));
  }

  lemma StoreAndFlushWilling(s: State, c: Byte)
    requires ReadyToStore(s, c) && Willing(s.device)
    ensures var t := StoreAndFlush(s, c).state;
            Willing(t.device) && t.device.lost == s.device.lost
  {
    FlushWilling(s);
    SflushRewinds(s);
    var t := if s.p < |s.buf| then s else Sflush(s);
    FlushWilling(t.(w := t.w - 1, buf := t.buf[t.p := c], p := t.p + 1));
  }

  /** On a stream that can be written, and whose device refuses no call, putc always
      returns its byte. */
  lemma PutcSucceeds(s: State, c: int)
    requires Inv(s) && Willing(s.device)
    ensures var r := Putc(s, c);
            && Willing(r.state.device) && r.state.device.lost == s.device.lost
            && r.value == if CanSetup(s) then c % 256 else EOF
  {
    PutcConserves(s, c);
    if FastPut(s, c) {
      FastPutIsSafe(s, c);
    } else if !NeedsSetup(s) {
      SlowPutReady(s, c);
      StoreAndFlushWilling(s.(w := s.lbfsize), c % 256);
    } else if CanSetup(s) {
      SetupReady(s, c % 256);
      SetupKeepsOut(s);
      StoreAndFlushWilling(Swsetup(s.(w := s.lbfsize)), c % 256);
    }
  }

  lemma StoreStaysWritable(s: State, c: Byte)
    requires s.wr && s.buf != [] && s.p <= |s.buf|
    ensures StoreAndFlush(s, c).state.wr
  {
    SflushRewinds(s);
    var t := if s.p < |s.buf| then s else Sflush(s);
    SflushRewinds(t.(w := t.w - 1, buf := t.buf[t.p := c], p := t.p + 1));
    assert StoreThenFlush(t, c).state.wr;
  }

  lemma PutcStaysWritable(s: State, c: int)
    requires Inv(s) && CanSetup(s)
    ensures CanSetup(Putc(s, c).state)
  {
    if FastPut(s, c) {
      FastPutIsSafe(s, c);
    } else if !NeedsSetup(s) {
      StoreStaysWritable(s.(w := s.lbfsize), c % 256);
    } else {
      SetupReady(s, c % 256);
      StoreStaysWritable(Swsetup(s.(w := s.lbfsize)), c % 256);
    }
  }

  lemma FillAndTakeWilling(s: State)
    requires ReadyToFill(s) && Willing(s.device)
    ensures var t := FillAndTake(s).state;
            Willing(t.device) && t.device.lost == s.device.lost && t.rw == s.rw && !t.wr
  {
    FillConserves(s);
  }

  lemma GetcWilling(s: State)
    requires Inv(s) && Willing(s.device)
    ensures var t := Getc(s).state;
            Willing(t.device) && t.device.lost == s.device.lost && CanSetup(t) == CanSetup(s)
  {
    if !FastGet(s) {
      FlushWilling(s.(r := 0));
      StartReadingInv(s);
      var (t, ready) := StartReading(s.(r := s.r - 1));
      assert Willing(t.device) && t.device.lost == s.device.lost && CanSetup(t) == CanSetup(s);
      assert ready ==> !t.wr;
      if ready { FillAndTakeWilling(t); }
    }
  }

  /** The bytes that a run asks putc to put. */
  function Asking(ops: seq<Op>): seq<Byte> {
    if ops == [] then []
    else (if ops[0].Put? then [(ops[0].c % 256) as Byte] else []) + Asking(ops[1..])
  }

  /** If the device refuses no call, all the bytes of a run are out or waiting, in
      order, whatever is read in between and however the writes are cut up. */
  lemma {:induction false} RunWritesAll(s: State, ops: seq<Op>)
    requires Inv(s) && Willing(s.device) && CanSetup(s)
    ensures PutLog(s, ops) == Asking(ops)
    ensures Run(s, ops).device.lost == s.device.lost
    ensures Out(Run(s, ops)) == Out(s) + Asking(ops)
    decreases |ops|
  {
    RunConserves(s, ops);
    if ops == [] {
    } else {
      DoInv(s, ops[0]);
      match ops[0] {
        case Put(c) =>
          PutcSucceeds(s, c);
          PutcStaysWritable(s, c);
        case Get => GetcWilling(s);
      }
      RunWritesAll(Do(s, ops[0]).state, ops[1..]);
    }
  }

  // ------------------------------------------------------ when putc writes

  /** A putc that has to flush: the stream is unbuffered, or the byte ends a line of a
      line-buffered stream. */
  predicate Urgent(s: State, c: int) { if s.lbf then c % 256 == NEWLINE else s.nbf }

  /** While there is room, putc only stores its byte. */
  lemma PutcBuffers(s: State, c: int)
    requires Inv(s) && !NeedsSetup(s) && s.p < |s.buf| && !Urgent(s, c)
    ensures var r := Putc(s, c);
            r.value == c % 256 && r.state.device == s.device && Pending(r.state) == Pending(s) + [c % 256]
  {
    assert FastPut(s, c);
    FastPutIsSafe(s, c);
  }

  lemma StoreSends(s: State, c: Byte)
    requires s.wr && s.p < |s.buf| && (s.p + 1 == |s.buf| || (s.lbf && c == NEWLINE))
    ensures var r := StoreThenFlush(s, c);
            && Wrote(s.device, r.state.device, Pending(s) + [c]) && Pending(r.state) == []
            && r.value == if r.state.device.lost == s.device.lost then c else EOF
  {
    var u := s.(w := s.w - 1, buf := s.buf[s.p := c], p := s.p + 1);
    assert Pending(u) == Pending(s) + [c];
    FlushExactly(u);
    SflushRewinds(u);
    SflushConserves(u);
  }

  lemma StoreKeeps(s: State, c: Byte)
    requires s.wr && s.p < |s.buf| && s.p + 1 != |s.buf| && !(s.lbf && c == NEWLINE)
    ensures var r := StoreThenFlush(s, c);
            r.state.device == s.device && Pending(r.state) == Pending(s) + [c] && r.value == c
  {
  }

  /** If there is need to, putc sends everything, its own byte last. */
  lemma PutcSends(s: State, c: int)
    requires Inv(s) && !NeedsSetup(s) && s.p < |s.buf| && Urgent(s, c)
    ensures var r := Putc(s, c);
            && Wrote(s.device, r.state.device, Pending(s) + [c % 256]) && Pending(r.state) == []
            && r.value == if r.state.device.lost == s.device.lost then c % 256 else EOF
  {
    assert !FastPut(s, c);
    StoreSends(s.(w := s.lbfsize), c % 256);
  }

  /** What follows a flush that left the device as `e`. */
  predicate RoomMadeBy(s: State, e: Device, c: int, r: Result) {
    if e.lost > s.device.lost then
      r.value == EOF && r.state.device == e && Pending(r.state) == []
    else if |s.buf| == 1 || (s.lbf && c % 256 == NEWLINE) then
      && Wrote(e, r.state.device, [c % 256]) && Pending(r.state) == []
      && r.value == if r.state.device.lost == e.lost then c % 256 else EOF
    else
      r.value == c % 256 && r.state.device == e && Pending(r.state) == [c % 256]
  }

  lemma StoreAfterFlush(s: State, c: Byte)
    requires s.wr && s.buf != [] && s.p == |s.buf|
    ensures RoomMadeBy(s, Sflush(s).device, c, StoreAndFlush(s, c))
  {
    SflushRewinds(s);
    SflushConserves(s);
    if Flushes(s) {
      var u := Sflush(s);
      assert Pending(u) == [] && [] + [c] == [c];
      if u.p + 1 == |u.buf| || (u.lbf && c == NEWLINE) { StoreSends(u, c); } else { StoreKeeps(u, c); }
    }
  }

  lemma FullPutIs(s: State, c: int)
    requires Inv(s) && !NeedsSetup(s) && s.p == |s.buf|
    ensures Putc(s, c) == StoreAndFlush(s.(w := s.lbfsize), c % 256)
  {
    assert !FastPut(s, c);
  }

  /** When the buffer is full, putc sends what is in it first; if the device does not
      take that, the byte is not put. */
  lemma PutcMakesRoom(s: State, c: int)
    requires Inv(s) && !NeedsSetup(s) && s.p == |s.buf|
    ensures exists e :: Wrote(s.device, e, Pending(s)) && RoomMadeBy(s, e, c, Putc(s, c))
  {
    var t := s.(w := s.lbfsize);
    var e := Sflush(t).device;
    FullPutIs(s, c);
    FlushExactly(t);
    assert Wrote(s.device, e, Pending(s));
    StoreAfterFlush(t, c % 256);
    assert RoomMadeBy(s, e, c, Putc(s, c));
  }

  lemma SetupShape(s: State)
    requires Inv(s) && s.buf == [] && CanSetup(s)
    ensures var t := Swsetup(s.(w := s.lbfsize));
            && |t.buf| == Capacity(s) && t.p == 0 && t.nbf == (s.nbf || s.device.noMemory)
            && t.lbf == (s.lbf || (s.device.tty && !s.nbf && !s.device.noMemory))
  {
    BufferMade(EnterWriteMode(s.(w := s.lbfsize)));
  }

  lemma StoreKeepsShape(s: State, c: Byte)
    requires s.p < |s.buf|
    ensures var t := StoreThenFlush(s, c).state;
            |t.buf| == |s.buf| && t.lbf == s.lbf && t.nbf == s.nbf
  {
  }

  lemma FirstPutIs(s: State, c: int)
    requires Inv(s) && s.buf == [] && CanSetup(s)
    ensures var t := Swsetup(s.(w := s.lbfsize));
            && t.wr && t.p < |t.buf| && t.device == s.device && Pending(t) == []
            && Putc(s, c) == StoreThenFlush(t, c % 256)
  {
    SetupReady(s, c % 256);
    SetupKeepsOut(s);
    SetupRewinds(s);
    assert !FastPut(s, c);
  }

  /** The first putc makes the buffer, and makes a terminal line buffered: a newline
      goes out at once, any other byte waits, if the buffer has room for more. */
  lemma FirstPut(s: State, c: int)
    requires Inv(s) && s.buf == [] && CanSetup(s)
    ensures var r, b := Putc(s, c), c % 256;
            && |r.state.buf| == Capacity(s) && r.state.nbf == (s.nbf || s.device.noMemory)
            && r.state.lbf == (s.lbf || (s.device.tty && !s.nbf && !s.device.noMemory))
            && if Capacity(s) == 1 || (r.state.lbf && b == NEWLINE)
               then Wrote(s.device, r.state.device, [b]) && Pending(r.state) == []
               else r.state.device == s.device && Pending(r.state) == [b] && r.value == b
  {
    var t, b := Swsetup(s.(w := s.lbfsize)), c % 256;
    FirstPutIs(s, c);
    SetupShape(s);
    StoreKeepsShape(t, b);
    assert [] + [b] == [b];
    if Capacity(s) == 1 || (t.lbf && b == NEWLINE) { StoreSends(t, b); } else { StoreKeeps(t, b); }
  }

  lemma StoreKeepsEof(s: State, c: Byte)
    requires s.wr && s.buf != [] && s.p <= |s.buf|
    ensures StoreAndFlush(s, c).state.eof == s.eof
  {
    SflushRewinds(s);
    var t := if s.p < |s.buf| then s else Sflush(s);
    assert t.eof == s.eof;
    assert StoreThenFlush(t, c).state.eof == t.eof;
  }

  /** A putc on a stream in read mode leaves that mode: end of file is forgotten, and
      what was waiting is dropped. */
  lemma PutcLeavesReading(s: State, c: int)
    requires Inv(s) && s.rd && s.rw
    ensures var t := Putc(s, c).state;
            && t.wr && !t.rd && !t.eof && Unread(t) == []
            && t.device.skipped == s.device.skipped + |Unread(s)|
  {
    var t := Swsetup(s.(w := s.lbfsize));
    assert !FastPut(s, c) && t.wr && !t.rd && !t.eof;
    SetupReady(s, c % 256);
    SetupKeepsOut(s);
    StoreAndFlushKeepsInput(t, c % 256);
    StoreStaysWritable(t, c % 256);
    StoreKeepsEof(t, c % 256);
    assert Putc(s, c) == StoreAndFlush(t, c % 256);
  }
}
