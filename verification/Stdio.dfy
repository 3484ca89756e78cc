/** getc, putc and the functions behind them, as they run: a FILE whose fields are
    updated in place. Its buffer is one of them, a sequence that a store replaces. */
module Stdio {
  import opened Bytes
  import opened StdioModel
  import opened StdioSafety
  import opened StdioDevice

  /** `_flags` */
  datatype Flags = Flags(lbf: bool, nbf: bool, rd: bool, wr: bool, rw: bool, eof: bool, err: bool)

  lemma SplitSlice(s: seq<Byte>, from: nat, n: nat, t: nat)
    requires from + n <= |s| && t <= n
    ensures s[from..from + n][..t] == s[from..from + t]
    ensures s[from..from + n][t..] == s[from + t..from + t + (n - t)]
  {
  }

  lemma SwbufUsesLowByte(s: State, c: int)
    requires s.p <= |s.buf|
    ensures Swbuf(s, c % 256) == Swbuf(s, c)
  {
  }

  /** __swbuf overwrites the byte at `_p`, whatever was stored there early. */
  lemma SwbufIgnoresFirstFree(s: State, b: Byte, c: int)
    requires s.wr && s.p < |s.buf|
    ensures Swbuf(s.(buf := s.buf[s.p := b]), c) == Swbuf(s, c)
  {
    var d: Byte := c % 256;
    assert s.buf[s.p := b][s.p := d] == s.buf[s.p := d];
  }

  class File {
    var p: nat
    var r: int
    var w: int
    var flags: Flags
    var buf: seq<Byte>
    var lbfsize: int
    var device: Device

    ghost function Image(): State
      reads this
    {
      State(p, r, w, flags.lbf, flags.nbf, flags.rd, flags.wr, flags.rw, flags.eof, flags.err, buf, lbfsize, device)
    }

    /** A stream as fopen leaves it: no buffer yet, open for reading, for writing
        or, in neither mode so far, for both. */
    constructor (reading: bool, writing: bool, device: Device)
      requires reading || writing
      ensures Inv(Image()) && this.device == device
      ensures Out(Image()) == device.written && Unread(Image()) == []
    {
      p, r, w := 0, 0, 0;
      flags := Flags(false, false, reading && !writing, writing && !reading, reading && writing, false, false);
      buf := [];
      lbfsize := 0;
      this.device := device;
    }

    // ----------------------------------------------------------- slow paths

    /** The loop of __sflush. */
    method WriteLoop(base: nat, count: nat) returns (ok: bool)
      requires base + count <= |buf|
      modifies `device
      ensures device == WriteAll(old(device), buf[base..base + count])
      ensures ok <==> device.lost == old(device).lost
    {
      var from, n := base, count;
      while n > 0
        invariant from + n == base + count && base <= from && 0 <= n
        invariant WriteAll(device, buf[from..from + n]) == WriteAll(old(device), buf[base..base + count])
        invariant device.lost == old(device).lost
      {
        var t := if device.accepts == [] then n else Min(device.accepts[0], n);
        var rest := if device.accepts == [] then [] else device.accepts[1..];
        if t == 0 {
          device := device.(accepts := rest, lost := device.lost + n);
          return false;
        }
        SplitSlice(buf, from, n, t);
        device := device.(accepts := rest, written := device.written + buf[from..from + t]);
        n, from := n - t, from + t;
      }
      assert buf[from..from] == [];
      return true;
    }

    /** __sflush */
    method Flush() returns (ok: bool)
      requires p <= |buf|
      modifies this
      ensures Image() == Sflush(old(Image())) && ok == Flushes(old(Image()))
    {
      if !flags.wr { return true; }
      if buf == [] { return true; }
      var from, n := 0, p;
      WriteAllSplits(device, buf[..p]);
      p := 0;
      w := if flags.lbf || flags.nbf then 0 else |buf|;
      ok := WriteLoop(from, n);
      if !ok { flags := flags.(err := true); }
    }

    /** __smakebuf */
    method MakeBuffer()
      modifies this
      ensures Image() == Smakebuf(old(Image()))
      ensures buf != [] && p == 0 && flags.wr == old(flags.wr)
    {
      p := 0;
      if flags.nbf || device.noMemory {
        flags := flags.(nbf := true);
        buf := [0];
      } else {
        var size := if device.blksize <= 0 then BUFSIZ else device.blksize;
        buf := seq(size, _ => 0);
        flags := flags.(lbf := flags.lbf || device.tty);
      }
    }

    /** __swsetup, its first half: get out of read mode, if that is allowed. */
    method StartWriting() returns (ok: bool)
      requires p <= |buf|
      modifies this
      ensures p <= |buf| && (ok ==> flags.wr)
      ensures ok == old(CanSetup(Image()))
      ensures Image() == if ok then EnterWriteMode(old(Image())) else old(Image())
    {
      if !flags.wr {
        if !flags.rw { return false; }
        if flags.rd {
          flags := flags.(rd := false, eof := false);
          device := device.(skipped := device.skipped + r);
          r := 0;
          p := 0;
        }
        flags := flags.(wr := true);
      }
      return true;
    }

    /** __swsetup, its end. */
    method SetSpace()
      modifies `w, `lbfsize
      ensures Image() == SetWriteSpace(old(Image()))
    {
      if flags.lbf {
        w := 0;
        lbfsize := -|buf|;
      } else {
        w := if flags.nbf then 0 else |buf|;
      }
    }

    /** __swsetup */
    method Setup() returns (ok: bool)
      requires p <= |buf|
      modifies this
      ensures ok == old(CanSetup(Image()))
      ensures Image() == if ok then Swsetup(old(Image())) else old(Image())
      ensures ok ==> flags.wr && buf != [] && p <= |buf|
    {
      ok := StartWriting();
      if ok {
        if buf == [] {
          MakeBuffer();
        }
        SetSpace();
      }
    }

    /** __swbuf, when there is room. */
    method StoreInRoom(c: Byte) returns (value: int)
      requires flags.wr && p < |buf|
      modifies this
      ensures Result(Image(), value) == StoreThenFlush(old(Image()), c)
    {
      ghost var s := Image();
      w := w - 1;
      buf := buf[p := c];
      p := p + 1;
      assert Image() == s.(w := s.w - 1, buf := s.buf[s.p := c], p := s.p + 1);
      if p == |buf| || (flags.lbf && c == NEWLINE) {
        var ok := Flush();
        if !ok { return EOF; }
      }
      return c;
    }

    /** __swbuf, when we can write. */
    method StoreByte(c: Byte) returns (value: int)
      requires flags.wr && buf != [] && p <= |buf|
      modifies this
      ensures Result(Image(), value) == StoreAndFlush(old(Image()), c)
    {
      if p >= |buf| {
        var ok := Flush();
        if !ok { return EOF; }
      }
      value := StoreInRoom(c);
    }

    /** __swbuf */
    method WriteBuffer(c: int) returns (value: int)
      requires p <= |buf|
      modifies this
      ensures Result(Image(), value) == Swbuf(old(Image()), c)
    {
      w := lbfsize;
      if !flags.wr || buf == [] {
        var ok := Setup();
        if !ok { return EOF; }
      }
      value := StoreByte(c % 256);
    }

    /** __srefill, before it reads. */
    method Refill() returns (ready: bool)
      requires p <= |buf|
      modifies this
      ensures (Image(), ready) == StartReading(old(Image()))
    {
      r := 0;
      if flags.eof { return false; }
      if !flags.rd {
        if !flags.rw { return false; }
        if flags.wr {
          var ok := Flush();
          if !ok { return false; }
          flags := flags.(wr := false);
          w := 0;
          lbfsize := 0;
        }
        flags := flags.(rd := true);
      }
      if buf == [] {
        MakeBuffer();
      }
      return true;
    }

    /** The read of __srefill. */
    method Read() returns (ok: bool)
      modifies this
      ensures (Image(), ok) == Fill(old(Image()))
    {
      p := 0;
      var d := device;
      var rest := if d.replies == [] then [] else d.replies[1..];
      device := d.(replies := rest);
      if d.replies == [] || d.replies[0].EndOfFile? || (d.replies[0].Bytes? && d.replies[0].data == []) {
        r := 0;
        flags := flags.(eof := true);
        return false;
      }
      if d.replies[0].Failure? {
        r := 0;
        flags := flags.(err := true);
        return false;
      }
      var got := d.replies[0].data[..Min(|d.replies[0].data|, |buf|)];
      buf := got + buf[|got|..];
      r := |got|;
      device := device.(delivered := d.delivered + got);
      return true;
    }

    /** __srget, after __srefill has got as far as reading. */
    method ReadAndTake() returns (value: int)
      modifies this
      ensures Result(Image(), value) == FillAndTake(old(Image()))
    {
      ghost var s := Image();
      var ok := Read();
      ghost var t := Image();
      assert (t, ok) == Fill(s);
      FillRewinds(s);
      if !ok || buf == [] { return EOF; }
      r := r - 1;
      value := buf[p];
      p := p + 1;
      assert Image() == t.(r := t.r - 1, p := t.p + 1);
    }

    /** __srget */
    method RefillGet() returns (value: int)
      requires p <= |buf|
      modifies this
      ensures Result(Image(), value) == Srget(old(Image()))
    {
      var ready := Refill();
      if !ready { return EOF; }
      value := ReadAndTake();
    }

    /** fflush of this stream: everything that is pending is sent, or as much of it as
        the device takes. */
    method Fflush() returns (value: int)
      requires Inv(Image())
      modifies this
      ensures value == 0 || value == EOF
      ensures value == EOF <==> old(!CanSetup(Image())) || device.lost > old(device.lost)
      ensures Inv(Image()) && Pending(Image()) == [] && Wrote(old(device), device, old(Pending(Image())))
    {
      ghost var s := Image();
      FlushPromises(s);
      if !flags.wr && !flags.rw { return EOF; }
      var ok := Flush();
      value := if ok then 0 else EOF;
    }

    // ----------------------------------------------------------- fast paths

    /** The macro. */
    method TakeOrRefill() returns (value: int)
      requires Inv(Image())
      modifies this
      ensures Result(Image(), value) == Getc(old(Image()))
    {
      r := r - 1;
      if r < 0 {
        value := RefillGet();
      } else {
        value := buf[p];
        p := p + 1;
      }
    }

    method SGetc() returns (value: int)
      requires Inv(Image())
      modifies this
      ensures Result(Image(), value) == Getc(old(Image()))
      ensures Inv(Image())
      ensures Conserves(old(Image()), Image(), []) && GetOutcome(old(Image()), Result(Image(), value))
      ensures GetAnswer(old(Image()), Result(Image(), value))
    {
      ghost var s := Image();
      value := TakeOrRefill();
      GetcPromises(s, Result(Image(), value));
      GetcAnswers(s);
    }

    /** The inline function. */
    method SPutcInline(c: int) returns (value: int)
      requires Inv(Image())
      modifies this
      ensures Result(Image(), value) == Putc(old(Image()), c)
      ensures Inv(Image())
      ensures PutOutcome(old(Image()), c, Result(Image(), value)) && Reads(old(Image()), Image(), [])
    {
      if FastPut(Image(), c) { FastPutIsSafe(Image(), c); }
      w := w - 1;
      if w >= 0 || (w >= lbfsize && c % 256 != NEWLINE) {
        buf := buf[p := c % 256];
        value := buf[p];
        p := p + 1;
      } else {
        value := WriteBuffer(c);
      }
      PutcPromises(old(Image()), c, Result(Image(), value));
    }

    /** The macro on a line-buffered stream: it stores, and then looks at what it
        stored. */
    method PutOnLine(c: int) returns (value: int)
      requires flags.wr && p < |buf|
      modifies this
      ensures Result(Image(), value) ==
              if c % 256 == NEWLINE then Swbuf(old(Image()), c)
              else Result(old(Image()).(buf := old(buf)[old(p) := c % 256], p := old(p) + 1), c % 256)
    {
      ghost var s := Image();
      buf := buf[p := c % 256];
      if buf[p] != NEWLINE {
        value := buf[p];
        p := p + 1;
      } else {
        SwbufIgnoresFirstFree(s, NEWLINE, NEWLINE);
        SwbufUsesLowByte(s, c);
        value := WriteBuffer(NEWLINE);
      }
    }

    /** The macro. */
    method SPutcMacro(c: int) returns (value: int)
      requires Inv(Image())
      modifies this
      ensures Result(Image(), value) == Putc(old(Image()), c)
      ensures Inv(Image())
      ensures PutOutcome(old(Image()), c, Result(Image(), value)) && Reads(old(Image()), Image(), [])
    {
      ghost var s := Image();
      if FastPut(s, c) { FastPutIsSafe(s, c); }
      w := w - 1;
      if w < 0 {
        if w >= lbfsize {
          value := PutOnLine(c);
        } else {
          value := WriteBuffer(c);
        }
      } else {
        buf := buf[p := c % 256];
        value := buf[p];
        p := p + 1;
      }
      PutcPromises(s, c, Result(Image(), value));
    }
  }

  /** One call, with putc in the form asked for. */
  method Call(f: File, op: Op, inlined: bool) returns (value: int)
    requires Inv(f.Image())
    modifies f
    ensures Result(f.Image(), value) == Do(old(f.Image()), op)
  {
    match op
    case Put(c) => if inlined { value := f.SPutcInline(c); } else { value := f.SPutcMacro(c); }
    case Get => value := f.SGetc();
  }

  /** Any use of getc and putc on a file, with the values that the calls return and
      the bytes put and got: all the bytes that putc returned have gone out, in order,
      or are waiting to, unless a flush failed; and all the bytes that came in have
      been returned by getc, in order, or are waiting, unless a switch to write mode
      dropped them. */
  method UseFile(f: File, ops: seq<Op>, inlined: bool)
    returns (values: seq<int>, put: seq<Byte>, got: seq<Byte>)
    requires Inv(f.Image())
    modifies f
    ensures f.Image() == Run(old(f.Image()), ops) && values == Values(old(f.Image()), ops)
    ensures put == PutLog(old(f.Image()), ops) && got == GetLog(old(f.Image()), ops)
    ensures Inv(f.Image())
    ensures Conserves(old(f.Image()), f.Image(), put) && Reads(old(f.Image()), f.Image(), got)
    ensures Delivers(old(f.Image()), f.Image())
    ensures old(Willing(f.device) && CanSetup(f.Image())) ==> put == Asking(ops) && f.device.lost == old(f.device.lost)
  {
    values, put, got := [], [], [];
    ghost var start := f.Image();
    assert ops[0..] == ops;
    for n := 0 to |ops|
      invariant PartOf(start, ops, n, f.Image(), values, put, got)
    {
      NextPart(start, ops, n, f.Image(), values, put, got);
      var v := Call(f, ops[n], inlined);
      values := values + [v];
      put := put + if ops[n].Put? then Accepted(v) else [];
      got := got + if ops[n].Get? then Accepted(v) else [];
    }
    assert ops[|ops|..] == [];
    RunConserves(start, ops);
    RunReads(start, ops);
    RunDelivers(start, ops);
    if Willing(start.device) && CanSetup(start) { RunWritesAll(start, ops); }
  }

  /** The two forms of putc agree over every run: used in the same places on equal
      streams, they return the same values and leave equal streams. */
  method RunBoth(inlined: File, expanded: File, ops: seq<Op>)
    returns (values: seq<int>, values': seq<int>)
    requires inlined != expanded
    requires inlined.Image() == expanded.Image() && Inv(inlined.Image())
    modifies inlined, expanded
    ensures inlined.Image() == expanded.Image() == Run(old(inlined.Image()), ops)
    ensures values == values' == Values(old(inlined.Image()), ops)
  {
    var put, got;
    values, put, got := UseFile(inlined, ops, true);
    values', put, got := UseFile(expanded, ops, false);
  }
}
