/** What getc and putc do, on values: the fast paths of usr/src/include/stdio.h
    together with the slow paths of usr/src/lib/libc/stdio, for one stream and
    whatever its device answers. */
module StdioModel {
  import opened Bytes

  const EOF := -1
  const NEWLINE := 10
  const BUFSIZ := 1024

  /** What one call of `_read` returns. */
  datatype Reply = Bytes(data: seq<Byte>) | EndOfFile | Failure

  /** The other side of the stream. The answers that are still to come are part
      of the state, so that every behaviour of the device is some state. */
  datatype Device = Device(
    written: seq<Byte>,      // what `_write` has accepted
    lost: nat,               // bytes that a failed flush threw away
    delivered: seq<Byte>,    // what `_read` has returned
    skipped: int,            // bytes of it that a switch to write mode dropped
    accepts: seq<nat>,       // how much the next calls of `_write` take; 0 is an error
    replies: seq<Reply>,     // what the next calls of `_read` return
    blksize: int,            // st_blksize
    tty: bool,
    noMemory: bool)

  datatype State = State(
    p: nat,            // _p, as an offset into the buffer
    r: int,            // _r
    w: int,            // _w
    lbf: bool,         // __SLBF, and so on for the other flags
    nbf: bool,
    rd: bool,
    wr: bool,
    rw: bool,
    eof: bool,
    err: bool,
    buf: seq<Byte>,    // _bf; empty stands for a null _base
    lbfsize: int,
    device: Device)

  // -------------------------------------------------------------- invariant

  /** The three facts that the header says always hold (lines 73-83). */
  predicate HeaderFacts(s: State) {
    && s.lbfsize == (if s.lbf && s.wr then -|s.buf| else 0)
    && (s.rd ==> s.w == 0)
    && (s.wr ==> s.r == 0)
  }

  /** What `_w` means in write mode. */
  predicate WriteSpace(s: State)
    requires s.p <= |s.buf|
  {
    if s.buf == [] then s.w == 0 && s.p == 0
    else if s.lbf then s.w + s.p == 0 && NEWLINE !in s.buf[..s.p]
    else if s.nbf then s.w == 0 && s.p == 0
    else s.w == |s.buf| - s.p
  }

  predicate Inv(s: State) {
    && HeaderFacts(s)
    && !(s.rd && s.wr)
    && s.p <= |s.buf|
    && (s.nbf ==> |s.buf| <= 1)
    && (s.wr ==> WriteSpace(s))
    && (s.rd ==> 0 <= s.r && s.p + s.r <= |s.buf|)
    && (!s.rd && !s.wr ==> s.r == 0 && s.w == 0 && s.p == 0)
  }

  // ------------------------------------------------------------- slow paths

  /** A new buffer, or a switch to unbuffered output. */
  function Smakebuf(s: State): State {
    if s.nbf || s.device.noMemory then
      s.(nbf := true, buf := [0], p := 0)
    else
      var size: nat := if s.device.blksize <= 0 then BUFSIZ else s.device.blksize;
      s.(buf := seq(size, _ => 0), p := 0, lbf := s.lbf || s.device.tty)
  }

  function Min(x: nat, y: nat): nat { if x < y then x else y }

  /** The calls of `_write` that it takes to send `data`. */
  function WriteAll(d: Device, data: seq<Byte>): Device
    decreases |data|
  {
    if data == [] then d
    else
      var t := if d.accepts == [] then |data| else Min(d.accepts[0], |data|);
      var rest := if d.accepts == [] then [] else d.accepts[1..];
      if t == 0 then d.(accepts := rest, lost := d.lost + |data|)
      else WriteAll(d.(accepts := rest, written := d.written + data[..t]), data[t..])
  }

  predicate Flushes(s: State) {
    s.wr && s.buf != [] && s.p <= |s.buf| ==> WriteAll(s.device, s.buf[..s.p]).lost == s.device.lost
  }

  /** __sflush; it returns 0 exactly when `Flushes`. */
  function Sflush(s: State): State
    requires s.p <= |s.buf|
  {
    if !s.wr || s.buf == [] then s
    else
      s.(p := 0,
      w := if s.lbf || s.nbf then 0 else |s.buf|,
      err := s.err || !Flushes(s),
      device := WriteAll(s.device, s.buf[..s.p]))
  }

  /** __swsetup fails on a stream that is open only for reading. */
  predicate CanSetup(s: State) { s.wr || s.rw }

  function EnterWriteMode(s: State): State {
    if s.wr then s
    else if s.rd then
      s.(rd := false, eof := false, r := 0, p := 0, wr := true,
      device := s.device.(skipped := s.device.skipped + s.r))
    else s.(wr := true)
  }

  function SetWriteSpace(s: State): State {
    if s.lbf then s.(w := 0, lbfsize := -|s.buf|)
    else s.(w := if s.nbf then 0 else |s.buf|)
  }

  function Swsetup(s: State): State
    requires CanSetup(s)
  {
    var t := EnterWriteMode(s);
    SetWriteSpace(if t.buf == [] then Smakebuf(t) else t)
  }

  predicate NeedsSetup(s: State) { !s.wr || s.buf == [] }

  /** A state, and the int that the function returns. */
  datatype Result = Result(state: State, value: int)

  /** The store of __swbuf, and the flush of a buffer that it fills or of a line
      that it ends. */
  function StoreThenFlush(s: State, c: Byte): Result
    requires s.p < |s.buf|
  {
    var u := s.(w := s.w - 1, buf := s.buf[s.p := c], p := s.p + 1);
    if u.p == |u.buf| || (u.lbf && c == NEWLINE) then
      Result(Sflush(u), if Flushes(u) then c else EOF)
    else
      Result(u, c)
  }

  /** The part of __swbuf that follows the check that we can write. */
  function StoreAndFlush(s: State, c: Byte): Result
    requires s.wr && s.buf != [] && s.p <= |s.buf|
  {
    if s.p < |s.buf| then StoreThenFlush(s, c)
    else if Flushes(s) then StoreThenFlush(Sflush(s), c)
    else Result(Sflush(s), EOF)
  }

  lemma SetupMakesReady(s: State)
    requires CanSetup(s) && s.p <= |s.buf|
    ensures var t := Swsetup(s);
            t.wr && t.buf != [] && t.p <= |t.buf|
  {
    var t := EnterWriteMode(s);
    assert t.wr && t.p <= |t.buf|;
    var u := if t.buf == [] then Smakebuf(t) else t;
    assert u.wr && u.buf != [] && u.p <= |u.buf|;
  }

  function Swbuf(s: State, c: int): Result
    requires s.p <= |s.buf|
  {
    var s1 := s.(w := s.lbfsize);
    if NeedsSetup(s1) then
      if CanSetup(s1) then
        SetupMakesReady(s1);
        StoreAndFlush(Swsetup(s1), c % 256)
      else Result(s1, EOF)
    else
      StoreAndFlush(s1, c % 256)
  }

  /** __srefill up to the call of `_read`: it may have to leave write mode. */
  function StartReading(s: State): (State, bool)
    requires s.p <= |s.buf|
  {
    var s0 := s.(r := 0);
    if s0.eof then (s0, false)
    else if !s0.rd && !s0.rw then (s0, false)
    else if !s0.rd && s0.wr && !Flushes(s0) then (Sflush(s0), false)
    else
      var s1 := if !s0.rd && s0.wr then Sflush(s0).(wr := false, w := 0, lbfsize := 0) else s0;
      var s2 := s1.(rd := true);
      (if s2.buf == [] then Smakebuf(s2) else s2, true)
  }

  /** The call of `_read`; a reply that does not fit the buffer is cut. */
  function Fill(s: State): (State, bool) {
    var d := s.device;
    var rest := if d.replies == [] then [] else d.replies[1..];
    if d.replies == [] || d.replies[0].EndOfFile? || (d.replies[0].Bytes? && d.replies[0].data == []) then
      (s.(p := 0, r := 0, eof := true, device := d.(replies := rest)), false)
    else if d.replies[0].Failure? then
      (s.(p := 0, r := 0, err := true, device := d.(replies := rest)), false)
    else
      var got := d.replies[0].data[..Min(|d.replies[0].data|, |s.buf|)];
      (s.(p := 0, r := |got|, buf := got + s.buf[|got|..],
       device := d.(replies := rest, delivered := d.delivered + got)),
       true)
  }

  lemma FillRewinds(s: State)
    ensures Fill(s).0.p == 0
  {
  }

  /** The rest of __srefill and of __srget. */
  function FillAndTake(s: State): Result {
    var (t, ok) := Fill(s);
    FillRewinds(s);
    if !ok || t.buf == [] then Result(t, EOF)
    else Result(t.(r := t.r - 1, p := t.p + 1), t.buf[t.p])
  }

  function Srget(s: State): Result
    requires s.p <= |s.buf|
  {
    var (t, ready) := StartReading(s);
    if ready then FillAndTake(t) else Result(t, EOF)
  }

  // ------------------------------------------------------------- fast paths

  /** The inline __sputc stores without a call. */
  predicate FastPut(s: State, c: int) {
    s.w - 1 >= 0 || (s.w - 1 >= s.lbfsize && c % 256 != NEWLINE)
  }

  /** A fast store happens only in write mode, only inside the buffer, and on a
      line-buffered stream it is never a newline. */
  lemma FastPutIsSafe(s: State, c: int)
    requires Inv(s) && FastPut(s, c)
    ensures s.wr && s.p < |s.buf|
    ensures s.lbf ==> c % 256 != NEWLINE
  {
  }

  function Putc(s: State, c: int): Result
    requires Inv(s)
  {
    var t := s.(w := s.w - 1);
    if FastPut(s, c) then
      FastPutIsSafe(s, c);
      Result(t.(buf := t.buf[t.p := c % 256], p := t.p + 1), c % 256)
    else Swbuf(t, c)
  }

  predicate FastGet(s: State) { s.r - 1 >= 0 }

  lemma FastGetIsSafe(s: State)
    requires Inv(s) && FastGet(s)
    ensures s.rd && s.p < |s.buf|
  {
  }

  function Getc(s: State): Result
    requires Inv(s)
  {
    var t := s.(r := s.r - 1);
    if FastGet(s) then Result(t.(p := t.p + 1), t.buf[t.p]) else Srget(t)
  }
}
