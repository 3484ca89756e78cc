/** The Xlib output buffer and the macros that put requests into it, as they run:
    they move `bufptr` and store into the buffer in place. */
module XDisplay {
  import opened Bits
  import opened Bytes
  import opened XStream

  /** `last_req` after the requests before it have left the buffer. */
  const DUMMY := -1

  /** `request` is an unsigned long. */
  const REQUEST_MODULUS := 0x1_0000_0000

  /** `after` is `before` followed by bytes that agree with `cells`. */
  ghost predicate Extends(before: seq<Byte>, after: seq<Byte>, cells: seq<Cell>) {
    && |after| == |before| + |cells|
    && after[..|before|] == before
    && Agrees(after[|before|..], cells)
  }

  lemma Extended(before: seq<Byte>, tail: seq<Byte>, after: seq<Byte>, cells: seq<Cell>)
    requires after == before + tail && Agrees(tail, cells)
    ensures Extends(before, after, cells)
  {
    assert after[|before|..] == tail;
  }

  /** It takes three stores to turn any stale bytes into a request. */
  lemma HeaderMakesFrame(bytes: seq<Byte>, reqType: Byte, size: nat)
    requires |bytes| == size >= SIZEOF_REQ
    requires bytes[0] == reqType && bytes[2] == Little16(size / 4)[0] && bytes[3] == Little16(size / 4)[1]
    ensures Agrees(bytes, Frame(reqType, size))
  {
  }

  lemma HeaderMakesResourceFrame(bytes: seq<Byte>, reqType: Byte, rid: nat)
    requires |bytes| == SIZEOF_RESOURCE_REQ && bytes[0] == reqType && bytes[2] == 2 && bytes[3] == 0
    requires bytes[4..8] == Little32(rid)
    ensures Agrees(bytes, ResourceFrame(reqType, rid))
  {
    assert bytes == [bytes[0], bytes[1], 2, 0] + bytes[4..8];
  }

  lemma DataThenAnything(bytes: seq<Byte>, data: seq<Byte>)
    requires |bytes| == Padded(|data|) && |data| <= |bytes| && bytes[..|data|] == data
    ensures Agrees(bytes, PaddedCells(data))
  {
    assert forall i :: 0 <= i < |data| ==> bytes[i] == bytes[..|data|][i];
  }

  lemma InWords(size: nat)
    ensures Shr(size, 2) == size / 4
  {
    assert Pow2(2) == 4;
    ShrIsQuotient(size, 2);
  }

  lemma ExtendsAgrees(before: seq<Byte>, after: seq<Byte>, said: seq<Cell>, cells: seq<Cell>)
    requires Agrees(before, said) && Extends(before, after, cells)
    ensures Agrees(after, said + cells)
  {
    forall i | 0 <= i < |after| && (said + cells)[i].Known?
      ensures after[i] == (said + cells)[i].value
    {
      if i < |before| {
        assert after[..|before|][i] == before[i];
      } else {
        assert after[|before|..][i - |before|] == after[i];
      }
    }
  }

  function NextRequest(request: nat, step: Step): nat {
    if IsRequest(step) then (request + 1) % REQUEST_MODULUS else request
  }

  /** `dpy->request` after the steps. */
  function Counted(request: nat, steps: seq<Step>): nat
    decreases |steps|
  {
    if steps == [] then request else Counted(NextRequest(request, steps[0]), steps[1..])
  }

  lemma CountOne(request: nat, steps: seq<Step>, n: nat)
    requires n < |steps|
    ensures Counted(request, steps[n..]) == Counted(NextRequest(request, steps[n]), steps[n + 1..])
  {
    assert steps[n..][1..] == steps[n + 1..];
  }

  lemma SayOne(m: Message, steps: seq<Step>, n: nat)
    requires n < |steps| && StepsOk(m, steps[n..])
    ensures StepOk(m, steps[n]) && StepsOk(Say(m, steps[n]), steps[n + 1..])
    ensures SayAll(m, steps[n..]) == SayAll(Say(m, steps[n]), steps[n + 1..])
  {
    assert steps[n..][1..] == steps[n + 1..];
  }

  // ------------------------------------------------- where the pointer goes

  /** `bufptr` after `n` bytes are reserved, with a flush if they do not fit. */
  function Reserve(p: nat, capacity: nat, n: nat): nat {
    if p + n > capacity then n else p + n
  }

  /** `bufptr` after a step: Data tests the unpadded length and advances by the
      padded one. */
  function NextPtr(p: nat, capacity: nat, step: Step): nat
    requires Sized(step)
  {
    if IsRequest(step) then Reserve(p, capacity, |RequestFrame(step)|)
    else
      match step
      case PutField(_, _) => p
      case Data(data) => if p + |data| <= capacity then p + Padded(|data|) else 0
      case BufAlloc(n) => Reserve(p, capacity, n)
  }

  /** Through all the steps `bufptr` stays in the buffer. */
  predicate StaysIn(p: nat, capacity: nat, steps: seq<Step>)
    decreases |steps|
  {
    steps == [] ||
    (&& Sized(steps[0]) && NextPtr(p, capacity, steps[0]) <= capacity
     && StaysIn(NextPtr(p, capacity, steps[0]), capacity, steps[1..]))
  }

  function PtrAfter(p: nat, capacity: nat, steps: seq<Step>): nat
    requires StaysIn(p, capacity, steps)
    decreases |steps|
  {
    if steps == [] then p else PtrAfter(NextPtr(p, capacity, steps[0]), capacity, steps[1..])
  }

  /** Where `bufptr` goes: over the bytes of the step or, after a flush, which comes
      exactly when they do not fit, over them from the start of the buffer; Data that
      do not fit are sent at once. */
  lemma PointerMoves(p: nat, capacity: nat, step: Step)
    requires Sized(step)
    ensures !step.Data? && p + StepLength(step) <= capacity ==> NextPtr(p, capacity, step) == p + StepLength(step)
    ensures !step.Data? && !step.PutField? && p + StepLength(step) > capacity ==>
              NextPtr(p, capacity, step) == StepLength(step)
    ensures step.Data? ==>
              NextPtr(p, capacity, step) == if p + |step.data| <= capacity then p + StepLength(step) else 0
  {
  }

  /** A step takes `bufptr` out of the buffer exactly when it is a Data whose bytes
      fit in the room that is left while their pad does not. */
  lemma LeavesExactlyWhen(p: nat, capacity: nat, step: Step)
    requires p <= capacity && Sized(step) && Fits(step, capacity)
    ensures NextPtr(p, capacity, step) > capacity <==>
            step.Data? && |step.data| <= capacity - p < Padded(|step.data|)
  {
    if step.Data? { NextWord(|step.data|); }
  }

  /** There are such data exactly when the room is not in whole words. */
  lemma SomeDataLeaves(p: nat, capacity: nat)
    requires p <= capacity
    ensures (exists data :: NextPtr(p, capacity, Data(data)) > capacity) <==> (capacity - p) % 4 != 0
  {
    var room := capacity - p;
    if room % 4 != 0 {
      NextWord(room);
      var data := seq(room, _ => 0);
      assert |data| == room && NextPtr(p, capacity, Data(data)) > capacity;
    }
    if exists data :: NextPtr(p, capacity, Data(data)) > capacity {
      var data :| NextPtr(p, capacity, Data(data)) > capacity;
      NextWord(|data|);
      LeavesExactlyWhen(p, capacity, Data(data));
    }
  }

  predicate WholeWords(step: Step) { step.BufAlloc? ==> step.n % 4 == 0 }

  lemma ReserveInWords(p: nat, capacity: nat, n: nat)
    requires p % 4 == 0 && n % 4 == 0
    ensures Reserve(p, capacity, n) % 4 == 0
  {
    SumOfMultiples(p, n, 4);
  }

  lemma StepInWords(p: nat, capacity: nat, step: Step)
    requires p <= capacity && p % 4 == 0 && capacity % 4 == 0
    requires StepOk(Message([], 0), step) || step.PutField?
    requires Fits(step, capacity) && WholeWords(step)
    ensures NextPtr(p, capacity, step) <= capacity && NextPtr(p, capacity, step) % 4 == 0
  {
    match step {
      case GetReq(_, size) => ReserveInWords(p, capacity, size);
      case GetReqExtra(_, size, extra) =>
        SumOfMultiples(size, extra, 4);
        ReserveInWords(p, capacity, size + extra);
      case GetResReq(_, _) => ReserveInWords(p, capacity, SIZEOF_RESOURCE_REQ);
      case GetEmptyReq(_) => ReserveInWords(p, capacity, SIZEOF_REQ);
      case PutField(_, _) =>
      case Data(data) =>
        NextWord(|data|);
        SumOfMultiples(p, Padded(|data|), 4);
        SumOfMultiples(capacity, p, 4);
      case BufAlloc(n) => ReserveInWords(p, capacity, n);
    }
  }

  /** If BufAlloc is used for whole words only, `bufptr` never leaves the buffer, and
      it is always on a word boundary. */
  lemma {:induction false} WholeWordsStayIn(p: nat, capacity: nat, m: Message, steps: seq<Step>)
    requires p <= capacity && p % 4 == 0 && capacity % 4 == 0 && StepsOk(m, steps)
    requires forall i :: 0 <= i < |steps| ==> Fits(steps[i], capacity) && WholeWords(steps[i])
    ensures StaysIn(p, capacity, steps) && PtrAfter(p, capacity, steps) % 4 == 0
    decreases |steps|
  {
    if steps == [] {
    } else {
      assert Fits(steps[0], capacity) && WholeWords(steps[0]);
      StepInWords(p, capacity, steps[0]);
      WholeWordsStayIn(NextPtr(p, capacity, steps[0]), capacity, Say(m, steps[0]), steps[1..]);
    }
  }

  /** A request of three words, made up of four parts. */
  function PartedRequest(reqType: Byte): seq<Step> {
    [GetEmptyReq(reqType), BufAlloc(2), BufAlloc(3), BufAlloc(3)]
  }

  lemma PartedRequestIsWords(reqType: Byte)
    ensures StepsOk(Message([], 0), PartedRequest(reqType))
    ensures |Flatten(SayAll(Message([], 0), PartedRequest(reqType)).frames)| == 12
  {
    var m, steps := Message([], 0), PartedRequest(reqType);
    var m1 := Say(m, GetEmptyReq(reqType));
    var m2 := Say(m1, BufAlloc(2));
    var m3 := Say(m2, BufAlloc(3));
    var m4 := Say(m3, BufAlloc(3));
    FlattenAppend([], Frame(reqType, SIZEOF_REQ));
    FlattenContinue(m1.frames, BlankCells(2));
    FlattenContinue(m2.frames, BlankCells(3));
    FlattenContinue(m3.frames, BlankCells(3));
    assert |Flatten(m4.frames)| == 12;
    SayLast(m3, BufAlloc(3));
    SayNext(m2, BufAlloc(3), [BufAlloc(3)], m4);
    SayNext(m1, BufAlloc(2), [BufAlloc(3), BufAlloc(3)], m4);
    SayNext(m, GetEmptyReq(reqType), [BufAlloc(2), BufAlloc(3), BufAlloc(3)], m4);
  }

  /** From `p` the steps `rest` end as `steps` do from `q`. */
  predicate SameEnd(p: nat, q: nat, capacity: nat, rest: seq<Step>, steps: seq<Step>) {
    && (StaysIn(p, capacity, rest) <==> StaysIn(q, capacity, steps))
    && (StaysIn(p, capacity, rest) ==> PtrAfter(p, capacity, rest) == PtrAfter(q, capacity, steps))
  }

  lemma PtrOne(p: nat, q: nat, capacity: nat, steps: seq<Step>, n: nat)
    requires n < |steps| && Sized(steps[n]) && SameEnd(p, q, capacity, steps[n..], steps)
    ensures var r := NextPtr(p, capacity, steps[n]);
            if r <= capacity then SameEnd(r, q, capacity, steps[n + 1..], steps) else !StaysIn(q, capacity, steps)
  {
    assert steps[n..][1..] == steps[n + 1..];
  }

  /** The header asks callers of BufAlloc to leave the buffer aligned after their
      request. Whole words do not suffice for that: in a buffer of 8 bytes the flush
      comes between the parts of this request, `bufptr` ends at 6, and the next Data
      of one byte leaves the buffer. */
  lemma PartedRequestLeaves(reqType: Byte, byte: Byte)
    ensures StaysIn(0, 8, PartedRequest(reqType)) && PtrAfter(0, 8, PartedRequest(reqType)) == 6
    ensures NextPtr(6, 8, Data([byte])) == 10
  {
    var steps := PartedRequest(reqType);
    assert steps[4..] == [] && steps[0..] == steps;
    PtrOne(0, 0, 8, steps, 0);
    PtrOne(4, 0, 8, steps, 1);
    PtrOne(6, 0, 8, steps, 2);
    PtrOne(3, 0, 8, steps, 3);
    NextWord(1);
  }

  class Display {
    const buffer: array<Byte>  // from `buffer` up to `bufmax`
    var bufptr: nat            // as an offset from `buffer`
    var lastReq: int
    var request: nat
    ghost var sent: seq<Byte>  // what has gone to the server

    ghost predicate Valid()
      reads this
    {
      bufptr <= buffer.Length
    }

    /** Everything said so far: what is flushed, then what is pending. */
    ghost function Stream(): seq<Byte>
      requires Valid()
      reads this, buffer
    {
      sent + buffer[..bufptr]
    }

    constructor (capacity: nat)
      ensures Valid() && fresh(buffer) && buffer.Length == capacity
      ensures Stream() == [] && request == 0
    {
      buffer := new Byte[capacity];
      bufptr := 0;
      lastReq := DUMMY;
      request := 0;
      sent := [];
    }

    // ---------------------------------------------------- assumed procedures

    /** _XFlush: sends what is pending. */
    method XFlush()
      requires Valid()
      modifies this
      ensures Valid() && bufptr == 0
      ensures Stream() == old(Stream()) && request == old(request)
    {
      sent := sent + buffer[..bufptr];
      bufptr := 0;
      lastReq := DUMMY;
    }

    /** _XSend: sends what is pending, then the data, then a pad to a word. */
    method XSend(data: seq<Byte>)
      requires Valid()
      modifies this
      ensures Valid() && bufptr == 0
      ensures Extends(old(Stream()), Stream(), PaddedCells(data)) && request == old(request)
    {
      NextWord(|data|);
      var pad := seq(Padded(|data|) - |data|, _ => 0);
      sent := sent + buffer[..bufptr] + data + pad;
      bufptr := 0;
      lastReq := DUMMY;
      assert Stream() == old(Stream()) + (data + pad);
    }

    // ------------------------------------------------------------- the macros

    /** `bufptr += n`, over bytes that have been stored already. */
    method Advance(n: nat, ghost cells: seq<Cell>)
      requires Valid() && bufptr + n <= buffer.Length
      requires Agrees(buffer[bufptr..bufptr + n], cells)
      modifies `bufptr
      ensures Valid() && bufptr == old(bufptr) + n
      ensures Extends(old(Stream()), Stream(), cells)
    {
      ghost var at := bufptr;
      bufptr := bufptr + n;
      Extended(old(Stream()), buffer[at..bufptr], Stream(), cells);
    }

    /** The stores that every request macro makes through `req`. */
    method PutHeader(req: nat, reqType: Byte, words: nat)
      requires Valid() && req == bufptr && bufptr + SIZEOF_REQ <= buffer.Length
      modifies buffer
      ensures Stream() == old(Stream())
      ensures buffer[req] == reqType
      ensures buffer[req + 2] == Little16(words)[0] && buffer[req + 3] == Little16(words)[1]
    {
      ghost var pending := buffer[..bufptr];
      buffer[req] := reqType;
      var length := Little16(words);
      buffer[req + 2], buffer[req + 3] := length[0], length[1];
      assert buffer[..bufptr] == pending;
    }

    method GetReq(reqType: Byte, size: nat) returns (req: nat)
      requires Valid() && SIZEOF_REQ <= size <= buffer.Length && size % 4 == 0
      modifies this, buffer
      ensures Valid() && lastReq == req && req + size == bufptr == Reserve(old(bufptr), buffer.Length, size)
      ensures Extends(old(Stream()), Stream(), Frame(reqType, size))
      ensures request == (old(request) + 1) % REQUEST_MODULUS
    {
      if bufptr + size > buffer.Length {
        XFlush();
      }
      req := bufptr;
      lastReq := bufptr;
      InWords(size);
      PutHeader(req, reqType, Shr(size, 2));
      ghost var bytes := buffer[req..req + size];
      assert bytes[2] == buffer[req + 2] && bytes[3] == buffer[req + 3];
      HeaderMakesFrame(bytes, reqType, size);
      Advance(size, Frame(reqType, size));
      request := (request + 1) % REQUEST_MODULUS;
    }

    method GetReqExtra(reqType: Byte, size: nat, n: nat) returns (req: nat)
      requires Valid() && SIZEOF_REQ <= size && size + n <= buffer.Length && size % 4 == 0 && n % 4 == 0
      modifies this, buffer
      ensures Valid() && lastReq == req && req + size + n == bufptr == Reserve(old(bufptr), buffer.Length, size + n)
      ensures Extends(old(Stream()), Stream(), Frame(reqType, size + n))
      ensures request == (old(request) + 1) % REQUEST_MODULUS
    {
      ghost var total := size + n;
      if bufptr + size + n > buffer.Length {
        XFlush();
      }
      req := bufptr;
      lastReq := bufptr;
      InWords(size + n);
      PutHeader(req, reqType, Shr(size + n, 2));
      HeaderMakesFrame(buffer[req..req + total], reqType, total);
      Advance(size + n, Frame(reqType, total));
      request := (request + 1) % REQUEST_MODULUS;
    }

    /** `req->id = rid`. */
    method PutId(req: nat, rid: nat)
      requires Valid() && req == bufptr && bufptr + SIZEOF_RESOURCE_REQ <= buffer.Length
      modifies buffer
      ensures Stream() == old(Stream())
      ensures forall i :: req <= i < req + 4 ==> buffer[i] == old(buffer[i])
      ensures buffer[req + 4..req + 8] == Little32(rid)
    {
      ghost var pending := buffer[..bufptr];
      var id := Little32(rid);
      buffer[req + 4], buffer[req + 5], buffer[req + 6], buffer[req + 7] := id[0], id[1], id[2], id[3];
      assert buffer[..bufptr] == pending;
    }

    method GetResReq(reqType: Byte, rid: nat) returns (req: nat)
      requires Valid() && SIZEOF_RESOURCE_REQ <= buffer.Length
      modifies this, buffer
      ensures Valid() && lastReq == req
      ensures req + SIZEOF_RESOURCE_REQ == bufptr == Reserve(old(bufptr), buffer.Length, SIZEOF_RESOURCE_REQ)
      ensures Extends(old(Stream()), Stream(), ResourceFrame(reqType, rid))
      ensures request == (old(request) + 1) % REQUEST_MODULUS
    {
      if bufptr + SIZEOF_RESOURCE_REQ > buffer.Length {
        XFlush();
      }
      req := bufptr;
      lastReq := bufptr;
      PutHeader(req, reqType, 2);
      PutId(req, rid);
      ghost var bytes := buffer[req..req + SIZEOF_RESOURCE_REQ];
      assert bytes[4..8] == buffer[req + 4..req + 8];
      HeaderMakesResourceFrame(bytes, reqType, rid);
      Advance(SIZEOF_RESOURCE_REQ, ResourceFrame(reqType, rid));
      request := (request + 1) % REQUEST_MODULUS;
    }

    method GetEmptyReq(reqType: Byte) returns (req: nat)
      requires Valid() && SIZEOF_REQ <= buffer.Length
      modifies this, buffer
      ensures Valid() && lastReq == req
      ensures req + SIZEOF_REQ == bufptr == Reserve(old(bufptr), buffer.Length, SIZEOF_REQ)
      ensures Extends(old(Stream()), Stream(), Frame(reqType, SIZEOF_REQ))
      ensures request == (old(request) + 1) % REQUEST_MODULUS
    {
      if bufptr + SIZEOF_REQ > buffer.Length {
        XFlush();
      }
      req := bufptr;
      lastReq := bufptr;
      PutHeader(req, reqType, 1);
      ghost var bytes := buffer[req..req + SIZEOF_REQ];
      HeaderMakesFrame(bytes, reqType, SIZEOF_REQ);
      Advance(SIZEOF_REQ, Frame(reqType, SIZEOF_REQ));
      request := (request + 1) % REQUEST_MODULUS;
    }

    method Bcopy(data: seq<Byte>)
      requires Valid() && bufptr + |data| <= buffer.Length
      modifies buffer
      ensures Stream() == old(Stream())
      ensures buffer[bufptr..bufptr + |data|] == data
    {
      ghost var pending := buffer[..bufptr];
      forall i | 0 <= i < |data| {
        buffer[bufptr + i] := data[i];
      }
      assert buffer[..bufptr] == pending;
    }

    /** Copies the data and advances by their padded length. The stream is only
        meaningful when this stays in the buffer. */
    method DataInRoom(data: seq<Byte>)
      requires Valid() && bufptr + |data| <= buffer.Length
      modifies `bufptr, buffer
      ensures bufptr == old(bufptr) + Padded(|data|)
      ensures Valid() ==> Extends(old(Stream()), Stream(), PaddedCells(data))
    {
      NextWord(|data|);
      var n := AndNot(|data| + 3, 3);
      Bcopy(data);
      if bufptr + n <= buffer.Length {
        ghost var bytes := buffer[bufptr..bufptr + n];
        assert bytes[..|data|] == buffer[bufptr..bufptr + |data|];
        DataThenAnything(bytes, data);
        Advance(n, PaddedCells(data));
      } else {
        bufptr := bufptr + n;
      }
    }

    /** Tests the unpadded length and advances by the padded one: this leaves the
        buffer exactly when the data fit and their pad does not. */
    method Data(data: seq<Byte>)
      requires Valid()
      modifies this, buffer
      ensures bufptr == NextPtr(old(bufptr), buffer.Length, Step.Data(data))
      ensures !Valid() <==> |data| <= buffer.Length - old(bufptr) < Padded(|data|)
      ensures Valid() ==> Extends(old(Stream()), Stream(), PaddedCells(data))
      ensures request == old(request)
    {
      LeavesExactlyWhen(bufptr, buffer.Length, Step.Data(data));
      if bufptr + |data| <= buffer.Length {
        DataInRoom(data);
      } else {
        XSend(data);
      }
    }

    method BufAlloc(n: nat) returns (ptr: nat)
      requires Valid() && n <= buffer.Length
      modifies this
      ensures Valid() && ptr + n == bufptr == Reserve(old(bufptr), buffer.Length, n)
      ensures Extends(old(Stream()), Stream(), BlankCells(n)) && request == old(request)
    {
      if bufptr + n > buffer.Length {
        XFlush();
      }
      ptr := bufptr;
      Advance(n, BlankCells(n));
    }

    // ------------------------------------------------------------------ runs

    /** The stream agrees with the message, and what the client may still store
        into is the end of the buffer. */
    ghost predicate Follows(m: Message)
      reads this, buffer
    {
      && Valid()
      && Agrees(Stream(), Flatten(m.frames))
      && m.open <= bufptr
    }

    /** A store through the pointer `ptr` returned by the last macro. */
    method PutField(ptr: nat, offset: nat, value: Byte, ghost m: Message)
      requires Follows(m) && StepOk(m, Step.PutField(offset, value)) && ptr + m.open == bufptr
      modifies buffer
      ensures Follows(Say(m, Step.PutField(offset, value)))
    {
      ghost var n := |m.frames| - 1;
      ghost var last := m.frames[n];
      ghost var at := |last| - m.open + offset;
      ghost var before := Stream();
      assert m.frames == m.frames[..n] + [last];
      FlattenAppend(m.frames[..n], last);
      FlattenAppend(m.frames[..n], last[at := Known(value)]);
      buffer[ptr + offset] := value;
      ghost var k := |Flatten(m.frames[..n])| + at;
      assert Stream() == before[k := value];
    }

    method PerformRequest(step: Step) returns (req: nat)
      requires Valid() && IsRequest(step) && StepOk(Message([], 0), step) && Fits(step, buffer.Length)
      modifies this, buffer
      ensures Valid() && req + |RequestFrame(step)| == bufptr == NextPtr(old(bufptr), buffer.Length, step)
      ensures Extends(old(Stream()), Stream(), RequestFrame(step))
      ensures request == (old(request) + 1) % REQUEST_MODULUS
    {
      match step
      case GetReq(reqType, size) => req := GetReq(reqType, size);
      case GetReqExtra(reqType, size, extra) => req := GetReqExtra(reqType, size, extra);
      case GetResReq(reqType, rid) => req := GetResReq(reqType, rid);
      case GetEmptyReq(reqType) => req := GetEmptyReq(reqType);
    }

    method Perform(step: Step, ptr: nat, ghost m: Message) returns (ptr': nat)
      requires Follows(m) && StepOk(m, step) && Fits(step, buffer.Length)
      requires m.open > 0 ==> ptr + m.open == bufptr
      modifies this, buffer
      ensures bufptr == NextPtr(old(bufptr), buffer.Length, step)
      ensures Valid() ==> Follows(Say(m, step)) && (Say(m, step).open > 0 ==> ptr' + Say(m, step).open == bufptr)
      ensures request == if IsRequest(step) then (old(request) + 1) % REQUEST_MODULUS else old(request)
    {
      ptr' := ptr;
      ghost var said, before := Flatten(m.frames), Stream();
      if IsRequest(step) {
        ptr' := PerformRequest(step);
        FlattenAppend(m.frames, RequestFrame(step));
        ExtendsAgrees(before, Stream(), said, RequestFrame(step));
      } else {
        match step
        case PutField(offset, value) =>
          PutField(ptr, offset, value, m);
        case Data(data) =>
          Data(data);
          FlattenContinue(m.frames, PaddedCells(data));
          if Valid() { ExtendsAgrees(before, Stream(), said, PaddedCells(data)); }
        case BufAlloc(n) =>
          ptr' := BufAlloc(n);
          FlattenContinue(m.frames, BlankCells(n));
          ExtendsAgrees(before, Stream(), said, BlankCells(n));
      }
    }

    /** Over every run that stays in the buffer the stream is what the client said,
        and `request` counts the requests; any other run leaves the buffer, and is
        followed only so far. */
    method Run(steps: seq<Step>)
      requires Valid() && Stream() == [] && StepsOk(Message([], 0), steps)
      requires forall i :: 0 <= i < |steps| ==> Fits(steps[i], buffer.Length)
      modifies this, buffer
      ensures Valid() <==> StaysIn(0, buffer.Length, steps)
      ensures Valid() ==>
                && bufptr == PtrAfter(0, buffer.Length, steps)
                && Agrees(Stream(), Flatten(SayAll(Message([], 0), steps).frames))
                && request == Counted(old(request), steps)
    {
      var ptr: nat := 0;
      ghost var m := Message([], 0);
      ghost var end, count := SayAll(m, steps), Counted(request, steps);
      assert steps[0..] == steps;
      for n := 0 to |steps|
        invariant Follows(m) && (m.open > 0 ==> ptr + m.open == bufptr)
        invariant StepsOk(m, steps[n..]) && SayAll(m, steps[n..]) == end
        invariant Counted(request, steps[n..]) == count
        invariant SameEnd(bufptr, 0, buffer.Length, steps[n..], steps)
      {
        SayOne(m, steps, n);
        CountOne(request, steps, n);
        PtrOne(bufptr, 0, buffer.Length, steps, n);
        ptr := Perform(steps[n], ptr, m);
        if bufptr > buffer.Length { return; }
        m := Say(m, steps[n]);
      }
      assert steps[|steps|..] == [];
    }
  }

  lemma WrapsOnce(request: nat, more: nat)
    requires request < REQUEST_MODULUS
    ensures ((request + 1) % REQUEST_MODULUS + more) % REQUEST_MODULUS == (request + 1 + more) % REQUEST_MODULUS
  {
    var x := (request + 1) % REQUEST_MODULUS + more;
    var q, r := x / REQUEST_MODULUS, x % REQUEST_MODULUS;
    if request + 1 == REQUEST_MODULUS {
      DivModUnique(request + 1, REQUEST_MODULUS, 1, 0);
      DivModUnique(request + 1 + more, REQUEST_MODULUS, q + 1, r);
    } else {
      DivModUnique(request + 1, REQUEST_MODULUS, 0, request + 1);
    }
  }

  /** It is the number of requests, modulo 2^32. */
  lemma {:induction false} CountedIsCount(request: nat, steps: seq<Step>)
    requires request < REQUEST_MODULUS
    ensures Counted(request, steps) == (request + RequestCount(steps)) % REQUEST_MODULUS
    decreases |steps|
  {
    if steps == [] {
      DivModUnique(request, REQUEST_MODULUS, 0, request);
    } else {
      CountedIsCount(NextRequest(request, steps[0]), steps[1..]);
      if IsRequest(steps[0]) { WrapsOnce(request, RequestCount(steps[1..])); }
    }
  }

  /** The server reads back exactly the requests that were issued: see
      RequestsRecovered. */
  method RunAndSplit(d: Display, steps: seq<Step>) returns (ghost packets: seq<seq<Byte>>)
    requires d.Valid() && d.Stream() == [] && d.request == 0
    requires Truthful(steps) && StaysIn(0, d.buffer.Length, steps)
    requires forall i :: 0 <= i < |steps| ==> Fits(steps[i], d.buffer.Length)
    modifies d, d.buffer
    ensures d.Valid() && Split(d.Stream()) == Some(packets)
    ensures Carries(packets, SayAll(Message([], 0), steps).frames)
    ensures |packets| == RequestCount(steps) && d.request == |packets| % REQUEST_MODULUS
    ensures AllArrived(packets, steps)
  {
    d.Run(steps);
    CountedIsCount(0, steps);
    RequestsRecovered(steps, d.Stream());
    packets := Split(d.Stream()).value;
    AllAreHeard(packets, steps);
  }

  /** Buffering is invisible: with any two buffer sizes that are big enough, the
      same steps give streams of the same length that are equal in every byte
      that a macro or the client stored. */
  method RunTwo(d: Display, e: Display, steps: seq<Step>)
    requires d != e && d.buffer != e.buffer
    requires d.Valid() && e.Valid() && d.Stream() == e.Stream() == []
    requires StepsOk(Message([], 0), steps)
    requires StaysIn(0, d.buffer.Length, steps) && StaysIn(0, e.buffer.Length, steps)
    requires forall i :: 0 <= i < |steps| ==> Fits(steps[i], d.buffer.Length) && Fits(steps[i], e.buffer.Length)
    modifies d, d.buffer, e, e.buffer
    ensures d.Valid() && e.Valid() && |d.Stream()| == |e.Stream()|
    ensures var said := Flatten(SayAll(Message([], 0), steps).frames);
            && |said| == |d.Stream()|
            && forall i :: 0 <= i < |said| && said[i].Known? ==> d.Stream()[i] == e.Stream()[i] == said[i].value
  {
    d.Run(steps);
    e.Run(steps);
  }
}
