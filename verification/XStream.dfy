/** What a client of the Xlib packetising macros means to say, independent of
    buffers: a list of frames, one per request, whose bytes are known where the
    macros or the client stored them. */
module XStream {
  import opened Bits
  import opened Bytes

  /** One use of a macro of usr/X386/include/X11/Xlibint.h. `PutField` is a store
      that the client makes through the pointer the last macro gave it. */
  datatype Step =
    | GetReq(reqType: Byte, size: nat)
    | GetReqExtra(reqType: Byte, size: nat, extra: nat)
    | GetResReq(reqType: Byte, rid: nat)
    | GetEmptyReq(reqType: Byte)
    | PutField(offset: nat, value: Byte)
    | Data(data: seq<Byte>)
    | BufAlloc(n: nat)

  const SIZEOF_REQ := 4
  const SIZEOF_RESOURCE_REQ := 8
  const LENGTH_LIMIT := 0x10000

  /** A fresh request: its type, an unset byte, its length in words as a 16-bit
      field, and a body that nobody has filled in yet. */
  function Frame(reqType: Byte, size: nat): (f: seq<Cell>)
    requires size >= SIZEOF_REQ
    ensures |f| == size
  {
    [Known(reqType), Blank] + KnownCells(Little16(size / 4)) + BlankCells(size - SIZEOF_REQ)
  }

  function ResourceFrame(reqType: Byte, rid: nat): (f: seq<Cell>)
    ensures |f| == SIZEOF_RESOURCE_REQ
  {
    [Known(reqType), Blank] + KnownCells(Little16(2)) + KnownCells(Little32(rid))
  }

  lemma NextWord(len: nat)
    ensures RoundUp(len, 3) % 4 == 0 && len <= RoundUp(len, 3) < len + 4
    ensures forall y :: y % 4 == 0 && len <= y ==> RoundUp(len, 3) <= y
  {
    assert Pow2(2) == 4;
    RoundUpIsLeastMultiple(len, 2);
  }

  function Padded(len: nat): nat {
    NextWord(len);
    RoundUp(len, 3)
  }

  function PaddedCells(data: seq<Byte>): (cells: seq<Cell>)
    ensures |cells| == Padded(|data|)
  {
    NextWord(|data|);
    KnownCells(data) + BlankCells(Padded(|data|) - |data|)
  }

  // -------------------------------------------------------------- messages

  /** The frames so far; the last `open` bytes can still be stored into. */
  datatype Message = Message(frames: seq<seq<Cell>>, open: nat)

  predicate IsRequest(step: Step) {
    step.GetReq? || step.GetReqExtra? || step.GetResReq? || step.GetEmptyReq?
  }

  /** What the header says its users must do: sizes of requests come in words, and
      stores stay inside what the last macro returned. */
  predicate StepOk(m: Message, step: Step) {
    match step
    case GetReq(_, size) => SIZEOF_REQ <= size && size % 4 == 0
    case GetReqExtra(_, size, extra) => SIZEOF_REQ <= size && size % 4 == 0 && extra % 4 == 0
    case GetResReq(_, _) => true
    case GetEmptyReq(_) => true
    case PutField(offset, _) => offset < m.open && m.frames != [] && m.open <= |m.frames[|m.frames| - 1]|
    case Data(_) => true
    case BufAlloc(_) => true
  }

  /** What is reserved at once must fit into an empty buffer. */
  predicate Fits(step: Step, capacity: nat) {
    match step
    case GetReq(_, size) => size <= capacity
    case GetReqExtra(_, size, extra) => size + extra <= capacity
    case GetResReq(_, _) => SIZEOF_RESOURCE_REQ <= capacity
    case GetEmptyReq(_) => SIZEOF_REQ <= capacity
    case PutField(_, _) => true
    case Data(_) => true
    case BufAlloc(n) => n <= capacity
  }

  predicate Sized(step: Step) { step.GetReq? || step.GetReqExtra? ==> step.size >= SIZEOF_REQ }

  function RequestFrame(step: Step): seq<Cell>
    requires IsRequest(step) && Sized(step)
  {
    match step
    case GetReq(reqType, size) => Frame(reqType, size)
    case GetReqExtra(reqType, size, extra) => Frame(reqType, size + extra)
    case GetResReq(reqType, rid) => ResourceFrame(reqType, rid)
    case GetEmptyReq(reqType) => Frame(reqType, SIZEOF_REQ)
  }

  function Continue(frames: seq<seq<Cell>>, cells: seq<Cell>): seq<seq<Cell>> {
    if frames == [] then [cells]
    else frames[..|frames| - 1] + [frames[|frames| - 1] + cells]
  }

  function Say(m: Message, step: Step): Message
    requires StepOk(m, step)
  {
    if IsRequest(step) then
      Message(m.frames + [RequestFrame(step)], |RequestFrame(step)|)
    else
      match step
      case PutField(offset, value) =>
        var last := m.frames[|m.frames| - 1];
        m.(frames := m.frames[..|m.frames| - 1] + [last[|last| - m.open + offset := Known(value)]])
      case Data(data) => Message(Continue(m.frames, PaddedCells(data)), 0)
      case BufAlloc(n) => Message(Continue(m.frames, BlankCells(n)), n)
  }

  predicate StepsOk(m: Message, steps: seq<Step>)
    decreases |steps|
  {
    steps == [] ||
    (StepOk(m, steps[0]) && StepsOk(Say(m, steps[0]), steps[1..]))
  }

  function SayAll(m: Message, steps: seq<Step>): Message
    requires StepsOk(m, steps)
    decreases |steps|
  {
    if steps == [] then m else SayAll(Say(m, steps[0]), steps[1..])
  }

  function RequestCount(steps: seq<Step>): nat {
    if steps == [] then 0 else (if IsRequest(steps[0]) then 1 else 0) + RequestCount(steps[1..])
  }

  /** The frames, end to end. */
  function Flatten(frames: seq<seq<Cell>>): seq<Cell> {
    if frames == [] then [] else Flatten(frames[..|frames| - 1]) + frames[|frames| - 1]
  }

  lemma FlattenAppend(frames: seq<seq<Cell>>, f: seq<Cell>)
    ensures Flatten(frames + [f]) == Flatten(frames) + f
  {
    assert (frames + [f])[..|frames|] == frames;
  }

  lemma FlattenContinue(frames: seq<seq<Cell>>, cells: seq<Cell>)
    ensures Flatten(Continue(frames, cells)) == Flatten(frames) + cells
  {
    if frames == [] {
      assert [cells][..0] == [];
      assert Flatten([cells]) == [] + cells;
    } else {
      var n := |frames| - 1;
      FlattenAppend(frames[..n], frames[n] + cells);
    }
  }

  // --------------------------------------------------------------- framing

  datatype Option<T> = None | Some(value: T)

  /** How the server cuts a byte stream into requests: by length fields alone. */
  function Split(s: seq<Byte>): Option<seq<seq<Byte>>>
    decreases |s|
  {
    if s == [] then Some([])
    else if |s| < 4 then None
    else
      var n := 4 * From16(s[2], s[3]);
      if n == 0 || n > |s| then None
      else
        var rest := Split(s[n..]);
        if rest.None? then None else Some([s[..n]] + rest.value)
  }

  /** The length field of a frame is there, and tells the truth. */
  predicate WellFramed(f: seq<Cell>) {
    |f| >= 4 && f[2].Known? && f[3].Known? && 4 * From16(f[2].value, f[3].value) == |f|
  }

  function FlattenLeft(frames: seq<seq<Cell>>): seq<Cell> {
    if frames == [] then [] else frames[0] + FlattenLeft(frames[1..])
  }

  lemma {:induction false} FlattenBothWays(frames: seq<seq<Cell>>)
    ensures Flatten(frames) == FlattenLeft(frames)
    decreases |frames|
  {
    if |frames| == 1 {
      assert frames[..0] == [] && frames[1..] == [];
    } else if |frames| >= 2 {
      var n := |frames| - 1;
      var mid := frames[1..n];
      FlattenBothWays(frames[..n]);
      FlattenBothWays(frames[1..]);
      FlattenBothWays(mid);
      assert frames[..n][1..] == mid && frames[1..][..n - 1] == mid;
      assert frames[0] + (Flatten(mid) + frames[n]) == (frames[0] + Flatten(mid)) + frames[n];
    }
  }

  ghost predicate Carries(packets: seq<seq<Byte>>, frames: seq<seq<Cell>>) {
    && |packets| == |frames|
    && forall i :: 0 <= i < |frames| ==> Agrees(packets[i], frames[i])
  }

  lemma {:induction false} SplitFromLeft(actual: seq<Byte>, frames: seq<seq<Cell>>)
    requires Agrees(actual, FlattenLeft(frames))
    requires forall i :: 0 <= i < |frames| ==> WellFramed(frames[i])
    ensures Split(actual).Some? && Carries(Split(actual).value, frames)
    decreases |frames|
  {
    if frames == [] {
    } else {
      var f, n := frames[0], |frames[0]|;
      var all := FlattenLeft(frames);
      assert WellFramed(f);
      assert all[2] == f[2] && all[3] == f[3];
      assert Agrees(actual[..n], f) by {
        assert forall i :: 0 <= i < n ==> all[i] == f[i];
      }
      assert Agrees(actual[n..], FlattenLeft(frames[1..])) by {
        assert forall i :: 0 <= i < |all| - n ==> all[n + i] == FlattenLeft(frames[1..])[i];
      }
      SplitFromLeft(actual[n..], frames[1..]);
      var rest := Split(actual[n..]).value;
      assert Split(actual).value == [actual[..n]] + rest;
    }
  }

  /** Any bytes that agree with well-framed requests split into exactly those
      requests, in order, each with the contents its client gave it. */
  lemma SplitRecoversFrames(actual: seq<Byte>, frames: seq<seq<Cell>>)
    requires Agrees(actual, Flatten(frames))
    requires forall i :: 0 <= i < |frames| ==> WellFramed(frames[i])
    ensures Split(actual).Some? && Carries(Split(actual).value, frames)
  {
    FlattenBothWays(frames);
    SplitFromLeft(actual, frames);
  }

  /** A frame whose length field its client or a macro has stored. */
  predicate LengthKnown(f: seq<Cell>) { |f| >= 4 && f[2].Known? && f[3].Known? }

  /** The packets that a stream splits into are as long as they say. */
  lemma {:induction false} PacketsTellLength(s: seq<Byte>)
    requires Split(s).Some?
    ensures forall i :: 0 <= i < |Split(s).value| ==>
                          var p := Split(s).value[i];
                          |p| >= 4 && 4 * From16(p[2], p[3]) == |p|
    decreases |s|
  {
    if s == [] {
    } else {
      var n := 4 * From16(s[2], s[3]);
      PacketsTellLength(s[n..]);
      assert Split(s).value == [s[..n]] + Split(s[n..]).value;
    }
  }

  /** A stream is cut into the frames that were said exactly when every length field
      tells the truth. */
  lemma SplitExactlyWhen(actual: seq<Byte>, frames: seq<seq<Cell>>)
    requires Agrees(actual, Flatten(frames))
    requires forall i :: 0 <= i < |frames| ==> LengthKnown(frames[i])
    ensures (Split(actual).Some? && Carries(Split(actual).value, frames)) <==>
            (forall i :: 0 <= i < |frames| ==> WellFramed(frames[i]))
  {
    if Split(actual).Some? && Carries(Split(actual).value, frames) {
      PacketsTellLength(actual);
      forall i | 0 <= i < |frames|
        ensures WellFramed(frames[i])
      {
        var p := Split(actual).value[i];
        assert Agrees(p, frames[i]) && LengthKnown(frames[i]);
      }
    }
    if forall i :: 0 <= i < |frames| ==> WellFramed(frames[i]) {
      SplitRecoversFrames(actual, frames);
    }
  }

  /** Request macros and stores that leave the length field alone. */
  predicate PlainRequest(step: Step) {
    match step
    case GetReq(_, size) => size / 4 < LENGTH_LIMIT
    case GetReqExtra(_, size, extra) => (size + extra) / 4 < LENGTH_LIMIT
    case GetResReq(_, _) => true
    case GetEmptyReq(_) => true
    case PutField(offset, _) => offset != 2 && offset != 3
    case Data(_) => false
    case BufAlloc(_) => false
  }

  ghost predicate AllWellFramed(m: Message) {
    && (forall i :: 0 <= i < |m.frames| ==> WellFramed(m.frames[i]))
    && (m.frames != [] ==> m.open == |m.frames[|m.frames| - 1]|)
  }

  lemma LittleRoundTrip(x: nat)
    requires x < LENGTH_LIMIT
    ensures From16(Little16(x)[0], Little16(x)[1]) == x
  {
    assert x / 256 % 256 == x / 256;
  }

  lemma LengthFieldIsSize(reqType: Byte, size: nat)
    requires SIZEOF_REQ <= size && size % 4 == 0 && size / 4 < LENGTH_LIMIT
    ensures WellFramed(Frame(reqType, size))
  {
    LittleRoundTrip(size / 4);
  }

  lemma FrameWellFramed(m: Message, step: Step)
    requires IsRequest(step) && StepOk(m, step) && PlainRequest(step)
    ensures WellFramed(RequestFrame(step))
  {
    match step
    case GetReq(reqType, size) => LengthFieldIsSize(reqType, size);
    case GetReqExtra(reqType, size, extra) => LengthFieldIsSize(reqType, size + extra);
    case GetResReq(reqType, rid) =>
      var f := ResourceFrame(reqType, rid);
      assert f[2] == Known(2) && f[3] == Known(0);
    case GetEmptyReq(reqType) => LengthFieldIsSize(reqType, SIZEOF_REQ);
  }

  lemma {:induction false} RequestsWellFramed(m: Message, steps: seq<Step>)
    requires StepsOk(m, steps) && AllWellFramed(m)
    requires forall i :: 0 <= i < |steps| ==> PlainRequest(steps[i])
    ensures AllWellFramed(SayAll(m, steps))
    ensures |SayAll(m, steps).frames| == |m.frames| + RequestCount(steps)
    decreases |steps|
  {
    if steps == [] {
    } else {
      var step := steps[0];
      assert PlainRequest(step);
      if IsRequest(step) { FrameWellFramed(m, step); }
      RequestsWellFramed(Say(m, step), steps[1..]);
    }
  }

  /** `Data` and `BufAlloc` add to a request, never to their number. */
  lemma {:induction false} FramePerRequest(m: Message, steps: seq<Step>)
    requires StepsOk(m, steps)
    requires m.frames != [] || (steps != [] ==> IsRequest(steps[0]))
    ensures |SayAll(m, steps).frames| == |m.frames| + RequestCount(steps)
    decreases |steps|
  {
    if steps == [] {
    } else {
      FramePerRequest(Say(m, steps[0]), steps[1..]);
    }
  }

  /** A request whose length field was overwritten, with data behind it. */
  function DataFrame(reqType: Byte, size: nat, lo: Byte, hi: Byte, data: seq<Byte>): seq<Cell>
    requires size >= SIZEOF_REQ
  {
    Frame(reqType, size)[2 := Known(lo)][3 := Known(hi)] + PaddedCells(data)
  }

  lemma SayData(frames: seq<seq<Cell>>, f: seq<Cell>, data: seq<Byte>, open: nat)
    ensures Say(Message(frames + [f], open), Data(data)) == Message(frames + [f + PaddedCells(data)], 0)
  {
    assert (frames + [f])[..|frames|] == frames;
  }

  lemma SayPut(frames: seq<seq<Cell>>, f: seq<Cell>, offset: nat, value: Byte)
    requires offset < |f|
    ensures StepOk(Message(frames + [f], |f|), PutField(offset, value))
    ensures Say(Message(frames + [f], |f|), PutField(offset, value))
         == Message(frames + [f[offset := Known(value)]], |f|)
  {
    assert (frames + [f])[..|frames|] == frames;
  }

  lemma SayLast(m: Message, step: Step)
    requires StepOk(m, step)
    ensures StepsOk(m, [step]) && SayAll(m, [step]) == Say(m, step)
  {
    assert [step][1..] == [];
  }

  lemma SayNext(m: Message, step: Step, rest: seq<Step>, end: Message)
    requires StepOk(m, step) && StepsOk(Say(m, step), rest) && SayAll(Say(m, step), rest) == end
    ensures StepsOk(m, [step] + rest) && SayAll(m, [step] + rest) == end
  {
    assert ([step] + rest)[1..] == rest;
  }

  lemma DataSteps(m: Message, reqType: Byte, size: nat, lo: Byte, hi: Byte, data: seq<Byte>)
    requires SIZEOF_REQ <= size && size % 4 == 0
    ensures var steps := [GetReq(reqType, size), PutField(2, lo), PutField(3, hi), Data(data)];
            StepsOk(m, steps) && SayAll(m, steps) == Message(m.frames + [DataFrame(reqType, size, lo, hi, data)], 0)
  {
    var f := Frame(reqType, size);
    var g := f[2 := Known(lo)];
    var h := g[3 := Known(hi)];
    var end := Message(m.frames + [DataFrame(reqType, size, lo, hi, data)], 0);
    SayData(m.frames, h, data, size);
    SayLast(Message(m.frames + [h], size), Data(data));
    SayPut(m.frames, g, 3, hi);
    SayNext(Message(m.frames + [g], size), PutField(3, hi), [Data(data)], end);
    SayPut(m.frames, f, 2, lo);
    SayNext(Message(m.frames + [f], size), PutField(2, lo), [PutField(3, hi), Data(data)], end);
    SayNext(m, GetReq(reqType, size), [PutField(2, lo), PutField(3, hi), Data(data)], end);
  }

  lemma DataFrameWellFramed(reqType: Byte, size: nat, data: seq<Byte>)
    requires SIZEOF_REQ <= size && size % 4 == 0 && (size + Padded(|data|)) / 4 < LENGTH_LIMIT
    ensures var length := Little16((size + Padded(|data|)) / 4);
            WellFramed(DataFrame(reqType, size, length[0], length[1], data))
  {
    NextWord(|data|);
    var total := size + Padded(|data|);
    SumOfMultiples(size, Padded(|data|), 4);
    LittleRoundTrip(total / 4);
  }

  /** A client that sends data with a request first stores the length of both
      into the length field; the frame then tells the truth about the padded
      data too. */
  lemma LengthThenData(m: Message, reqType: Byte, size: nat, data: seq<Byte>)
    requires SIZEOF_REQ <= size && size % 4 == 0
    requires (size + Padded(|data|)) / 4 < LENGTH_LIMIT
    ensures var length := Little16((size + Padded(|data|)) / 4);
            var steps := [GetReq(reqType, size), PutField(2, length[0]), PutField(3, length[1]), Data(data)];
            var f := DataFrame(reqType, size, length[0], length[1], data);
            StepsOk(m, steps) && SayAll(m, steps) == Message(m.frames + [f], 0) && WellFramed(f)
  {
    var words := (size + Padded(|data|)) / 4;
    var length := Little16(words);
    DataSteps(m, reqType, size, length[0], length[1], data);
    DataFrameWellFramed(reqType, size, data);
  }

  /** The length field wraps at 2^16 words: a lone request is read back as itself
      exactly when its size is below that. */
  lemma LengthFieldLimit(reqType: Byte, size: nat, actual: seq<Byte>)
    requires SIZEOF_REQ <= size && size % 4 == 0 && Agrees(actual, Frame(reqType, size))
    ensures Split(actual) == Some([actual]) <==> size < 4 * LENGTH_LIMIT
  {
    var words := size / 4;
    var length := Little16(words);
    assert actual[2] == length[0] && actual[3] == length[1];
    var n := 4 * From16(actual[2], actual[3]);
    if size < 4 * LENGTH_LIMIT {
      LittleRoundTrip(words);
      assert actual[n..] == [] && actual[..n] == actual;
      assert [actual] + [] == [actual];
    } else {
      assert n < size;
      if Split(actual).Some? {
        assert Split(actual).value[0] == actual[..n];
      }
    }
  }

  /** A client that begins with a request, and whose length fields cover what it
      puts into each request. */
  ghost predicate Truthful(steps: seq<Step>) {
    && StepsOk(Message([], 0), steps)
    && (steps != [] ==> IsRequest(steps[0]))
    && forall i :: 0 <= i < |SayAll(Message([], 0), steps).frames| ==>
                     WellFramed(SayAll(Message([], 0), steps).frames[i])
  }

  /** Any stream that agrees with what such a client said splits, by length fields
      only, into one packet per request, in order, with the bytes its client
      stored. */
  lemma RequestsRecovered(steps: seq<Step>, stream: seq<Byte>)
    requires Truthful(steps) && Agrees(stream, Flatten(SayAll(Message([], 0), steps).frames))
    ensures Split(stream).Some?
    ensures Carries(Split(stream).value, SayAll(Message([], 0), steps).frames)
    ensures |Split(stream).value| == RequestCount(steps)
  {
    FramePerRequest(Message([], 0), steps);
    SplitRecoversFrames(stream, SayAll(Message([], 0), steps).frames);
  }

  /** Clients that only use the request macros and leave the length field alone
      are truthful. */
  lemma PlainIsTruthful(steps: seq<Step>)
    requires StepsOk(Message([], 0), steps)
    requires forall i :: 0 <= i < |steps| ==> PlainRequest(steps[i])
    ensures Truthful(steps)
  {
    RequestsWellFramed(Message([], 0), steps);
  }

  // ------------------------------------------------------- what arrives where

  /** What is in a cell at offset `k` of the space that a macro returned, after the
      stores that the client makes before it calls the next macro. */
  function Stored(cell: Cell, steps: seq<Step>, k: nat): Cell
    decreases |steps|
  {
    if steps == [] || !steps[0].PutField? then cell
    else Stored(if steps[0].offset == k then Known(steps[0].value) else cell, steps[1..], k)
  }

  /** The client stores nothing at the offsets from `lo` up to `hi`. */
  predicate Untouched(steps: seq<Step>, lo: nat, hi: nat) {
    forall k: nat :: lo <= k < hi ==> Stored(Blank, steps, k) == Blank
  }

  lemma {:induction false} NothingStored(cell: Cell, steps: seq<Step>, k: nat)
    ensures Stored(Blank, steps, k) == Blank ==> Stored(cell, steps, k) == cell
    ensures Stored(Blank, steps, k).Known? ==> Stored(cell, steps, k) == Stored(Blank, steps, k)
    ensures cell.Known? ==> Stored(cell, steps, k).Known?
    decreases |steps|
  {
    if steps == [] || !steps[0].PutField? {
    } else if steps[0].offset == k {
      NothingStored(Known(steps[0].value), steps[1..], k);
    } else {
      NothingStored(cell, steps[1..], k);
    }
  }

  lemma {:induction false} EarlierFramesStay(m: Message, steps: seq<Step>, i: nat)
    requires StepsOk(m, steps) && i < |m.frames| - 1
    ensures i < |SayAll(m, steps).frames| && SayAll(m, steps).frames[i] == m.frames[i]
    decreases |steps|
  {
    if steps == [] {
    } else {
      var m' := Say(m, steps[0]);
      assert |m'.frames| >= |m.frames| && m'.frames[i] == m.frames[i];
      EarlierFramesStay(m', steps[1..], i);
    }
  }

  /** Cell `k` of the last frame changes only if it is open, by the stores that come
      at once. */
  function Settled(m: Message, steps: seq<Step>, k: nat): Cell
    requires m.frames != [] && m.open <= |m.frames[|m.frames| - 1]| && k < |m.frames[|m.frames| - 1]|
  {
    var last := m.frames[|m.frames| - 1];
    var start := |last| - m.open;
    if k < start then last[k] else Stored(last[k], steps, k - start)
  }

  lemma {:induction false} LastFrameSettles(m: Message, steps: seq<Step>, k: nat)
    requires StepsOk(m, steps) && m.frames != [] && m.open <= |m.frames[|m.frames| - 1]|
    requires k < |m.frames[|m.frames| - 1]|
    ensures var n, frames := |m.frames| - 1, SayAll(m, steps).frames;
            n < |frames| && k < |frames[n]| && frames[n][k] == Settled(m, steps, k)
    decreases |steps|
  {
    var n := |m.frames| - 1;
    if steps == [] {
    } else if IsRequest(steps[0]) {
      EarlierFramesStay(Say(m, steps[0]), steps[1..], n);
    } else {
      var m' := Say(m, steps[0]);
      assert |m'.frames| == |m.frames| && m'.open <= |m'.frames[n]|;
      LastFrameSettles(m', steps[1..], k);
    }
  }

  lemma {:induction false} LastFrameStays(m: Message, steps: seq<Step>)
    requires StepsOk(m, steps) && m.frames != []
    ensures var n, frames := |m.frames| - 1, SayAll(m, steps).frames;
            n < |frames| && |m.frames[n]| <= |frames[n]|
    decreases |steps|
  {
    if steps == [] {
    } else if IsRequest(steps[0]) {
      EarlierFramesStay(Say(m, steps[0]), steps[1..], |m.frames| - 1);
    } else {
      LastFrameStays(Say(m, steps[0]), steps[1..]);
    }
  }

  lemma {:induction false} SayInParts(m: Message, steps: seq<Step>, j: nat)
    requires StepsOk(m, steps) && j <= |steps|
    ensures StepsOk(m, steps[..j]) && StepsOk(SayAll(m, steps[..j]), steps[j..])
    ensures SayAll(m, steps) == SayAll(SayAll(m, steps[..j]), steps[j..])
    decreases j
  {
    if j == 0 {
      assert steps[0..] == steps;
    } else {
      SayInParts(Say(m, steps[0]), steps[1..], j - 1);
      assert steps[..j][1..] == steps[1..][..j - 1] && steps[1..][j - 1..] == steps[j..];
    }
  }

  function StepLength(step: Step): nat {
    match step
    case GetReq(_, size) => size
    case GetReqExtra(_, size, extra) => size + extra
    case GetResReq(_, _) => SIZEOF_RESOURCE_REQ
    case GetEmptyReq(_) => SIZEOF_REQ
    case PutField(_, _) => 0
    case Data(data) => Padded(|data|)
    case BufAlloc(n) => n
  }

  /** What a macro, other than a store, adds to a request or begins it with. */
  function CellsOf(step: Step): (cells: seq<Cell>)
    requires !step.PutField? && Sized(step)
    ensures |cells| == StepLength(step)
  {
    if IsRequest(step) then RequestFrame(step)
    else match step
      case Data(data) => PaddedCells(data)
      case BufAlloc(n) => BlankCells(n)
  }

  /** How long the last request is after the steps. */
  function LastLength(steps: seq<Step>): nat {
    if steps == [] then 0
    else
      var n := |steps| - 1;
      StepLength(steps[n]) + if IsRequest(steps[n]) then 0 else LastLength(steps[..n])
  }

  lemma {:induction false} LastLengthIs(steps: seq<Step>)
    requires StepsOk(Message([], 0), steps) && steps != [] && IsRequest(steps[0])
    ensures var m := SayAll(Message([], 0), steps);
            m.frames != [] && m.open <= |m.frames[|m.frames| - 1]| == LastLength(steps)
    decreases |steps|
  {
    var n := |steps| - 1;
    SayInParts(Message([], 0), steps, n);
    assert steps[n..] == [steps[n]] && [steps[n]][1..] == [];
    if n > 0 { LastLengthIs(steps[..n]); }
  }

  /** The request that step `j` is, or is part of, counted from 0. */
  function RequestOf(steps: seq<Step>, j: nat): int
    requires j < |steps|
  {
    RequestCount(steps[..j]) - if IsRequest(steps[j]) then 0 else 1
  }

  /** Where in its request the bytes of step `j` begin. */
  function OffsetOf(steps: seq<Step>, j: nat): nat
    requires j < |steps|
  {
    if IsRequest(steps[j]) then 0 else LastLength(steps[..j])
  }

  /** What is said up to step `j`, and what it adds to the last frame. */
  ghost function Through(steps: seq<Step>, j: nat): Message
    requires j < |steps| && StepsOk(Message([], 0), steps)
  {
    SayInParts(Message([], 0), steps, j + 1);
    SayAll(Message([], 0), steps[..j + 1])
  }

  lemma SayThrough(steps: seq<Step>, j: nat)
    requires j < |steps| && StepsOk(Message([], 0), steps)
    ensures StepsOk(Message([], 0), steps[..j]) && StepOk(SayAll(Message([], 0), steps[..j]), steps[j])
    ensures Through(steps, j) == Say(SayAll(Message([], 0), steps[..j]), steps[j])
    ensures StepsOk(Through(steps, j), steps[j + 1..])
    ensures SayAll(Through(steps, j), steps[j + 1..]) == SayAll(Message([], 0), steps)
  {
    SayInParts(Message([], 0), steps, j + 1);
    SayInParts(Message([], 0), steps[..j + 1], j);
    assert steps[..j + 1][..j] == steps[..j] && steps[..j + 1][j..] == [steps[j]] && [steps[j]][1..] == [];
  }

  lemma LastFrameOf(steps: seq<Step>, j: nat)
    requires j < |steps| && StepsOk(Message([], 0), steps) && IsRequest(steps[0]) && !steps[j].PutField?
    ensures Sized(steps[j])
    ensures var m := Through(steps, j);
            && |m.frames| - 1 == RequestOf(steps, j) >= 0
            && var last := m.frames[|m.frames| - 1];
            && |last| == OffsetOf(steps, j) + StepLength(steps[j])
            && last[OffsetOf(steps, j)..] == CellsOf(steps[j])
            && m.open == if steps[j].Data? then 0 else StepLength(steps[j])
  {
    SayThrough(steps, j);
    assert steps[..j] != [] ==> steps[..j][0] == steps[0];
    FramePerRequest(Message([], 0), steps[..j]);
    if !IsRequest(steps[j]) { LastLengthIs(steps[..j]); }
  }

  /** In the end, the frame that is last in `m` has the cells that `m` and the stores
      that follow at once give it. */
  ghost predicate SettlesAs(m: Message, rest: seq<Step>, end: Message) {
    && m.frames != [] && m.open <= |m.frames[|m.frames| - 1]|
    && var n := |m.frames| - 1;
    && n < |end.frames| && |m.frames[n]| <= |end.frames[n]|
    && forall k: nat :: k < |m.frames[n]| ==> end.frames[n][k] == Settled(m, rest, k)
  }

  lemma LastSettles(m: Message, rest: seq<Step>)
    requires StepsOk(m, rest) && m.frames != [] && m.open <= |m.frames[|m.frames| - 1]|
    ensures SettlesAs(m, rest, SayAll(m, rest))
  {
    var n, end := |m.frames| - 1, SayAll(m, rest);
    LastFrameStays(m, rest);
    forall k: nat | k < |m.frames[n]|
      ensures end.frames[n][k] == Settled(m, rest, k)
    {
      LastFrameSettles(m, rest, k);
    }
  }

  lemma LastCellSettles(m: Message, rest: seq<Step>, end: Message, off: nat, cells: seq<Cell>, k: nat)
    requires SettlesAs(m, rest, end) && k < |cells|
    requires |m.frames[|m.frames| - 1]| == off + |cells| && m.frames[|m.frames| - 1][off..] == cells
    requires m.open == 0 || m.open == |cells|
    ensures var n := |m.frames| - 1;
            && n < |end.frames| && off + k < |end.frames[n]|
            && end.frames[n][off + k] == if m.open == 0 then cells[k] else Stored(cells[k], rest, k)
  {
    var last := m.frames[|m.frames| - 1];
    assert cells[k] == last[off + k];
    assert end.frames[|m.frames| - 1][off + k] == Settled(m, rest, off + k);
  }

  lemma StepSettles(steps: seq<Step>, j: nat)
    requires j < |steps| && StepsOk(Message([], 0), steps) && IsRequest(steps[0]) && !steps[j].PutField?
    ensures SettlesAs(Through(steps, j), steps[j + 1..], SayAll(Message([], 0), steps))
  {
    SayThrough(steps, j);
    LastFrameOf(steps, j);
    LastSettles(Through(steps, j), steps[j + 1..]);
  }

  /** Every macro call puts its bytes into its request at its place, and there they
      stay: request `RequestOf` has at offset `OffsetOf` what the macro stores, but
      for what the client stores before its next call. */
  lemma StepArrives(steps: seq<Step>, j: nat, k: nat)
    requires j < |steps| && StepsOk(Message([], 0), steps) && IsRequest(steps[0])
    requires !steps[j].PutField? && k < StepLength(steps[j])
    ensures Sized(steps[j])
    ensures var frames, i := SayAll(Message([], 0), steps).frames, RequestOf(steps, j);
            && 0 <= i < |frames| && OffsetOf(steps, j) + k < |frames[i]|
            && frames[i][OffsetOf(steps, j) + k] ==
               if steps[j].Data? then CellsOf(steps[j])[k] else Stored(CellsOf(steps[j])[k], steps[j + 1..], k)
  {
    LastFrameOf(steps, j);
    StepSettles(steps, j);
    var m, end := Through(steps, j), SayAll(Message([], 0), steps);
    LastCellSettles(m, steps[j + 1..], end, OffsetOf(steps, j), CellsOf(steps[j]), k);
  }

  /** What the server finds of step `j` in the packet of its request: the type and
      the resource ID that the client named, unless it has stored something else
      there; what it has stored; and its data. */
  ghost predicate Arrived(packets: seq<seq<Byte>>, steps: seq<Step>, j: nat)
    requires j < |steps|
  {
    var i, off, rest := RequestOf(steps, j), OffsetOf(steps, j), steps[j + 1..];
    && 0 <= i < |packets| && off + StepLength(steps[j]) <= |packets[i]|
    && (IsRequest(steps[j]) ==>
          |packets[i]| >= 4 && (Untouched(rest, 0, 1) ==> packets[i][0] == steps[j].reqType))
    && (steps[j].GetResReq? && Untouched(rest, 4, 8) ==>
          From32(packets[i][4..8]) == steps[j].rid % 0x1_0000_0000)
    && (steps[j].Data? ==>
          off + |steps[j].data| <= |packets[i]| && packets[i][off..off + |steps[j].data|] == steps[j].data)
    && (!steps[j].Data? ==>
          forall k: nat :: k < StepLength(steps[j]) && Stored(Blank, rest, k).Known? ==>
                             packets[i][off + k] == Stored(Blank, rest, k).value)
  }

  /** The packet of a step reaches at least to its end. */
  lemma LastFrameReaches(packets: seq<seq<Byte>>, steps: seq<Step>, j: nat)
    requires j < |steps| && StepsOk(Message([], 0), steps) && IsRequest(steps[0]) && !steps[j].PutField?
    requires Carries(packets, SayAll(Message([], 0), steps).frames)
    ensures Sized(steps[j]) && 0 <= RequestOf(steps, j) < |packets|
    ensures OffsetOf(steps, j) + StepLength(steps[j]) <= |packets[RequestOf(steps, j)]|
  {
    LastFrameOf(steps, j);
    StepSettles(steps, j);
    var n, frames := RequestOf(steps, j), SayAll(Message([], 0), steps).frames;
    assert Agrees(packets[n], frames[n]);
  }

  lemma CellArrives(packets: seq<seq<Byte>>, steps: seq<Step>, j: nat, k: nat)
    requires j < |steps| && StepsOk(Message([], 0), steps) && IsRequest(steps[0])
    requires !steps[j].PutField? && k < StepLength(steps[j])
    requires Carries(packets, SayAll(Message([], 0), steps).frames)
    ensures Sized(steps[j]) && 0 <= RequestOf(steps, j) < |packets|
    ensures var packet, cell := packets[RequestOf(steps, j)], CellsOf(steps[j])[k];
            var stored := if steps[j].Data? then cell else Stored(cell, steps[j + 1..], k);
            OffsetOf(steps, j) + k < |packet| && (stored.Known? ==> packet[OffsetOf(steps, j) + k] == stored.value)
  {
    StepArrives(steps, j, k);
    assert Agrees(packets[RequestOf(steps, j)], SayAll(Message([], 0), steps).frames[RequestOf(steps, j)]);
  }

  /** The bytes of the packet where no store has followed, as the macro made them. */
  lemma MacroBytesArrive(packets: seq<seq<Byte>>, steps: seq<Step>, j: nat, k: nat, value: Byte)
    requires j < |steps| && StepsOk(Message([], 0), steps) && IsRequest(steps[0])
    requires !steps[j].PutField? && k < StepLength(steps[j]) && Sized(steps[j])
    requires Carries(packets, SayAll(Message([], 0), steps).frames)
    requires CellsOf(steps[j])[k] == Known(value)
    requires steps[j].Data? || Stored(Blank, steps[j + 1..], k) == Blank
    ensures 0 <= RequestOf(steps, j) < |packets| && OffsetOf(steps, j) + k < |packets[RequestOf(steps, j)]|
    ensures packets[RequestOf(steps, j)][OffsetOf(steps, j) + k] == value
  {
    CellArrives(packets, steps, j, k);
    NothingStored(CellsOf(steps[j])[k], steps[j + 1..], k);
  }

  /** From offset `lo` on the cells have the values `bytes`. */
  predicate Spells(cells: seq<Cell>, lo: nat, bytes: seq<Byte>) {
    lo + |bytes| <= |cells| && forall k: nat :: k < |bytes| ==> cells[lo + k] == Known(bytes[k])
  }

  lemma BytesArrive(packets: seq<seq<Byte>>, steps: seq<Step>, j: nat, lo: nat, bytes: seq<Byte>)
    requires j < |steps| && StepsOk(Message([], 0), steps) && IsRequest(steps[0])
    requires !steps[j].PutField? && lo + |bytes| <= StepLength(steps[j]) && Sized(steps[j])
    requires Carries(packets, SayAll(Message([], 0), steps).frames)
    requires Spells(CellsOf(steps[j]), lo, bytes)
    requires steps[j].Data? || Untouched(steps[j + 1..], lo, lo + |bytes|)
    ensures var i, at := RequestOf(steps, j), OffsetOf(steps, j) + lo;
            0 <= i < |packets| && at + |bytes| <= |packets[i]| && packets[i][at..at + |bytes|] == bytes
  {
    LastFrameReaches(packets, steps, j);
    var packet, at := packets[RequestOf(steps, j)], OffsetOf(steps, j) + lo;
    forall k: nat | k < |bytes|
      ensures packet[at + k] == bytes[k]
    {
      MacroBytesArrive(packets, steps, j, lo + k, bytes[k]);
    }
    assert packet[at..at + |bytes|] == bytes;
  }

  lemma IdArrives(packets: seq<seq<Byte>>, steps: seq<Step>, j: nat)
    requires j < |steps| && StepsOk(Message([], 0), steps) && IsRequest(steps[0]) && steps[j].GetResReq?
    requires Carries(packets, SayAll(Message([], 0), steps).frames)
    requires Untouched(steps[j + 1..], 4, 8)
    ensures 0 <= RequestOf(steps, j) < |packets| && |packets[RequestOf(steps, j)]| >= 8
    ensures packets[RequestOf(steps, j)][4..8] == Little32(steps[j].rid)
  {
    var id := Little32(steps[j].rid);
    assert Spells(ResourceFrame(steps[j].reqType, steps[j].rid), 4, id);
    BytesArrive(packets, steps, j, 4, id);
  }

  lemma DataArrives(packets: seq<seq<Byte>>, steps: seq<Step>, j: nat)
    requires j < |steps| && StepsOk(Message([], 0), steps) && IsRequest(steps[0]) && steps[j].Data?
    requires Carries(packets, SayAll(Message([], 0), steps).frames)
    ensures var i, off, data := RequestOf(steps, j), OffsetOf(steps, j), steps[j].data;
            0 <= i < |packets| && off + |data| <= |packets[i]| && packets[i][off..off + |data|] == data
  {
    var data := steps[j].data;
    NextWord(|data|);
    assert Spells(PaddedCells(data), 0, data);
    BytesArrive(packets, steps, j, 0, data);
  }

  lemma StoresArrive(packets: seq<seq<Byte>>, steps: seq<Step>, j: nat)
    requires j < |steps| && StepsOk(Message([], 0), steps) && IsRequest(steps[0])
    requires !steps[j].PutField? && !steps[j].Data?
    requires Carries(packets, SayAll(Message([], 0), steps).frames)
    ensures var i, off, rest := RequestOf(steps, j), OffsetOf(steps, j), steps[j + 1..];
            && 0 <= i < |packets| && off + StepLength(steps[j]) <= |packets[i]|
            && forall k: nat :: k < StepLength(steps[j]) && Stored(Blank, rest, k).Known? ==>
                                  packets[i][off + k] == Stored(Blank, rest, k).value
  {
    var i, off, rest := RequestOf(steps, j), OffsetOf(steps, j), steps[j + 1..];
    LastFrameReaches(packets, steps, j);
    forall k: nat | k < StepLength(steps[j]) && Stored(Blank, rest, k).Known?
      ensures packets[i][off + k] == Stored(Blank, rest, k).value
    {
      CellArrives(packets, steps, j, k);
      NothingStored(CellsOf(steps[j])[k], rest, k);
    }
  }

  /** Whatever the server reads back as a client's frames, it finds every step of the
      client in the packet of its request. */
  lemma ClientIsHeard(packets: seq<seq<Byte>>, steps: seq<Step>, j: nat)
    requires j < |steps| && StepsOk(Message([], 0), steps) && IsRequest(steps[0]) && !steps[j].PutField?
    requires Carries(packets, SayAll(Message([], 0), steps).frames)
    ensures Arrived(packets, steps, j)
  {
    var i, off, rest := RequestOf(steps, j), OffsetOf(steps, j), steps[j + 1..];
    LastFrameReaches(packets, steps, j);
    if IsRequest(steps[j]) && Untouched(rest, 0, 1) {
      MacroBytesArrive(packets, steps, j, 0, steps[j].reqType);
    }
    if steps[j].GetResReq? && Untouched(rest, 4, 8) {
      IdArrives(packets, steps, j);
      Little32RoundTrip(steps[j].rid);
    }
    if steps[j].Data? { DataArrives(packets, steps, j); } else { StoresArrive(packets, steps, j); }
  }

  ghost predicate AllArrived(packets: seq<seq<Byte>>, steps: seq<Step>) {
    forall j :: 0 <= j < |steps| && !steps[j].PutField? ==> Arrived(packets, steps, j)
  }

  lemma AllAreHeard(packets: seq<seq<Byte>>, steps: seq<Step>)
    requires StepsOk(Message([], 0), steps) && (steps != [] ==> IsRequest(steps[0]))
    requires Carries(packets, SayAll(Message([], 0), steps).frames)
    ensures AllArrived(packets, steps)
  {
    forall j | 0 <= j < |steps| && !steps[j].PutField?
      ensures Arrived(packets, steps, j)
    {
      ClientIsHeard(packets, steps, j);
    }
  }
}
