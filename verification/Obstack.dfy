/** The obstack macros and their slow paths, as they run: a control block whose
    fields are updated in place, over memory that is stored into in place. The
    GNU statement-expressions (usr/local/include/obstack.h:281-410) and the
    portable comma-expressions (lines 414-508) are separate methods, each proved
    to have the meaning given in ObstackModel. */
module Obstacks {
  import opened Bits
  import opened Bytes
  import opened ObstackModel
  import opened ObstackSafety
  import opened ObstackRuns

  /** offsetof (struct fooalign, d) and sizeof (union fooround) on the i386. */
  const DEFAULT_ALIGNMENT := 4
  const DEFAULT_ROUNDING := 8

  /** sizeof (int), the COPYING_UNIT of _obstack_newchunk, and sizeof (void *). */
  const WORD := 4

  /** One use of a macro. `reply` is what obstack_chunk_alloc answers if asked. */
  datatype Call =
    | CallGrow(data: seq<Byte>, reply: nat)
    | CallGrow0(data: seq<Byte>, reply: nat)
    | Call1Grow(datum: Byte, reply: nat)
    | CallPtrGrow(word: nat, reply: nat)
    | CallIntGrow(word: nat, reply: nat)
    | CallBlank(length: nat, reply: nat)
    | CallFinish
    | CallAlloc(length: nat, reply: nat)
    | CallCopy(data: seq<Byte>, reply: nat)
    | CallCopy0(data: seq<Byte>, reply: nat)
    | CallFree(addr: nat)

  /** What a call appends to the growing object. */
  function Appended(call: Call): seq<Cell> {
    match call
    case CallGrow(data, _) => KnownCells(data)
    case CallGrow0(data, _) => KnownCells(data + [0])
    case Call1Grow(datum, _) => KnownCells([datum])
    case CallPtrGrow(word, _) => KnownCells(Little32(word))
    case CallIntGrow(word, _) => KnownCells(Little32(word))
    case CallBlank(length, _) => BlankCells(length)
    case CallAlloc(length, _) => BlankCells(length)
    case CallCopy(data, _) => KnownCells(data)
    case CallCopy0(data, _) => KnownCells(data + [0])
    case CallFinish => []
    case CallFree(_) => []
  }

  predicate Finishes(call: Call) {
    call.CallFinish? || call.CallAlloc? || call.CallCopy? || call.CallCopy0?
  }

  /** A call as a sequence of the operations that the safety theorems speak of. */
  function OpsOf(call: Call): seq<Op> {
    if call.CallFree? then [Freeing(call.addr)]
    else if call.CallFinish? then [Finishing]
    else [Appending(Appended(call), call.reply)] + if Finishes(call) then [Finishing] else []
  }

  ghost predicate CallOk(s: State, call: Call) {
    && Valid(s)
    && (call.CallFinish? || call.CallFree? ||
        (NeedsChunk(s, |Appended(call)|) ==> ReplyOk(s, |Appended(call)|, call.reply)))
  }

  ghost function Meaning(s: State, call: Call): State
    requires CallOk(s, call)
  {
    if call.CallFree? then Free(s, call.addr)
    else if call.CallFinish? then Finish(s)
    else
      AppendValid(s, Appended(call), call.reply);
      var t := Append(s, Appended(call), call.reply);
      if Finishes(call) then Finish(t) else t
  }

  lemma MeaningOfAppend(s: State, call: Call)
    requires CallOk(s, call) && !call.CallFree? && !Finishes(call)
    ensures var cells := Appended(call);
            var t := MakeRoom(s, |cells|, call.reply);
            && t.nextFree <= |t.mem|
            && (!t.allocFailed ==> t.nextFree + |cells| <= |t.mem|)
            && Meaning(s, call) == if t.allocFailed then t
                                   else t.(mem := Write(t.mem, t.nextFree, cells), nextFree := t.nextFree + |cells|)
  {
    RoomMade(s, |Appended(call)|, call.reply);
  }

  /** The pointer that a call returns, 0 if it returns none. */
  ghost function Returned(s: State, call: Call): nat
    requires CallOk(s, call)
  {
    if call.CallFinish? then Finished(s)
    else if Finishes(call) then Finished(Append(s, Appended(call), call.reply))
    else 0
  }

  ghost predicate CallsOk(s: State, calls: seq<Call>)
    decreases |calls|
  {
    calls == [] || (CallOk(s, calls[0]) && CallsOk(Meaning(s, calls[0]), calls[1..]))
  }

  ghost function AfterCalls(s: State, calls: seq<Call>): State
    requires CallsOk(s, calls)
    decreases |calls|
  {
    if calls == [] then s else AfterCalls(Meaning(s, calls[0]), calls[1..])
  }

  ghost function ReturnedAll(s: State, calls: seq<Call>): seq<nat>
    requires CallsOk(s, calls)
    decreases |calls|
  {
    if calls == [] then []
    else [Returned(s, calls[0])] + ReturnedAll(Meaning(s, calls[0]), calls[1..])
  }

  lemma RunOfOne(s: State, g: Log, op: Op)
    requires Inv(s, g) && OpOk(s, g, op)
    ensures RunOk(s, g, [op])
    ensures RunState(s, g, [op]) == Step(s, g, op) && RunLog(s, g, [op]) == StepLog(s, g, op)
  {
    assert [op][1..] == [];
  }

  lemma RunOfTwo(s: State, g: Log, op: Op, op': Op)
    requires Inv(s, g) && OpOk(s, g, op)
    requires Valid(Step(s, g, op)) && OpOk(Step(s, g, op), StepLog(s, g, op), op')
    ensures RunOk(s, g, [op] + [op'])
    ensures RunState(s, g, [op] + [op']) == Step(Step(s, g, op), StepLog(s, g, op), op')
    ensures RunLog(s, g, [op] + [op']) == StepLog(Step(s, g, op), StepLog(s, g, op), op')
  {
    StepSafe(s, g, op);
    RunOfOne(Step(s, g, op), StepLog(s, g, op), op');
    assert ([op] + [op'])[1..] == [op'];
  }

  /** What a call returns, by the user's view before it and after it: the address of
      an object that was not there before, or null exactly when there is none because
      an allocation has failed. */
  predicate ReturnsNewest(g: Log, h: Log, call: Call, failed: bool, addr: nat) {
    if !Finishes(call) then addr == 0
    else
      && (addr == NULL <==> failed)
      && (failed ==> h.live == g.live)
      && (!failed ==> |h.live| == |g.live| + 1 && h.live[..|g.live|] == g.live && h.live[|g.live|].addr == addr)
  }

  /** The safety theorems cover the macros: a call on an obstack with log `g` is
      a run of the operations they quantify over, and what it returns is the
      address of the object that it has made. */
  lemma CallIsRun(s: State, g: Log, call: Call)
    requires Inv(s, g) && CallOk(s, call)
    requires call.CallFree? ==> OpOk(s, g, Freeing(call.addr))
    ensures RunOk(s, g, OpsOf(call))
    ensures RunState(s, g, OpsOf(call)) == Meaning(s, call)
    ensures ReturnsNewest(g, RunLog(s, g, OpsOf(call)), call, Meaning(s, call).allocFailed, Returned(s, call))
  {
    var ops := OpsOf(call);
    if |ops| == 1 {
      assert ops == [ops[0]];
      RunOfOne(s, g, ops[0]);
    } else {
      assert ops == [ops[0]] + [Finishing];
      StepSafe(s, g, ops[0]);
      RunOfTwo(s, g, ops[0], Finishing);
    }
  }

  function AllOps(calls: seq<Call>): seq<Op> {
    if calls == [] then [] else OpsOf(calls[0]) + AllOps(calls[1..])
  }

  /** Every free in the sequence is of an object that is live when it comes. */
  ghost predicate FreesLive(s: State, g: Log, calls: seq<Call>)
    requires CallsOk(s, calls)
    decreases |calls|
  {
    calls == [] ||
    (&& (calls[0].CallFree? ==> OpOk(s, g, Freeing(calls[0].addr)))
     && RunOk(s, g, OpsOf(calls[0]))
     && FreesLive(Meaning(s, calls[0]), RunLog(s, g, OpsOf(calls[0])), calls[1..]))
  }

  lemma {:induction false} RunConcat(s: State, g: Log, a: seq<Op>, b: seq<Op>)
    requires RunOk(s, g, a) && RunOk(RunState(s, g, a), RunLog(s, g, a), b)
    ensures RunOk(s, g, a + b)
    ensures RunState(s, g, a + b) == RunState(RunState(s, g, a), RunLog(s, g, a), b)
    ensures RunLog(s, g, a + b) == RunLog(RunState(s, g, a), RunLog(s, g, a), b)
    decreases |a|
  {
    if a == [] {
      assert a + b == b;
    } else {
      assert (a + b)[1..] == a[1..] + b;
      RunConcat(Step(s, g, a[0]), StepLog(s, g, a[0]), a[1..], b);
    }
  }

  lemma CallThenRest(s: State, g: Log, calls: seq<Call>)
    requires Inv(s, g) && calls != [] && CallsOk(s, calls) && FreesLive(s, g, calls)
    ensures var t, h := Meaning(s, calls[0]), RunLog(s, g, OpsOf(calls[0]));
            && Inv(t, h)
            && (RunOk(t, h, AllOps(calls[1..])) ==>
                  && RunOk(s, g, AllOps(calls))
                  && RunState(s, g, AllOps(calls)) == RunState(t, h, AllOps(calls[1..]))
                  && RunLog(s, g, AllOps(calls)) == RunLog(t, h, AllOps(calls[1..])))
  {
    var ops := OpsOf(calls[0]);
    CallIsRun(s, g, calls[0]);
    RunSafe(s, g, ops);
    var t, h := Meaning(s, calls[0]), RunLog(s, g, ops);
    if RunOk(t, h, AllOps(calls[1..])) { RunConcat(s, g, ops, AllOps(calls[1..])); }
  }

  /** Hence any sequence of macro calls is such a run, and every theorem of
      ObstackRuns holds of it. */
  lemma {:induction false} CallsAreRun(s: State, g: Log, calls: seq<Call>)
    requires Inv(s, g) && CallsOk(s, calls) && FreesLive(s, g, calls)
    ensures RunOk(s, g, AllOps(calls))
    ensures RunState(s, g, AllOps(calls)) == AfterCalls(s, calls)
    decreases |calls|
  {
    if calls == [] {
    } else {
      CallThenRest(s, g, calls);
      CallsAreRun(Meaning(s, calls[0]), RunLog(s, g, OpsOf(calls[0])), calls[1..]);
    }
  }

  /** The user's view after the first `n` calls. */
  ghost function LogAfter(s: State, g: Log, calls: seq<Call>, n: nat): Log
    requires CallsOk(s, calls) && FreesLive(s, g, calls) && n <= |calls|
    decreases n
  {
    if n == 0 then g
    else LogAfter(Meaning(s, calls[0]), RunLog(s, g, OpsOf(calls[0])), calls[1..], n - 1)
  }

  ghost function StateAfter(s: State, calls: seq<Call>, n: nat): State
    requires CallsOk(s, calls) && n <= |calls|
    decreases n
  {
    if n == 0 then s else StateAfter(Meaning(s, calls[0]), calls[1..], n - 1)
  }

  /** The last of these logs is the log of the run. */
  lemma {:induction false} LogOfCalls(s: State, g: Log, calls: seq<Call>)
    requires Inv(s, g) && CallsOk(s, calls) && FreesLive(s, g, calls)
    ensures RunOk(s, g, AllOps(calls))
    ensures RunLog(s, g, AllOps(calls)) == LogAfter(s, g, calls, |calls|)
    decreases |calls|
  {
    if calls == [] {
    } else {
      CallThenRest(s, g, calls);
      LogOfCalls(Meaning(s, calls[0]), RunLog(s, g, OpsOf(calls[0])), calls[1..]);
    }
  }

  lemma {:induction false} ReturnedLength(s: State, calls: seq<Call>)
    requires CallsOk(s, calls)
    ensures |ReturnedAll(s, calls)| == |calls|
    decreases |calls|
  {
    if calls == [] {
    } else {
      ReturnedLength(Meaning(s, calls[0]), calls[1..]);
    }
  }

  /** Every address that a sequence of calls returns is that of the object which is
      newest just then. */
  lemma {:induction false} CallsReturnNewest(s: State, g: Log, calls: seq<Call>, i: nat)
    requires Inv(s, g) && CallsOk(s, calls) && FreesLive(s, g, calls) && i < |calls|
    ensures |ReturnedAll(s, calls)| == |calls|
    ensures ReturnsNewest(LogAfter(s, g, calls, i), LogAfter(s, g, calls, i + 1), calls[i],
                          StateAfter(s, calls, i + 1).allocFailed, ReturnedAll(s, calls)[i])
    decreases i
  {
    ReturnedLength(s, calls);
    CallIsRun(s, g, calls[0]);
    var t, h := Meaning(s, calls[0]), RunLog(s, g, OpsOf(calls[0]));
    if i == 0 {
      assert LogAfter(s, g, calls, 1) == LogAfter(t, h, calls[1..], 0) == h;
    } else {
      RunSafe(s, g, OpsOf(calls[0]));
      CallsReturnNewest(t, h, calls[1..], i - 1);
      assert ReturnedAll(s, calls)[i] == ReturnedAll(t, calls[1..])[i - 1];
    }
  }

  // --------------------------------------------------------------- in memory

  /** How many bytes a call adds to the growing object. */
  function Size(call: Call): nat {
    match call
    case CallGrow(data, _) => |data|
    case CallGrow0(data, _) => |data| + 1
    case Call1Grow(_, _) => 1
    case CallPtrGrow(_, _) => 4
    case CallIntGrow(_, _) => 4
    case CallBlank(length, _) => length
    case CallFinish => 0
    case CallAlloc(length, _) => length
    case CallCopy(data, _) => |data|
    case CallCopy0(data, _) => |data| + 1
    case CallFree(_) => 0
  }

  /** The bytes that a call puts there, if they are given as bytes. */
  function Text(call: Call): seq<Byte> {
    match call
    case CallGrow(data, _) => data
    case CallGrow0(data, _) => data + [0]
    case Call1Grow(datum, _) => [datum]
    case CallCopy(data, _) => data
    case CallCopy0(data, _) => data + [0]
    case _ => []
  }

  /** What is there afterwards: the data, with a null byte where one is promised, or a
      32-bit number, low byte first. */
  predicate Holds(bytes: seq<Byte>, call: Call) {
    && |bytes| == Size(call)
    && if call.CallPtrGrow? || call.CallIntGrow? then From32(bytes) == call.word % 0x1_0000_0000
       else call.CallBlank? || call.CallAlloc? || bytes == Text(call)
  }

  lemma AppendedHolds(bytes: seq<Byte>, call: Call)
    requires Agrees(bytes, Appended(call))
    ensures Holds(bytes, call)
  {
    if call.CallPtrGrow? || call.CallIntGrow? {
      assert bytes == Little32(call.word);
      Little32RoundTrip(call.word);
    } else if !call.CallBlank? && !call.CallAlloc? {
      assert bytes == Text(call);
    }
  }

  lemma AppendLeaves(s: State, cells: seq<Cell>, reply: nat, size: nat)
    requires Valid(s) && (NeedsChunk(s, |cells|) ==> ReplyOk(s, |cells|, reply)) && |cells| == size
    requires !Append(s, cells, reply).allocFailed
    ensures var t := Append(s, cells, reply);
            var from := t.objectBase + (s.nextFree - s.objectBase);
            t.nextFree == from + size <= |t.mem| && Agrees(t.mem[from..from + size], cells)
  {
    RoomMade(s, |cells|, reply);
    AppendValid(s, cells, reply);
  }

  /** Where the object is that a call has added to. */
  ghost function ObjectOf(s: State, call: Call): nat
    requires CallOk(s, call)
  {
    if Finishes(call) then Returned(s, call) else Meaning(s, call).objectBase
  }

  lemma AppendOfCall(s: State, call: Call)
    requires CallOk(s, call) && !call.CallFree? && !call.CallFinish? && !Meaning(s, call).allocFailed
    ensures NeedsChunk(s, |Appended(call)|) ==> ReplyOk(s, |Appended(call)|, call.reply)
    ensures var t := Append(s, Appended(call), call.reply);
            && !t.allocFailed && Meaning(s, call).mem == t.mem && ObjectOf(s, call) == t.objectBase
            && (!Finishes(call) ==> Meaning(s, call) == t)
  {
  }

  lemma AppendedSize(call: Call)
    ensures |Appended(call)| == Size(call)
  {
  }

  /** Unless an allocation has failed, what a call appends is in memory behind what the
      object had before; and if the call finishes the object, it returns its
      address. */
  lemma CallStores(s: State, call: Call)
    requires CallOk(s, call) && !call.CallFree? && !call.CallFinish? && !Meaning(s, call).allocFailed
    ensures var t, from := Meaning(s, call), ObjectOf(s, call) + (s.nextFree - s.objectBase);
            && from + Size(call) <= |t.mem|
            && Holds(t.mem[from..from + Size(call)], call)
            && (!Finishes(call) ==> t.nextFree == from + Size(call))
  {
    AppendOfCall(s, call);
    AppendedSize(call);
    AppendLeaves(s, Appended(call), call.reply, Size(call));
    var from := ObjectOf(s, call) + (s.nextFree - s.objectBase);
    AppendedHolds(Meaning(s, call).mem[from..from + Size(call)], call);
  }

  class Obstack {
    const mem: array<Byte>
    var chunkSize: nat
    var chunks: seq<Chunk>
    var objectBase: nat
    var nextFree: nat
    var chunkLimit: nat
    var temp: int
    var alignmentMask: nat
    var maybeEmptyObject: bool
    var allocFailed: bool
    ghost var obtained: seq<Chunk>
    ghost var freed: seq<Chunk>

    ghost function Image(): State
      reads this, mem
    {
      State(chunkSize, chunks, objectBase, nextFree, chunkLimit, alignmentMask,
            maybeEmptyObject, allocFailed, mem[..], obtained, freed)
    }

    /** _obstack_begin. */
    constructor (space: array<Byte>, size: nat, alignment: nat, reply: nat)
      requires alignment == 0 || IsMask(alignment - 1)
      requires var n := if size == 0 then 4072 else size;
               Chunk(reply, reply + n).Fits(space.Length)
      ensures mem == space && mem[..] == old(space[..])
      ensures Aligned(Image(), Log([], [])) && Balanced(Image()) && !allocFailed
      ensures alignmentMask == (if alignment == 0 then DEFAULT_ALIGNMENT else alignment) - 1
      ensures chunkSize == (if size == 0 then 4072 else size) && chunks == [Chunk(reply, reply + chunkSize)]
      ensures objectBase == nextFree == reply + HEADER && chunkLimit == reply + chunkSize
    {
      var extra := RoundUp(RoundUp(12, DEFAULT_ROUNDING - 1) + 4, DEFAULT_ROUNDING - 1);
      assert extra == 24 by {
        assert Pow2(3) == 8;
        MaskIsModulus(12 + 7, 3);
        MaskIsModulus(16 + 4 + 7, 3);
      }
      var n := if size == 0 then 4096 - extra else size;
      mem := space;
      chunkSize := n;
      alignmentMask := (if alignment == 0 then DEFAULT_ALIGNMENT else alignment) - 1;
      var chunk := Chunk(reply, reply + n);
      chunks := [chunk];
      objectBase := chunk.Contents();
      nextFree := chunk.Contents();
      chunkLimit := reply + n;
      maybeEmptyObject := false;
      allocFailed := false;
      temp := 0;
      obtained := [chunk];
      freed := [];
      new;
      assert IsMask(alignmentMask) by {
        assert Pow2(2) - 1 == DEFAULT_ALIGNMENT - 1;
      }
      assert Valid(Image());
    }

    // ------------------------------------------------------------ slow paths

    /** bcopy into memory. */
    method Bcopy(data: seq<Byte>, at: nat)
      requires at + |data| <= mem.Length
      modifies mem
      ensures mem[..] == Write(old(mem[..]), at, KnownCells(data))
    {
      forall i | 0 <= i < |data| {
        mem[at + i] := data[i];
      }
    }

    /** A store of one byte through a pointer. */
    method Store(datum: Byte, at: nat)
      requires at < mem.Length
      modifies mem
      ensures mem[..] == Write(old(mem[..]), at, KnownCells([datum]))
    {
      mem[at] := datum;
    }

    /** Appends `len` bytes and a null byte where there is room for them. */
    method PutString(data: seq<Byte>, len: nat)
      requires len == |data| && nextFree + len + 1 <= mem.Length
      modifies mem, `nextFree
      ensures Image() == old(Image()).(mem := Write(old(mem[..]), old(nextFree), KnownCells(data + [0])),
                         nextFree := old(nextFree) + len + 1)
    {
      Bcopy(data, nextFree);
      nextFree := nextFree + len;
      WriteAdjacent(old(mem[..]), nextFree - len, data, [0]);
      Store(0, nextFree);
      nextFree := nextFree + 1;
    }

    /** The word loop of _obstack_newchunk, from the top down. */
    method MoveWords(from: nat, to: nat, words: nat)
      requires from + WORD * words <= mem.Length && to + WORD * words <= mem.Length
      requires to + WORD * words <= from || from + WORD * words <= to
      modifies mem
      ensures forall k :: 0 <= k < mem.Length ==>
                            mem[k] == if to <= k < to + WORD * words then old(mem[from + (k - to)]) else old(mem[k])
    {
      var i := words - 1;
      while i >= 0
        invariant -1 <= i < words
        invariant forall k :: 0 <= k < mem.Length ==>
                                mem[k] == if to + WORD * (i + 1) <= k < to + WORD * words
                                          then old(mem[from + (k - to)]) else old(mem[k])
      {
        forall j | 0 <= j < WORD {
          mem[to + WORD * i + j] := mem[from + WORD * i + j];
        }
        i := i - 1;
      }
    }

    /** Copies the growing object, by words while the alignment allows it and the
        rest byte by byte. */
    method MoveObject(from: nat, to: nat, size: nat)
      requires from + size <= mem.Length && to + size <= mem.Length
      requires to + size <= from || from + size <= to
      modifies mem
      ensures mem[..] == Write(old(mem[..]), to, KnownCells(old(mem[from..from + size])))
    {
      var already := 0;
      if alignmentMask + 1 >= DEFAULT_ALIGNMENT {
        MoveWords(from, to, size / WORD);
        already := size / WORD * WORD;
      }
      var i := already;
      while i < size
        invariant already <= i <= size
        invariant forall k :: 0 <= k < mem.Length ==>
                                mem[k] == if to <= k < to + i then old(mem[from + (k - to)]) else old(mem[k])
      {
        mem[to + i] := mem[from + i];
        i := i + 1;
      }
    }

    /** Gives the old chunk back if nothing else was in it. */
    method DropIfUnused(oldChunk: Chunk, newChunk: Chunk)
      requires |chunks| >= 2 && chunks[|chunks| - 1] == newChunk
      modifies `chunks, `freed
      ensures var unused := objectBase == oldChunk.Contents() && !maybeEmptyObject;
              && chunks == (if unused then old(chunks)[..|old(chunks)| - 2] + [newChunk] else old(chunks))
              && freed == old(freed) + if unused then [oldChunk] else []
    {
      if objectBase == oldChunk.Contents() && !maybeEmptyObject {
        chunks := chunks[..|chunks| - 2] + [newChunk];
        freed := freed + [oldChunk];
      }
    }

    /** _obstack_newchunk, once it has a chunk: the object moves there, and the
        old chunk is given back if nothing else was in it. */
    method EnterChunk(newChunk: Chunk)
      requires chunks != [] && objectBase <= nextFree <= mem.Length
      requires newChunk.Contents() + (nextFree - objectBase) <= mem.Length
      requires newChunk.Contents() + (nextFree - objectBase) <= objectBase || nextFree <= newChunk.Contents()
      modifies mem, `chunks, `objectBase, `nextFree, `chunkLimit, `maybeEmptyObject, `allocFailed, `obtained, `freed
      ensures mem[..] == Write(old(mem[..]), newChunk.Contents(), KnownCells(old(mem[objectBase..nextFree])))
      ensures chunks == (if old(OldChunkUnused(Image())) then old(chunks)[..|old(chunks)| - 1] else old(chunks))
                        + [newChunk]
      ensures freed == old(freed) + if old(OldChunkUnused(Image())) then [old(chunks)[|old(chunks)| - 1]] else []
      ensures obtained == old(obtained) + [newChunk]
      ensures objectBase == newChunk.Contents() && nextFree == objectBase + old(nextFree - objectBase)
      ensures chunkLimit == newChunk.limit && !maybeEmptyObject && !allocFailed
    {
      var oldChunk, objSize := chunks[|chunks| - 1], nextFree - objectBase;
      ghost var unused := OldChunkUnused(Image());
      allocFailed := false;
      obtained := obtained + [newChunk];
      chunks := chunks + [newChunk];
      chunkLimit := newChunk.limit;
      MoveObject(objectBase, newChunk.Contents(), objSize);
      assert chunks[..|chunks| - 2] == old(chunks)[..|old(chunks)| - 1];
      DropIfUnused(oldChunk, newChunk);
      assert freed == old(freed) + if unused then [oldChunk] else [];
      objectBase := newChunk.Contents();
      nextFree := objectBase + objSize;
      maybeEmptyObject := false;
    }

    /** _obstack_newchunk. */
    method NewChunkSlow(length: nat, reply: nat)
      requires Valid(Image()) && ReplyOk(Image(), length, reply)
      modifies this, mem
      ensures Image() == NewChunk(old(Image()), length, reply)
      ensures temp == old(temp)
    {
      var objSize := nextFree - objectBase;
      var newSize := objSize + length + Shr(objSize, 3) + 100;
      if newSize < chunkSize { newSize := chunkSize; }
      if reply == NULL {
        allocFailed := true;
      } else {
        NewChunkValid(Image(), length, reply);
        var newChunk := Chunk(reply, reply + newSize);
        assert newChunk.DisjointFrom(Image().Current());
        assert mem[..][objectBase..nextFree] == mem[objectBase..nextFree];
        ghost var goal := NewChunk(Image(), length, reply);
        EnterChunk(newChunk);
        assert mem[..] == goal.mem && chunks == goal.chunks && freed == goal.freed;
      }
    }

    /** The test that comes before obstack_grow0 stores `length` bytes. */
    method MakeRoomFor(length: nat, reply: nat)
      requires Valid(Image()) && (NeedsChunk(Image(), length) ==> ReplyOk(Image(), length, reply))
      modifies this, mem
      ensures Image() == MakeRoom(old(Image()), length, reply) && temp == old(temp)
    {
      if nextFree + length > chunkLimit {
        NewChunkSlow(length, reply);
      }
    }

    /** obstack_free, the function; true if it aborts. */
    method FreeSlow(addr: nat) returns (aborts: bool)
      modifies this
      ensures Image() == FreeWalk(old(Image()), addr)
      ensures aborts <==> chunks == [] && addr != NULL
      ensures temp == old(temp)
    {
      while chunks != [] && (chunks[|chunks| - 1].base >= addr || chunks[|chunks| - 1].limit < addr)
        invariant FreeWalk(Image(), addr) == FreeWalk(old(Image()), addr)
        invariant temp == old(temp)
        decreases |chunks|
      {
        freed := freed + [chunks[|chunks| - 1]];
        chunks := chunks[..|chunks| - 1];
        maybeEmptyObject := true;
      }
      if chunks != [] {
        objectBase, nextFree := addr, addr;
        chunkLimit := chunks[|chunks| - 1].limit;
        aborts := false;
      } else {
        aborts := addr != NULL;
      }
    }

    // ------------------------------------------------------------- GNU family

    method GnuGrow(data: seq<Byte>, reply: nat)
      requires CallOk(Image(), CallGrow(data, reply))
      modifies this, mem
      ensures Image() == Meaning(old(Image()), CallGrow(data, reply))
    {
      ghost var roomy := MakeRoom(Image(), |data|, reply);
      MeaningOfAppend(Image(), CallGrow(data, reply));
      var len := |data|;
      if nextFree + len > chunkLimit {
        NewChunkSlow(len, reply);
      }
      assert Image() == roomy;
      if !allocFailed {
        Bcopy(data, nextFree);
        nextFree := nextFree + len;
      }
    }

    method GnuGrow0(data: seq<Byte>, reply: nat)
      requires CallOk(Image(), CallGrow0(data, reply))
      modifies this, mem
      ensures Image() == Meaning(old(Image()), CallGrow0(data, reply))
    {
      ghost var roomy := MakeRoom(Image(), |data| + 1, reply);
      MeaningOfAppend(Image(), CallGrow0(data, reply));
      ghost var goal := Meaning(Image(), CallGrow0(data, reply));
      var len := |data|;
      MakeRoomFor(len + 1, reply);
      assert Image() == roomy;
      if !allocFailed {
        assert nextFree + |data| + 1 <= mem.Length;
        PutString(data, len);
      }
      assert Image() == goal;
    }

    method Gnu1Grow(datum: Byte, reply: nat)
      requires CallOk(Image(), Call1Grow(datum, reply))
      modifies this, mem
      ensures Image() == Meaning(old(Image()), Call1Grow(datum, reply))
    {
      ghost var roomy := MakeRoom(Image(), 1, reply);
      MeaningOfAppend(Image(), Call1Grow(datum, reply));
      if nextFree + 1 > chunkLimit {
        NewChunkSlow(1, reply);
      }
      assert Image() == roomy;
      if !allocFailed {
        Store(datum, nextFree);
        nextFree := nextFree + 1;
      }
    }

    method GnuPtrGrow(word: nat, reply: nat)
      requires CallOk(Image(), CallPtrGrow(word, reply))
      modifies this, mem
      ensures Image() == Meaning(old(Image()), CallPtrGrow(word, reply))
    {
      ghost var roomy := MakeRoom(Image(), WORD, reply);
      MeaningOfAppend(Image(), CallPtrGrow(word, reply));
      if nextFree + WORD > chunkLimit {
        NewChunkSlow(WORD, reply);
      }
      assert Image() == roomy;
      if !allocFailed {
        Bcopy(Little32(word), nextFree);
        nextFree := nextFree + WORD;
      }
    }

    method GnuIntGrow(word: nat, reply: nat)
      requires CallOk(Image(), CallIntGrow(word, reply))
      modifies this, mem
      ensures Image() == Meaning(old(Image()), CallIntGrow(word, reply))
    {
      ghost var roomy := MakeRoom(Image(), WORD, reply);
      MeaningOfAppend(Image(), CallIntGrow(word, reply));
      if nextFree + WORD > chunkLimit {
        NewChunkSlow(WORD, reply);
      }
      assert Image() == roomy;
      if !allocFailed {
        Bcopy(Little32(word), nextFree);
        nextFree := nextFree + WORD;
      }
    }

    method GnuBlank(length: nat, reply: nat)
      requires CallOk(Image(), CallBlank(length, reply))
      modifies this, mem
      ensures Image() == Meaning(old(Image()), CallBlank(length, reply))
    {
      ghost var roomy := MakeRoom(Image(), length, reply);
      MeaningOfAppend(Image(), CallBlank(length, reply));
      if chunkLimit - nextFree < length {
        NewChunkSlow(length, reply);
      }
      assert Image() == roomy;
      if !allocFailed {
        nextFree := nextFree + length;
      }
    }

    method GnuFinish() returns (value: nat)
      requires Valid(Image())
      modifies this
      ensures Image() == Finish(old(Image()))
      ensures value == Finished(old(Image()))
    {
      AlignsForward(Image());
      if allocFailed {
        value := 0;
      } else {
        value := objectBase;
        if nextFree == value {
          maybeEmptyObject := true;
        }
        nextFree := AndNot(nextFree + alignmentMask, alignmentMask);
        var chunk := chunks[|chunks| - 1].base;
        if nextFree - chunk > chunkLimit - chunk {
          nextFree := chunkLimit;
        }
        objectBase := nextFree;
      }
    }

    method GnuAlloc(length: nat, reply: nat) returns (value: nat)
      requires CallOk(Image(), CallAlloc(length, reply))
      modifies this, mem
      ensures Image() == Meaning(old(Image()), CallAlloc(length, reply))
      ensures value == Returned(old(Image()), CallAlloc(length, reply))
    {
      AppendValid(Image(), BlankCells(length), reply);
      GnuBlank(length, reply);
      value := GnuFinish();
    }

    method GnuCopy(data: seq<Byte>, reply: nat) returns (value: nat)
      requires CallOk(Image(), CallCopy(data, reply))
      modifies this, mem
      ensures Image() == Meaning(old(Image()), CallCopy(data, reply))
      ensures value == Returned(old(Image()), CallCopy(data, reply))
    {
      AppendValid(Image(), KnownCells(data), reply);
      GnuGrow(data, reply);
      value := GnuFinish();
    }

    method GnuCopy0(data: seq<Byte>, reply: nat) returns (value: nat)
      requires CallOk(Image(), CallCopy0(data, reply))
      modifies this, mem
      ensures Image() == Meaning(old(Image()), CallCopy0(data, reply))
      ensures value == Returned(old(Image()), CallCopy0(data, reply))
    {
      AppendValid(Image(), KnownCells(data + [0]), reply);
      GnuGrow0(data, reply);
      value := GnuFinish();
    }

    method GnuFree(addr: nat) returns (aborts: bool)
      requires chunks != []
      modifies this
      ensures Image() == Free(old(Image()), addr)
      ensures aborts <==> chunks == [] && addr != NULL
    {
      if addr > chunks[|chunks| - 1].base && addr < chunkLimit {
        objectBase := addr;
        nextFree := addr;
        aborts := false;
      } else {
        aborts := FreeSlow(addr);
      }
    }

    // -------------------------------------------------------- portable family

    method PortableGrow(data: seq<Byte>, reply: nat)
      requires CallOk(Image(), CallGrow(data, reply))
      modifies this, mem
      ensures Image() == Meaning(old(Image()), CallGrow(data, reply))
    {
      ghost var roomy := MakeRoom(Image(), |data|, reply);
      MeaningOfAppend(Image(), CallGrow(data, reply));
      temp := |data|;
      if nextFree + temp > chunkLimit {
        NewChunkSlow(temp, reply);
      }
      assert Image() == roomy;
      if !allocFailed {
        Bcopy(data, nextFree);
        nextFree := nextFree + temp;
      }
    }

    method PortableGrow0(data: seq<Byte>, reply: nat)
      requires CallOk(Image(), CallGrow0(data, reply))
      modifies this, mem
      ensures Image() == Meaning(old(Image()), CallGrow0(data, reply))
    {
      ghost var roomy := MakeRoom(Image(), |data| + 1, reply);
      MeaningOfAppend(Image(), CallGrow0(data, reply));
      ghost var goal := Meaning(Image(), CallGrow0(data, reply));
      temp := |data|;
      MakeRoomFor(temp + 1, reply);
      assert Image() == roomy;
      if !allocFailed {
        assert temp == |data| && nextFree + |data| + 1 <= mem.Length;
        PutString(data, temp);
      }
      assert Image() == goal;
    }

    method Portable1Grow(datum: Byte, reply: nat)
      requires CallOk(Image(), Call1Grow(datum, reply))
      modifies this, mem
      ensures Image() == Meaning(old(Image()), Call1Grow(datum, reply))
    {
      ghost var roomy := MakeRoom(Image(), 1, reply);
      MeaningOfAppend(Image(), Call1Grow(datum, reply));
      if nextFree + 1 > chunkLimit {
        NewChunkSlow(1, reply);
      }
      assert Image() == roomy;
      if !allocFailed {
        Store(datum, nextFree);
        nextFree := nextFree + 1;
      }
    }

    /** Advances first and stores behind: the opposite order of the GNU form. */
    method PortablePtrGrow(word: nat, reply: nat)
      requires CallOk(Image(), CallPtrGrow(word, reply))
      modifies this, mem
      ensures Image() == Meaning(old(Image()), CallPtrGrow(word, reply))
    {
      ghost var roomy := MakeRoom(Image(), WORD, reply);
      MeaningOfAppend(Image(), CallPtrGrow(word, reply));
      if nextFree + WORD > chunkLimit {
        NewChunkSlow(WORD, reply);
      }
      assert Image() == roomy;
      if !allocFailed {
        nextFree := nextFree + WORD;
        Bcopy(Little32(word), nextFree - WORD);
      }
    }

    method PortableIntGrow(word: nat, reply: nat)
      requires CallOk(Image(), CallIntGrow(word, reply))
      modifies this, mem
      ensures Image() == Meaning(old(Image()), CallIntGrow(word, reply))
    {
      ghost var roomy := MakeRoom(Image(), WORD, reply);
      MeaningOfAppend(Image(), CallIntGrow(word, reply));
      if nextFree + WORD > chunkLimit {
        NewChunkSlow(WORD, reply);
      }
      assert Image() == roomy;
      if !allocFailed {
        nextFree := nextFree + WORD;
        Bcopy(Little32(word), nextFree - WORD);
      }
    }

    method PortableBlank(length: nat, reply: nat)
      requires CallOk(Image(), CallBlank(length, reply))
      modifies this, mem
      ensures Image() == Meaning(old(Image()), CallBlank(length, reply))
    {
      ghost var roomy := MakeRoom(Image(), length, reply);
      MeaningOfAppend(Image(), CallBlank(length, reply));
      temp := length;
      if chunkLimit - nextFree < temp {
        NewChunkSlow(temp, reply);
      }
      assert Image() == roomy;
      if !allocFailed {
        nextFree := nextFree + temp;
      }
    }

    method PortableFinish() returns (value: nat)
      requires Valid(Image())
      modifies this
      ensures Image() == Finish(old(Image()))
      ensures value == Finished(old(Image()))
    {
      AlignsForward(Image());
      if allocFailed {
        value := 0;
      } else {
        if nextFree == objectBase {
          maybeEmptyObject := true;
        }
        temp := objectBase;
        nextFree := AndNot(nextFree + alignmentMask, alignmentMask);
        var chunk := chunks[|chunks| - 1].base;
        if nextFree - chunk > chunkLimit - chunk {
          nextFree := chunkLimit;
        }
        objectBase := nextFree;
        value := temp;
      }
    }

    method PortableAlloc(length: nat, reply: nat) returns (value: nat)
      requires CallOk(Image(), CallAlloc(length, reply))
      modifies this, mem
      ensures Image() == Meaning(old(Image()), CallAlloc(length, reply))
      ensures value == Returned(old(Image()), CallAlloc(length, reply))
    {
      AppendValid(Image(), BlankCells(length), reply);
      PortableBlank(length, reply);
      value := PortableFinish();
    }

    method PortableCopy(data: seq<Byte>, reply: nat) returns (value: nat)
      requires CallOk(Image(), CallCopy(data, reply))
      modifies this, mem
      ensures Image() == Meaning(old(Image()), CallCopy(data, reply))
      ensures value == Returned(old(Image()), CallCopy(data, reply))
    {
      AppendValid(Image(), KnownCells(data), reply);
      PortableGrow(data, reply);
      value := PortableFinish();
    }

    method PortableCopy0(data: seq<Byte>, reply: nat) returns (value: nat)
      requires CallOk(Image(), CallCopy0(data, reply))
      modifies this, mem
      ensures Image() == Meaning(old(Image()), CallCopy0(data, reply))
      ensures value == Returned(old(Image()), CallCopy0(data, reply))
    {
      AppendValid(Image(), KnownCells(data + [0]), reply);
      PortableGrow0(data, reply);
      value := PortableFinish();
    }

    /** Works on the offset from the chunk, which is negative for addresses below it. */
    method PortableFree(addr: nat) returns (aborts: bool)
      requires chunks != []
      modifies this
      ensures Image() == Free(old(Image()), addr)
      ensures aborts <==> chunks == [] && addr != NULL
    {
      var chunk := chunks[|chunks| - 1].base;
      temp := addr - chunk;
      if temp > 0 && temp < chunkLimit - chunk {
        objectBase := temp + chunk;
        nextFree := objectBase;
        aborts := false;
      } else {
        aborts := FreeSlow(temp + chunk);
      }
    }

    // ------------------------------------------------------------------ runs

    method Gnu(call: Call) returns (value: nat)
      requires CallOk(Image(), call)
      modifies this, mem
      ensures Image() == Meaning(old(Image()), call)
      ensures value == Returned(old(Image()), call)
    {
      value := 0;
      match call
      case CallGrow(data, reply) => GnuGrow(data, reply);
      case CallGrow0(data, reply) => GnuGrow0(data, reply);
      case Call1Grow(datum, reply) => Gnu1Grow(datum, reply);
      case CallPtrGrow(word, reply) => GnuPtrGrow(word, reply);
      case CallIntGrow(word, reply) => GnuIntGrow(word, reply);
      case CallBlank(length, reply) => GnuBlank(length, reply);
      case CallFinish => value := GnuFinish();
      case CallAlloc(length, reply) => value := GnuAlloc(length, reply);
      case CallCopy(data, reply) => value := GnuCopy(data, reply);
      case CallCopy0(data, reply) => value := GnuCopy0(data, reply);
      case CallFree(addr) => var _ := GnuFree(addr);
    }

    method Portable(call: Call) returns (value: nat)
      requires CallOk(Image(), call)
      modifies this, mem
      ensures Image() == Meaning(old(Image()), call)
      ensures value == Returned(old(Image()), call)
    {
      value := 0;
      match call
      case CallGrow(data, reply) => PortableGrow(data, reply);
      case CallGrow0(data, reply) => PortableGrow0(data, reply);
      case Call1Grow(datum, reply) => Portable1Grow(datum, reply);
      case CallPtrGrow(word, reply) => PortablePtrGrow(word, reply);
      case CallIntGrow(word, reply) => PortableIntGrow(word, reply);
      case CallBlank(length, reply) => PortableBlank(length, reply);
      case CallFinish => value := PortableFinish();
      case CallAlloc(length, reply) => value := PortableAlloc(length, reply);
      case CallCopy(data, reply) => value := PortableCopy(data, reply);
      case CallCopy0(data, reply) => value := PortableCopy0(data, reply);
      case CallFree(addr) => var _ := PortableFree(addr);
    }
  }

  /** The first object of a chunk in terms of the macros: obstack_copy on a new
      obstack with alignment 16 in a chunk at address 16 returns 24. */
  lemma FirstCopyMisaligned(byte: Byte)
    ensures CallOk(Begun(16), CallCopy([byte], NULL))
    ensures Returned(Begun(16), CallCopy([byte], NULL)) == 24 && 24 % 16 != 0
  {
    assert Pow2(4) == 16;
    BegunAligned(4);
  }

  lemma CallsOne(s: State, calls: seq<Call>, n: nat)
    requires n < |calls| && CallsOk(s, calls[n..])
    ensures CallOk(s, calls[n]) && CallsOk(Meaning(s, calls[n]), calls[n + 1..])
    ensures AfterCalls(s, calls[n..]) == AfterCalls(Meaning(s, calls[n]), calls[n + 1..])
    ensures ReturnedAll(s, calls[n..]) == [Returned(s, calls[n])] + ReturnedAll(Meaning(s, calls[n]), calls[n + 1..])
  {
    assert calls[n..][1..] == calls[n + 1..];
  }

  lemma AppendOne(a: seq<nat>, v: nat, b: seq<nat>)
    ensures a + ([v] + b) == (a + [v]) + b
  {
  }

  /** A program that uses one family throughout. */
  method RunFamily(h: Obstack, calls: seq<Call>, gnu: bool) returns (values: seq<nat>)
    requires CallsOk(h.Image(), calls)
    modifies h, h.mem
    ensures h.Image() == AfterCalls(old(h.Image()), calls)
    ensures values == ReturnedAll(old(h.Image()), calls)
  {
    values := [];
    ghost var start, all := h.Image(), ReturnedAll(h.Image(), calls);
    assert calls[0..] == calls;
    for n := 0 to |calls|
      invariant CallsOk(h.Image(), calls[n..])
      invariant AfterCalls(h.Image(), calls[n..]) == AfterCalls(start, calls)
      invariant values + ReturnedAll(h.Image(), calls[n..]) == all
    {
      ghost var s, before := h.Image(), values;
      CallsOne(s, calls, n);
      var v;
      if gnu { v := h.Gnu(calls[n]); } else { v := h.Portable(calls[n]); }
      values := values + [v];
      AppendOne(before, v, ReturnedAll(h.Image(), calls[n + 1..]));
    }
    assert calls[|calls|..] == [];
  }

  /** The two macro families simulate each other: started from equal control
      blocks and memories, the same calls, of any number, leave equal control
      blocks (but for `temp`) and memories and return the same addresses. */
  method RunBoth(gnu: Obstack, portable: Obstack, calls: seq<Call>)
    returns (values: seq<nat>, values': seq<nat>)
    requires gnu != portable && gnu.mem != portable.mem
    requires gnu.Image() == portable.Image() && CallsOk(gnu.Image(), calls)
    modifies gnu, gnu.mem, portable, portable.mem
    ensures gnu.Image() == portable.Image() == AfterCalls(old(gnu.Image()), calls)
    ensures values == values' == ReturnedAll(old(gnu.Image()), calls)
  {
    values := RunFamily(gnu, calls, true);
    values' := RunFamily(portable, calls, false);
  }
}
