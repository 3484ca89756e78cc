/** What the obstack operations do, on values.

    `State` is `struct obstack` together with the memory it points into, the
    chain of chunks, and the calls made so far to the user's chunk functions.
    The operations here are the common meaning of the two macro families in
    usr/local/include/obstack.h and of the slow paths in obstack.c; the class in
    Obstack.dfy runs both families against them. */
module ObstackModel {
  import opened Bits
  import opened Bytes

  /** sizeof limit + sizeof prev on the i386. */
  const HEADER := 8

  /** A chunk occupies [base, limit); its header comes first. */
  datatype Chunk = Chunk(base: nat, limit: nat) {
    function Contents(): nat { base + HEADER }

    predicate Fits(space: nat) { 0 < base && base + HEADER <= limit <= space }

    predicate DisjointFrom(other: Chunk) { limit <= other.base || other.limit <= base }
  }

  /** The address that obstack_chunk_alloc returns when it has no memory. */
  const NULL := 0

  datatype State = State(
    chunkSize: nat,
    chunks: seq<Chunk>,  // the `prev` chain, oldest first; the last one is `chunk`
    objectBase: nat,
    nextFree: nat,
    chunkLimit: nat,
    alignmentMask: nat,
    maybeEmptyObject: bool,
    allocFailed: bool,
    mem: seq<Byte>,
    obtained: seq<Chunk>,
    freed: seq<Chunk>)
  {
    function Current(): Chunk
      requires chunks != []
    {
      chunks[|chunks| - 1]
    }

    function Older(): seq<Chunk>
      requires chunks != []
    {
      chunks[..|chunks| - 1]
    }
  }

  predicate PairwiseDisjoint(chunks: seq<Chunk>) {
    forall i, j :: 0 <= i < j < |chunks| ==> chunks[i].DisjointFrom(chunks[j])
  }

  ghost predicate IsMask(m: nat) { exists k: nat :: m == Pow2(k) - 1 }

  /** The control block is consistent with its chunk and the chain is sound. */
  ghost predicate Valid(s: State) {
    && s.chunks != []
    && (forall i :: 0 <= i < |s.chunks| ==> s.chunks[i].Fits(|s.mem|))
    && PairwiseDisjoint(s.chunks)
    && s.chunkLimit == s.Current().limit
    && s.Current().Contents() <= s.objectBase <= s.nextFree <= s.chunkLimit
    && IsMask(s.alignmentMask)
  }

  // ------------------------------------------------------------- operations

  function NewSize(s: State, length: nat): nat
    requires s.objectBase <= s.nextFree
  {
    var objSize := s.nextFree - s.objectBase;
    var size := objSize + length + Shr(objSize, 3) + 100;
    if size < s.chunkSize then s.chunkSize else size
  }

  /** What obstack_chunk_alloc owes its caller: no memory, or a block that
      overlaps no chunk the obstack still holds. */
  predicate ReplyOk(s: State, length: nat, reply: nat)
    requires s.objectBase <= s.nextFree
  {
    reply == NULL ||
    var c := Chunk(reply, reply + NewSize(s, length));
    c.Fits(|s.mem|) && forall i :: 0 <= i < |s.chunks| ==> c.DisjointFrom(s.chunks[i])
  }

  function Write(mem: seq<Byte>, at: nat, cells: seq<Cell>): (m: seq<Byte>)
    requires at + |cells| <= |mem|
    ensures |m| == |mem|
  {
    seq(|mem|, i requires 0 <= i < |mem| =>
          if at <= i < at + |cells| && cells[i - at].Known? then cells[i - at].value else mem[i])
  }

  /** The old chunk held nothing but the object that has just left it. */
  predicate OldChunkUnused(s: State)
    requires s.chunks != []
  {
    s.objectBase == s.Current().Contents() && !s.maybeEmptyObject
  }

  function NewChunk(s: State, length: nat, reply: nat): State
    requires Valid(s) && ReplyOk(s, length, reply)
  {
    if reply == NULL then
      s.(allocFailed := true)
    else
      var c := Chunk(reply, reply + NewSize(s, length));
      var moved := s.mem[s.objectBase..s.nextFree];
      var chain := if OldChunkUnused(s) then s.Older() else s.chunks;
      s.(chunks := chain + [c],
      objectBase := c.Contents(),
      nextFree := c.Contents() + |moved|,
      chunkLimit := c.limit,
      maybeEmptyObject := false,
      allocFailed := false,
      mem := Write(s.mem, c.Contents(), KnownCells(moved)),
      obtained := s.obtained + [c],
      freed := if OldChunkUnused(s) then s.freed + [s.Current()] else s.freed)
  }

  predicate NeedsChunk(s: State, length: nat) { s.nextFree + length > s.chunkLimit }

  function MakeRoom(s: State, length: nat, reply: nat): State
    requires Valid(s) && (NeedsChunk(s, length) ==> ReplyOk(s, length, reply))
  {
    if NeedsChunk(s, length) then NewChunk(s, length, reply) else s
  }

  /** A new chunk is sound, holds the object that was moved, and has room for
      what is about to be added. */
  lemma NewChunkValid(s: State, length: nat, reply: nat)
    requires Valid(s) && ReplyOk(s, length, reply)
    ensures Valid(NewChunk(s, length, reply))
    ensures var t := NewChunk(s, length, reply);
            reply != NULL ==> t.nextFree + length <= t.chunkLimit
  {
    var t := NewChunk(s, length, reply);
    if reply != NULL {
      var n := |t.chunks| - 1;
      assert forall i :: 0 <= i < n ==> t.chunks[i] == s.chunks[i];
      assert IsMask(t.alignmentMask);
    }
  }

  lemma RoomMade(s: State, length: nat, reply: nat)
    requires Valid(s) && (NeedsChunk(s, length) ==> ReplyOk(s, length, reply))
    ensures var t := MakeRoom(s, length, reply);
            && Valid(t)
            && (!t.allocFailed ==> t.nextFree + length <= t.chunkLimit <= |t.mem|)
  {
    if NeedsChunk(s, length) { NewChunkValid(s, length, reply); }
  }

  /** obstack_grow, grow0, 1grow, ptr_grow, int_grow and blank: all append
      cells to the growing object, unless an allocation has failed. */
  function Append(s: State, cells: seq<Cell>, reply: nat): State
    requires Valid(s) && (NeedsChunk(s, |cells|) ==> ReplyOk(s, |cells|, reply))
  {
    var t := MakeRoom(s, |cells|, reply);
    if t.allocFailed then t
    else
      RoomMade(s, |cells|, reply);
      t.(mem := Write(t.mem, t.nextFree, cells), nextFree := t.nextFree + |cells|)
  }

  function Min(x: nat, y: nat): nat { if x < y then x else y }

  lemma AlignsForward(s: State)
    requires Valid(s)
    ensures RoundUp(s.nextFree, s.alignmentMask) >= s.nextFree
    ensures RoundUp(s.nextFree, s.alignmentMask) % (s.alignmentMask + 1) == 0
    ensures s.nextFree % (s.alignmentMask + 1) == 0 ==> RoundUp(s.nextFree, s.alignmentMask) == s.nextFree
  {
    var k: nat :| s.alignmentMask == Pow2(k) - 1;
    RoundUpIsLeastMultiple(s.nextFree, k);
  }

  /** The state after obstack_finish. */
  function Finish(s: State): State
    requires Valid(s)
  {
    if s.allocFailed then s
    else
      AlignsForward(s);
      var next := Min(RoundUp(s.nextFree, s.alignmentMask), s.chunkLimit);
      s.(maybeEmptyObject := s.maybeEmptyObject || s.nextFree == s.objectBase,
      nextFree := next,
      objectBase := next)
  }

  /** The address that obstack_finish returns. */
  function Finished(s: State): nat { if s.allocFailed then NULL else s.objectBase }

  /** The loop of _obstack_free, which gives chunks back until one holds `addr`. */
  function FreeWalk(s: State, addr: nat): State
    decreases |s.chunks|
  {
    if s.chunks == [] then s
    else if s.Current().base >= addr || s.Current().limit < addr then
      FreeWalk(s.(chunks := s.Older(), freed := s.freed + [s.Current()], maybeEmptyObject := true), addr)
    else
      s.(objectBase := addr, nextFree := addr, chunkLimit := s.Current().limit)
  }

  /** obstack_free. An empty chain afterwards means that everything was given
      back, which is an abort unless `addr` is null. */
  function Free(s: State, addr: nat): State
    requires s.chunks != []
  {
    if s.Current().base < addr < s.chunkLimit then
      s.(objectBase := addr, nextFree := addr)
    else
      FreeWalk(s, addr)
  }

  // ------------------------------------------------------ basic consequences

  lemma AppendValid(s: State, cells: seq<Cell>, reply: nat)
    requires Valid(s) && (NeedsChunk(s, |cells|) ==> ReplyOk(s, |cells|, reply))
    ensures Valid(Append(s, cells, reply))
  {
    RoomMade(s, |cells|, reply);
    assert IsMask(Append(s, cells, reply).alignmentMask);
  }

  /** Storing two adjacent pieces one after the other is storing both at once. */
  lemma WriteAdjacent(mem: seq<Byte>, at: nat, a: seq<Byte>, b: seq<Byte>)
    requires at + |a| + |b| <= |mem|
    ensures Write(Write(mem, at, KnownCells(a)), at + |a|, KnownCells(b)) == Write(mem, at, KnownCells(a + b))
  {
  }
}
