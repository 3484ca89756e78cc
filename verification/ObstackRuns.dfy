/** Theorems about every run of obstack operations, of any length. */
module ObstackRuns {
  import opened Bits
  import opened Bytes
  import opened ObstackModel
  import opened ObstackSafety

  ghost predicate RunOk(s: State, g: Log, ops: seq<Op>)
    decreases |ops|
  {
    ops == [] ||
    (Valid(s) && OpOk(s, g, ops[0]) && RunOk(Step(s, g, ops[0]), StepLog(s, g, ops[0]), ops[1..]))
  }

  ghost function RunState(s: State, g: Log, ops: seq<Op>): State
    requires RunOk(s, g, ops)
    decreases |ops|
  {
    if ops == [] then s
    else RunState(Step(s, g, ops[0]), StepLog(s, g, ops[0]), ops[1..])
  }

  ghost function RunLog(s: State, g: Log, ops: seq<Op>): Log
    requires RunOk(s, g, ops)
    decreases |ops|
  {
    if ops == [] then g
    else RunLog(Step(s, g, ops[0]), StepLog(s, g, ops[0]), ops[1..])
  }

  // ---------------------------------------------------------------- safety

  lemma {:induction false} RunSafe(s: State, g: Log, ops: seq<Op>)
    requires Inv(s, g) && RunOk(s, g, ops)
    ensures Inv(RunState(s, g, ops), RunLog(s, g, ops))
    decreases |ops|
  {
    if ops == [] {
    } else {
      StepSafe(s, g, ops[0]);
      RunSafe(Step(s, g, ops[0]), StepLog(s, g, ops[0]), ops[1..]);
    }
  }

  /** In every reachable state, a live object overlaps neither another one nor the
      growing object nor the free space above it. */
  lemma NoOverlap(s: State, g: Log, i: nat)
    requires Inv(s, g) && i < |g.live|
    ensures g.live[i].End() <= s.objectBase || s.chunkLimit <= g.live[i].addr
    ensures forall j :: 0 <= j < |g.live| && j != i ==>
                          g.live[i].End() <= g.live[j].addr || g.live[j].End() <= g.live[i].addr
  {
    ObjectBelow(s, g, i);
    forall j | 0 <= j < |g.live| && j != i
      ensures g.live[i].End() <= g.live[j].addr || g.live[j].End() <= g.live[i].addr
    {
      if i < j { ObjectsApart(s, g, i, j); } else { ObjectsApart(s, g, j, i); }
    }
  }

  /** Bytes after the user's stores into object `i` during a run. */
  function BytesAfter(bytes: seq<Byte>, ops: seq<Op>, i: nat): (r: seq<Byte>)
    ensures |r| == |bytes|
    decreases |ops|
  {
    if ops == [] then bytes else BytesAfter(PokedBytes(bytes, ops[0], i), ops[1..], i)
  }

  function CellsAfter(cells: seq<Cell>, ops: seq<Op>, i: nat): (r: seq<Cell>)
    ensures |r| == |cells|
    decreases |ops|
  {
    if ops == [] then cells else CellsAfter(PokedCells(cells, ops[0], i), ops[1..], i)
  }

  /** An object that the user does not store into does not change. */
  lemma {:induction false} NoStoresNoChange(bytes: seq<Byte>, cells: seq<Cell>, ops: seq<Op>, i: nat)
    requires forall m :: 0 <= m < |ops| && ops[m].ObjectStore? ==> ops[m].index != i
    ensures BytesAfter(bytes, ops, i) == bytes && CellsAfter(cells, ops, i) == cells
    decreases |ops|
  {
    if ops == [] {
    } else {
      assert !(ops[0].ObjectStore? && ops[0].index == i);
      NoStoresNoChange(bytes, cells, ops[1..], i);
    }
  }

  /** Object `o` is still at its address as `o'`, and its bytes are those it had but
      for what the user stored there. */
  predicate Persists(m: seq<Byte>, m': seq<Byte>, o: Object, o': Object, ops: seq<Op>, i: nat) {
    && o' == o.(cells := CellsAfter(o.cells, ops, i))
    && o.End() <= |m| == |m'|
    && m'[o.addr..o.End()] == BytesAfter(m[o.addr..o.End()], ops, i)
  }

  lemma PersistsOneMore(m: seq<Byte>, m': seq<Byte>, m'': seq<Byte>, o: Object, o': Object, o'': Object,
                        ops: seq<Op>, i: nat)
    requires ops != [] && KeepsObject(m, m', o, o', ops[0], i) && Persists(m', m'', o', o'', ops[1..], i)
    ensures Persists(m, m'', o, o'', ops, i)
  {
    assert o'.addr == o.addr && o'.End() == o.End();
  }

  /** The first `n` objects keep their addresses and, but for the user's own
      stores, every one of their bytes through any run that frees no address among
      theirs: through growth, changes of chunk, frees of newer objects, stores into
      other objects and failed allocations. */
  lemma {:induction false} ObjectsPersist(s: State, g: Log, ops: seq<Op>, n: nat)
    requires Inv(s, g) && RunOk(s, g, ops) && n <= |g.live|
    requires forall m, i :: 0 <= m < |ops| && 0 <= i < n && ops[m].Freeing? ==> ops[m].addr != g.live[i].addr
    ensures n <= |RunLog(s, g, ops).live|
    ensures forall i :: 0 <= i < n ==>
                          Persists(s.mem, RunState(s, g, ops).mem, g.live[i], RunLog(s, g, ops).live[i], ops, i)
    decreases |ops|
  {
    if ops == [] {
      forall i | 0 <= i < n
        ensures Persists(s.mem, s.mem, g.live[i], g.live[i], [], i)
      {
        ObjectBelow(s, g, i);
      }
    } else {
      var op, rest := ops[0], ops[1..];
      var t, h := Step(s, g, op), StepLog(s, g, op);
      StepSafe(s, g, op);
      assert n <= Shared(g, op);
      assert forall i :: 0 <= i < n ==> KeepsObject(s.mem, t.mem, g.live[i], h.live[i], op, i);
      assert forall m :: 0 <= m < |rest| ==> rest[m] == ops[m + 1];
      ObjectsPersist(t, h, rest, n);
      var u, k := RunState(t, h, rest), RunLog(t, h, rest);
      forall i | 0 <= i < n
        ensures Persists(s.mem, u.mem, g.live[i], k.live[i], ops, i)
      {
        PersistsOneMore(s.mem, t.mem, u.mem, g.live[i], h.live[i], k.live[i], ops, i);
      }
    }
  }

  /** Hence what the user put into an object, by appending to it while it grew or by
      storing into it, is there at the end. */
  lemma ContentsPersist(s: State, g: Log, ops: seq<Op>, i: nat)
    requires Inv(s, g) && RunOk(s, g, ops) && i < |g.live|
    requires forall m, j :: 0 <= m < |ops| && 0 <= j <= i && ops[m].Freeing? ==> ops[m].addr != g.live[j].addr
    ensures g.live[i].End() <= |RunState(s, g, ops).mem|
    ensures Agrees(RunState(s, g, ops).mem[g.live[i].addr..g.live[i].End()], CellsAfter(g.live[i].cells, ops, i))
  {
    ObjectsPersist(s, g, ops, i + 1);
    RunSafe(s, g, ops);
    var t, h := RunState(s, g, ops), RunLog(s, g, ops);
    assert Persists(s.mem, t.mem, g.live[i], h.live[i], ops, i);
    assert Placed(t, h.live[i]);
  }

  // ----------------------------------------------------- the growing object

  function GrownBy(cells: seq<Cell>, op: Op): seq<Cell> {
    match op
    case Appending(more, _) => cells + more
    case GrowingStore(offset, value) => if offset < |cells| then cells[offset := Known(value)] else cells
    case _ => cells
  }

  /** Everything appended and stored, in order. */
  function Grown(cells: seq<Cell>, ops: seq<Op>): seq<Cell>
    decreases |ops|
  {
    if ops == [] then cells else Grown(GrownBy(cells, ops[0]), ops[1..])
  }

  function Total(ops: seq<Op>): nat {
    if ops == [] then 0 else (if ops[0].Appending? then |ops[0].cells| else 0) + Total(ops[1..])
  }

  lemma {:induction false} GrownLength(cells: seq<Cell>, ops: seq<Op>)
    ensures |Grown(cells, ops)| == |cells| + Total(ops)
    decreases |ops|
  {
    if ops == [] {
    } else {
      GrownLength(GrownBy(cells, ops[0]), ops[1..]);
    }
  }

  /** No append of the run, other than of nothing, found `alloc_failed` set. */
  ghost predicate NoneDropped(s: State, g: Log, ops: seq<Op>)
    requires RunOk(s, g, ops)
    decreases |ops|
  {
    ops == [] ||
    (&& (ops[0].Appending? && ops[0].cells != [] ==> !Step(s, g, ops[0]).allocFailed)
     && NoneDropped(Step(s, g, ops[0]), StepLog(s, g, ops[0]), ops[1..]))
  }

  /** An operation on the growing object, or on none, whose memory is granted. */
  predicate Granted(op: Op) { !op.Finishing? && !op.Freeing? && (op.Appending? ==> op.reply != NULL) }

  lemma {:induction false} GrantedNoneDropped(s: State, g: Log, ops: seq<Op>)
    requires Inv(s, g) && RunOk(s, g, ops) && !s.allocFailed
    requires forall m :: 0 <= m < |ops| ==> Granted(ops[m])
    ensures NoneDropped(s, g, ops)
    decreases |ops|
  {
    if ops == [] {
    } else {
      var op := ops[0];
      assert Granted(op);
      StepSafe(s, g, op);
      if op.Appending? { RoomMade(s, |op.cells|, op.reply); }
      GrantedNoneDropped(Step(s, g, op), StepLog(s, g, op), ops[1..]);
    }
  }

  lemma StepGrows(s: State, g: Log, op: Op)
    requires Inv(s, g) && OpOk(s, g, op) && !op.Finishing? && !op.Freeing?
    ensures var dropped := op.Appending? && op.cells != [] && Step(s, g, op).allocFailed;
            StepLog(s, g, op).growing == if dropped then g.growing else GrownBy(g.growing, op)
  {
    if op.Appending? && op.cells == [] { assert g.growing + [] == g.growing; }
  }

  lemma {:induction false} DroppedIsMissing(s: State, g: Log, ops: seq<Op>)
    requires Inv(s, g) && RunOk(s, g, ops)
    requires forall m :: 0 <= m < |ops| ==> !ops[m].Finishing? && !ops[m].Freeing?
    ensures |RunLog(s, g, ops).growing| <= |g.growing| + Total(ops)
    ensures !NoneDropped(s, g, ops) ==> |RunLog(s, g, ops).growing| < |g.growing| + Total(ops)
    ensures NoneDropped(s, g, ops) ==> RunLog(s, g, ops).growing == Grown(g.growing, ops)
    decreases |ops|
  {
    if ops == [] {
    } else {
      StepSafe(s, g, ops[0]);
      StepGrows(s, g, ops[0]);
      DroppedIsMissing(Step(s, g, ops[0]), StepLog(s, g, ops[0]), ops[1..]);
    }
  }

  /** Over any run of appends and stores, granted or not, the bytes from object_base
      to next_free are everything appended and stored since the last finish,
      contiguous and in order, exactly when no append found the failure flag set;
      and this however many chunks the object has moved through. */
  lemma CompleteExactlyWhen(s: State, g: Log, ops: seq<Op>)
    requires Inv(s, g) && RunOk(s, g, ops)
    requires forall m :: 0 <= m < |ops| ==> !ops[m].Finishing? && !ops[m].Freeing?
    ensures var t := RunState(s, g, ops);
            && t.objectBase <= t.nextFree <= |t.mem|
            && (Agrees(t.mem[t.objectBase..t.nextFree], Grown(g.growing, ops)) <==> NoneDropped(s, g, ops))
  {
    RunSafe(s, g, ops);
    DroppedIsMissing(s, g, ops);
    GrownLength(g.growing, ops);
  }

  /** In particular when every request for memory is granted. */
  lemma GrowingIsContiguous(s: State, g: Log, ops: seq<Op>)
    requires Inv(s, g) && RunOk(s, g, ops) && !s.allocFailed
    requires forall m :: 0 <= m < |ops| ==> Granted(ops[m])
    ensures var t := RunState(s, g, ops);
            && t.objectBase <= t.nextFree <= |t.mem|
            && Agrees(t.mem[t.objectBase..t.nextFree], Grown(g.growing, ops))
  {
    GrantedNoneDropped(s, g, ops);
    CompleteExactlyWhen(s, g, ops);
  }

  // --------------------------------------------------------- after a failure

  /** The run asks for no chunk that it is given. */
  ghost predicate NoneGranted(s: State, g: Log, ops: seq<Op>)
    requires RunOk(s, g, ops)
    decreases |ops|
  {
    ops == [] ||
    (&& (ops[0].Appending? && NeedsChunk(s, |ops[0].cells|) ==> ops[0].reply == NULL)
     && NoneGranted(Step(s, g, ops[0]), StepLog(s, g, ops[0]), ops[1..]))
  }

  /** What the finishes of a run return. */
  ghost function FinishValues(s: State, g: Log, ops: seq<Op>): seq<nat>
    requires RunOk(s, g, ops)
    decreases |ops|
  {
    if ops == [] then []
    else
      (if ops[0].Finishing? then [Finished(s)] else []) +
      FinishValues(Step(s, g, ops[0]), StepLog(s, g, ops[0]), ops[1..])
  }

  predicate Frees(ops: seq<Op>) { exists m :: 0 <= m < |ops| && ops[m].Freeing? }

  /** The objects `after` are the first of those `before`: where they were, and as
      long as they were. */
  predicate NoneMade(before: seq<Object>, after: seq<Object>) {
    && |after| <= |before|
    && forall i :: 0 <= i < |after| ==> after[i] == before[i].(cells := after[i].cells)
                                        && |after[i].cells| == |before[i].cells|
  }

  lemma FailedStep(s: State, g: Log, op: Op)
    requires Inv(s, g) && OpOk(s, g, op) && s.allocFailed
    requires op.Appending? && NeedsChunk(s, |op.cells|) ==> op.reply == NULL
    ensures var t, h := Step(s, g, op), StepLog(s, g, op);
            && t.allocFailed && t.obtained == s.obtained && NoneMade(g.live, h.live)
            && |h.growing| == (if op.Freeing? then 0 else |g.growing|)
            && (!op.Freeing? ==> t == s.(mem := t.mem) && |h.live| == |g.live|)
  {
    if op.Freeing? { FreeCuts(s, g, FirstAt(g.live, op.addr)); }
  }

  lemma FreesOneMore(ops: seq<Op>)
    requires ops != []
    ensures Frees(ops) <==> ops[0].Freeing? || Frees(ops[1..])
  {
    if Frees(ops[1..]) {
      var m :| 0 <= m < |ops[1..]| && ops[1..][m].Freeing?;
      assert ops[m + 1].Freeing?;
    }
    if Frees(ops) && !ops[0].Freeing? {
      var m :| 0 <= m < |ops| && ops[m].Freeing?;
      assert ops[1..][m - 1].Freeing?;
    }
  }

  /** Once an allocation has failed, and until a later one is granted, nothing is
      ever added, whatever is appended and however well it would fit: the flag stays
      set, every finish returns 0, no object is made, and the growing object is as
      long as it was or, after a free, empty. */
  lemma {:induction false} FailureLasts(s: State, g: Log, ops: seq<Op>)
    requires Inv(s, g) && RunOk(s, g, ops) && s.allocFailed && NoneGranted(s, g, ops)
    ensures RunState(s, g, ops).allocFailed && RunState(s, g, ops).obtained == s.obtained
    ensures forall v :: v in FinishValues(s, g, ops) ==> v == NULL
    ensures NoneMade(g.live, RunLog(s, g, ops).live)
    ensures |RunLog(s, g, ops).growing| == if Frees(ops) then 0 else |g.growing|
    decreases |ops|
  {
    if ops == [] {
    } else {
      StepSafe(s, g, ops[0]);
      FailedStep(s, g, ops[0]);
      FreesOneMore(ops);
      FailureLasts(Step(s, g, ops[0]), StepLog(s, g, ops[0]), ops[1..]);
    }
  }

  /** And without a free the control block stays as it is. */
  lemma {:induction false} FailureFreezes(s: State, g: Log, ops: seq<Op>)
    requires Inv(s, g) && RunOk(s, g, ops) && s.allocFailed && NoneGranted(s, g, ops)
    requires forall m :: 0 <= m < |ops| ==> !ops[m].Freeing?
    ensures RunState(s, g, ops) == s.(mem := RunState(s, g, ops).mem)
    ensures |RunLog(s, g, ops).live| == |g.live|
    decreases |ops|
  {
    if ops == [] {
    } else {
      StepSafe(s, g, ops[0]);
      FailedStep(s, g, ops[0]);
      FailureFreezes(Step(s, g, ops[0]), StepLog(s, g, ops[0]), ops[1..]);
    }
  }

  // -------------------------------------------------------------- alignment

  /** Where an object can start: on an aligned address, at the start of its
      chunk, or (when the round-up was clamped) at the end of it. */
  predicate StartsWell(addr: nat, c: Chunk, mask: nat) {
    addr % (mask + 1) == 0 || addr == c.Contents() || addr == c.limit
  }

  ghost predicate StartsAllWell(s: State, g: Log) {
    && s.chunks != []
    && StartsWell(s.objectBase, s.Current(), s.alignmentMask)
    && forall i :: 0 <= i < |g.live| ==>
                     g.live[i].home < |s.chunks| &&
                     StartsWell(g.live[i].addr, s.chunks[g.live[i].home], s.alignmentMask)
  }

  ghost predicate Aligned(s: State, g: Log) { Inv(s, g) && StartsAllWell(s, g) }

  lemma AppendAligned(s: State, g: Log, cells: seq<Cell>, reply: nat)
    requires Aligned(s, g) && OpOk(s, g, Appending(cells, reply))
    ensures StartsAllWell(Append(s, cells, reply), g)
    ensures Append(s, cells, reply).alignmentMask == s.alignmentMask
  {
    var t := MakeRoom(s, |cells|, reply);
    RoomMade(s, |cells|, reply);
    forall i | 0 <= i < |g.live|
      ensures g.live[i].home < |t.chunks| && StartsWell(g.live[i].addr, t.chunks[g.live[i].home], t.alignmentMask)
    {
      assert Placed(s, g.live[i]) && EmptyNoted(s, g.live[i]);
    }
    assert StartsAllWell(t, g);
  }

  lemma FinishAligned(s: State, g: Log)
    requires Aligned(s, g)
    ensures StartsAllWell(Finish(s), StepLog(s, g, Finishing))
    ensures Finish(s).alignmentMask == s.alignmentMask
  {
    AlignsForward(s);
  }

  /** Objects older than `g.live[k]` are in chunks that a cut behind its chunk
      leaves. */
  lemma CutAligned(s: State, g: Log, k: nat, chunks: seq<Chunk>)
    requires Aligned(s, g) && k < |g.live| && g.live[k].home < |s.chunks|
    requires chunks == s.chunks[..g.live[k].home + 1]
    ensures forall i :: 0 <= i <= k ==>
                          g.live[i].home < |chunks| &&
                          StartsWell(g.live[i].addr, chunks[g.live[i].home], s.alignmentMask)
  {
    forall i | 0 <= i <= k
      ensures g.live[i].home < |chunks| && StartsWell(g.live[i].addr, chunks[g.live[i].home], s.alignmentMask)
    {
      assert i < k ==> Before(g.live[i], g.live[k]);
      assert StartsWell(g.live[i].addr, s.chunks[g.live[i].home], s.alignmentMask);
    }
  }

  lemma FreeAligned(s: State, g: Log, addr: nat)
    requires Aligned(s, g) && OpOk(s, g, Freeing(addr))
    ensures StartsAllWell(Free(s, addr), StepLog(s, g, Freeing(addr)))
    ensures Free(s, addr).alignmentMask == s.alignmentMask
  {
    var k := FirstAt(g.live, addr);
    FreeCuts(s, g, k);
    CutAligned(s, g, k, s.chunks[..g.live[k].home + 1]);
  }

  lemma StepAligned(s: State, g: Log, op: Op)
    requires Aligned(s, g) && OpOk(s, g, op)
    ensures Aligned(Step(s, g, op), StepLog(s, g, op))
    ensures Step(s, g, op).alignmentMask == s.alignmentMask
  {
    StepSafe(s, g, op);
    match op
    case Appending(cells, reply) => AppendAligned(s, g, cells, reply);
    case Finishing => FinishAligned(s, g);
    case Freeing(addr) => FreeAligned(s, g, addr);
    case _ =>
  }

  lemma {:induction false} RunAligned(s: State, g: Log, ops: seq<Op>)
    requires Aligned(s, g) && RunOk(s, g, ops)
    ensures Aligned(RunState(s, g, ops), RunLog(s, g, ops))
    ensures RunState(s, g, ops).alignmentMask == s.alignmentMask
    decreases |ops|
  {
    if ops == [] {
    } else {
      StepAligned(s, g, ops[0]);
      RunAligned(Step(s, g, ops[0]), StepLog(s, g, ops[0]), ops[1..]);
    }
  }

  lemma NonEmptyStartsBelowLimit(s: State, g: Log, i: nat)
    requires Inv(s, g) && i < |g.live| && g.live[i].cells != []
    ensures g.live[i].home < |s.chunks| && g.live[i].addr < s.chunks[g.live[i].home].limit
  {
    assert Placed(s, g.live[i]);
    assert s.chunks[g.live[i].home].Fits(|s.mem|);
  }

  /** Despite the clamp in obstack_finish, a non-empty object of any run is aligned,
      unless it is the first of a chunk whose contents are not: obstack.c rounds
      the end of an object and never the start of a chunk. */
  lemma AlignedExactlyWhen(s: State, g: Log, ops: seq<Op>, i: nat)
    requires Aligned(s, g) && RunOk(s, g, ops)
    requires i < |RunLog(s, g, ops).live| && RunLog(s, g, ops).live[i].cells != []
    ensures var t, o := RunState(s, g, ops), RunLog(s, g, ops).live[i];
            && o.home < |t.chunks|
            && var first := t.chunks[o.home].Contents();
            (o.addr % (s.alignmentMask + 1) == 0 <==> o.addr != first || first % (s.alignmentMask + 1) == 0)
  {
    RunAligned(s, g, ops);
    var t, h := RunState(s, g, ops), RunLog(s, g, ops);
    NonEmptyStartsBelowLimit(t, h, i);
    assert StartsWell(h.live[i].addr, t.chunks[h.live[i].home], t.alignmentMask);
  }

  predicate ContentsAligned(chunks: seq<Chunk>, mask: nat) {
    forall i :: 0 <= i < |chunks| ==> chunks[i].Contents() % (mask + 1) == 0
  }

  /** The chunk function returns blocks whose contents are aligned. */
  predicate AlignedReply(op: Op, mask: nat) {
    op.Appending? && op.reply != NULL ==> (op.reply + HEADER) % (mask + 1) == 0
  }

  lemma StepContentsAligned(s: State, g: Log, op: Op)
    requires Inv(s, g) && OpOk(s, g, op)
    requires ContentsAligned(s.chunks, s.alignmentMask) && AlignedReply(op, s.alignmentMask)
    ensures ContentsAligned(Step(s, g, op).chunks, s.alignmentMask)
  {
    var t := Step(s, g, op);
    if op.Freeing? {
      FreeCuts(s, g, FirstAt(g.live, op.addr));
    } else if op.Appending? && NeedsChunk(s, |op.cells|) && op.reply != NULL {
      forall i | 0 <= i < |t.chunks|
        ensures t.chunks[i].Contents() % (s.alignmentMask + 1) == 0
      {
        if i < |t.chunks| - 1 { assert t.chunks[i] == s.chunks[i]; }
      }
    }
  }

  lemma {:induction false} RunContentsAligned(s: State, g: Log, ops: seq<Op>)
    requires Aligned(s, g) && RunOk(s, g, ops) && ContentsAligned(s.chunks, s.alignmentMask)
    requires forall m :: 0 <= m < |ops| ==> AlignedReply(ops[m], s.alignmentMask)
    ensures ContentsAligned(RunState(s, g, ops).chunks, s.alignmentMask)
    decreases |ops|
  {
    if ops == [] {
    } else {
      assert AlignedReply(ops[0], s.alignmentMask);
      StepContentsAligned(s, g, ops[0]);
      StepAligned(s, g, ops[0]);
      RunContentsAligned(Step(s, g, ops[0]), StepLog(s, g, ops[0]), ops[1..]);
    }
  }

  /** With chunks whose contents are aligned, every non-empty object of every run
      is. */
  lemma NonEmptyObjectsAligned(s: State, g: Log, ops: seq<Op>, i: nat)
    requires Aligned(s, g) && RunOk(s, g, ops) && ContentsAligned(s.chunks, s.alignmentMask)
    requires forall m :: 0 <= m < |ops| ==> AlignedReply(ops[m], s.alignmentMask)
    requires i < |RunLog(s, g, ops).live| && RunLog(s, g, ops).live[i].cells != []
    ensures RunLog(s, g, ops).live[i].addr % (s.alignmentMask + 1) == 0
  {
    AlignedExactlyWhen(s, g, ops, i);
    RunContentsAligned(s, g, ops);
  }

  predicate StartsChunk(s: State, g: Log, i: int) {
    && 0 <= i < |g.live| && s.chunks != []
    && g.live[i].home == |s.chunks| - 1 && g.live[i].addr == s.Current().Contents()
  }

  /** While `maybe_empty_object` is clear, what comes first in the current chunk is at
      its start. */
  ghost predicate Tight(s: State, g: Log) {
    && Inv(s, g)
    && (!s.maybeEmptyObject ==>
          || s.objectBase == s.Current().Contents()
          || exists i :: StartsChunk(s, g, i))
  }

  /** A new obstack with one chunk of 4072 bytes at address 16. */
  function Begun(alignment: nat): State
    requires alignment > 0
  {
    var chunk := Chunk(16, 4088);
    State(4072, [chunk], 24, 24, 4088, alignment - 1, false, false, seq(4096, _ => 0), [chunk], [])
  }

  lemma BegunAligned(k: nat)
    ensures Aligned(Begun(Pow2(k)), Log([], [])) && Tight(Begun(Pow2(k)), Log([], []))
  {
    var s := Begun(Pow2(k));
    assert IsMask(s.alignmentMask);
    assert Valid(s);
  }

  /** Alignment 16 and a chunk on a multiple of 16: its contents start 8 bytes on,
      and so does its first object. */
  lemma FirstObjectMisaligned()
    ensures var s, g, ops := Begun(16), Log([], []), [Appending([Known(1)], NULL), Finishing];
            && Aligned(s, g) && RunOk(s, g, ops)
            && RunLog(s, g, ops).live == [Object(24, [Known(1)], 0)] && 24 % 16 != 0
  {
    var s, g, ops := Begun(16), Log([], []), [Appending([Known(1)], NULL), Finishing];
    assert Pow2(4) == 16;
    BegunAligned(4);
    StepSafe(s, g, ops[0]);
    var t, h := Step(s, g, ops[0]), StepLog(s, g, ops[0]);
    assert h == Log([], [Known(1)]) && !t.allocFailed && t.objectBase == 24;
    assert ops[1..] == [Finishing] && [Finishing][1..] == [];
    assert RunOk(t, h, [Finishing]) && RunLog(t, h, [Finishing]) == StepLog(t, h, Finishing);
  }

  /** A request for 5000 bytes is refused; then a single byte, for which there is
      room, is dropped as well, although a new obstack takes it. */
  lemma FittingAppendDropped(byte: Byte)
    ensures var s, g := Begun(4), Log([], []);
            var big, small := Appending(BlankCells(5000), NULL), Appending([Known(byte)], NULL);
            && Inv(s, g) && OpOk(s, g, big) && OpOk(s, g, small)
            && Step(s, g, small).nextFree == s.nextFree + 1
            && var t := Step(s, g, big);
            && Valid(t) && OpOk(t, g, small) && !NeedsChunk(t, 1) && Step(t, g, small) == t
  {
    assert Pow2(2) == 4;
    BegunAligned(2);
    StepSafe(Begun(4), Log([], []), Appending(BlankCells(5000), NULL));
  }

  // ------------------------------------------------------ chunks and places

  /** Appending what fits asks for no chunk and moves nothing. */
  lemma FittingAppendStays(s: State, g: Log, cells: seq<Cell>, reply: nat)
    requires Inv(s, g) && s.nextFree + |cells| <= s.chunkLimit && !s.allocFailed
    ensures OpOk(s, g, Appending(cells, reply))
    ensures var t := Step(s, g, Appending(cells, reply));
            t == s.(nextFree := s.nextFree + |cells|, mem := t.mem)
  {
  }

  /** Appending what does not fit asks for a chunk of the size that obstack_begin was
      given or, if that is too little, with room for the object, the new bytes, an
      eighth of the object and 100 bytes more; the object starts that chunk. */
  lemma AppendAsksFor(s: State, g: Log, cells: seq<Cell>, reply: nat)
    requires Inv(s, g) && OpOk(s, g, Appending(cells, reply)) && s.nextFree + |cells| > s.chunkLimit && reply != NULL
    ensures var t, size := Step(s, g, Appending(cells, reply)), s.nextFree - s.objectBase;
            var needed := size + |cells| + size / 8 + 100;
            && |t.obtained| == |s.obtained| + 1 && t.obtained[..|s.obtained|] == s.obtained
            && var c := t.obtained[|s.obtained|];
            && c.base == reply && c.limit - c.base == (if needed < s.chunkSize then s.chunkSize else needed)
            && t.chunks != [] && t.Current() == c && t.chunkLimit == c.limit
            && t.objectBase == reply + 8 && t.nextFree == t.objectBase + size + |cells|
            && !t.maybeEmptyObject && !t.allocFailed
  {
    assert Pow2(3) == 8;
    ShrIsQuotient(s.nextFree - s.objectBase, 3);
    RoomMade(s, |cells|, reply);
  }

  /** After a finish the next object starts at the first aligned address from the end
      of the one finished, or at the end of the chunk if that comes before. */
  lemma FinishPlacesNext(s: State, g: Log)
    requires Inv(s, g) && !s.allocFailed
    ensures var t, a := Step(s, g, Finishing), s.alignmentMask + 1;
            && s.nextFree <= t.objectBase == t.nextFree <= s.chunkLimit
            && (t.objectBase % a == 0 || t.objectBase == s.chunkLimit)
            && forall y :: y % a == 0 && s.nextFree <= y ==> t.objectBase <= y
  {
    AlignsForward(s);
    var k: nat :| s.alignmentMask == Pow2(k) - 1;
    RoundUpIsLeastMultiple(s.nextFree, k);
  }

  lemma AppendTight(s: State, g: Log, cells: seq<Cell>, reply: nat)
    requires Tight(s, g) && OpOk(s, g, Appending(cells, reply))
    ensures Tight(Step(s, g, Appending(cells, reply)), StepLog(s, g, Appending(cells, reply)))
  {
    var op := Appending(cells, reply);
    StepSafe(s, g, op);
    var t, h := Step(s, g, op), StepLog(s, g, op);
    if NeedsChunk(s, |cells|) && reply != NULL {
      AppendAsksFor(s, g, cells, reply);
    } else {
      assert forall i :: StartsChunk(s, g, i) ==> StartsChunk(t, h, i);
    }
  }

  lemma FinishTight(s: State, g: Log)
    requires Tight(s, g)
    ensures Tight(Finish(s), StepLog(s, g, Finishing))
  {
    StepSafe(s, g, Finishing);
    var t, h := Finish(s), StepLog(s, g, Finishing);
    assert t.chunks == s.chunks;
    forall i | StartsChunk(s, g, i)
      ensures StartsChunk(t, h, i)
    {
      assert h.live[i] == g.live[i];
    }
    if !s.allocFailed && s.objectBase == s.Current().Contents() {
      assert StartsChunk(t, h, |g.live|);
    }
  }

  lemma FreeTight(s: State, g: Log, addr: nat)
    requires Tight(s, g) && OpOk(s, g, Freeing(addr))
    ensures Tight(Free(s, addr), StepLog(s, g, Freeing(addr)))
  {
    StepSafe(s, g, Freeing(addr));
    var k := FirstAt(g.live, addr);
    FreeCuts(s, g, k);
    var t, h := Free(s, addr), StepLog(s, g, Freeing(addr));
    var start := s.Current().Contents();
    if !t.maybeEmptyObject {
      assert Placed(s, g.live[k]) && g.live[k].home == |s.chunks| - 1;
      assert t.Current() == s.Current();
      if s.objectBase != start {
        var i :| StartsChunk(s, g, i);
        if i < k {
          assert StartsChunk(t, h, i);
        } else if k < i {
          assert Before(g.live[k], g.live[i]);
        }
      }
    }
  }

  lemma StoreTight(s: State, g: Log, op: Op)
    requires Tight(s, g) && OpOk(s, g, op) && (op.ObjectStore? || op.GrowingStore? || op.OutsideStore?)
    ensures Tight(Step(s, g, op), StepLog(s, g, op))
  {
    StepSafe(s, g, op);
    var t, h := Step(s, g, op), StepLog(s, g, op);
    assert t == s.(mem := t.mem);
    forall i | StartsChunk(s, g, i)
      ensures StartsChunk(t, h, i)
    {
      assert KeepsObject(s.mem, t.mem, g.live[i], h.live[i], op, i);
    }
  }

  lemma {:induction false} RunTight(s: State, g: Log, ops: seq<Op>)
    requires Tight(s, g) && RunOk(s, g, ops)
    ensures Tight(RunState(s, g, ops), RunLog(s, g, ops))
    decreases |ops|
  {
    if ops == [] {
    } else {
      match ops[0] {
        case Appending(cells, reply) => AppendTight(s, g, cells, reply);
        case Finishing => FinishTight(s, g);
        case Freeing(addr) => FreeTight(s, g, addr);
        case _ => StoreTight(s, g, ops[0]);
      }
      RunTight(Step(s, g, ops[0]), StepLog(s, g, ops[0]), ops[1..]);
    }
  }

  lemma UnusedExactlyWhen(s: State, g: Log)
    requires Tight(s, g)
    ensures OldChunkUnused(s) <==>
            !s.maybeEmptyObject && forall i :: 0 <= i < |g.live| ==> g.live[i].home != |s.chunks| - 1
  {
    if OldChunkUnused(s) {
      forall i | 0 <= i < |g.live|
        ensures g.live[i].home != |s.chunks| - 1
      {
        assert Placed(s, g.live[i]) && EmptyNoted(s, g.live[i]);
      }
    }
  }

  /** When the growing object moves to a new chunk, after any run, the chunk it leaves
      is given back exactly when no live object is in it and `maybe_empty_object` is
      clear. */
  lemma ReleasedExactlyWhen(s: State, g: Log, ops: seq<Op>, cells: seq<Cell>, reply: nat)
    requires Tight(s, g) && RunOk(s, g, ops) && Valid(RunState(s, g, ops))
    requires OpOk(RunState(s, g, ops), RunLog(s, g, ops), Appending(cells, reply))
    requires RunState(s, g, ops).nextFree + |cells| > RunState(s, g, ops).chunkLimit && reply != NULL
    ensures var t, h := RunState(s, g, ops), RunLog(s, g, ops);
            var u := Step(t, h, Appending(cells, reply));
            var unused := !t.maybeEmptyObject && forall i :: 0 <= i < |h.live| ==> h.live[i].home != |t.chunks| - 1;
            && u.chunks != []
            && u.freed == (if unused then t.freed + [t.Current()] else t.freed)
            && u.chunks == (if unused then t.Older() else t.chunks) + [u.Current()]
  {
    RunTight(s, g, ops);
    UnusedExactlyWhen(RunState(s, g, ops), RunLog(s, g, ops));
    RoomMade(RunState(s, g, ops), |cells|, reply);
  }

  // ----------------------------------------------------- conservation of chunks

  /** Every chunk obtained from obstack_chunk_alloc is held or was given back,
      exactly once. */
  ghost predicate Balanced(s: State) {
    multiset(s.obtained) == multiset(s.freed) + multiset(s.chunks)
  }

  lemma SplitLast(chunks: seq<Chunk>)
    requires chunks != []
    ensures multiset(chunks) == multiset(chunks[..|chunks| - 1]) + multiset{chunks[|chunks| - 1]}
  {
    assert chunks == chunks[..|chunks| - 1] + [chunks[|chunks| - 1]];
  }

  lemma {:induction false} FreeWalkBalanced(s: State, addr: nat)
    requires Balanced(s)
    ensures Balanced(FreeWalk(s, addr))
    decreases |s.chunks|
  {
    if s.chunks == [] {
    } else if s.Current().base >= addr || s.Current().limit < addr {
      SplitLast(s.chunks);
      FreeWalkBalanced(
        s.(chunks := s.Older(), freed := s.freed + [s.Current()], maybeEmptyObject := true), addr);
    }
  }

  lemma AppendBalanced(s: State, cells: seq<Cell>, reply: nat)
    requires Valid(s) && (NeedsChunk(s, |cells|) ==> ReplyOk(s, |cells|, reply)) && Balanced(s)
    ensures Balanced(Append(s, cells, reply))
  {
    SplitLast(s.chunks);
  }

  lemma StepBalanced(s: State, g: Log, op: Op)
    requires Valid(s) && OpOk(s, g, op) && Balanced(s)
    ensures Balanced(Step(s, g, op))
  {
    match op
    case Appending(cells, reply) => AppendBalanced(s, cells, reply);
    case Freeing(addr) => FreeWalkBalanced(s, addr);
    case _ =>
  }

  lemma {:induction false} RunBalanced(s: State, g: Log, ops: seq<Op>)
    requires Inv(s, g) && RunOk(s, g, ops) && Balanced(s)
    ensures Balanced(RunState(s, g, ops))
    decreases |ops|
  {
    if ops == [] {
    } else {
      StepSafe(s, g, ops[0]);
      StepBalanced(s, g, ops[0]);
      RunBalanced(Step(s, g, ops[0]), StepLog(s, g, ops[0]), ops[1..]);
    }
  }

  lemma {:induction false} FreeWalkNull(s: State)
    ensures FreeWalk(s, NULL).chunks == []
    decreases |s.chunks|
  {
    if s.chunks == [] {
    } else {
      FreeWalkNull(s.(chunks := s.Older(), freed := s.freed + [s.Current()], maybeEmptyObject := true));
    }
  }

  /** obstack_free runs out of chunks exactly when none of them holds the address
      behind its header's start and up to its end. */
  lemma {:induction false} AbortExactlyWhen(s: State, addr: nat)
    ensures FreeWalk(s, addr).chunks == [] <==>
            forall i :: 0 <= i < |s.chunks| ==> s.chunks[i].base >= addr || s.chunks[i].limit < addr
    decreases |s.chunks|
  {
    if s.chunks == [] {
    } else if s.Current().base >= addr || s.Current().limit < addr {
      var t := s.(chunks := s.Older(), freed := s.freed + [s.Current()], maybeEmptyObject := true);
      AbortExactlyWhen(t, addr);
      assert forall i :: 0 <= i < |t.chunks| ==> s.chunks[i] == t.chunks[i];
    } else {
      assert s.chunks[|s.chunks| - 1] == s.Current();
    }
  }

  /** Freeing the null pointer after any run gives back every chunk that was
      ever obtained and not yet given back: nothing leaks, nothing goes twice. */
  lemma FreeAllReturnsEverything(s: State, g: Log, ops: seq<Op>)
    requires Inv(s, g) && RunOk(s, g, ops) && Balanced(s)
    ensures RunState(s, g, ops).chunks != []
    ensures var u := Free(RunState(s, g, ops), NULL);
            u.chunks == [] && multiset(u.obtained) == multiset(u.freed)
  {
    RunSafe(s, g, ops);
    RunBalanced(s, g, ops);
    FreeWalkNull(RunState(s, g, ops));
    FreeWalkBalanced(RunState(s, g, ops), NULL);
  }

  // -------------------------------------------------------- unwind and replay

  lemma SameAddressSameHome(s: State, g: Log, i: nat, j: nat)
    requires Inv(s, g) && i < |g.live| && j < |g.live| && g.live[i].addr == g.live[j].addr
    ensures g.live[i].home == g.live[j].home
  {
    var o, p := g.live[i], g.live[j];
    assert Placed(s, o) && Placed(s, p);
    assert o.home < p.home ==> s.chunks[o.home].DisjointFrom(s.chunks[p.home]);
    assert p.home < o.home ==> s.chunks[p.home].DisjointFrom(s.chunks[o.home]);
  }

  /** Freeing a live object removes exactly the objects at or above its address
      in its own chunk and all objects of newer chunks. */
  lemma FreeRemovesExactly(s: State, g: Log, addr: nat, k: nat, i: nat)
    requires Inv(s, g) && OpOk(s, g, Freeing(addr)) && i < |g.live|
    requires k < |g.live| && g.live[k].addr == addr
    ensures var h := StepLog(s, g, Freeing(addr));
            h.live <= g.live
            && (i < |h.live| <==> g.live[i].home < g.live[k].home ||
                                  (g.live[i].home == g.live[k].home && g.live[i].addr < addr))
  {
    var first := FirstAt(g.live, addr);
    SameAddressSameHome(s, g, first, k);
    if i < first {
      assert Before(g.live[i], g.live[first]);
    } else if first < i {
      assert Before(g.live[first], g.live[i]);
    }
  }

  /** Appends and finishes that stay inside the current chunk. */
  ghost predicate FitsRun(s: State, ops: seq<Op>)
    decreases |ops|
  {
    ops == [] ||
    (&& Valid(s)
     && match ops[0]
        case Appending(cells, reply) =>
          !NeedsChunk(s, |cells|) && FitsRun(Append(s, cells, reply), ops[1..])
        case Finishing => FitsRun(Finish(s), ops[1..])
        case _ => false)
  }

  ghost function AfterFits(s: State, ops: seq<Op>): State
    requires FitsRun(s, ops)
    decreases |ops|
  {
    if ops == [] then s
    else match ops[0]
      case Appending(cells, reply) => AfterFits(Append(s, cells, reply), ops[1..])
      case Finishing => AfterFits(Finish(s), ops[1..])
  }

  /** The addresses that the finishes of a run return. */
  ghost function Addresses(s: State, ops: seq<Op>): seq<nat>
    requires FitsRun(s, ops)
    decreases |ops|
  {
    if ops == [] then []
    else match ops[0]
      case Appending(cells, reply) => Addresses(Append(s, cells, reply), ops[1..])
      case Finishing => [Finished(s)] + Addresses(Finish(s), ops[1..])
  }

  /** The fields that decide where objects go while they fit in the chunk. */
  predicate SameControl(s: State, t: State) {
    && s.chunks == t.chunks && s.objectBase == t.objectBase && s.nextFree == t.nextFree
    && s.chunkLimit == t.chunkLimit && s.alignmentMask == t.alignmentMask
    && s.allocFailed == t.allocFailed && s.chunkSize == t.chunkSize && |s.mem| == |t.mem|
  }

  /** Some finish of the run is of an empty object. */
  ghost predicate FinishesEmpty(s: State, ops: seq<Op>)
    requires FitsRun(s, ops)
    decreases |ops|
  {
    ops != [] &&
    match ops[0]
    case Appending(cells, reply) => FinishesEmpty(Append(s, cells, reply), ops[1..])
    case Finishing => (!s.allocFailed && s.nextFree == s.objectBase) || FinishesEmpty(Finish(s), ops[1..])
  }

  lemma {:induction false} FitsRunStays(s: State, ops: seq<Op>)
    requires FitsRun(s, ops)
    ensures AfterFits(s, ops) ==
            s.(objectBase := AfterFits(s, ops).objectBase, nextFree := AfterFits(s, ops).nextFree,
            maybeEmptyObject := s.maybeEmptyObject || FinishesEmpty(s, ops), mem := AfterFits(s, ops).mem)
    ensures |AfterFits(s, ops).mem| == |s.mem|
    decreases |ops|
  {
    if ops == [] {
    } else {
      match ops[0]
      case Appending(cells, reply) => FitsRunStays(Append(s, cells, reply), ops[1..]);
      case Finishing => FitsRunStays(Finish(s), ops[1..]);
    }
  }

  lemma {:induction false} SameControlSameAddresses(s: State, t: State, ops: seq<Op>)
    requires FitsRun(s, ops) && SameControl(s, t) && IsMask(t.alignmentMask)
    ensures FitsRun(t, ops)
    ensures Addresses(t, ops) == Addresses(s, ops)
    decreases |ops|
  {
    if ops == [] {
    } else {
      match ops[0]
      case Appending(cells, reply) =>
        SameControlSameAddresses(Append(s, cells, reply), Append(t, cells, reply), ops[1..]);
      case Finishing =>
        SameControlSameAddresses(Finish(s), Finish(t), ops[1..]);
    }
  }

  /** Unwinding: after any objects that fit in the chunk, freeing the address where
      the first of them began restores everything but the contents of memory and,
      if some object was empty, `maybe_empty_object`; and the same operations then
      return the same addresses again. */
  lemma FreeThenReplay(s: State, ops: seq<Op>)
    requires Valid(s) && FitsRun(s, ops) && s.nextFree == s.objectBase
    ensures AfterFits(s, ops).chunks == s.chunks
    ensures var u := Free(AfterFits(s, ops), s.objectBase);
            && u == s.(mem := u.mem, maybeEmptyObject := u.maybeEmptyObject)
            && (u.maybeEmptyObject == s.maybeEmptyObject <==> s.maybeEmptyObject || !FinishesEmpty(s, ops))
            && FitsRun(u, ops) && Addresses(u, ops) == Addresses(s, ops)
  {
    FitsRunStays(s, ops);
    var u := Free(AfterFits(s, ops), s.objectBase);
    assert IsMask(u.alignmentMask);
    SameControlSameAddresses(s, u, ops);
  }

  /** Finishing an empty object in a new obstack and freeing it: `maybe_empty_object`
      is set where it was clear, and nothing else has changed. */
  lemma FlagNotRestored()
    ensures var s := Begun(4);
            && Valid(s) && FitsRun(s, [Finishing]) && AfterFits(s, [Finishing]).chunks != []
            && Free(AfterFits(s, [Finishing]), 24) == s.(maybeEmptyObject := true)
            && !s.maybeEmptyObject
  {
    assert Pow2(2) == 4;
    BegunAligned(2);
    var s := Begun(4);
    assert [Finishing][1..] == [];
    AlignsForward(s);
    RoundUpIsLeastMultiple(24, 2);
  }
}
