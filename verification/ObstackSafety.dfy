/** Safety of obstacks over whole runs: finished objects never move, never
    change and never overlap until they are freed, and the growing object is
    what was appended to it, wherever it has been moved meanwhile. */
module ObstackSafety {
  import opened Bytes
  import opened ObstackModel

  /** A finished object, as its user knows it: where it is and what was put in.
      `home` is the position of its chunk in the chain. */
  datatype Object = Object(addr: nat, cells: seq<Cell>, home: nat) {
    function End(): nat { addr + |cells| }
  }

  /** The user's view of an obstack: the stack of finished objects, oldest
      first, and what has been appended to the growing one. */
  datatype Log = Log(live: seq<Object>, growing: seq<Cell>)

  /** The macros append, finish and free. Between them the user stores into a live
      object or into the growing one, and any other code of the program may store
      at addresses that belong to no chunk of this obstack. */
  datatype Op =
    | Appending(cells: seq<Cell>, reply: nat)
    | Finishing
    | Freeing(addr: nat)
    | ObjectStore(index: nat, offset: nat, value: Byte)
    | GrowingStore(offset: nat, value: Byte)
    | OutsideStore(at: nat, value: Byte)

  ghost predicate OpOk(s: State, g: Log, op: Op)
    requires Valid(s)
  {
    match op
    case Appending(cells, reply) => NeedsChunk(s, |cells|) ==> ReplyOk(s, |cells|, reply)
    case Finishing => true
    case Freeing(addr) => exists i :: 0 <= i < |g.live| && g.live[i].addr == addr
    case ObjectStore(index, offset, _) => index < |g.live| && offset < |g.live[index].cells|
    case GrowingStore(offset, _) => offset < |g.growing|
    case OutsideStore(at, _) =>
      at < |s.mem| && forall i :: 0 <= i < |s.chunks| ==> !(s.chunks[i].base <= at < s.chunks[i].limit)
  }

  function Poke(mem: seq<Byte>, at: nat, value: Byte): (m: seq<Byte>)
    ensures |m| == |mem|
  {
    if at < |mem| then mem[at := value] else mem
  }

  ghost function Step(s: State, g: Log, op: Op): State
    requires Valid(s) && OpOk(s, g, op)
  {
    match op
    case Appending(cells, reply) => Append(s, cells, reply)
    case Finishing => Finish(s)
    case Freeing(addr) => Free(s, addr)
    case ObjectStore(index, offset, value) => s.(mem := Poke(s.mem, g.live[index].addr + offset, value))
    case GrowingStore(offset, value) => s.(mem := Poke(s.mem, s.objectBase + offset, value))
    case OutsideStore(at, value) => s.(mem := Poke(s.mem, at, value))
  }

  /** The oldest object at `addr`; empty objects can share an address. */
  function FirstAt(live: seq<Object>, addr: nat): (k: nat)
    ensures k <= |live|
    ensures forall i :: 0 <= i < k ==> live[i].addr != addr
    ensures k < |live| ==> live[k].addr == addr
  {
    if live == [] || live[0].addr == addr then 0 else 1 + FirstAt(live[1..], addr)
  }

  /** How an operation changes the user's view. A failed allocation drops what
      was to be appended; a free takes the object and everything newer. */
  ghost function StepLog(s: State, g: Log, op: Op): Log
    requires Valid(s) && OpOk(s, g, op)
  {
    match op
    case Appending(cells, reply) =>
      if Append(s, cells, reply).allocFailed then g else g.(growing := g.growing + cells)
    case Finishing =>
      if s.allocFailed then g
      else Log(g.live + [Object(s.objectBase, g.growing, |s.chunks| - 1)], [])
    case Freeing(addr) => Log(g.live[..FirstAt(g.live, addr)], [])
    case ObjectStore(index, offset, value) =>
      var o := g.live[index];
      g.(live := g.live[index := o.(cells := o.cells[offset := Known(value)])])
    case GrowingStore(offset, value) => g.(growing := g.growing[offset := Known(value)])
    case OutsideStore(_, _) => g
  }

  // ------------------------------------------------------------- invariant

  /** Where the finished objects of a chunk must end. */
  function Top(s: State, home: nat): nat
    requires home < |s.chunks|
  {
    if home == |s.chunks| - 1 then s.objectBase else s.chunks[home].limit
  }

  predicate Placed(s: State, o: Object) {
    && o.home < |s.chunks|
    && s.chunks[o.home].Contents() <= o.addr
    && o.End() <= Top(s, o.home) <= |s.mem|
    && Agrees(s.mem[o.addr..o.End()], o.cells)
  }

  predicate Before(o: Object, p: Object) {
    o.home < p.home || (o.home == p.home && o.End() <= p.addr)
  }

  /** An empty object at the start of the current chunk is what
      `maybe_empty_object` stands for. */
  predicate EmptyNoted(s: State, o: Object)
    requires s.chunks != []
  {
    o.home == |s.chunks| - 1 && o.cells == [] && o.addr == s.Current().Contents() ==> s.maybeEmptyObject
  }

  ghost predicate Inv(s: State, g: Log) {
    && Valid(s)
    && s.objectBase + |g.growing| == s.nextFree
    && Agrees(s.mem[s.objectBase..s.nextFree], g.growing)
    && (forall i :: 0 <= i < |g.live| ==> Placed(s, g.live[i]) && EmptyNoted(s, g.live[i]))
    && (forall i, j :: 0 <= i < j < |g.live| ==> Before(g.live[i], g.live[j]))
  }

  predicate SameBytes(m: seq<Byte>, m': seq<Byte>, o: Object)
    requires o.End() <= |m| == |m'|
  {
    m'[o.addr..o.End()] == m[o.addr..o.End()]
  }

  /** The first `n` objects are the same objects, and none of their bytes has
      changed. */
  ghost predicate Intact(s: State, g: Log, t: State, h: Log, n: nat) {
    && n <= |g.live| && n <= |h.live|
    && |t.mem| == |s.mem|
    && h.live[..n] == g.live[..n]
    && forall i :: 0 <= i < n && g.live[i].End() <= |s.mem| ==> SameBytes(s.mem, t.mem, g.live[i])
  }

  // ------------------------------------------------------------- each step

  lemma WriteMissesRegion(mem: seq<Byte>, at: nat, cells: seq<Cell>, lo: nat, hi: nat)
    requires at + |cells| <= |mem| && lo <= hi <= |mem|
    requires hi <= at || at + |cells| <= lo
    ensures Write(mem, at, cells)[lo..hi] == mem[lo..hi]
  {
  }

  /** Every live object ends below the growing one, or lies in another chunk. */
  lemma ObjectBelow(s: State, g: Log, i: nat)
    requires Inv(s, g) && i < |g.live|
    ensures var o := g.live[i];
            && o.End() <= |s.mem|
            && (o.End() <= s.objectBase || o.addr >= s.chunkLimit)
  {
    var o := g.live[i];
    assert Placed(s, o);
    if o.home < |s.chunks| - 1 {
      assert s.chunks[o.home].DisjointFrom(s.chunks[|s.chunks| - 1]);
    }
  }

  /** No two live objects overlap. */
  lemma ObjectsApart(s: State, g: Log, i: nat, j: nat)
    requires Inv(s, g) && i < j < |g.live|
    ensures g.live[i].End() <= g.live[j].addr || g.live[j].End() <= g.live[i].addr
  {
    var o, p := g.live[i], g.live[j];
    assert Placed(s, o) && Placed(s, p) && Before(o, p);
    if o.home < p.home {
      assert s.chunks[o.home].DisjointFrom(s.chunks[p.home]);
    }
  }

  lemma AppendInRoom(s: State, g: Log, cells: seq<Cell>)
    requires Inv(s, g) && !s.allocFailed && s.nextFree + |cells| <= s.chunkLimit
    ensures var t := s.(mem := Write(s.mem, s.nextFree, cells), nextFree := s.nextFree + |cells|);
            var h := g.(growing := g.growing + cells);
            Inv(t, h) && Intact(s, g, t, h, |g.live|)
  {
    var t := s.(mem := Write(s.mem, s.nextFree, cells), nextFree := s.nextFree + |cells|);
    forall i | 0 <= i < |g.live|
      ensures SameBytes(s.mem, t.mem, g.live[i]) && Placed(t, g.live[i])
    {
      ObjectBelow(s, g, i);
      WriteMissesRegion(s.mem, s.nextFree, cells, g.live[i].addr, g.live[i].End());
    }
  }

  lemma IntactTrans(s: State, g: Log, t: State, h: Log, u: State, k: Log, n: nat)
    requires Inv(s, g) && Inv(t, h) && Intact(s, g, t, h, n) && Intact(t, h, u, k, n)
    ensures Intact(s, g, u, k, n)
  {
    forall i | 0 <= i < n
      ensures g.live[i].End() <= |s.mem| && SameBytes(s.mem, u.mem, g.live[i])
    {
      assert g.live[..n][i] == h.live[..n][i];
      ObjectBelow(s, g, i);
      assert SameBytes(s.mem, t.mem, g.live[i]) && SameBytes(t.mem, u.mem, h.live[i]);
    }
  }

  /** Moving the growing object to a new chunk disturbs nothing, although the
      old chunk may be given back: it is only when no object lives there. */
  lemma NewChunkInv(s: State, g: Log, length: nat, reply: nat)
    requires Inv(s, g) && ReplyOk(s, length, reply) && reply != NULL
    ensures Inv(NewChunk(s, length, reply), g)
    ensures Intact(s, g, NewChunk(s, length, reply), g, |g.live|)
  {
    var t := NewChunk(s, length, reply);
    NewChunkValid(s, length, reply);
    var last := |s.chunks| - 1;
    var moved := s.mem[s.objectBase..s.nextFree];
    assert t.mem[t.objectBase..t.nextFree] == moved;
    forall i | 0 <= i < |g.live|
      ensures SameBytes(s.mem, t.mem, g.live[i]) && Placed(t, g.live[i]) && EmptyNoted(t, g.live[i])
    {
      var o := g.live[i];
      assert Placed(s, o) && EmptyNoted(s, o);
      assert OldChunkUnused(s) ==> o.home < last;
      var c := s.chunks[o.home];
      assert t.chunks[o.home] == c && o.home < |t.chunks| - 1;
      assert t.Current().DisjointFrom(c);
      WriteMissesRegion(s.mem, t.objectBase, KnownCells(moved), o.addr, o.End());
    }
  }

  lemma FailedAppend(s: State, g: Log)
    requires Inv(s, g)
    ensures Inv(s.(allocFailed := true), g) && Intact(s, g, s.(allocFailed := true), g, |g.live|)
  {
    var t := s.(allocFailed := true);
    assert IsMask(t.alignmentMask);
    assert forall i :: 0 <= i < |g.live| ==> Placed(s, g.live[i]) && EmptyNoted(s, g.live[i]);
    assert forall i :: 0 <= i < |g.live| ==> Placed(t, g.live[i]) && EmptyNoted(t, g.live[i]);
  }

  lemma AppendInNewChunk(s: State, g: Log, cells: seq<Cell>, reply: nat)
    requires Inv(s, g) && NeedsChunk(s, |cells|) && ReplyOk(s, |cells|, reply) && reply != NULL
    ensures var u, h := Append(s, cells, reply), g.(growing := g.growing + cells);
            !u.allocFailed && Inv(u, h) && Intact(s, g, u, h, |g.live|)
  {
    var t := NewChunk(s, |cells|, reply);
    NewChunkInv(s, g, |cells|, reply);
    NewChunkValid(s, |cells|, reply);
    AppendInRoom(t, g, cells);
    IntactTrans(s, g, t, g, Append(s, cells, reply), g.(growing := g.growing + cells), |g.live|);
  }

  lemma AppendStep(s: State, g: Log, cells: seq<Cell>, reply: nat)
    requires Inv(s, g) && OpOk(s, g, Appending(cells, reply))
    ensures Inv(Append(s, cells, reply), StepLog(s, g, Appending(cells, reply)))
    ensures Intact(s, g, Append(s, cells, reply), StepLog(s, g, Appending(cells, reply)), |g.live|)
  {
    if !NeedsChunk(s, |cells|) {
      if !s.allocFailed { AppendInRoom(s, g, cells); }
    } else if reply == NULL {
      FailedAppend(s, g);
    } else {
      AppendInNewChunk(s, g, cells, reply);
    }
  }

  lemma FinishedObjects(s: State, g: Log)
    requires Inv(s, g) && !s.allocFailed
    ensures var t, h := Finish(s), StepLog(s, g, Finishing);
            && Valid(t) && t.nextFree == t.objectBase >= s.nextFree
            && forall i :: 0 <= i < |h.live| ==> Placed(t, h.live[i]) && EmptyNoted(t, h.live[i])
  {
    AlignsForward(s);
    var t, h := Finish(s), StepLog(s, g, Finishing);
    assert IsMask(t.alignmentMask);
    forall i | 0 <= i < |h.live|
      ensures Placed(t, h.live[i]) && EmptyNoted(t, h.live[i])
    {
      if i < |g.live| {
        assert h.live[i] == g.live[i] && Placed(s, g.live[i]) && EmptyNoted(s, g.live[i]);
      }
    }
  }

  lemma FinishStep(s: State, g: Log)
    requires Inv(s, g)
    ensures Inv(Finish(s), StepLog(s, g, Finishing))
    ensures Intact(s, g, Finish(s), StepLog(s, g, Finishing), |g.live|)
  {
    if !s.allocFailed {
      FinishedObjects(s, g);
      var h := StepLog(s, g, Finishing);
      forall i, j | 0 <= i < j < |h.live|
        ensures Before(h.live[i], h.live[j])
      {
        assert Placed(s, g.live[i]);
        if j < |g.live| { assert Before(g.live[i], g.live[j]); }
      }
    }
  }

  function Reverse(s: seq<Chunk>): seq<Chunk> {
    if s == [] then [] else [s[|s| - 1]] + Reverse(s[..|s| - 1])
  }

  lemma NothingCut(s: State)
    ensures s.chunks[..|s.chunks|] == s.chunks && s.freed + Reverse(s.chunks[|s.chunks|..]) == s.freed
  {
  }

  lemma CutOneMore(s: State, home: nat)
    requires home < |s.chunks| - 1
    ensures s.Older()[..home + 1] == s.chunks[..home + 1]
    ensures (s.freed + [s.Current()]) + Reverse(s.Older()[home + 1..]) == s.freed + Reverse(s.chunks[home + 1..])
  {
    var rest := s.chunks[home + 1..];
    assert rest[..|rest| - 1] == s.Older()[home + 1..] && rest[|rest| - 1] == s.Current();
  }

  /** Freeing a live object: the chain is cut behind the object's chunk, and
      allocation resumes at the object's address. */
  lemma {:induction false} FreeWalkCuts(s: State, addr: nat, home: nat)
    requires home < |s.chunks| && PairwiseDisjoint(s.chunks)
    requires forall i :: 0 <= i < |s.chunks| ==> s.chunks[i].Fits(|s.mem|)
    requires s.chunks[home].Contents() <= addr <= s.chunks[home].limit
    ensures FreeWalk(s, addr) ==
            s.(chunks := s.chunks[..home + 1],
            objectBase := addr, nextFree := addr, chunkLimit := s.chunks[home].limit,
            maybeEmptyObject := s.maybeEmptyObject || home < |s.chunks| - 1,
            freed := s.freed + Reverse(s.chunks[home + 1..]))
    decreases |s.chunks|
  {
    if home == |s.chunks| - 1 {
      NothingCut(s);
    } else {
      assert s.chunks[home].DisjointFrom(s.Current());
      var t := s.(chunks := s.Older(), freed := s.freed + [s.Current()], maybeEmptyObject := true);
      FreeWalkCuts(t, addr, home);
      CutOneMore(s, home);
    }
  }

  /** obstack_free of a live object: both of its paths have this one effect. */
  lemma FreeCuts(s: State, g: Log, k: nat)
    requires Inv(s, g) && k < |g.live|
    ensures var o := g.live[k];
            Free(s, o.addr) ==
            s.(chunks := s.chunks[..o.home + 1],
            objectBase := o.addr, nextFree := o.addr, chunkLimit := s.chunks[o.home].limit,
            maybeEmptyObject := s.maybeEmptyObject || o.home < |s.chunks| - 1,
            freed := s.freed + Reverse(s.chunks[o.home + 1..]))
  {
    var o := g.live[k];
    assert Placed(s, o);
    var last := |s.chunks| - 1;
    assert s.chunks[o.home].Fits(|s.mem|);
    if s.Current().base < o.addr < s.chunkLimit {
      NothingCut(s);
    } else {
      FreeWalkCuts(s, o.addr, o.home);
    }
  }

  /** What is left after cutting back to object `k`, when the objects below `k`
      are those that do not share its address. */
  lemma CutInv(s: State, g: Log, k: nat)
    requires Inv(s, g) && k < |g.live|
    requires forall i :: 0 <= i < k ==> g.live[i].addr != g.live[k].addr
    ensures Inv(Free(s, g.live[k].addr), Log(g.live[..k], []))
  {
    var o := g.live[k];
    FreeCuts(s, g, k);
    var t := Free(s, o.addr);
    assert Placed(s, o);
    assert s.chunks[o.home].Fits(|s.mem|);
    assert t.Current() == s.chunks[o.home];
    assert IsMask(t.alignmentMask);
    assert Valid(t);
    forall i | 0 <= i < k
      ensures Placed(t, g.live[i]) && EmptyNoted(t, g.live[i])
    {
      assert Placed(s, g.live[i]) && EmptyNoted(s, g.live[i]) && Before(g.live[i], o);
      assert t.chunks[g.live[i].home] == s.chunks[g.live[i].home];
    }
  }

  lemma FreeStep(s: State, g: Log, addr: nat)
    requires Inv(s, g) && OpOk(s, g, Freeing(addr))
    ensures Inv(Free(s, addr), StepLog(s, g, Freeing(addr)))
    ensures Intact(s, g, Free(s, addr), StepLog(s, g, Freeing(addr)), FirstAt(g.live, addr))
  {
    var k := FirstAt(g.live, addr);
    CutInv(s, g, k);
    FreeCuts(s, g, k);
  }

  /** A store that touches neither the growing object nor the first `n` objects
      keeps all of them. */
  lemma PokeElsewhere(s: State, g: Log, at: nat, value: Byte, n: nat)
    requires Inv(s, g) && n <= |g.live|
    requires forall i :: 0 <= i < n ==> !(g.live[i].addr <= at < g.live[i].End())
    ensures var t := s.(mem := Poke(s.mem, at, value));
            Valid(t) && Intact(s, g, t, g, n)
            && forall i :: 0 <= i < n ==> Placed(t, g.live[i]) && EmptyNoted(t, g.live[i])
  {
    var t := s.(mem := Poke(s.mem, at, value));
    assert IsMask(t.alignmentMask);
    forall i | 0 <= i < n
      ensures SameBytes(s.mem, t.mem, g.live[i]) && Placed(t, g.live[i]) && EmptyNoted(t, g.live[i])
    {
      assert Placed(s, g.live[i]) && EmptyNoted(s, g.live[i]);
    }
  }

  lemma OutsideStep(s: State, g: Log, at: nat, value: Byte)
    requires Inv(s, g) && OpOk(s, g, OutsideStore(at, value))
    ensures var t := s.(mem := Poke(s.mem, at, value));
            Inv(t, g) && Intact(s, g, t, g, |g.live|)
  {
    assert !(s.Current().base <= at < s.Current().limit);
    forall i | 0 <= i < |g.live|
      ensures !(g.live[i].addr <= at < g.live[i].End())
    {
      assert Placed(s, g.live[i]);
      assert !(s.chunks[g.live[i].home].base <= at < s.chunks[g.live[i].home].limit);
    }
    PokeElsewhere(s, g, at, value, |g.live|);
    var t := s.(mem := Poke(s.mem, at, value));
    assert t.mem[t.objectBase..t.nextFree] == s.mem[s.objectBase..s.nextFree];
  }

  lemma PokeInside(mem: seq<Byte>, lo: nat, cells: seq<Cell>, offset: nat, value: Byte)
    requires lo + |cells| <= |mem| && offset < |cells| && Agrees(mem[lo..lo + |cells|], cells)
    ensures var m := Poke(mem, lo + offset, value);
            && m[lo..lo + |cells|] == mem[lo..lo + |cells|][offset := value]
            && Agrees(m[lo..lo + |cells|], cells[offset := Known(value)])
  {
  }

  lemma GrowingStoreStep(s: State, g: Log, offset: nat, value: Byte)
    requires Inv(s, g) && OpOk(s, g, GrowingStore(offset, value))
    ensures var op := GrowingStore(offset, value);
            Inv(Step(s, g, op), StepLog(s, g, op)) && Intact(s, g, Step(s, g, op), StepLog(s, g, op), |g.live|)
  {
    forall i | 0 <= i < |g.live|
      ensures !(g.live[i].addr <= s.objectBase + offset < g.live[i].End())
    {
      ObjectBelow(s, g, i);
    }
    PokeElsewhere(s, g, s.objectBase + offset, value, |g.live|);
    PokeInside(s.mem, s.objectBase, g.growing, offset, value);
  }

  /** The bytes, and the cells, of object `i` after an operation that does not
      free it. */
  function PokedBytes(bytes: seq<Byte>, op: Op, i: nat): (r: seq<Byte>)
    ensures |r| == |bytes|
  {
    if op.ObjectStore? && op.index == i then Poke(bytes, op.offset, op.value) else bytes
  }

  function PokedCells(cells: seq<Cell>, op: Op, i: nat): (r: seq<Cell>)
    ensures |r| == |cells|
  {
    if op.ObjectStore? && op.index == i && op.offset < |cells| then cells[op.offset := Known(op.value)] else cells
  }

  predicate KeepsObject(m: seq<Byte>, m': seq<Byte>, o: Object, o': Object, op: Op, i: nat) {
    && o' == o.(cells := PokedCells(o.cells, op, i))
    && o.End() <= |m| == |m'|
    && m'[o.addr..o.End()] == PokedBytes(m[o.addr..o.End()], op, i)
  }

  /** An operation leaves the first `n` objects where they are, with the bytes they
      had but for one that the user himself stores. */
  ghost predicate Keeps(s: State, g: Log, t: State, h: Log, op: Op, n: nat) {
    && n <= |g.live| && n <= |h.live| && |t.mem| == |s.mem|
    && forall i :: 0 <= i < n ==> KeepsObject(s.mem, t.mem, g.live[i], h.live[i], op, i)
  }

  lemma IntactIsKept(s: State, g: Log, t: State, h: Log, op: Op, n: nat)
    requires Inv(s, g) && Intact(s, g, t, h, n) && !op.ObjectStore?
    ensures Keeps(s, g, t, h, op, n)
  {
    forall i | 0 <= i < n
      ensures KeepsObject(s.mem, t.mem, g.live[i], h.live[i], op, i)
    {
      ObjectBelow(s, g, i);
      assert h.live[..n][i] == g.live[..n][i];
      assert SameBytes(s.mem, t.mem, g.live[i]);
    }
  }

  lemma OtherObjectsKept(s: State, g: Log, index: nat, offset: nat, value: Byte, i: nat)
    requires Inv(s, g) && OpOk(s, g, ObjectStore(index, offset, value)) && i < |g.live| && i != index
    ensures var t, o := Step(s, g, ObjectStore(index, offset, value)), g.live[i];
            && o.End() <= |s.mem| == |t.mem| && SameBytes(s.mem, t.mem, o) && Placed(t, o) && EmptyNoted(t, o)
  {
    if i < index { ObjectsApart(s, g, i, index); } else { ObjectsApart(s, g, index, i); }
    ObjectBelow(s, g, i);
    assert Placed(s, g.live[i]) && EmptyNoted(s, g.live[i]);
  }

  lemma StoredObjectKept(s: State, g: Log, index: nat, offset: nat, value: Byte)
    requires Inv(s, g) && OpOk(s, g, ObjectStore(index, offset, value))
    ensures var op := ObjectStore(index, offset, value);
            var t, h := Step(s, g, op), StepLog(s, g, op);
            && KeepsObject(s.mem, t.mem, g.live[index], h.live[index], op, index)
            && Placed(t, h.live[index]) && EmptyNoted(t, h.live[index])
  {
    var o := g.live[index];
    assert Placed(s, o) && EmptyNoted(s, o);
    PokeInside(s.mem, o.addr, o.cells, offset, value);
  }

  lemma ObjectStoreKeeps(s: State, g: Log, index: nat, offset: nat, value: Byte)
    requires Inv(s, g) && OpOk(s, g, ObjectStore(index, offset, value))
    ensures var op := ObjectStore(index, offset, value);
            var t, h := Step(s, g, op), StepLog(s, g, op);
            && Keeps(s, g, t, h, op, |g.live|)
            && forall i :: 0 <= i < |h.live| ==> Placed(t, h.live[i]) && EmptyNoted(t, h.live[i])
  {
    var op := ObjectStore(index, offset, value);
    var t, h := Step(s, g, op), StepLog(s, g, op);
    forall i | 0 <= i < |g.live|
      ensures KeepsObject(s.mem, t.mem, g.live[i], h.live[i], op, i)
      ensures Placed(t, h.live[i]) && EmptyNoted(t, h.live[i])
    {
      if i == index {
        StoredObjectKept(s, g, index, offset, value);
      } else {
        OtherObjectsKept(s, g, index, offset, value, i);
      }
    }
  }

  lemma ObjectStoreStep(s: State, g: Log, index: nat, offset: nat, value: Byte)
    requires Inv(s, g) && OpOk(s, g, ObjectStore(index, offset, value))
    ensures var op := ObjectStore(index, offset, value);
            Inv(Step(s, g, op), StepLog(s, g, op)) && Keeps(s, g, Step(s, g, op), StepLog(s, g, op), op, |g.live|)
  {
    ObjectStoreKeeps(s, g, index, offset, value);
    ObjectBelow(s, g, index);
    var op := ObjectStore(index, offset, value);
    var t, h := Step(s, g, op), StepLog(s, g, op);
    assert IsMask(t.alignmentMask);
    assert t.mem[t.objectBase..t.nextFree] == s.mem[s.objectBase..s.nextFree];
    forall i, j | 0 <= i < j < |h.live|
      ensures Before(h.live[i], h.live[j])
    {
      assert Before(g.live[i], g.live[j]);
    }
  }

  function Shared(g: Log, op: Op): nat {
    if op.Freeing? then FirstAt(g.live, op.addr) else |g.live|
  }

  lemma StepIntact(s: State, g: Log, op: Op)
    requires Inv(s, g) && OpOk(s, g, op) && !op.ObjectStore?
    ensures Inv(Step(s, g, op), StepLog(s, g, op))
    ensures Intact(s, g, Step(s, g, op), StepLog(s, g, op), Shared(g, op))
  {
    match op
    case Appending(cells, reply) => AppendStep(s, g, cells, reply);
    case Finishing => FinishStep(s, g);
    case Freeing(addr) => FreeStep(s, g, addr);
    case GrowingStore(offset, value) => GrowingStoreStep(s, g, offset, value);
    case OutsideStore(at, value) => OutsideStep(s, g, at, value);
  }

  lemma StepSafe(s: State, g: Log, op: Op)
    requires Inv(s, g) && OpOk(s, g, op)
    ensures Inv(Step(s, g, op), StepLog(s, g, op))
    ensures Keeps(s, g, Step(s, g, op), StepLog(s, g, op), op, Shared(g, op))
  {
    if op.ObjectStore? {
      ObjectStoreStep(s, g, op.index, op.offset, op.value);
    } else {
      StepIntact(s, g, op);
      IntactIsKept(s, g, Step(s, g, op), StepLog(s, g, op), op, Shared(g, op));
    }
  }
}
