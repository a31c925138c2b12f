/** The bump allocator under malloc, and the profiler's slabs that are cut from it. */
module Heap {

  const SLAB := 1020

  /** A piece of memory that sbrk() has handed out, and whether it is a slab of the profiler. */
  datatype Block = Block(addr: int, size: int, slab: bool)

  /** A record cut from a slab, which is block number `owner`. */
  datatype Record = Record(addr: int, size: int, owner: nat)

  /** The variables heap_end, mcount_slab_ptr and mcount_slab_size; the rest is the history of
      what was handed out, and which block is the slab in use. */
  datatype Memory = Memory(end: int, slabPtr: int, slabSize: int,
                           blocks: seq<Block>, records: seq<Record>, owner: nat)

  /** The linker's bounds of the heap. */
  datatype Bounds = Bounds(start: int, limit: int)

  function WordUp(x: int): (y: int)
    ensures x <= y < x + 4 && y % 4 == 0
  {
    (x + 3) / 4 * 4
  }

  function Start(b: Bounds): Memory { Memory(b.start, 0, 0, [], [], 0) }

  /** The address that sbrk() returns, or -1. */
  function SbrkResult(m: Memory, b: Bounds, incr: int): int {
    if WordUp(m.end) + incr > b.limit then -1 else WordUp(m.end)
  }

  /** sbrk(): the end is rounded up even if the call fails. */
  function Sbrk(m: Memory, b: Bounds, incr: int, slab: bool): Memory {
    var e := WordUp(m.end);
    if e + incr > b.limit then m.(end := e)
    else m.(end := e + incr, blocks := m.blocks + [Block(e, incr, slab)])
  }

  /** The allocation asks for a slab, and gets none. */
  predicate SlabFails(m: Memory, b: Bounds, size: nat) {
    size > m.slabSize && SbrkResult(m, b, SLAB) == -1
  }

  /** The slab that an allocation cuts from; nobody looks at what sbrk() returned. */
  function WithSlab(m: Memory, b: Bounds, size: nat): Memory {
    if size > m.slabSize then
      Sbrk(m, b, SLAB, true).(slabPtr := SbrkResult(m, b, SLAB), slabSize := SLAB, owner := |m.blocks|)
    else m
  }

  function Cut(n: Memory, size: nat): Memory {
    n.(slabPtr := n.slabPtr + size, slabSize := n.slabSize - size,
       records := n.records + [Record(n.slabPtr, size, n.owner)])
  }

  /** mcount_allocate(); the record is at the slab pointer. */
  function Allocate(m: Memory, b: Bounds, size: nat): Memory {
    Cut(WithSlab(m, b, size), size)
  }

  // -----------------------------------------------------------------------------------------
  // What is handed out
  // -----------------------------------------------------------------------------------------

  predicate BlockOk(k: Block, b: Bounds) {
    k.addr % 4 == 0 && 0 <= k.size && b.start <= k.addr && k.addr + k.size <= b.limit
  }

  /** A record is aligned and lies within one slab. */
  predicate RecordOk(r: Record, blocks: seq<Block>) {
    && r.addr % 4 == 0 && 0 <= r.size
    && r.owner < |blocks| && blocks[r.owner].slab
    && blocks[r.owner].addr <= r.addr && r.addr + r.size <= blocks[r.owner].addr + blocks[r.owner].size
  }

  /** The slab in use: what is left of it reaches to its end. */
  predicate SlabOk(m: Memory) {
    && 0 <= m.slabSize && m.slabPtr % 4 == 0 && m.slabPtr <= m.end
    && (m.slabSize > 0 ==>
          && m.owner < |m.blocks| && m.blocks[m.owner].slab
          && m.blocks[m.owner].addr <= m.slabPtr
          && m.slabPtr + m.slabSize == m.blocks[m.owner].addr + m.blocks[m.owner].size)
  }

  predicate BlocksOk(m: Memory, b: Bounds) {
    && (forall i :: 0 <= i < |m.blocks| ==> BlockOk(m.blocks[i], b) && m.blocks[i].addr + m.blocks[i].size <= m.end)
    && (forall i, j :: 0 <= i < j < |m.blocks| ==> m.blocks[i].addr + m.blocks[i].size <= m.blocks[j].addr)
  }

  predicate RecordsOk(m: Memory) {
    && (forall i :: 0 <= i < |m.records| ==>
          RecordOk(m.records[i], m.blocks) && m.records[i].addr + m.records[i].size <= m.slabPtr)
    && (forall i, j :: 0 <= i < j < |m.records| ==> m.records[i].addr + m.records[i].size <= m.records[j].addr)
  }

  /** Everything is in its place, and addresses only ever go up. */
  predicate Sound(m: Memory, b: Bounds) {
    0 <= b.start <= m.end && SlabOk(m) && BlocksOk(m, b) && RecordsOk(m)
  }

  predicate Disjoint(a: int, n: int, b: int, m: int) { a + n <= b || b + m <= a }

  /** Blocks and records are aligned and inside the heap; no two blocks, no two records, and no
      record and no block of another caller overlap; no record spans two slabs. */
  predicate InPlace(m: Memory, b: Bounds) {
    && (forall i :: 0 <= i < |m.blocks| ==> BlockOk(m.blocks[i], b))
    && (forall i :: 0 <= i < |m.records| ==>
          && RecordOk(m.records[i], m.blocks)
          && b.start <= m.records[i].addr && m.records[i].addr + m.records[i].size <= b.limit)
    && (forall i, j :: 0 <= i < |m.blocks| && 0 <= j < |m.blocks| && i != j ==>
          Disjoint(m.blocks[i].addr, m.blocks[i].size, m.blocks[j].addr, m.blocks[j].size))
    && (forall i, j :: 0 <= i < |m.records| && 0 <= j < |m.records| && i != j ==>
          Disjoint(m.records[i].addr, m.records[i].size, m.records[j].addr, m.records[j].size))
    && (forall i, j :: 0 <= i < |m.records| && 0 <= j < |m.blocks| && !m.blocks[j].slab ==>
          Disjoint(m.records[i].addr, m.records[i].size, m.blocks[j].addr, m.blocks[j].size))
  }

  lemma SoundIsInPlace(m: Memory, b: Bounds)
    requires Sound(m, b)
    ensures InPlace(m, b)
  {
    forall i, j | 0 <= i < |m.records| && 0 <= j < |m.blocks| && !m.blocks[j].slab
      ensures Disjoint(m.records[i].addr, m.records[i].size, m.blocks[j].addr, m.blocks[j].size)
    {
      assert RecordOk(m.records[i], m.blocks);
      var k := m.records[i].owner;
      assert j < k || k < j;
    }
    forall i | 0 <= i < |m.records|
      ensures b.start <= m.records[i].addr && m.records[i].addr + m.records[i].size <= b.limit
    {
      assert RecordOk(m.records[i], m.blocks);
      assert BlockOk(m.blocks[m.records[i].owner], b);
    }
  }

  lemma SbrkSound(m: Memory, b: Bounds, incr: int, slab: bool)
    requires Sound(m, b) && incr >= 0
    ensures Sound(Sbrk(m, b, incr, slab), b)
  {
    var n := Sbrk(m, b, incr, slab);
    assert forall i :: 0 <= i < |m.blocks| ==> n.blocks[i] == m.blocks[i];
    forall i | 0 <= i < |n.records| ensures RecordOk(n.records[i], n.blocks) {
      assert RecordOk(m.records[i], m.blocks);
    }
  }

  lemma WithSlabSound(m: Memory, b: Bounds, size: nat)
    requires Sound(m, b) && size <= SLAB && !SlabFails(m, b, size)
    ensures Sound(WithSlab(m, b, size), b) && size <= WithSlab(m, b, size).slabSize
  {
    if size > m.slabSize {
      SbrkSound(m, b, SLAB, true);
    }
  }

  lemma CutSound(n: Memory, b: Bounds, size: nat)
    requires Sound(n, b) && 0 < size <= n.slabSize && size % 4 == 0
    ensures Sound(Cut(n, size), b)
  {
    CutSlab(n, b, size);
    CutRecords(n, size);
  }

  lemma CutSlab(n: Memory, b: Bounds, size: nat)
    requires SlabOk(n) && BlocksOk(n, b) && 0 < size <= n.slabSize && size % 4 == 0
    ensures SlabOk(Cut(n, size))
  {
    hide BlockOk;
    assert BlockOk(n.blocks[n.owner], b);
    assert n.slabPtr + n.slabSize <= n.end;
    assert (n.slabPtr + size) % 4 == 0;
  }

  lemma CutRecords(n: Memory, size: nat)
    requires SlabOk(n) && RecordsOk(n) && 0 < size <= n.slabSize
    ensures RecordsOk(Cut(n, size))
  {
    var c := Cut(n, size);
    forall i | 0 <= i < |c.records|
      ensures RecordOk(c.records[i], c.blocks) && c.records[i].addr + c.records[i].size <= c.slabPtr
    {
      if i < |n.records| {
        assert RecordOk(n.records[i], n.blocks);
      }
    }
  }

  predicate Aligned(a: int) { a % 4 == 0 }

  /** A word-aligned address above the end, with so many bytes below the limit. */
  predicate Room(m: Memory, b: Bounds, incr: int, a: int) {
    Aligned(a) && m.end <= a && a + incr <= b.limit
  }

  /** sbrk() fails exactly if no word-aligned address from the end on leaves room for the increment;
      otherwise it returns the lowest such address, and the heap then ends just above the block. */
  lemma SbrkExactly(m: Memory, b: Bounds, incr: nat, slab: bool)
    requires m.end >= 0
    ensures var r, n := SbrkResult(m, b, incr), Sbrk(m, b, incr, slab);
            && (r == -1 <==> forall a :: !Room(m, b, incr, a))
            && (r != -1 ==>
                  && Room(m, b, incr, r) && (forall a :: Room(m, b, incr, a) ==> r <= a)
                  && n.end == r + incr && n.blocks == m.blocks + [Block(r, incr, slab)])
            && (r == -1 ==> n.blocks == m.blocks && Aligned(n.end) && m.end <= n.end < m.end + 4)
  {
    hide WordUp, Aligned;
    var e := WordUp(m.end);
    WordUpLowest(m.end, e);
    forall a ensures Room(m, b, incr, a) ==> e <= a {
      WordUpLowest(m.end, a);
    }
    if e + incr <= b.limit {
      assert Room(m, b, incr, e);
    }
  }

  lemma WordUpLowest(x: int, a: int)
    ensures Aligned(WordUp(x)) && x <= WordUp(x) < x + 4
    ensures Aligned(a) && x <= a ==> WordUp(x) <= a
  {
  }

  /** A record is cut from what is left of the slab if it fits, and the heap does not move; otherwise
      it is the first of a new slab, at the lowest word-aligned address that leaves room for one, and
      it is refused exactly if there is none. */
  lemma RecordExactly(m: Memory, b: Bounds, size: nat)
    requires m.end >= 0
    ensures var n, r := Allocate(m, b, size), |m.records|;
            && n.records[..r] == m.records && |n.records| == r + 1 && n.records[r].size == size
            && n.slabPtr == n.records[r].addr + size
            && (size <= m.slabSize ==>
                  && n.records[r].addr == m.slabPtr && n.slabSize == m.slabSize - size
                  && n.end == m.end && n.blocks == m.blocks && n.owner == m.owner)
            && (size > m.slabSize && !SlabFails(m, b, size) ==>
                  && Room(m, b, SLAB, n.records[r].addr) && (forall a :: Room(m, b, SLAB, a) ==> n.records[r].addr <= a)
                  && n.slabSize == SLAB - size && n.end == n.records[r].addr + SLAB
                  && n.blocks == m.blocks + [Block(n.records[r].addr, SLAB, true)] && n.owner == |m.blocks|)
            && (SlabFails(m, b, size) <==> size > m.slabSize && forall a :: !Room(m, b, SLAB, a))
  {
    SbrkExactly(m, b, SLAB, true);
    hide Room, SbrkResult;
  }

  /** Some record is where no memory was handed out. */
  predicate Misplaced(m: Memory) {
    exists i :: 0 <= i < |m.records| && m.records[i].addr == -1
  }

  lemma MisplacedIsNotInPlace(m: Memory, b: Bounds)
    requires Misplaced(m)
    ensures !InPlace(m, b)
  {
    var i :| 0 <= i < |m.records| && m.records[i].addr == -1;
    assert !RecordOk(m.records[i], m.blocks);
  }

  lemma FailureMisplaces(m: Memory, b: Bounds, size: nat)
    requires SlabFails(m, b, size)
    ensures Misplaced(Allocate(m, b, size))
  {
    assert Allocate(m, b, size).records[|m.records|].addr == -1;
  }

  lemma AllocateSound(m: Memory, b: Bounds, size: nat)
    requires Sound(m, b) && 0 < size <= SLAB && size % 4 == 0 && !SlabFails(m, b, size)
    ensures Sound(Allocate(m, b, size), b)
  {
    hide Sound, Cut, WithSlab;
    WithSlabSound(m, b, size);
    CutSound(WithSlab(m, b, size), b, size);
  }

  /** An allocation keeps everything in its place exactly if it does not ask in vain for a slab. */
  lemma AllocateExactly(m: Memory, b: Bounds, size: nat)
    requires Sound(m, b) && 0 < size <= SLAB && size % 4 == 0
    ensures InPlace(Allocate(m, b, size), b) <==> !SlabFails(m, b, size)
  {
    hide Sound, InPlace, Misplaced, Allocate;
    if SlabFails(m, b, size) {
      FailureMisplaces(m, b, size);
      MisplacedIsNotInPlace(Allocate(m, b, size), b);
    } else {
      AllocateSound(m, b, size);
      SoundIsInPlace(Allocate(m, b, size), b);
    }
  }

  /** The two callers. */
  datatype Call = SbrkCall(incr: nat) | RecordCall(size: nat)

  /** Records are whole words and fit a slab. */
  predicate Legal(c: Call) {
    c.RecordCall? ==> 0 < c.size <= SLAB && c.size % 4 == 0
  }

  predicate Granted(m: Memory, b: Bounds, c: Call) {
    c.RecordCall? ==> !SlabFails(m, b, c.size)
  }

  function Apply(m: Memory, b: Bounds, c: Call): Memory {
    match c
    case SbrkCall(incr) => Sbrk(m, b, incr, false)
    case RecordCall(size) => Allocate(m, b, size)
  }

  function After(m: Memory, b: Bounds, calls: seq<Call>): Memory
    decreases |calls|
  {
    if calls == [] then m else After(Apply(m, b, calls[0]), b, calls[1..])
  }

  /** No slab is refused along the run. */
  predicate AllGranted(m: Memory, b: Bounds, calls: seq<Call>)
    decreases |calls|
  {
    calls == [] || (Granted(m, b, calls[0]) && AllGranted(Apply(m, b, calls[0]), b, calls[1..]))
  }

  lemma {:induction false} RunsAreSound(m: Memory, b: Bounds, calls: seq<Call>)
    requires Sound(m, b) && AllGranted(m, b, calls) && forall c :: c in calls ==> Legal(c)
    ensures Sound(After(m, b, calls), b)
    decreases |calls|
  {
    hide Sound;
    if calls != [] {
      assert calls[0] in calls;
      match calls[0] {
        case SbrkCall(incr) => SbrkSound(m, b, incr, false);
        case RecordCall(size) => AllocateSound(m, b, size);
      }
      RunsAreSound(Apply(m, b, calls[0]), b, calls[1..]);
    }
  }

  lemma {:induction false} MisplacedForEver(m: Memory, b: Bounds, calls: seq<Call>)
    requires Misplaced(m)
    ensures Misplaced(After(m, b, calls))
    decreases |calls|
  {
    if calls != [] {
      var i :| 0 <= i < |m.records| && m.records[i].addr == -1;
      var n := Apply(m, b, calls[0]);
      assert n.records[i] == m.records[i];
      MisplacedForEver(n, b, calls[1..]);
    }
  }

  lemma {:induction false} RefusalMisplaces(m: Memory, b: Bounds, calls: seq<Call>)
    requires !AllGranted(m, b, calls)
    ensures Misplaced(After(m, b, calls))
    decreases |calls|
  {
    hide Misplaced, Apply;
    if !Granted(m, b, calls[0]) {
      assert Apply(m, b, calls[0]) == Allocate(m, b, calls[0].size) by { ApplyIs(m, b, calls[0]); }
      FailureMisplaces(m, b, calls[0].size);
      MisplacedForEver(Apply(m, b, calls[0]), b, calls[1..]);
    } else {
      RefusalMisplaces(Apply(m, b, calls[0]), b, calls[1..]);
    }
  }

  lemma ApplyIs(m: Memory, b: Bounds, c: Call)
    ensures c.RecordCall? ==> Apply(m, b, c) == Allocate(m, b, c.size)
  {
  }

  lemma StartSound(b: Bounds)
    requires 0 <= b.start
    ensures Sound(Start(b), b)
  {
  }

  /** However the two callers take turns, and whether or not requests for other blocks fail,
      everything handed out is in its place exactly if no slab was refused. */
  lemma RunsStayInPlaceExactly(b: Bounds, calls: seq<Call>)
    requires 0 <= b.start && forall c :: c in calls ==> Legal(c)
    ensures InPlace(After(Start(b), b, calls), b) <==> AllGranted(Start(b), b, calls)
  {
    hide Sound, InPlace, Misplaced, After, AllGranted;
    if AllGranted(Start(b), b, calls) {
      StartSound(b);
      RunsAreSound(Start(b), b, calls);
      SoundIsInPlace(After(Start(b), b, calls), b);
    } else {
      RefusalMisplaces(Start(b), b, calls);
      MisplacedIsNotInPlace(After(Start(b), b, calls), b);
    }
  }

  /** In a heap of 1024 bytes of which 100 are taken, the first record gets the address -1. */
  lemma RefusedSlab()
    ensures var b := Bounds(4096, 5120);
            var m := After(Start(b), b, [SbrkCall(100), RecordCall(12)]);
            |m.records| == 1 && m.records[0].addr == -1 && !InPlace(m, b)
  {
    var b := Bounds(4096, 5120);
    var calls := [SbrkCall(100), RecordCall(12)];
    var m1 := Sbrk(Start(b), b, 100, false);
    assert m1.end == 4196 && WordUp(4196) == 4196;
    var m := Allocate(m1, b, 12);
    assert calls[1..] == [RecordCall(12)] && calls[1..][1..] == [];
    assert After(Start(b), b, calls) == After(m1, b, calls[1..]) == After(m, b, []);
    assert m.records[0].addr == -1;
    MisplacedIsNotInPlace(m, b);
  }
}
