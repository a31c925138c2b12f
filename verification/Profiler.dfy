/** The allocators as they are coded, and the call graph that the profiler keeps in their memory. */
module Profiler {
  import opened Heap

  const RECORD := 12 // three words, for a function and for an arc alike
  const HASH_BUCKETS := 64

  datatype FnEntry = FnEntry(next: int, selfPc: int, arcHead: int)
  datatype Arc = Arc(next: int, fromPc: int, count: nat)

  /** The records by address, and the heads of the lists of functions; 0 is the null pointer. */
  datatype Graph = Graph(entries: map<int, FnEntry>, arcs: map<int, Arc>, heads: seq<int>)

  predicate FnChain(entries: map<int, FnEntry>, a: int, s: seq<int>)
    decreases |s|
  {
    if s == [] then a == 0
    else a == s[0] != 0 && a in entries && FnChain(entries, entries[a].next, s[1..])
  }

  predicate ArcChain(arcs: map<int, Arc>, a: int, s: seq<int>)
    decreases |s|
  {
    if s == [] then a == 0
    else a == s[0] != 0 && a in arcs && ArcChain(arcs, arcs[a].next, s[1..])
  }

  /** Every record is where it was allocated, below the slab pointer, and has been given to one
      purpose only. */
  predicate GraphOk(g: Graph, m: Memory) {
    && |g.heads| == HASH_BUCKETS
    && (forall a :: a in g.entries ==> 0 < a < m.slabPtr)
    && (forall a :: a in g.arcs ==> 0 < a < m.slabPtr && a !in g.entries)
  }

  /** Every bucket holds a list of functions that ends, and every function a list of arcs. */
  ghost predicate Chained(g: Graph) {
    && (forall k :: 0 <= k < |g.heads| ==> FnsEnd(g.entries, g.heads[k]))
    && (forall f :: f in g.entries ==> ArcsEnd(g.arcs, g.entries[f].arcHead))
  }

  ghost predicate FnsEnd(entries: map<int, FnEntry>, a: int) {
    exists s :: FnChain(entries, a, s)
  }

  ghost predicate ArcsEnd(arcs: map<int, Arc>, a: int) {
    exists s :: ArcChain(arcs, a, s)
  }

  /** A new function at the front of its bucket's list. */
  function WithFn(g: Graph, fn: int, selfPc: int, bucket: nat): Graph
    requires bucket < |g.heads|
  {
    Graph(g.entries[fn := FnEntry(g.heads[bucket], selfPc, 0)], g.arcs, g.heads[bucket := fn])
  }

  /** A new arc at the front of its function's list. */
  function WithArc(g: Graph, fn: int, arc: int, fromPc: int): Graph
    requires fn in g.entries
  {
    Graph(g.entries[fn := g.entries[fn].(arcHead := arc)],
          g.arcs[arc := Arc(g.entries[fn].arcHead, fromPc, 1)], g.heads)
  }

  lemma {:induction false} FnFrame(before: map<int, FnEntry>, after: map<int, FnEntry>, a: int, s: seq<int>)
    requires FnChain(before, a, s)
    requires forall k :: k in before ==> k in after && after[k].next == before[k].next
    ensures FnChain(after, a, s)
    decreases |s|
  {
    if s != [] {
      FnFrame(before, after, before[a].next, s[1..]);
    }
  }

  lemma {:induction false} ArcFrame(before: map<int, Arc>, after: map<int, Arc>, a: int, s: seq<int>)
    requires ArcChain(before, a, s)
    requires forall k :: k in before ==> k in after && after[k] == before[k]
    ensures ArcChain(after, a, s)
    decreases |s|
  {
    if s != [] {
      ArcFrame(before, after, before[a].next, s[1..]);
    }
  }

  /** A new function goes to the front of its bucket, with its address and no arcs; no list loses
      anything, and no other record changes. */
  lemma FnAdded(g: Graph, fn: int, selfPc: int, bucket: nat, k: nat, s: seq<int>)
    requires bucket < |g.heads| && k < |g.heads| && fn != 0 && fn !in g.entries
    requires FnChain(g.entries, g.heads[k], s)
    ensures var h := WithFn(g, fn, selfPc, bucket);
            && FnChain(h.entries, h.heads[k], if k == bucket then [fn] + s else s)
            && h.entries.Keys == g.entries.Keys + {fn} && h.arcs == g.arcs
            && h.entries[fn].selfPc == selfPc && h.entries[fn].arcHead == 0
            && forall f :: f in g.entries ==> h.entries[f] == g.entries[f]
  {
    var h := WithFn(g, fn, selfPc, bucket);
    FnFrame(g.entries, h.entries, g.heads[k], s);
    assert ([fn] + s)[1..] == s;
  }

  /** A new arc goes to the front of its function's list, with its caller and a count of one; no
      list loses anything, no other arc changes, and no function but for the head of its list. */
  lemma ArcAdded(g: Graph, fn: int, arc: int, fromPc: int, f: int, s: seq<int>)
    requires fn in g.entries && f in g.entries && arc != 0 && arc !in g.arcs
    requires ArcChain(g.arcs, g.entries[f].arcHead, s)
    ensures var h := WithArc(g, fn, arc, fromPc);
            && f in h.entries && ArcChain(h.arcs, h.entries[f].arcHead, if f == fn then [arc] + s else s)
            && h.arcs.Keys == g.arcs.Keys + {arc} && h.heads == g.heads && h.entries.Keys == g.entries.Keys
            && h.arcs[arc].fromPc == fromPc && h.arcs[arc].count == 1
            && (forall a :: a in g.arcs ==> h.arcs[a] == g.arcs[a])
            && (h.entries[f].selfPc == g.entries[f].selfPc && h.entries[f].next == g.entries[f].next)
            && (f != fn ==> h.entries[f] == g.entries[f])
  {
    var h := WithArc(g, fn, arc, fromPc);
    ArcFrame(g.arcs, h.arcs, g.entries[f].arcHead, s);
    assert ([arc] + s)[1..] == s;
  }

  lemma ArcAddedFns(g: Graph, fn: int, arc: int, fromPc: int, k: nat, s: seq<int>)
    requires fn in g.entries && k < |g.heads| && FnChain(g.entries, g.heads[k], s)
    ensures var h := WithArc(g, fn, arc, fromPc); FnChain(h.entries, h.heads[k], s)
  {
    FnFrame(g.entries, WithArc(g, fn, arc, fromPc).entries, g.heads[k], s);
  }

  lemma FnKeepsChains(g: Graph, fn: int, selfPc: int, bucket: nat)
    requires Chained(g) && bucket < |g.heads| && fn != 0 && fn !in g.entries
    ensures Chained(WithFn(g, fn, selfPc, bucket))
  {
    hide FnChain, ArcChain;
    var h := WithFn(g, fn, selfPc, bucket);
    forall k | 0 <= k < |h.heads| ensures FnsEnd(h.entries, h.heads[k]) {
      assert FnsEnd(g.entries, g.heads[k]);
      var s :| FnChain(g.entries, g.heads[k], s);
      FnAdded(g, fn, selfPc, bucket, k, s);
    }
    forall f | f in h.entries ensures ArcsEnd(h.arcs, h.entries[f].arcHead) {
      if f == fn {
        NoArcs(h.arcs);
      } else {
        assert ArcsEnd(g.arcs, g.entries[f].arcHead);
        assert h.entries[f] == g.entries[f];
      }
    }
  }

  lemma NoArcs(arcs: map<int, Arc>)
    ensures ArcChain(arcs, 0, [])
  {
  }

  lemma ArcKeepsChains(g: Graph, fn: int, arc: int, fromPc: int)
    requires Chained(g) && fn in g.entries && arc != 0 && arc !in g.arcs
    ensures Chained(WithArc(g, fn, arc, fromPc))
  {
    hide FnChain, ArcChain;
    var h := WithArc(g, fn, arc, fromPc);
    forall k | 0 <= k < |h.heads| ensures FnsEnd(h.entries, h.heads[k]) {
      assert FnsEnd(g.entries, g.heads[k]);
      var s :| FnChain(g.entries, g.heads[k], s);
      ArcAddedFns(g, fn, arc, fromPc, k, s);
    }
    forall f | f in h.entries ensures ArcsEnd(h.arcs, h.entries[f].arcHead) {
      assert ArcsEnd(g.arcs, g.entries[f].arcHead);
      var s :| ArcChain(g.arcs, g.entries[f].arcHead, s);
      ArcAdded(g, fn, arc, fromPc, f, s);
    }
  }

  lemma EmptyChains()
    ensures Chained(Graph(map[], map[], seq(HASH_BUCKETS, i => 0)))
  {
    var g := Graph(map[], map[], seq(HASH_BUCKETS, i => 0));
    assert FnChain(g.entries, 0, []);
    forall k | 0 <= k < |g.heads| ensures FnsEnd(g.entries, g.heads[k]) {
      assert g.heads[k] == 0;
    }
  }

  /** An allocation that is granted moves the slab pointer past the new record, which lies
      above all earlier ones. */
  lemma AllocationIsFresh(m: Memory, b: Bounds, size: nat)
    requires Sound(m, b) && b.start > 0 && 0 < size <= SLAB && !SlabFails(m, b, size)
    requires m.slabPtr >= 0
    ensures var p := WithSlab(m, b, size).slabPtr;
            p > 0 && p >= m.slabPtr && Allocate(m, b, size).slabPtr == p + size
  {
    WithSlabSound(m, b, size);
    if size <= m.slabSize {
      assert BlockOk(m.blocks[m.owner], b);
    }
  }

  class Allocator {
    const bounds: Bounds
    var heapEnd: int
    var slabPtr: int
    var slabSize: int
    var graph: Graph
    ghost var blocks: seq<Block>
    ghost var records: seq<Record>
    ghost var owner: nat

    ghost function View(): Memory
      reads this
    {
      Memory(heapEnd, slabPtr, slabSize, blocks, records, owner)
    }

    ghost predicate Valid()
      reads this
    {
      bounds.start > 0 && slabPtr >= 0 && Sound(View(), bounds) && GraphOk(graph, View()) && Chained(graph)
    }

    constructor (bounds: Bounds)
      requires bounds.start > 0
      ensures Valid() && View() == Start(bounds) && this.bounds == bounds
      ensures graph == Graph(map[], map[], seq(HASH_BUCKETS, i => 0))
    {
      this.bounds := bounds;
      heapEnd, slabPtr, slabSize := bounds.start, 0, 0;
      graph := Graph(map[], map[], seq(HASH_BUCKETS, i => 0));
      blocks, records, owner := [], [], 0;
      EmptyChains();
    }

    /** sbrk(), with interrupts off throughout. */
    method SbrkCall(incr: int, ghost slab: bool) returns (addr: int)
      modifies `heapEnd, `blocks
      ensures View() == Sbrk(old(View()), bounds, incr, slab)
      ensures addr == SbrkResult(old(View()), bounds, incr)
      ensures old(Valid()) && incr >= 0 ==> Valid()
    {
      hide Sound;
      if Valid() && incr >= 0 {
        SbrkSound(View(), bounds, incr, slab);
      }
      heapEnd := (heapEnd + 3) / 4 * 4;
      if heapEnd + incr > bounds.limit {
        return -1;
      }
      addr := heapEnd;
      heapEnd := heapEnd + incr;
      blocks := blocks + [Block(addr, incr, slab)];
    }

    method McountAllocate(size: nat) returns (data: int)
      modifies `heapEnd, `slabPtr, `slabSize, `blocks, `records, `owner
      ensures View() == Allocate(old(View()), bounds, size)
      ensures data == WithSlab(old(View()), bounds, size).slabPtr
    {
      ghost var n := |blocks|;
      if size > slabSize {
        slabPtr := SbrkCall(SLAB, true);
        slabSize := SLAB;
        owner := n;
      }
      data := slabPtr;
      records := records + [Record(data, size, owner)];
      slabPtr := slabPtr + size;
      slabSize := slabSize - size;
    }

    /** A record that is granted is new: no list knows its address. */
    method NewRecord() returns (data: int)
      modifies `heapEnd, `slabPtr, `slabSize, `blocks, `records, `owner
      ensures View() == Allocate(old(View()), bounds, RECORD)
      ensures old(Valid() && !SlabFails(View(), bounds, RECORD)) ==>
                Valid() && 0 < data < slabPtr && data !in graph.entries && data !in graph.arcs
    {
      hide Sound, WithSlab, SlabFails, Cut, Chained;
      if Valid() && !SlabFails(View(), bounds, RECORD) {
        AllocationIsFresh(View(), bounds, RECORD);
        AllocateSound(View(), bounds, RECORD);
      }
      data := McountAllocate(RECORD);
    }

    /** The allocations of the next arc, and of its function if that is new, are granted. */
    ghost predicate Granted(fnEntry: int)
      reads this
    {
      && !SlabFails(View(), bounds, RECORD)
      && (fnEntry == 0 ==> !SlabFails(Allocate(View(), bounds, RECORD), bounds, RECORD))
    }

    /** The slow path of the profiler: a new arc, and first a new function if there is none.  The
        arc heads its function's list, the function its bucket's.  Both are new records, unless
        the heap is exhausted, which the code does not check. */
    method McountRecord(selfPc: int, fromPc: int, fnEntry: int, bucket: nat) returns (ghost fn: int, ghost arc: int)
      requires Valid() && bucket < HASH_BUCKETS
      requires fnEntry != 0 ==> fnEntry in graph.entries
      modifies this
      ensures var m := old(View());
              View() == if fnEntry == 0 then Allocate(Allocate(m, bounds, RECORD), bounds, RECORD)
                        else Allocate(m, bounds, RECORD)
      ensures var g := if fnEntry == 0 then WithFn(old(graph), fn, selfPc, bucket) else old(graph);
              fn in g.entries && graph == WithArc(g, fn, arc, fromPc)
      ensures fnEntry != 0 ==> fn == fnEntry
      ensures old(Granted(fnEntry)) ==>
                && Valid() && fn > 0 && arc > 0 && arc != fn
                && arc !in old(graph.entries) && arc !in old(graph.arcs)
                && (fnEntry == 0 ==> fn !in old(graph.entries) && fn !in old(graph.arcs))
    {
      hide Sound, Allocate, SlabFails, Chained;
      var f := fnEntry;
      if f == 0 {
        f := NewRecord();
        if old(Granted(fnEntry)) {
          FnKeepsChains(graph, f, selfPc, bucket);
        }
        graph := WithFn(graph, f, selfPc, bucket);
      }
      var a := NewRecord();
      if old(Granted(fnEntry)) {
        ArcKeepsChains(graph, f, a, fromPc);
      }
      graph := WithArc(graph, f, a, fromPc);
      fn, arc := f, a;
    }
  }
}
