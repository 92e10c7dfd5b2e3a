/**
 * The kernel heap (`heapInitialize`, `heapAllocate`, `heapExpand`,
 * `heapFree`): a span of virtual memory from `heapStart` to `heapEnd`, backed
 * page by page with frames from the physical allocator and handed out by a
 * free-list allocator, which the heap grows by a fixed step when it runs dry.
 *
 * The free-list allocator's code is not part of this model; `Freelist` below
 * stands in for it with the three promises the heap relies on.
 */
module KernelHeap {
  import opened Basics
  import FA = FrameAllocator
  import opened Paging
  import Bits

  /**
   * Stand-in for `k_freelist_allocator`: it hands out blocks from the bytes it
   * manages, never more than it manages, and answers `free` with the size of
   * the block.
   */
  class Freelist {
    /** First address managed. */
    var base: nat
    /** Bytes managed. */
    var capacity: nat
    /** Bytes handed out so far. */
    var top: nat
    /** Live blocks and their sizes. */
    var blocks: map<nat, nat>

    constructor ()
      ensures capacity == 0 && top == 0 && blocks == map[]
    {
      base := 0;
      capacity := 0;
      top := 0;
      blocks := map[];
    }

    /** `init(start, end)` */
    method Init(start: nat, end: nat)
      modifies this
      ensures base == start && capacity == Wrap(end - start) && top == 0 && blocks == map[]
    {
      base := start;
      capacity := Wrap(end - start);
      top := 0;
      blocks := map[];
    }

    /** Whether `allocate(size)` finds room. */
    predicate Fits(size: nat)
      reads this
    {
      top + size <= capacity && base + top != 0
    }

    /** `allocate(size)`: a block of `size` bytes, or 0 when none is left. */
    method Allocate(size: nat) returns (ptr: nat)
      modifies this
      ensures ptr == 0 <==> !old(Fits(size))
      ensures ptr == 0 ==> base == old(base) && capacity == old(capacity) && top == old(top) && blocks == old(blocks)
      ensures ptr != 0 ==> (base == old(base) && capacity == old(capacity)
        && top == old(top) + size <= capacity && blocks == old(blocks)[ptr := size])
    {
      if Fits(size) {
        ptr := base + top;
        top := top + size;
        blocks := blocks[ptr := size];
      } else {
        ptr := 0;
      }
    }

    /** `free(ptr)`: the size of the block freed, 0 for an unknown pointer. */
    method Free(ptr: nat) returns (bytes: nat)
      modifies this
      ensures base == old(base) && capacity == old(capacity) && top == old(top)
      ensures ptr in old(blocks) ==> bytes == old(blocks)[ptr] && blocks == old(blocks) - {ptr}
      ensures ptr !in old(blocks) ==> bytes == 0 && blocks == old(blocks)
    {
      if ptr in blocks {
        bytes := blocks[ptr];
        blocks := blocks - {ptr};
      } else {
        bytes := 0;
      }
    }

    /** `expand(bytes)`: `bytes` more to manage. */
    method Expand(bytes: nat)
      modifies this
      ensures base == old(base) && capacity == old(capacity) + bytes && top == old(top) && blocks == old(blocks)
    {
      capacity := capacity + bytes;
    }
  }

  // ---------------------------------------------------------------------
  // Backing the heap with frames
  // ---------------------------------------------------------------------

  /**
   * The loop of `heapInitialize` from page `page` on. The loop test, the
   * frame allocation and the mapping are three functions, so that unfolding
   * the loop once does not unfold the page-table walk.
   */
  function InitLoop(s: MemState, start: nat, page: nat, count: nat, root: nat, flags: PagingFlags): MemState
    decreases count - page, 2
  {
    if page >= count then s else InitPage(s, start, page, count, root, flags)
  }

  /** `allocatePage` for page `page`; its result is not checked. */
  function InitPage(s: MemState, start: nat, page: nat, count: nat, root: nat, flags: PagingFlags): MemState
    requires page < count
    decreases count - page, 1
  {
    var (phys, frames') := FA.Allocate(s.frames);
    InitMap(MemState(s.mem, frames'), start, page, phys, count, root, flags)
  }

  /** `pagingMapPage(start + PAGE_SIZE * page, phys)`, then the rest of the loop. */
  function InitMap(s: MemState, start: nat, page: nat, phys: nat, count: nat, root: nat, flags: PagingFlags): MemState
    requires page < count
    decreases count - page, 0
  {
    InitLoop(MapPageSpec(s, Wrap(start + PAGE_SIZE * page), phys, root, flags, false), start, page + 1, count, root, flags)
  }

  /** Pages `heapInitialize` backs: `(end - start) / PAGE_SIZE + 1`. */
  function InitPageCount(start: nat, end: nat): nat
  {
    Wrap(end - start) / PAGE_SIZE + 1
  }

  /** One page of `heapInitialize`'s loop, as the methods perform it. */
  lemma InitLoopStep(s: MemState, start: nat, page: nat, count: nat, root: nat, flags: PagingFlags, phys: nat, u: MemState, t: MemState)
    requires page < count && (phys, u.frames) == FA.Allocate(s.frames) && u.mem == s.mem
    requires t == MapPageSpec(u, Wrap(start + PAGE_SIZE * page), phys, root, flags, false)
    ensures InitLoop(s, start, page, count, root, flags) == InitLoop(t, start, page + 1, count, root, flags)
  {
    assert InitPage(s, start, page, count, root, flags) == InitMap(u, start, page, phys, count, root, flags);
  }

  /**
   * `heapInitialize`'s loop keeps the allocator's total and never frees a
   * frame; a page whose `allocatePage` found no frame is mapped to address 0.
   */
  lemma {:induction false} InitLoopFrames(s: MemState, start: nat, page: nat, count: nat, root: nat, flags: PagingFlags)
    ensures FA.Total(InitLoop(s, start, page, count, root, flags).frames) == FA.Total(s.frames)
    ensures forall k :: !FA.IsFree(s.frames.bits, k) ==> !FA.IsFree(InitLoop(s, start, page, count, root, flags).frames.bits, k)
    decreases count - page
  {
    if page < count {
      var a := FA.Allocate(s.frames);
      forall k | !FA.IsFree(s.frames.bits, k)
        ensures !FA.IsFree(a.1.bits, k)
      {
        FA.AllocateKeepsUsed(s.frames, k);
      }
      var u := MemState(s.mem, a.1);
      var next := MapPageSpec(u, Wrap(start + PAGE_SIZE * page), a.0, root, flags, false);
      InitLoopStep(s, start, page, count, root, flags, a.0, u, next);
      InitLoopFrames(next, start, page + 1, count, root, flags);
    }
  }

  /**
   * `heapInitialize`'s loop writes only entries that were not present and
   * tables it allocates, so every present entry of a held table survives it.
   */
  lemma {:induction false} InitLoopKeeps(s: MemState, start: nat, page: nat, count: nat, root: nat, flags: PagingFlags)
    ensures Keeps(s, InitLoop(s, start, page, count, root, flags))
    decreases count - page
  {
    if page < count {
      var (phys, f) := FA.Allocate(s.frames);
      var u := MemState(s.mem, f);
      var next := MapPageSpec(u, Wrap(start + PAGE_SIZE * page), phys, root, flags, false);
      InitLoopStep(s, start, page, count, root, flags, phys, u, next);
      AllocateMapKeeps(s, Wrap(start + PAGE_SIZE * page), root, flags, phys, u, next);
      InitLoopKeeps(next, start, page + 1, count, root, flags);
      KeepsTrans(s, next, InitLoop(s, start, page, count, root, flags));
    }
  }

  /**
   * The page `heapInitialize` is at, when it is ready to be mapped through
   * held tables and the allocator can supply its frame and three tables, ends
   * the loop mapped to the frame taken for it: later pages never remap it.
   */
  lemma InitLoopMapsPage(s: MemState, start: nat, page: nat, count: nat, root: nat, flags: PagingFlags)
    requires page < count
    requires LinkFlags(flags.pml4Flags) && LinkFlags(flags.pdptFlags) && LinkFlags(flags.pdFlags)
    requires IsPresent(flags.ptFlags) && AddressOf(flags.ptFlags) == 0
    requires var v := Wrap(start + PAGE_SIZE * page);
      ReadyToMap(s.mem, root, v, false) && PathHeld(s, root, v) && CanSupply(s.frames, 4)
    ensures var v := Wrap(start + PAGE_SIZE * page);
      var t := InitLoop(s, start, page, count, root, flags);
      && Mapped(t, root, v)
      && Translate(t.mem, root, v) == FA.Allocate(s.frames).0 + OffsetOf(v)
  {
    var v := Wrap(start + PAGE_SIZE * page);
    var (phys, f) := FA.Allocate(s.frames);
    var u := MemState(s.mem, f);
    AllocateForPage(s, root, v, 4);
    var next := MapPageSpec(u, v, phys, root, flags, false);
    MapMakesMapped(u, v, phys, root, flags);
    InitLoopStep(s, start, page, count, root, flags, phys, u, next);
    InitLoopKeeps(next, start, page + 1, count, root, flags);
    KeepsMapped(next, InitLoop(next, start, page + 1, count, root, flags), root, v);
  }

  /**
   * A page mapped through held tables before `heapInitialize`'s loop, or by
   * an earlier turn of it, stays mapped to the same frame.
   */
  lemma InitLoopKeepsMapped(s: MemState, start: nat, page: nat, count: nat, root: nat, flags: PagingFlags, v: nat)
    requires Mapped(s, root, v)
    ensures Mapped(InitLoop(s, start, page, count, root, flags), root, v)
    ensures Translate(InitLoop(s, start, page, count, root, flags).mem, root, v) == Translate(s.mem, root, v)
  {
    InitLoopKeeps(s, start, page, count, root, flags);
    KeepsMapped(s, InitLoop(s, start, page, count, root, flags), root, v);
  }

  /**
   * The loop of `heapExpand` from `virt` up to `limit`: it stops with `false`
   * at the first `allocatePage` that returns 0, after which the pages it
   * mapped stay mapped, and the allocator keeps what that call did.
   */
  function ExpandLoop(s: MemState, virt: nat, limit: nat, root: nat, flags: PagingFlags): (MemState, bool)
    decreases if virt < limit then limit - virt else 0, 2
  {
    if virt >= limit then (s, true) else ExpandPage(s, virt, limit, root, flags)
  }

  /** `allocatePage` for the page at `virt`: stop on 0, map it otherwise. */
  function ExpandPage(s: MemState, virt: nat, limit: nat, root: nat, flags: PagingFlags): (MemState, bool)
    requires virt < limit
    decreases limit - virt, 1
  {
    var (phys, frames') := FA.Allocate(s.frames);
    if phys == 0 then (MemState(s.mem, frames'), false)
    else ExpandMap(MemState(s.mem, frames'), virt, phys, limit, root, flags)
  }

  /** `pagingMapPage(virt, phys)`, then the rest of the loop. */
  function ExpandMap(s: MemState, virt: nat, phys: nat, limit: nat, root: nat, flags: PagingFlags): (MemState, bool)
    requires virt < limit
    decreases limit - virt, 0
  {
    ExpandLoop(MapPageSpec(s, virt, phys, root, flags, false), virt + PAGE_SIZE, limit, root, flags)
  }

  /** A page of `heapExpand`'s loop whose frame was found. */
  lemma ExpandLoopStep(s: MemState, virt: nat, limit: nat, root: nat, flags: PagingFlags, phys: nat, u: MemState, t: MemState)
    requires virt < limit && phys != 0 && (phys, u.frames) == FA.Allocate(s.frames) && u.mem == s.mem
    requires t == MapPageSpec(u, virt, phys, root, flags, false)
    ensures ExpandLoop(s, virt, limit, root, flags) == ExpandLoop(t, virt + PAGE_SIZE, limit, root, flags)
  {
    assert ExpandPage(s, virt, limit, root, flags) == ExpandMap(u, virt, phys, limit, root, flags);
  }

  /** `heapExpand`'s loop stops where `allocatePage` returns 0. */
  lemma ExpandLoopStop(s: MemState, virt: nat, limit: nat, root: nat, flags: PagingFlags)
    requires virt < limit && FA.Allocate(s.frames).0 == 0
    ensures ExpandLoop(s, virt, limit, root, flags) == (MemState(s.mem, FA.Allocate(s.frames).1), false)
  {
  }

  /**
   * `heapExpand`'s loop, finished or stopped, keeps every present entry of a
   * held table.
   */
  lemma {:induction false} ExpandLoopKeeps(s: MemState, virt: nat, limit: nat, root: nat, flags: PagingFlags)
    ensures Keeps(s, ExpandLoop(s, virt, limit, root, flags).0)
    decreases if virt < limit then limit - virt else 0
  {
    if virt < limit {
      var (phys, f) := FA.Allocate(s.frames);
      if phys == 0 {
        ExpandLoopStop(s, virt, limit, root, flags);
        AllocateKeeps(s);
      } else {
        var u := MemState(s.mem, f);
        var next := MapPageSpec(u, virt, phys, root, flags, false);
        var rest := ExpandLoop(next, virt + PAGE_SIZE, limit, root, flags);
        ExpandLoopStep(s, virt, limit, root, flags, phys, u, next);
        AllocateMapKeeps(s, virt, root, flags, phys, u, next);
        ExpandLoopKeeps(next, virt + PAGE_SIZE, limit, root, flags);
        KeepsTrans(s, next, rest.0);
      }
    }
  }

  /**
   * A page mapped through held tables before `heapExpand`'s loop, or by an
   * earlier turn of it, stays mapped to the same frame, whether the loop
   * finishes or stops.
   */
  lemma ExpandLoopKeepsMapped(s: MemState, virt: nat, limit: nat, root: nat, flags: PagingFlags, v: nat)
    requires Mapped(s, root, v)
    ensures Mapped(ExpandLoop(s, virt, limit, root, flags).0, root, v)
    ensures Translate(ExpandLoop(s, virt, limit, root, flags).0.mem, root, v) == Translate(s.mem, root, v)
  {
    ExpandLoopKeeps(s, virt, limit, root, flags);
    KeepsMapped(s, ExpandLoop(s, virt, limit, root, flags).0, root, v);
  }

  /**
   * The page `heapExpand` is at, when it is ready to be mapped through held
   * tables and the allocator can supply its frame and three tables, ends the
   * loop mapped to the frame taken for it, whether the loop finishes or stops
   * later.
   */
  lemma ExpandLoopMapsPage(s: MemState, virt: nat, limit: nat, root: nat, flags: PagingFlags)
    requires virt < limit
    requires LinkFlags(flags.pml4Flags) && LinkFlags(flags.pdptFlags) && LinkFlags(flags.pdFlags)
    requires IsPresent(flags.ptFlags) && AddressOf(flags.ptFlags) == 0
    requires ReadyToMap(s.mem, root, virt, false) && PathHeld(s, root, virt) && CanSupply(s.frames, 4)
    ensures var t := ExpandLoop(s, virt, limit, root, flags).0;
      && Mapped(t, root, virt)
      && Translate(t.mem, root, virt) == FA.Allocate(s.frames).0 + OffsetOf(virt)
  {
    var (phys, f) := FA.Allocate(s.frames);
    var u := MemState(s.mem, f);
    AllocateForPage(s, root, virt, 4);
    var next := MapPageSpec(u, virt, phys, root, flags, false);
    MapMakesMapped(u, virt, phys, root, flags);
    ExpandLoopStep(s, virt, limit, root, flags, phys, u, next);
    ExpandLoopKeepsMapped(next, virt + PAGE_SIZE, limit, root, flags, virt);
  }

  /** Pages the loop visits from `virt` up to `limit`. */
  function Visits(virt: nat, limit: nat): nat
    decreases if virt < limit then limit - virt else 0
  {
    if virt >= limit then 0 else 1 + Visits(virt + PAGE_SIZE, limit)
  }

  /** The loop visits one page per `PAGE_SIZE` bytes of an aligned span. */
  lemma {:induction false} VisitsAligned(virt: nat, n: nat)
    ensures Visits(virt, virt + n * PAGE_SIZE) == n
    decreases n
  {
    if n > 0 {
      VisitsAligned(virt + PAGE_SIZE, n - 1);
      assert virt + PAGE_SIZE + (n - 1) * PAGE_SIZE == virt + n * PAGE_SIZE;
    }
  }

  /** Visiting up to `limit` from `virt` passes through every aligned midpoint. */
  lemma {:induction false} VisitsSplit(virt: nat, n: nat, limit: nat)
    requires virt + n * PAGE_SIZE <= limit
    ensures Visits(virt, limit) == n + Visits(virt + n * PAGE_SIZE, limit)
    decreases n
  {
    if n > 0 {
      VisitsSplit(virt + PAGE_SIZE, n - 1, limit);
      assert virt + PAGE_SIZE + (n - 1) * PAGE_SIZE == virt + n * PAGE_SIZE;
    }
  }

  /**
   * A finished expansion loop has taken one free frame for each page it
   * visited, on top of any frames for new tables; it never frees a frame and
   * keeps the allocator's total.
   */
  lemma {:induction false} ExpandLoopFrames(s: MemState, virt: nat, limit: nat, root: nat, flags: PagingFlags)
    ensures FA.Total(ExpandLoop(s, virt, limit, root, flags).0.frames) == FA.Total(s.frames)
    ensures forall k :: !FA.IsFree(s.frames.bits, k) ==> !FA.IsFree(ExpandLoop(s, virt, limit, root, flags).0.frames.bits, k)
    ensures ExpandLoop(s, virt, limit, root, flags).1 ==>
      FA.FreeCount(ExpandLoop(s, virt, limit, root, flags).0.frames.bits) + Visits(virt, limit) <= FA.FreeCount(s.frames.bits)
    decreases if virt < limit then limit - virt else 0
  {
    if virt < limit {
      var a := FA.Allocate(s.frames);
      forall k | !FA.IsFree(s.frames.bits, k)
        ensures !FA.IsFree(a.1.bits, k)
      {
        FA.AllocateKeepsUsed(s.frames, k);
      }
      if a.0 == 0 {
        ExpandLoopStop(s, virt, limit, root, flags);
      } else {
        assert FA.Found(s.frames).Some?;
        var u := MemState(s.mem, a.1);
        var next := MapPageSpec(u, virt, a.0, root, flags, false);
        ExpandLoopStep(s, virt, limit, root, flags, a.0, u, next);
        assert Visits(virt, limit) == 1 + Visits(virt + PAGE_SIZE, limit);
        ExpandLoopFrames(next, virt + PAGE_SIZE, limit, root, flags);
      }
    }
  }

  /**
   * `heapExpand` as written starts its loop at `heapStart`: growing a heap of
   * `n` pages by `m` pages visits all `n + m` pages, and a successful
   * expansion takes at least `n + m` free frames rather than `m`.
   */
  lemma ExpandRevisitsHeap(s: MemState, start: nat, end: nat, n: nat, step: nat, m: nat, root: nat, flags: PagingFlags)
    requires end == start + n * PAGE_SIZE && step == m * PAGE_SIZE
    ensures Visits(start, end + step) == n + m
    ensures ExpandLoop(s, start, end + step, root, flags).1 ==>
      FA.FreeCount(ExpandLoop(s, start, end + step, root, flags).0.frames.bits) + n + m <= FA.FreeCount(s.frames.bits)
  {
    RevisitCount(start, end, n, step, m);
    ExpandLoopFrames(s, start, end + step, root, flags);
  }

  /** The page count behind `ExpandRevisitsHeap`. */
  lemma RevisitCount(start: nat, end: nat, n: nat, step: nat, m: nat)
    requires end == start + n * PAGE_SIZE && step == m * PAGE_SIZE
    ensures Visits(start, end + step) == n + m
  {
    VisitsSplit(start, n, end + step);
    VisitsAligned(end, m);
  }

  /**
   * On a page that is already mapped, the loop still takes a frame and maps
   * nothing with it: the frame is lost to the allocator.
   */
  lemma ExpandLeaksMappedPage(s: MemState, virt: nat, limit: nat, root: nat, flags: PagingFlags)
    requires virt < limit && FA.Allocate(s.frames).0 != 0
    requires IsPresent(Pml4e(s.mem, root, virt)) && IsPresent(Pdpte(s.mem, root, virt))
    requires IsPresent(Pde(s.mem, root, virt)) && IsPresent(Pte(s.mem, root, virt))
    ensures var frames' := FA.Allocate(s.frames).1;
      && FA.FreeCount(frames'.bits) + 1 == FA.FreeCount(s.frames.bits)
      && ExpandLoop(s, virt, limit, root, flags) == ExpandLoop(MemState(s.mem, frames'), virt + PAGE_SIZE, limit, root, flags)
  {
    var (phys, frames') := FA.Allocate(s.frames);
    assert FA.Found(s.frames).Some?;
    var u := MemState(s.mem, frames');
    MapKeepsMapped(u, virt, phys, root, flags);
    ExpandLoopStep(s, virt, limit, root, flags, phys, u, u);
  }

  /**
   * The corrected expansion: the loop runs over the new pages only, from
   * `heapEnd` to `heapEnd + step`.
   */
  function ExpandNewPages(s: MemState, end: nat, step: nat, root: nat, flags: PagingFlags): (MemState, bool)
  {
    ExpandLoop(s, end, end + step, root, flags)
  }

  /**
   * Growing by `n` pages, the corrected loop visits exactly those `n` pages and
   * takes at least one free frame for each, however large the heap already is.
   */
  lemma ExpandNewPagesFrames(s: MemState, end: nat, step: nat, n: nat, root: nat, flags: PagingFlags)
    requires step == n * PAGE_SIZE
    ensures Visits(end, end + step) == n
    ensures ExpandNewPages(s, end, step, root, flags).1 ==>
      FA.FreeCount(ExpandNewPages(s, end, step, root, flags).0.frames.bits) + n <= FA.FreeCount(s.frames.bits)
  {
    VisitsAligned(end, n);
    ExpandLoopFrames(s, end, end + step, root, flags);
  }

  // ---------------------------------------------------------------------
  // The byte count in use
  // ---------------------------------------------------------------------

  /** Freeing what was allocated brings `heapUsed` back, in 64-bit arithmetic. */
  lemma UsedRoundTrip(used: nat, size: nat)
    requires used < TWO_64
    ensures Wrap(Wrap(used + size) - size) == used
  {
    var q := (used + size) / TWO_64;
    assert used + size == q * TWO_64 + Wrap(used + size);
    assert Wrap(used + size) - size == used - q * TWO_64;
    Bits.DivModUnique(used, TWO_64, 0, used);
    assert (used - q * TWO_64) % TWO_64 == used % TWO_64 by {
      ModShift(used, q);
    }
  }

  /** Adding a multiple of the modulus leaves a remainder alone. */
  lemma {:induction false} ModShift(x: nat, q: nat)
    ensures (x - q * TWO_64) % TWO_64 == x % TWO_64
  {
    if q > 0 {
      ModShift(x, q - 1);
      assert x - q * TWO_64 == (x - (q - 1) * TWO_64) - TWO_64;
    }
  }

  /**
   * A failed expansion loop ends right after an `allocatePage` that returned
   * 0, keeping what that call did to the allocator.
   */
  lemma {:induction false} ExpandLoopFailure(s: MemState, virt: nat, limit: nat, root: nat, flags: PagingFlags)
    ensures !ExpandLoop(s, virt, limit, root, flags).1 ==>
      exists u: MemState :: FA.Allocate(u.frames).0 == 0
        && ExpandLoop(s, virt, limit, root, flags).0 == MemState(u.mem, FA.Allocate(u.frames).1)
    decreases if virt < limit then limit - virt else 0
  {
    if virt < limit {
      var (phys, f) := FA.Allocate(s.frames);
      if phys == 0 {
        ExpandLoopStop(s, virt, limit, root, flags);
        assert ExpandLoop(s, virt, limit, root, flags).0 == MemState(s.mem, FA.Allocate(s.frames).1);
      } else {
        var u := MemState(s.mem, f);
        var next := MapPageSpec(u, virt, phys, root, flags, false);
        ExpandLoopStep(s, virt, limit, root, flags, phys, u, next);
        var rest := ExpandLoop(next, virt + PAGE_SIZE, limit, root, flags);
        ExpandLoopFailure(next, virt + PAGE_SIZE, limit, root, flags);
        if !rest.1 {
          var w: MemState :| FA.Allocate(w.frames).0 == 0 && rest.0 == MemState(w.mem, FA.Allocate(w.frames).1);
          assert ExpandLoop(s, virt, limit, root, flags).0 == MemState(w.mem, FA.Allocate(w.frames).1);
        }
      }
    }
  }

  /** `heapEnd` after `e` expansions by `step`, each in 64-bit arithmetic. */
  function Grow(end: nat, step: nat, e: nat): nat
    decreases e
  {
    if e == 0 then end else Grow(Wrap(end + step), step, e - 1)
  }

  /** The free-list capacity `e` expansions by `step` add, one step at a time. */
  function Added(step: nat, e: nat): nat
    decreases e
  {
    if e == 0 then 0 else step + Added(step, e - 1)
  }

  /** So `e` expansions add `e * step` bytes of capacity. */
  lemma {:induction false} AddedIsProduct(step: nat, e: nat)
    ensures Added(step, e) == e * step
    decreases e
  {
    if e > 0 {
      AddedIsProduct(step, e - 1);
      assert e * step == (e - 1) * step + step;
    }
  }

  /** One expansion, then `more`: the same end and capacity as `more + 1` expansions. */
  lemma GrowOnce(end: nat, step: nat, more: nat)
    ensures Grow(end, step, more + 1) == Grow(Wrap(end + step), step, more)
    ensures Added(step, more + 1) == step + Added(step, more)
  {
  }

  /** What `heapAllocate` gives back: a block, or a kernel panic. */
  datatype AllocResult = Allocated(ptr: nat) | Panicked

  // ---------------------------------------------------------------------
  // The heap object
  // ---------------------------------------------------------------------

  /**
   * The heap's globals. `K_HEAP_EXPANSION_STEP` and `K_HEAP_MAX_EXPANSION` are
   * constants of the heap header, which is not part of this model; the model
   * takes them as `step` and `maxEnd` with the bounds `Valid` states. The
   * flags `pagingMapPage` uses by default are `flags`.
   */
  class Heap {
    var heapStart: nat
    var heapEnd: nat
    var heapUsed: nat
    var initialized: bool
    const step: nat
    const maxEnd: nat
    const flags: PagingFlags
    const mmu: Mmu
    const freelist: Freelist

    ghost predicate Valid()
      reads this, mmu, mmu.frames
    {
      && 0 < step && maxEnd + step < TWO_64 && maxEnd + PAGE_SIZE < TWO_64
      && heapEnd < TWO_64 && heapUsed < TWO_64
      && mmu.Valid()
    }

    constructor (m: Mmu, f: Freelist, expansionStep: nat, maxExpansion: nat, mapFlags: PagingFlags)
      requires m.Valid() && 0 < expansionStep && maxExpansion + expansionStep < TWO_64 && maxExpansion + PAGE_SIZE < TWO_64
      ensures Valid() && !initialized && mmu == m && freelist == f
      ensures step == expansionStep && maxEnd == maxExpansion && flags == mapFlags
    {
      heapStart := 0;
      heapEnd := 0;
      heapUsed := 0;
      initialized := false;
      step := expansionStep;
      maxEnd := maxExpansion;
      flags := mapFlags;
      mmu := m;
      freelist := f;
    }

    /**
     * `heapInitialize`: the free list takes the span, the globals are set, and
     * `(end - start) / PAGE_SIZE + 1` pages from `start` are each mapped to a
     * fresh frame.
     */
    method Initialize(start: nat, end: nat)
      requires Valid() && start < TWO_64 && end < TWO_64
      modifies this, mmu, mmu.frames, mmu.frames.bitmap, freelist
      ensures Valid() && initialized
      ensures heapStart == start && heapEnd == end && heapUsed == 0
      ensures freelist.base == start && freelist.capacity == Wrap(end - start) && freelist.top == 0 && freelist.blocks == map[]
      ensures mmu.frames.bitmap == old(mmu.frames.bitmap) && mmu.cr3 == old(mmu.cr3)
      ensures mmu.State() == InitLoop(old(mmu.State()), start, 0, InitPageCount(start, end), mmu.cr3, flags)
    {
      freelist.Init(start, end);
      heapStart := start;
      heapEnd := end;
      initialized := true;
      heapUsed := 0;
      var pageCount := Wrap(end - start) / PAGE_SIZE + 1;
      assert mmu.State() == old(mmu.State()) && pageCount == InitPageCount(start, end);
      BackInitialPages(start, pageCount);
    }

    /** The loop of `heapInitialize`: map `count` pages from `start`, each to a fresh frame. */
    method BackInitialPages(start: nat, count: nat)
      requires mmu.Valid()
      modifies mmu, mmu.frames, mmu.frames.bitmap
      ensures mmu.Valid() && mmu.frames.bitmap == old(mmu.frames.bitmap) && mmu.cr3 == old(mmu.cr3)
      ensures mmu.State() == InitLoop(old(mmu.State()), start, 0, count, mmu.cr3, flags)
    {
      var page := 0;
      while page < count
        invariant 0 <= page <= count
        invariant mmu.Valid() && mmu.frames.bitmap == old(mmu.frames.bitmap) && mmu.cr3 == old(mmu.cr3)
        invariant InitLoop(mmu.State(), start, page, count, mmu.cr3, flags)
          == InitLoop(old(mmu.State()), start, 0, count, mmu.cr3, flags)
        decreases count - page
      {
        ghost var s := mmu.State();
        var pAddr := mmu.frames.AllocatePage();
        ghost var u := mmu.State();
        mmu.MapPage(Wrap(start + PAGE_SIZE * page), pAddr, flags, false);
        InitLoopStep(s, start, page, count, mmu.cr3, flags, pAddr, u, mmu.State());
        page := page + 1;
      }
    }

    /**
     * `heapExpand` as written: refused when `heapEnd + step` passes the
     * maximum; otherwise one frame per page from `heapStart` up to
     * `heapEnd + step`, and on success the free list and `heapEnd` grow by
     * `step`.
     */
    method Expand() returns (ok: bool)
      requires Valid() && initialized
      modifies this, mmu, mmu.frames, mmu.frames.bitmap, freelist
      ensures Valid() && initialized && heapStart == old(heapStart) && heapUsed == old(heapUsed)
      ensures mmu.frames.bitmap == old(mmu.frames.bitmap) && mmu.cr3 == old(mmu.cr3)
      ensures freelist.base == old(freelist.base) && freelist.top == old(freelist.top) && freelist.blocks == old(freelist.blocks)
      ensures Wrap(old(heapEnd) + step) > maxEnd ==> !ok && mmu.State() == old(mmu.State())
      ensures Wrap(old(heapEnd) + step) <= maxEnd ==>
        (mmu.State(), ok) == ExpandLoop(old(mmu.State()), heapStart, Wrap(old(heapEnd) + step), mmu.cr3, flags)
      ensures ok ==> heapEnd == Wrap(old(heapEnd) + step) <= maxEnd && freelist.capacity == old(freelist.capacity) + step
      ensures !ok ==> heapEnd == old(heapEnd) && freelist.capacity == old(freelist.capacity)
    {
      var limit := Wrap(heapEnd + step);
      if limit > maxEnd {
        return false;
      }
      assert mmu.State() == old(mmu.State());
      ok := BackPages(heapStart, limit);
      if !ok {
        return;
      }
      freelist.Expand(step);
      heapEnd := Wrap(heapEnd + step);
    }

    /**
     * The loop of `heapExpand`: map each page from `virt` up to `limit` to a
     * fresh frame, and stop at the first `allocatePage` that returns 0.
     */
    method BackPages(from: nat, limit: nat) returns (ok: bool)
      requires mmu.Valid()
      modifies mmu, mmu.frames, mmu.frames.bitmap
      ensures mmu.Valid() && mmu.frames.bitmap == old(mmu.frames.bitmap) && mmu.cr3 == old(mmu.cr3)
      ensures (mmu.State(), ok) == ExpandLoop(old(mmu.State()), from, limit, mmu.cr3, flags)
    {
      var virt := from;
      while virt < limit
        invariant mmu.Valid() && mmu.frames.bitmap == old(mmu.frames.bitmap) && mmu.cr3 == old(mmu.cr3)
        invariant ExpandLoop(mmu.State(), virt, limit, mmu.cr3, flags) == ExpandLoop(old(mmu.State()), from, limit, mmu.cr3, flags)
        decreases limit - virt
      {
        ghost var s := mmu.State();
        var phys := mmu.frames.AllocatePage();
        if phys == 0 {
          ExpandLoopStop(s, virt, limit, mmu.cr3, flags);
          return false;
        }
        ghost var u := mmu.State();
        mmu.MapPage(virt, phys, flags, false);
        ExpandLoopStep(s, virt, limit, mmu.cr3, flags, phys, u, mmu.State());
        virt := virt + PAGE_SIZE;
      }
      return true;
    }

    /**
     * `heapExpand` returned false here: the next end passes the maximum, or
     * the mapping loop, started from `lastTry`, ran out of frames and left
     * the current state.
     */
    ghost predicate ExpansionRefused(lastTry: MemState)
      reads this, mmu, mmu.frames, mmu.frames.bitmap
    {
      Wrap(heapEnd + step) > maxEnd
      || ExpandLoop(lastTry, heapStart, Wrap(heapEnd + step), mmu.cr3, flags) == (mmu.State(), false)
    }

    /**
     * `heapAllocate`: a block from the free list, adding `size` to `heapUsed`;
     * when the free list has no room, expand and try again, and panic once
     * the heap cannot expand. `expansions` counts the successful expansions,
     * each of which grows `heapEnd` and the free list by `step` without
     * passing the maximum. A panic leaves the free list and `heapUsed` as
     * they were, with no room for `size`, after an expansion that was refused
     * at the maximum or whose loop, started from `lastTry`, ran out of frames.
     */
    method Allocate(size: nat) returns (r: AllocResult, ghost expansions: nat, ghost lastTry: MemState)
      requires Valid() && initialized
      modifies this, mmu, mmu.frames, mmu.frames.bitmap, freelist
      ensures Valid() && initialized && heapStart == old(heapStart)
      ensures mmu.frames.bitmap == old(mmu.frames.bitmap) && mmu.cr3 == old(mmu.cr3)
      ensures freelist.base == old(freelist.base)
      ensures heapEnd == Grow(old(heapEnd), step, expansions)
      ensures freelist.capacity == old(freelist.capacity) + Added(step, expansions)
      ensures expansions > 0 ==> heapEnd <= maxEnd
      ensures r.Allocated? ==> (r.ptr != 0 && heapUsed == Wrap(old(heapUsed) + size)
        && freelist.blocks == old(freelist.blocks)[r.ptr := size] && freelist.top == old(freelist.top) + size)
      ensures r.Allocated? && expansions == 0 ==> mmu.State() == old(mmu.State())
      ensures r.Panicked? ==> (heapUsed == old(heapUsed) && !freelist.Fits(size)
        && freelist.blocks == old(freelist.blocks) && freelist.top == old(freelist.top))
      ensures r.Panicked? ==> ExpansionRefused(lastTry)
      decreases (if heapEnd + step < TWO_64 then 0 else 1), maxEnd - heapEnd, 1
    {
      lastTry := mmu.State();
      var ptr := freelist.Allocate(size);
      if ptr == 0 {
        assert mmu.State() == lastTry;
        r, expansions, lastTry := ExpandAndRetry(size);
        return;
      }
      expansions := 0;
      heapUsed := Wrap(heapUsed + size);
      return Allocated(ptr), expansions, lastTry;
    }

    /**
     * The branch of `heapAllocate` where the free list has no room for
     * `size`: expand and allocate again, or panic when the expansion fails.
     */
    method ExpandAndRetry(size: nat) returns (r: AllocResult, ghost expansions: nat, ghost lastTry: MemState)
      requires Valid() && initialized && !freelist.Fits(size)
      modifies this, mmu, mmu.frames, mmu.frames.bitmap, freelist
      ensures Valid() && initialized && heapStart == old(heapStart)
      ensures mmu.frames.bitmap == old(mmu.frames.bitmap) && mmu.cr3 == old(mmu.cr3)
      ensures freelist.base == old(freelist.base)
      ensures heapEnd == Grow(old(heapEnd), step, expansions)
      ensures freelist.capacity == old(freelist.capacity) + Added(step, expansions)
      ensures expansions > 0 ==> heapEnd <= maxEnd
      ensures r.Allocated? ==> (expansions > 0 && r.ptr != 0 && heapUsed == Wrap(old(heapUsed) + size)
        && freelist.blocks == old(freelist.blocks)[r.ptr := size] && freelist.top == old(freelist.top) + size)
      ensures r.Panicked? ==> (heapUsed == old(heapUsed) && !freelist.Fits(size)
        && freelist.blocks == old(freelist.blocks) && freelist.top == old(freelist.top))
      ensures r.Panicked? ==> ExpansionRefused(lastTry)
      decreases (if heapEnd + step < TWO_64 then 0 else 1), maxEnd - heapEnd, 0
    {
      lastTry := mmu.State();
      ghost var end0, capacity0, blocks0, top0, used0 := heapEnd, freelist.capacity, freelist.blocks, freelist.top, heapUsed;
      var expanded := Expand();
      if expanded {
        ghost var mid, capacity1 := heapEnd, freelist.capacity;
        assert mid == Wrap(end0 + step) && heapEnd + step < TWO_64 && capacity1 == capacity0 + step;
        assert end0 + step < TWO_64 ==> heapEnd == end0 + step;
        assert freelist.blocks == blocks0 && freelist.top == top0 && heapUsed == used0;
        ghost var more: nat;
        r, more, lastTry := Allocate(size);
        expansions := more + 1;
        GrowOnce(end0, step, more);
        assert heapEnd == Grow(mid, step, more) && freelist.capacity == capacity1 + Added(step, more);
        return;
      }
      assert heapEnd == end0 && freelist.capacity == capacity0;
      assert ExpansionRefused(lastTry);
      expansions := 0;
      return Panicked, expansions, lastTry;
    }

    /** `heapFree`: `heapUsed` loses the size the free list reports. */
    method Free(ptr: nat)
      requires Valid() && initialized
      modifies this, freelist
      ensures Valid() && initialized && heapStart == old(heapStart) && heapEnd == old(heapEnd)
      ensures freelist.base == old(freelist.base) && freelist.capacity == old(freelist.capacity)
      ensures freelist.top == old(freelist.top)
      ensures ptr in old(freelist.blocks) ==> (heapUsed == Wrap(old(heapUsed) - old(freelist.blocks)[ptr])
        && freelist.blocks == old(freelist.blocks) - {ptr})
      ensures ptr !in old(freelist.blocks) ==> heapUsed == old(heapUsed) && freelist.blocks == old(freelist.blocks)
    {
      var bytes := freelist.Free(ptr);
      heapUsed := Wrap(heapUsed - bytes);
    }
  }
}
