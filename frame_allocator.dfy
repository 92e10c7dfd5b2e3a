/**
 * The physical frame allocator (BitmapAllocator): one bit per 4 KiB frame,
 * `true` meaning free, plus three byte counters (free, used, reserved).
 *
 * The pure functions on `Frames` say what every operation does to the
 * allocator's state; the class `BitmapAllocator` performs the same steps in
 * place on an array and is proved to agree with them.
 */
module FrameAllocator {
  import opened Basics

  /** Memory-map entry type that the boot protocol (stivale2) calls USABLE. */
  const STIVALE2_MMAP_USABLE: nat := 1

  /** Largest bitmap that keeps every frame address below 2^64. */
  const MAX_FRAMES: nat := TWO_64 / PAGE_SIZE

  /** One entry of the boot memory map. */
  datatype MemmapEntry = MemmapEntry(base: nat, length: nat, kind: nat)

  predicate Usable(e: MemmapEntry)
  {
    e.kind == STIVALE2_MMAP_USABLE
  }

  /** Sum of all entry lengths, accumulated from the first entry on. */
  function SumLengths(mm: seq<MemmapEntry>): nat
  {
    if mm == [] then 0 else SumLengths(mm[..|mm| - 1]) + mm[|mm| - 1].length
  }

  /** Bytes in USABLE entries. */
  function UsableBytes(mm: seq<MemmapEntry>): nat
  {
    if mm == [] then 0
    else UsableBytes(mm[..|mm| - 1]) + (if Usable(mm[|mm| - 1]) then mm[|mm| - 1].length else 0)
  }

  /** Bytes in entries of every other type. */
  function ReservedBytes(mm: seq<MemmapEntry>): nat
  {
    if mm == [] then 0
    else ReservedBytes(mm[..|mm| - 1]) + (if Usable(mm[|mm| - 1]) then 0 else mm[|mm| - 1].length)
  }

  /** Every byte of the memory map is counted as either free or reserved. */
  lemma {:induction false} UsablePlusReserved(mm: seq<MemmapEntry>)
    ensures UsableBytes(mm) + ReservedBytes(mm) == SumLengths(mm)
  {
    if mm != [] {
      UsablePlusReserved(mm[..|mm| - 1]);
    }
  }

  /**
   * A memory map whose entries lie inside the 64-bit physical address space
   * and whose lengths add up to less than 2^64, so that none of the `uint64_t`
   * sums of the initialisation pass wraps around.
   */
  predicate WellFormedMemmap(mm: seq<MemmapEntry>)
  {
    (forall i :: 0 <= i < |mm| ==> mm[i].base + mm[i].length <= TWO_64)
    && SumLengths(mm) < TWO_64
  }

  /** Number of pages the per-entry loop visits: the length rounded up to pages. */
  function EntryPages(e: MemmapEntry): nat
  {
    (e.length + PAGE_SIZE - 1) / PAGE_SIZE
  }

  /** The page loop of an entry visits frame base / PAGE_SIZE + pages at its `pages`-th step. */
  lemma PageBit(base: nat, pages: nat)
    ensures (base + pages * PAGE_SIZE) / PAGE_SIZE == base / PAGE_SIZE + pages
  {
  }

  /** The page loop of an entry runs EntryPages times. */
  lemma PageLoopCount(length: nat, pages: nat)
    requires length <= pages * PAGE_SIZE < length + PAGE_SIZE
    ensures pages == (length + PAGE_SIZE - 1) / PAGE_SIZE
  {
  }

  /** Frame `k` is visited when an entry is marked in the bitmap. */
  predicate Covers(e: MemmapEntry, k: int)
  {
    e.base / PAGE_SIZE <= k < e.base / PAGE_SIZE + EntryPages(e)
  }

  // ---------------------------------------------------------------------
  // The bitmap as a sequence of bits (true = free). The Bitmap helper
  // ignores writes outside its buffer and reads them as used.
  // ---------------------------------------------------------------------

  predicate IsFree(bits: seq<bool>, i: int)
  {
    0 <= i < |bits| && bits[i]
  }

  function SetBit(bits: seq<bool>, i: int, v: bool): seq<bool>
  {
    if 0 <= i < |bits| then bits[i := v] else bits
  }

  /** Number of free frames in a bitmap. */
  function FreeCount(bits: seq<bool>): nat
  {
    if bits == [] then 0 else FreeCount(bits[..|bits| - 1]) + (if bits[|bits| - 1] then 1 else 0)
  }

  /** Changing one bit changes the free count by at most one, in the direction of the change. */
  lemma {:induction false} FreeCountUpdate(bits: seq<bool>, i: nat, v: bool)
    requires i < |bits|
    ensures FreeCount(bits[i := v]) == FreeCount(bits) - (if bits[i] then 1 else 0) + (if v then 1 else 0)
  {
    var n := |bits| - 1;
    if i == n {
      assert bits[i := v][..n] == bits[..n];
    } else {
      assert bits[i := v][..n] == bits[..n][i := v];
      FreeCountUpdate(bits[..n], i, v);
    }
  }

  /** The freshly cleared bitmap: every frame used. */
  function AllUsed(n: nat): (r: seq<bool>)
    ensures |r| == n && forall k :: 0 <= k < n ==> !r[k]
  {
    seq(n, _ => false)
  }

  /** Bitmap after the page loop of one memory-map entry. */
  function MarkEntry(bits: seq<bool>, e: MemmapEntry): (r: seq<bool>)
    ensures |r| == |bits|
  {
    seq(|bits|, k requires 0 <= k < |bits| => if Covers(e, k) then Usable(e) else bits[k])
  }

  /** Bitmap after the page loops of all entries, in memory-map order. */
  function MarkMemmap(bits: seq<bool>, mm: seq<MemmapEntry>): (r: seq<bool>)
    ensures |r| == |bits|
  {
    if mm == [] then bits else MarkEntry(MarkMemmap(bits, mm[..|mm| - 1]), mm[|mm| - 1])
  }

  /** Whether frame `k` ends up free: the type of the last entry covering it decides. */
  function LastCoverUsable(mm: seq<MemmapEntry>, k: int): bool
  {
    if mm == [] then false
    else if Covers(mm[|mm| - 1], k) then Usable(mm[|mm| - 1])
    else LastCoverUsable(mm[..|mm| - 1], k)
  }

  /** Marking a zeroed bitmap frees exactly the frames whose last covering entry is USABLE. */
  lemma {:induction false} MarkMemmapFromUsed(n: nat, mm: seq<MemmapEntry>, k: nat)
    requires k < n
    ensures MarkMemmap(AllUsed(n), mm)[k] == LastCoverUsable(mm, k)
  {
    if mm != [] {
      MarkMemmapFromUsed(n, mm[..|mm| - 1], k);
    }
  }

  /**
   * The same fact without recursion: a frame is free after the memory-map pass
   * exactly when some USABLE entry covers it and no later entry does.
   */
  lemma {:induction false} LastCoverUsableSpec(mm: seq<MemmapEntry>, k: int)
    ensures LastCoverUsable(mm, k) <==>
      exists i :: 0 <= i < |mm| && Covers(mm[i], k) && Usable(mm[i])
        && forall j :: i < j < |mm| ==> !Covers(mm[j], k)
  {
    if mm != [] {
      var n := |mm| - 1;
      var pre := mm[..n];
      LastCoverUsableSpec(pre, k);
      if Covers(mm[n], k) {
        if Usable(mm[n]) {
          assert 0 <= n < |mm| && Covers(mm[n], k) && Usable(mm[n]);
        } else {
          forall i | 0 <= i < |mm| && Covers(mm[i], k) && Usable(mm[i])
            ensures exists j :: i < j < |mm| && Covers(mm[j], k)
          {
            assert i < n;
          }
        }
      } else {
        if LastCoverUsable(pre, k) {
          var i :| 0 <= i < |pre| && Covers(pre[i], k) && Usable(pre[i])
            && forall j :: i < j < |pre| ==> !Covers(pre[j], k);
          assert Covers(mm[i], k) && Usable(mm[i]) && forall j :: i < j < |mm| ==> !Covers(mm[j], k);
        } else {
          forall i | 0 <= i < |mm| && Covers(mm[i], k) && Usable(mm[i])
            ensures exists j :: i < j < |mm| && Covers(mm[j], k)
          {
            assert i < n && Covers(pre[i], k) && Usable(pre[i]);
            var j :| i < j < |pre| && Covers(pre[j], k);
            assert Covers(mm[j], k);
          }
        }
      }
    }
  }

  // ---------------------------------------------------------------------
  // Allocator state and operations
  // ---------------------------------------------------------------------

  /**
   * The allocator's state: the bitmap, the three byte counters and the
   * initialised flag. The counters are `uint64_t` in the kernel; here they are
   * integers whose value modulo 2^64 is the kernel's.
   */
  datatype Frames = Frames(bits: seq<bool>, free: int, used: int, reserved: int, initialized: bool)

  /** `totalMemory()`: the sum of the three counters. */
  function Total(s: Frames): int
  {
    s.free + s.used + s.reserved
  }

  /** The free-byte counter minus the bytes of the free frames: kept by lock and free. */
  function FreeDrift(s: Frames): int
  {
    s.free - PAGE_SIZE * FreeCount(s.bits)
  }

  /** `_lockBlock`: mark the frame holding `addr` used and move a page from free to used. */
  function Lock(s: Frames, addr: nat): (t: Frames)
    ensures |t.bits| == |s.bits| && t.initialized == s.initialized && t.reserved == s.reserved
    ensures Total(t) == Total(s)
    ensures !s.initialized ==> t == s
    ensures !IsFree(s.bits, addr / PAGE_SIZE) ==> t == s
    ensures s.initialized ==> !IsFree(t.bits, addr / PAGE_SIZE)
    ensures forall k :: 0 <= k < |s.bits| && k != addr / PAGE_SIZE ==> t.bits[k] == s.bits[k]
    ensures FreeDrift(t) == FreeDrift(s) && t.used + PAGE_SIZE * FreeCount(t.bits) == s.used + PAGE_SIZE * FreeCount(s.bits)
  {
    var idx := addr / PAGE_SIZE;
    if s.initialized && IsFree(s.bits, idx) then
      FreeCountUpdate(s.bits, idx, false);
      s.(bits := s.bits[idx := false], free := s.free - PAGE_SIZE, used := s.used + PAGE_SIZE)
    else
      s
  }

  /**
   * `_freeBlock`: when the frame's bit reads as used, move a page from used to
   * free and set the bit (the bitmap ignores the write for a frame beyond it).
   */
  function Free(s: Frames, addr: nat): (t: Frames)
    ensures |t.bits| == |s.bits| && t.initialized == s.initialized && t.reserved == s.reserved
    ensures Total(t) == Total(s)
    ensures !s.initialized ==> t == s
    ensures IsFree(s.bits, addr / PAGE_SIZE) ==> t == s
    ensures s.initialized && addr / PAGE_SIZE < |s.bits| ==> IsFree(t.bits, addr / PAGE_SIZE)
    ensures forall k :: 0 <= k < |s.bits| && k != addr / PAGE_SIZE ==> t.bits[k] == s.bits[k]
    ensures addr / PAGE_SIZE < |s.bits| ==> FreeDrift(t) == FreeDrift(s)
    ensures s.initialized && addr / PAGE_SIZE >= |s.bits| ==>
      t.bits == s.bits && t.free == s.free + PAGE_SIZE && t.used == s.used - PAGE_SIZE
  {
    var idx := addr / PAGE_SIZE;
    if s.initialized && !IsFree(s.bits, idx) then
      if idx < |s.bits| then
        FreeCountUpdate(s.bits, idx, true);
        s.(bits := s.bits[idx := true], free := s.free + PAGE_SIZE, used := s.used - PAGE_SIZE)
      else
        s.(free := s.free + PAGE_SIZE, used := s.used - PAGE_SIZE)
    else
      s
  }

  /** Lowest free frame index at or after `i`. */
  function FirstFreeFrom(bits: seq<bool>, i: nat): (r: Option<nat>)
    requires i <= |bits|
    ensures r.Some? ==> i <= r.value < |bits| && bits[r.value] && forall j :: i <= j < r.value ==> !bits[j]
    ensures r.None? ==> forall j :: i <= j < |bits| ==> !bits[j]
    decreases |bits| - i
  {
    if i == |bits| then None
    else if bits[i] then Some(i)
    else FirstFreeFrom(bits, i + 1)
  }

  /** The frame `allocatePage` hands out, if any (None when uninitialised or full). */
  function Found(s: Frames): Option<nat>
  {
    if s.initialized then FirstFreeFrom(s.bits, 0) else None
  }

  /** `_nextBlock`: the address of the lowest free frame, or 0. */
  function NextBlock(s: Frames): (addr: nat)
    ensures addr % PAGE_SIZE == 0
    ensures Found(s).Some? ==> addr == PAGE_SIZE * Found(s).value
    ensures Found(s).None? ==> addr == 0
  {
    match Found(s)
    case Some(i) => i * PAGE_SIZE
    case None => 0
  }

  /**
   * `allocatePage`: hand out the lowest free frame and mark it used. The
   * result is 0 when no frame is free or the allocator is uninitialised, and
   * then the state is unchanged.
   */
  function Allocate(s: Frames): (r: (nat, Frames))
    ensures Found(s).Some? ==>
      && r.0 == PAGE_SIZE * Found(s).value
      && !IsFree(r.1.bits, Found(s).value)
      && r.1.free == s.free - PAGE_SIZE && r.1.used == s.used + PAGE_SIZE
      && FreeCount(r.1.bits) + 1 == FreeCount(s.bits)
    ensures Found(s).None? ==> r.0 == 0 && r.1 == s
    ensures Total(r.1) == Total(s) && |r.1.bits| == |s.bits|
    ensures r.1.initialized == s.initialized && r.1.reserved == s.reserved
    ensures forall k :: 0 <= k < |s.bits| && (Found(s).None? || k != Found(s).value) ==> r.1.bits[k] == s.bits[k]
  {
    var addr := NextBlock(s);
    if Found(s).Some? then
      FreeCountUpdate(s.bits, Found(s).value, false);
      (addr, Lock(s, addr))
    else
      (addr, Lock(s, addr))
  }

  /** A bitmap without a free bit counts no free frame. */
  lemma {:induction false} NoFreeBits(bits: seq<bool>)
    requires forall j :: 0 <= j < |bits| ==> !bits[j]
    ensures FreeCount(bits) == 0
  {
    if bits != [] {
      NoFreeBits(bits[..|bits| - 1]);
    }
  }

  /** An initialised allocator that counts a free frame hands one out. */
  lemma FoundWhenFree(s: Frames)
    requires s.initialized && FreeCount(s.bits) > 0
    ensures Found(s).Some?
  {
    if Found(s).None? {
      NoFreeBits(s.bits);
    }
  }

  /**
   * Address 0 is both frame 0 and the failure value of `allocatePage`: on an
   * allocator that has a free frame, the address is 0 exactly when frame 0 is
   * free, and it is nonzero whenever frame 0 is used.
   */
  lemma AllocateZeroIffFrameZero(s: Frames)
    requires s.initialized && FreeCount(s.bits) > 0
    ensures Allocate(s).0 == 0 <==> IsFree(s.bits, 0)
    ensures !IsFree(s.bits, 0) ==> Allocate(s).0 > 0
  {
    FoundWhenFree(s);
  }

  /** An allocation never makes a used frame free. */
  lemma AllocateKeepsUsed(s: Frames, k: int)
    requires !IsFree(s.bits, k)
    ensures !IsFree(Allocate(s).1.bits, k)
  {
  }

  // ---------------------------------------------------------------------
  // No frame is handed out twice without a free in between
  // ---------------------------------------------------------------------

  datatype FrameOp = AllocatePageOp | FreePageOp(addr: nat)

  function Step(s: Frames, op: FrameOp): Frames
  {
    match op
    case AllocatePageOp => Allocate(s).1
    case FreePageOp(a) => Free(s, a)
  }

  /** State after a sequence of allocator calls. */
  function Run(s: Frames, ops: seq<FrameOp>): Frames
  {
    if ops == [] then s else Step(Run(s, ops[..|ops| - 1]), ops[|ops| - 1])
  }

  /** A used frame stays used across calls that do not free it. */
  lemma {:induction false} StaysUsed(s: Frames, ops: seq<FrameOp>, i: nat, m: nat, f: nat)
    requires i <= m <= |ops|
    requires !IsFree(Run(s, ops[..i]).bits, f)
    requires forall k :: i <= k < m ==> !(ops[k].FreePageOp? && ops[k].addr / PAGE_SIZE == f)
    ensures !IsFree(Run(s, ops[..m]).bits, f)
    decreases m
  {
    if m > i {
      StaysUsed(s, ops, i, m - 1, f);
      var prev := Run(s, ops[..m - 1]);
      assert ops[..m][..m - 1] == ops[..m - 1];
      assert Run(s, ops[..m]) == Step(prev, ops[m - 1]);
      if ops[m - 1].AllocatePageOp? {
        AllocateKeepsUsed(prev, f);
      }
    }
  }

  /**
   * Two allocations that hand out the same frame have a `freePage` of that
   * frame between them.
   */
  lemma NoDoubleAllocation(s: Frames, ops: seq<FrameOp>, i: nat, j: nat, f: nat)
    requires i < j < |ops|
    requires ops[i] == AllocatePageOp
    requires Found(Run(s, ops[..i])) == Some(f) && Found(Run(s, ops[..j])) == Some(f)
    ensures exists k :: i < k < j && ops[k].FreePageOp? && ops[k].addr / PAGE_SIZE == f
  {
    var before := Run(s, ops[..i]);
    assert ops[..i + 1][..i] == ops[..i];
    assert Run(s, ops[..i + 1]) == Allocate(before).1;
    assert !IsFree(Run(s, ops[..i + 1]).bits, f);
    if forall k :: i < k < j ==> !(ops[k].FreePageOp? && ops[k].addr / PAGE_SIZE == f) {
      StaysUsed(s, ops, i + 1, j, f);
      assert false;
    }
  }

  // ---------------------------------------------------------------------
  // Initialisation
  // ---------------------------------------------------------------------

  /** `PAGING_ALIGN_PAGE_UP`: round up to a multiple of the page size. */
  function AlignPageUp(x: nat): (r: nat)
    ensures r % PAGE_SIZE == 0 && x <= r < x + PAGE_SIZE
  {
    (x + PAGE_SIZE - 1) / PAGE_SIZE * PAGE_SIZE
  }

  /** Bytes of the bitmap for a memory size (the division truncates). */
  function BitmapBytes(memorySize: nat): nat
  {
    (memorySize / PAGE_SIZE + 1) / BYTE_SIZE
  }

  /** Frames locked for the bitmap itself after it has been relocated. */
  function BitmapLockCount(bitmapBytes: nat): nat
  {
    AlignPageUp(bitmapBytes) / PAGE_SIZE + 1
  }

  /** Lock `count` consecutive frames starting at frame `first`. */
  function LockFrames(s: Frames, first: nat, count: nat): (t: Frames)
    ensures |t.bits| == |s.bits| && t.initialized == s.initialized && t.reserved == s.reserved
    ensures Total(t) == Total(s)
    ensures FreeDrift(t) == FreeDrift(s) && t.used + PAGE_SIZE * FreeCount(t.bits) == s.used + PAGE_SIZE * FreeCount(s.bits)
  {
    if count == 0 then s else Lock(LockFrames(s, first, count - 1), first * PAGE_SIZE + (count - 1) * PAGE_SIZE)
  }

  /** After locking, a frame is free exactly when it was free and lies outside the locked window. */
  lemma {:induction false} LockFramesBits(s: Frames, first: nat, count: nat, k: nat)
    requires s.initialized && k < |s.bits|
    ensures LockFrames(s, first, count).bits[k] == (s.bits[k] && !(first <= k < first + count))
  {
    if count > 0 {
      LockFramesBits(s, first, count - 1, k);
    }
  }

  // ---------------------------------------------------------------------
  // The kernel's 64-bit counters
  // ---------------------------------------------------------------------

  /** The kernel's `uint64_t` counters `_freeMemory`, `_usedMemory` and `_reservedMemory`. */
  datatype Counters = Counters(free: nat, used: nat, reserved: nat)

  /** The kernel's counters are the model's exact counters modulo 2^64. */
  predicate Agrees(c: Counters, s: Frames)
  {
    c.free == Wrap(s.free) && c.used == Wrap(s.used) && c.reserved == Wrap(s.reserved)
  }

  /** The counter updates of `_lockBlock` in `uint64_t` arithmetic. */
  function LockCounters(c: Counters, s: Frames, addr: nat): Counters
  {
    if s.initialized && IsFree(s.bits, addr / PAGE_SIZE) then
      c.(free := Wrap(c.free - PAGE_SIZE), used := Wrap(c.used + PAGE_SIZE))
    else c
  }

  /** The counter updates of `_freeBlock` in `uint64_t` arithmetic. */
  function FreeCounters(c: Counters, s: Frames, addr: nat): Counters
  {
    if s.initialized && !IsFree(s.bits, addr / PAGE_SIZE) then
      c.(free := Wrap(c.free + PAGE_SIZE), used := Wrap(c.used - PAGE_SIZE))
    else c
  }

  /** Locking moves the kernel's wrapping counters as it moves the model's. */
  lemma LockAgrees(c: Counters, s: Frames, addr: nat)
    requires Agrees(c, s)
    ensures Agrees(LockCounters(c, s, addr), Lock(s, addr))
  {
    WrapAdd(s.free, -(PAGE_SIZE as int));
    WrapAdd(s.used, PAGE_SIZE);
  }

  /**
   * Freeing moves the kernel's wrapping counters as it moves the model's,
   * also where `_usedMemory` goes below zero and wraps.
   */
  lemma FreeAgrees(c: Counters, s: Frames, addr: nat)
    requires Agrees(c, s)
    ensures Agrees(FreeCounters(c, s, addr), Free(s, addr))
  {
    WrapAdd(s.free, PAGE_SIZE);
    WrapAdd(s.used, -(PAGE_SIZE as int));
  }

  /** `allocatePage` locks the frame it hands out, with the same counter moves. */
  lemma AllocateAgrees(c: Counters, s: Frames)
    requires Agrees(c, s)
    ensures Agrees(LockCounters(c, s, NextBlock(s)), Allocate(s).1)
  {
    LockAgrees(c, s, NextBlock(s));
  }

  /** The kernel's counters after locking `count` frames from frame `first`. */
  function LockFramesCounters(c: Counters, s: Frames, first: nat, count: nat): Counters
  {
    if count == 0 then c
    else LockCounters(LockFramesCounters(c, s, first, count - 1), LockFrames(s, first, count - 1),
      first * PAGE_SIZE + (count - 1) * PAGE_SIZE)
  }

  /** Locking the bitmap's frames keeps the kernel's counters in step with the model's. */
  lemma {:induction false} LockFramesAgrees(c: Counters, s: Frames, first: nat, count: nat)
    requires Agrees(c, s)
    ensures Agrees(LockFramesCounters(c, s, first, count), LockFrames(s, first, count))
  {
    if count > 0 {
      LockFramesAgrees(c, s, first, count - 1);
      LockAgrees(LockFramesCounters(c, s, first, count - 1), LockFrames(s, first, count - 1),
        first * PAGE_SIZE + (count - 1) * PAGE_SIZE);
    }
  }

  /** Frames `p` up to `p + need - 1` are all free (a bit beyond the bitmap reads as used). */
  predicate FitsAt(bits: seq<bool>, p: nat, need: nat)
  {
    forall k :: p <= k < p + need ==> IsFree(bits, k)
  }

  /**
   * The scan of `initialize` for a home for the bitmap: the first index from
   * `p` on, below `limit`, whose bit is free and that starts `need` free frames.
   */
  function ScanPlace(bits: seq<bool>, limit: nat, need: nat, p: nat): (r: Option<nat>)
    ensures r.Some? ==> p <= r.value < limit && FitsAt(bits, r.value, need)
    ensures r.Some? ==> forall q :: p <= q < r.value && IsFree(bits, q) ==> !FitsAt(bits, q, need)
    ensures r.None? ==> forall q :: p <= q < limit && IsFree(bits, q) ==> !FitsAt(bits, q, need)
    decreases if p < limit then limit - p else 0
  {
    if p >= limit then None
    else if IsFree(bits, p) && FitsAt(bits, p, need) then Some(p)
    else ScanPlace(bits, limit, need, p + 1)
  }

  /** Frames the scan asks for: `bitmapSize / PAGE_SIZE + 1`. */
  function PlaceNeed(bitmapBytes: nat): nat
  {
    bitmapBytes / PAGE_SIZE + 1
  }

  /**
   * The scan as written: its index runs over frames, but its bound is the
   * bitmap's size in bytes, so only the first eighth of the frames is tried.
   */
  function BitmapPlace(bits: seq<bool>, bitmapBytes: nat): Option<nat>
  {
    ScanPlace(bits, bitmapBytes, PlaceNeed(bitmapBytes), 0)
  }

  /**
   * With the first frame used and the second free, a one-byte bitmap (eight
   * frames) fits at frame 1, but the scan stops at index 1 and finds nothing.
   */
  lemma BitmapPlaceMissesRoom()
    ensures var bits := [false, true, false, false, false, false, false, false];
      && FitsAt(bits, 1, PlaceNeed(1))
      && BitmapPlace(bits, 1) == None
  {
    var bits := [false, true, false, false, false, false, false, false];
    assert PlaceNeed(1) == 1;
    assert IsFree(bits, 1);
    assert !IsFree(bits, 0);
  }

  /** The corrected scan: every frame of the bitmap is a candidate. */
  function BitmapPlaceAll(bits: seq<bool>, bitmapBytes: nat): Option<nat>
  {
    ScanPlace(bits, |bits|, PlaceNeed(bitmapBytes), 0)
  }

  /** The corrected scan finds room whenever the bitmap has room anywhere, and the first such room. */
  lemma BitmapPlaceAllFinds(bits: seq<bool>, bitmapBytes: nat, q: nat)
    requires FitsAt(bits, q, PlaceNeed(bitmapBytes))
    ensures BitmapPlaceAll(bits, bitmapBytes).Some? && BitmapPlaceAll(bits, bitmapBytes).value <= q
  {
    assert IsFree(bits, q);
  }

  /** The bitmap after the memory-map pass, and the counters, before the bitmap is moved. */
  function Marked(mm: seq<MemmapEntry>): Frames
  {
    var bytes := BitmapBytes(Wrap(SumLengths(mm)));
    Frames(MarkMemmap(AllUsed(bytes * BYTE_SIZE), mm), UsableBytes(mm), 0, ReservedBytes(mm), true)
  }

  /**
   * The frame `initialize` moves the bitmap to: the scan's result, or, when
   * the scan finds no room, whatever the uninitialised local holds (`stale`).
   */
  function BitmapPage(mm: seq<MemmapEntry>, stale: nat): nat
  {
    match BitmapPlace(Marked(mm).bits, BitmapBytes(Wrap(SumLengths(mm))))
    case Some(p) => p
    case None => stale
  }

  /** The state `initialize` leaves behind on its first call. */
  function Initialized(mm: seq<MemmapEntry>, stale: nat): Frames
  {
    LockFrames(Marked(mm), BitmapPage(mm, stale), BitmapLockCount(BitmapBytes(Wrap(SumLengths(mm)))))
  }

  /** Size of the bitmap `initialize` builds; every frame address in it fits in 64 bits. */
  lemma InitializedSize(mm: seq<MemmapEntry>, stale: nat)
    requires WellFormedMemmap(mm)
    ensures |Initialized(mm, stale).bits| == BitmapBytes(SumLengths(mm)) * BYTE_SIZE <= MAX_FRAMES
  {
    BitmapFits(SumLengths(mm));
  }

  lemma BitmapFits(m: nat)
    requires m < TWO_64
    ensures Wrap(m) == m && BitmapBytes(m) * BYTE_SIZE <= MAX_FRAMES
  {
    var q := m / PAGE_SIZE;
    assert q < MAX_FRAMES;
    assert (q + 1) / BYTE_SIZE * BYTE_SIZE <= q + 1;
  }

  /**
   * After the first `initialize`, a frame is free exactly when its last
   * covering entry is USABLE and the relocated bitmap does not occupy it.
   */
  lemma InitializedBits(mm: seq<MemmapEntry>, stale: nat, k: nat)
    requires k < |Initialized(mm, stale).bits|
    ensures Initialized(mm, stale).bits[k]
      == (LastCoverUsable(mm, k)
          && !(BitmapPage(mm, stale) <= k < BitmapPage(mm, stale) + BitmapLockCount(BitmapBytes(Wrap(SumLengths(mm))))))
  {
    var bytes := BitmapBytes(Wrap(SumLengths(mm)));
    LockFramesBits(Marked(mm), BitmapPage(mm, stale), BitmapLockCount(bytes), k);
    MarkMemmapFromUsed(bytes * BYTE_SIZE, mm, k);
  }

  /**
   * When the scan finds room, the bitmap moves onto frames that the memory
   * map made free, and `initialize` leaves every one of them used.
   */
  lemma InitializedPlacesBitmap(mm: seq<MemmapEntry>, stale: nat, i: nat)
    requires BitmapPlace(Marked(mm).bits, BitmapBytes(Wrap(SumLengths(mm)))).Some?
    requires i < PlaceNeed(BitmapBytes(Wrap(SumLengths(mm))))
    ensures BitmapPage(mm, stale) + i < |Initialized(mm, stale).bits|
    ensures LastCoverUsable(mm, BitmapPage(mm, stale) + i)
    ensures !Initialized(mm, stale).bits[BitmapPage(mm, stale) + i]
  {
    var bytes := BitmapBytes(Wrap(SumLengths(mm)));
    var p := BitmapPage(mm, stale);
    var k := p + i;
    assert p <= k < p + PlaceNeed(bytes);
    assert IsFree(Marked(mm).bits, k);
    MarkMemmapFromUsed(bytes * BYTE_SIZE, mm, k);
    assert PlaceNeed(bytes) <= BitmapLockCount(bytes);
    InitializedBits(mm, stale, k);
  }

  /**
   * After the first `initialize` the counters split the memory map's bytes
   * into free, used and reserved, and the used bytes are exactly the free
   * frames the relocated bitmap took.
   */
  lemma InitializedCounters(mm: seq<MemmapEntry>, stale: nat)
    ensures var s := Initialized(mm, stale);
      && s.initialized
      && s.reserved == ReservedBytes(mm)
      && s.free + s.used == UsableBytes(mm)
      && Total(s) == SumLengths(mm)
      && s.used == PAGE_SIZE * (FreeCount(MarkMemmap(AllUsed(|s.bits|), mm)) - FreeCount(s.bits))
  {
    UsablePlusReserved(mm);
  }

  // ---------------------------------------------------------------------
  // The allocator object
  // ---------------------------------------------------------------------

  /** `countMemory`: the sum of the entry lengths, in `uint64_t` arithmetic. */
  method CountMemory(mm: seq<MemmapEntry>) returns (memorySize: nat)
    ensures memorySize == Wrap(SumLengths(mm))
  {
    memorySize := 0;
    var i := 0;
    while i < |mm|
      invariant 0 <= i <= |mm|
      invariant memorySize == Wrap(SumLengths(mm[..i]))
    {
      assert mm[..i + 1][..i] == mm[..i];
      memorySize := Wrap(memorySize + mm[i].length);
      i := i + 1;
    }
    assert mm[..i] == mm;
  }

  class BitmapAllocator {
    var bitmap: array<bool>
    var freeMemory: int
    var usedMemory: int
    var reservedMemory: int
    var isInitialized: bool

    /** The state as a value. */
    ghost function State(): Frames
      reads this, bitmap
    {
      Frames(bitmap[..], freeMemory, usedMemory, reservedMemory, isInitialized)
    }

    /**
     * Before `initialize` the counters are zero and there is no bitmap; frame
     * addresses always fit in 64 bits.
     */
    ghost predicate Valid()
      reads this
    {
      && bitmap.Length <= MAX_FRAMES
      && (!isInitialized ==> freeMemory == 0 && usedMemory == 0 && reservedMemory == 0 && bitmap.Length == 0)
    }

    constructor ()
      ensures Valid() && fresh(bitmap)
      ensures State() == Frames([], 0, 0, 0, false)
    {
      bitmap := new bool[0];
      freeMemory, usedMemory, reservedMemory := 0, 0, 0;
      isInitialized := false;
    }

    /** `totalMemory()` */
    function TotalMemory(): int
      reads this
    {
      freeMemory + usedMemory + reservedMemory
    }

    /** `_lockBlock` */
    method LockBlock(blockAddr: nat)
      requires Valid()
      modifies this, bitmap
      ensures Valid() && bitmap == old(bitmap)
      ensures State() == Lock(old(State()), blockAddr)
    {
      if !isInitialized {
        return;
      }
      var idx := blockAddr / PAGE_SIZE;
      if idx < bitmap.Length && bitmap[idx] {
        freeMemory := freeMemory - PAGE_SIZE;
        usedMemory := usedMemory + PAGE_SIZE;
        bitmap[idx] := false;
      }
    }

    /** `_freeBlock` */
    method FreeBlock(blockAddr: nat)
      requires Valid()
      modifies this, bitmap
      ensures Valid() && bitmap == old(bitmap)
      ensures State() == Free(old(State()), blockAddr)
    {
      if !isInitialized {
        return;
      }
      var idx := blockAddr / PAGE_SIZE;
      if !(idx < bitmap.Length && bitmap[idx]) {
        freeMemory := freeMemory + PAGE_SIZE;
        usedMemory := usedMemory - PAGE_SIZE;
        if idx < bitmap.Length {
          bitmap[idx] := true;
        }
      }
    }

    /** `freePage` */
    method FreePage(blockAddr: nat)
      requires Valid()
      modifies this, bitmap
      ensures Valid() && bitmap == old(bitmap)
      ensures State() == Free(old(State()), blockAddr)
      ensures TotalMemory() == old(TotalMemory())
    {
      FreeBlock(blockAddr);
    }

    /** `_nextBlock`: scan the bitmap from index 0 for the first free frame. */
    method NextBlockAddr() returns (addr: nat)
      requires Valid()
      ensures addr == NextBlock(State())
      ensures addr < TWO_64
    {
      if !isInitialized {
        return 0;
      }
      var i := 0;
      while i < bitmap.Length
        invariant 0 <= i <= bitmap.Length
        invariant forall j :: 0 <= j < i ==> !bitmap[j]
      {
        if bitmap[i] {
          assert FirstFreeFrom(bitmap[..], 0) == Some(i);
          return i * PAGE_SIZE;
        }
        i := i + 1;
      }
      assert FirstFreeFrom(bitmap[..], 0) == None;
      return 0;
    }

    /** `allocatePage` */
    method AllocatePage() returns (blockAddr: nat)
      requires Valid()
      modifies this, bitmap
      ensures Valid() && bitmap == old(bitmap)
      ensures (blockAddr, State()) == Allocate(old(State()))
      ensures blockAddr < TWO_64 && TotalMemory() == old(TotalMemory())
    {
      blockAddr := NextBlockAddr();
      LockBlock(blockAddr);
    }

    /** The page loop of `initialize` for one memory-map entry. */
    method MarkEntryPages(entry: MemmapEntry)
      modifies bitmap
      ensures bitmap[..] == MarkEntry(old(bitmap[..]), entry)
    {
      var memStatus := entry.kind == STIVALE2_MMAP_USABLE;
      var pageAddr := 0;
      ghost var pages := 0;
      while pageAddr < entry.length
        invariant pageAddr == pages * PAGE_SIZE
        invariant pageAddr < entry.length + PAGE_SIZE
        invariant forall k :: 0 <= k < bitmap.Length ==>
          bitmap[k] == if entry.base / PAGE_SIZE <= k < entry.base / PAGE_SIZE + pages then memStatus else old(bitmap[k])
      {
        var pageBit := (entry.base + pageAddr) / PAGE_SIZE;
        PageBit(entry.base, pages);
        if pageBit < bitmap.Length {
          bitmap[pageBit] := memStatus;
        }
        pageAddr := pageAddr + PAGE_SIZE;
        pages := pages + 1;
      }
      PageLoopCount(entry.length, pages);
    }

    /**
     * The memory-map pass of `initialize`: add each entry's length to the free
     * or the reserved counter and mark its frames free or used.
     */
    method ClassifyFrames(mm: seq<MemmapEntry>)
      modifies this, bitmap
      ensures bitmap == old(bitmap) && isInitialized == old(isInitialized) && usedMemory == old(usedMemory)
      ensures bitmap[..] == MarkMemmap(old(bitmap[..]), mm)
      ensures freeMemory == old(freeMemory) + UsableBytes(mm)
      ensures reservedMemory == old(reservedMemory) + ReservedBytes(mm)
    {
      ghost var zeros := bitmap[..];
      var entryIdx := 0;
      while entryIdx < |mm|
        invariant 0 <= entryIdx <= |mm|
        invariant bitmap == old(bitmap) && isInitialized == old(isInitialized) && usedMemory == old(usedMemory)
        invariant bitmap[..] == MarkMemmap(zeros, mm[..entryIdx])
        invariant freeMemory == old(freeMemory) + UsableBytes(mm[..entryIdx])
        invariant reservedMemory == old(reservedMemory) + ReservedBytes(mm[..entryIdx])
      {
        var entry := mm[entryIdx];
        var memStatus := entry.kind == STIVALE2_MMAP_USABLE;
        assert mm[..entryIdx + 1][..entryIdx] == mm[..entryIdx];

        freeMemory := freeMemory + (if memStatus then entry.length else 0);
        reservedMemory := reservedMemory + (if !memStatus then entry.length else 0);

        MarkEntryPages(entry);
        entryIdx := entryIdx + 1;
      }
      assert mm[..entryIdx] == mm;
    }

    /** The loop at the end of `initialize` that locks the frames the bitmap occupies. */
    method LockBitmapFrames(first: nat, count: nat)
      requires Valid()
      modifies this, bitmap
      ensures Valid() && bitmap == old(bitmap)
      ensures State() == LockFrames(old(State()), first, count)
    {
      ghost var start := State();
      var i := 0;
      while i < count
        invariant 0 <= i <= count
        invariant Valid() && bitmap == old(bitmap)
        invariant State() == LockFrames(start, first, i)
      {
        LockBlock(first * PAGE_SIZE + i * PAGE_SIZE);
        i := i + 1;
      }
    }

    /**
     * The scan of `initialize` for the bitmap's new home: for each index below
     * `bitmapSize` whose bit is free, check the `bitmapSize / PAGE_SIZE + 1`
     * frames from there.
     */
    method FindBitmapPlace(bitmapSize: nat) returns (place: Option<nat>)
      ensures place == BitmapPlace(bitmap[..], bitmapSize)
    {
      ghost var bits := bitmap[..];
      var need := bitmapSize / PAGE_SIZE + 1;
      var pageIndex: nat := 0;
      while pageIndex < bitmapSize
        invariant ScanPlace(bits, bitmapSize, need, pageIndex) == BitmapPlace(bits, bitmapSize)
      {
        if pageIndex < bitmap.Length && bitmap[pageIndex] {
          var found := true;
          var i: nat := 0;
          while i < need
            invariant 0 <= i <= need
            invariant found ==> forall k :: pageIndex <= k < pageIndex + i ==> IsFree(bits, k)
            invariant !found ==> !FitsAt(bits, pageIndex, need)
          {
            if !(pageIndex + i < bitmap.Length && bitmap[pageIndex + i]) {
              assert !IsFree(bits, pageIndex + i);
              found := false;
              break;
            }
            assert IsFree(bits, pageIndex + i);
            i := i + 1;
          }
          if found {
            assert IsFree(bits, pageIndex) && FitsAt(bits, pageIndex, need);
            return Some(pageIndex);
          }
        } else {
          assert !IsFree(bits, pageIndex);
        }
        pageIndex := pageIndex + 1;
      }
      return None;
    }

    /**
     * `initialize`: classify the frames from the boot memory map, find room
     * for the bitmap, then lock the frames of the relocated bitmap. The copy
     * moves the bitmap unchanged. When the scan finds no room the kernel reads
     * an uninitialised local; `stale` stands for the value it holds.
     */
    method Initialize(mm: seq<MemmapEntry>, stale: nat)
      requires Valid() && WellFormedMemmap(mm)
      modifies this
      ensures Valid()
      ensures old(isInitialized) ==> State() == old(State()) && bitmap == old(bitmap)
      ensures !old(isInitialized) ==> fresh(bitmap) && State() == Initialized(mm, stale)
    {
      if isInitialized {
        return;
      }
      isInitialized := true;

      var memorySize := CountMemory(mm);
      var bitmapSize := BitmapBytes(memorySize);
      var frameCount := bitmapSize * BYTE_SIZE;
      BitmapFits(SumLengths(mm));
      bitmap := new bool[frameCount](_ => false);
      assert bitmap[..] == AllUsed(frameCount);

      ClassifyFrames(mm);
      assert State() == Marked(mm);

      var place := FindBitmapPlace(bitmapSize);
      var bitmapPage := if place.Some? then place.value else stale;
      assert bitmapPage == BitmapPage(mm, stale);

      LockBitmapFrames(bitmapPage, BitmapLockCount(bitmapSize));
    }
  }
}
