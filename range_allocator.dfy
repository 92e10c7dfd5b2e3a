/**
 * The virtual address range allocator (`k_virtual_address_range_allocator`).
 *
 * The allocator keeps a list of descriptors, each a run of `pages` pages
 * starting at a page-aligned `base`, in use or not. It hands out runs first-fit,
 * takes them back and merges neighbouring free runs. The kernel links the
 * descriptors as `k_address_range_header` nodes; the model keeps the list,
 * head first, as a sequence that each operation replaces.
 *
 * The functions below state what each operation does to the list, as the code
 * is written; the `...Sorted`, `...Split` and `MergeFull` definitions are the
 * corrected operations, with the properties the list was meant to keep.
 */
module RangeAllocator {
  import opened Basics

  /** One `k_address_range_header`; `requestBy` is never read or written. */
  datatype Range = Range(base: nat, pages: nat, used: bool)

  /** The first address past a range, in the kernel's 64-bit arithmetic. */
  function EndOf(r: Range): nat
  {
    Wrap(r.base + r.pages * PAGE_SIZE)
  }

  /** A range whose end does not pass 2^64. */
  predicate Fits(r: Range)
  {
    r.base + r.pages * PAGE_SIZE < TWO_64
  }

  predicate AllFit(rs: seq<Range>)
  {
    forall i :: 0 <= i < |rs| ==> Fits(rs[i])
  }

  /** Pages held by the free descriptors. */
  function FreePages(rs: seq<Range>): nat
  {
    if rs == [] then 0 else (if rs[0].used then 0 else rs[0].pages) + FreePages(rs[1..])
  }

  /** The descriptors in use, in list order. */
  function UsedRanges(rs: seq<Range>): seq<Range>
  {
    if rs == [] then [] else (if rs[0].used then [rs[0]] else []) + UsedRanges(rs[1..])
  }

  /** Ascending bases, as `addRange` means to keep the list. */
  predicate Sorted(rs: seq<Range>)
  {
    forall i :: 0 <= i < |rs| - 1 ==> rs[i].base <= rs[i + 1].base
  }

  lemma {:induction false} FreePagesConcat(a: seq<Range>, b: seq<Range>)
    ensures FreePages(a + b) == FreePages(a) + FreePages(b)
    ensures UsedRanges(a + b) == UsedRanges(a) + UsedRanges(b)
  {
    if a == [] {
      assert a + b == b;
    } else {
      assert (a + b)[0] == a[0] && (a + b)[1..] == a[1..] + b;
      FreePagesConcat(a[1..], b);
    }
  }

  lemma Single(x: Range)
    ensures FreePages([x]) == (if x.used then 0 else x.pages)
    ensures UsedRanges([x]) == (if x.used then [x] else [])
  {
    assert [x][1..] == [];
  }

  /** All descriptors fit. */
  lemma AllFitConcat(a: seq<Range>, b: seq<Range>)
    requires AllFit(a) && AllFit(b)
    ensures AllFit(a + b)
  {
    forall j | 0 <= j < |a + b|
      ensures Fits((a + b)[j])
    {
      if j >= |a| {
        assert (a + b)[j] == b[j - |a|];
      }
    }
  }

  /**
   * Replacing the descriptors `rs[i..j]` by `xs` swaps their free pages and
   * their used descriptors for those of `xs`.
   */
  lemma Splice(rs: seq<Range>, i: nat, j: nat, xs: seq<Range>)
    requires i <= j <= |rs|
    ensures var r := rs[..i] + xs + rs[j..];
      && FreePages(r) + FreePages(rs[i..j]) == FreePages(rs) + FreePages(xs)
      && UsedRanges(rs) == UsedRanges(rs[..i]) + UsedRanges(rs[i..j]) + UsedRanges(rs[j..])
      && UsedRanges(r) == UsedRanges(rs[..i]) + UsedRanges(xs) + UsedRanges(rs[j..])
      && (AllFit(rs) && AllFit(xs) ==> AllFit(r))
  {
    assert rs == rs[..i] + rs[i..j] + rs[j..];
    FreePagesConcat(rs[..i] + rs[i..j], rs[j..]);
    FreePagesConcat(rs[..i], rs[i..j]);
    FreePagesConcat(rs[..i] + xs, rs[j..]);
    FreePagesConcat(rs[..i], xs);
    if AllFit(rs) && AllFit(xs) {
      assert AllFit(rs[..i]) && AllFit(rs[j..]) by {
        forall k | 0 <= k < |rs[j..]|
          ensures Fits(rs[j..][k])
        {
          assert rs[j..][k] == rs[j + k];
        }
      }
      AllFitConcat(rs[..i], xs);
      AllFitConcat(rs[..i] + xs, rs[j..]);
    }
  }

  /** Replacing one descriptor changes the free pages by the difference. */
  lemma {:induction false} FreePagesUpdate(rs: seq<Range>, i: nat, x: Range)
    requires i < |rs|
    ensures FreePages(rs[i := x]) + (if rs[i].used then 0 else rs[i].pages)
      == FreePages(rs) + (if x.used then 0 else x.pages)
    ensures |UsedRanges(rs[i := x])| + (if rs[i].used then 1 else 0)
      == |UsedRanges(rs)| + (if x.used then 1 else 0)
  {
    if i > 0 {
      assert rs[i := x][1..] == rs[1..][i - 1 := x];
      FreePagesUpdate(rs[1..], i - 1, x);
    } else {
      assert rs[i := x][1..] == rs[1..];
    }
  }

  // ---------------------------------------------------------------------
  // mergeAll
  // ---------------------------------------------------------------------

  /** `mergeAll`'s test: both free, and the second starts where the first ends. */
  predicate Mergeable(a: Range, b: Range)
  {
    !a.used && !b.used && EndOf(a) == b.base
  }

  /** The survivor of a merge: `range->pages += range->next->pages`. */
  function Join(a: Range, b: Range): Range
  {
    Range(a.base, Wrap(a.pages + b.pages), a.used)
  }

  /** Two mergeable ranges that fit join into one that fits, with no page lost. */
  lemma JoinFits(a: Range, b: Range)
    requires Fits(a) && Fits(b) && Mergeable(a, b)
    ensures Join(a, b).pages == a.pages + b.pages && Fits(Join(a, b))
  {
    assert EndOf(a) == a.base + a.pages * PAGE_SIZE;
  }

  /**
   * `mergeAll` as written: after a merge the scan moves to the node after the
   * survivor, so the survivor is not compared again.
   */
  function MergePass(rs: seq<Range>): seq<Range>
    decreases |rs|
  {
    if |rs| < 2 then rs
    else if Mergeable(rs[0], rs[1]) then [Join(rs[0], rs[1])] + MergePass(rs[2..])
    else [rs[0]] + MergePass(rs[1..])
  }

  /** A merge pass keeps every used descriptor, in order, and every free page. */
  lemma {:induction false} MergePassKeeps(rs: seq<Range>)
    requires AllFit(rs)
    ensures UsedRanges(MergePass(rs)) == UsedRanges(rs)
    ensures FreePages(MergePass(rs)) == FreePages(rs)
    ensures AllFit(MergePass(rs)) && |MergePass(rs)| <= |rs|
    decreases |rs|
  {
    if |rs| >= 2 {
      assert rs[1..][1..] == rs[2..];
      var rest := if Mergeable(rs[0], rs[1]) then rs[2..] else rs[1..];
      MergePassKeeps(rest);
      var head := if Mergeable(rs[0], rs[1]) then Join(rs[0], rs[1]) else rs[0];
      if Mergeable(rs[0], rs[1]) {
        JoinFits(rs[0], rs[1]);
      }
      FreePagesConcat([head], MergePass(rest));
      assert ([head] + MergePass(rest))[1..] == MergePass(rest);
    }
  }

  /** Three free, back-to-back ranges: one pass leaves a mergeable pair. */
  lemma MergePassLeavesPair()
    ensures var rs := [Range(0x1000, 1, false), Range(0x2000, 1, false), Range(0x3000, 1, false)];
      var r := MergePass(rs);
      r == [Range(0x1000, 2, false), Range(0x3000, 1, false)] && Mergeable(r[0], r[1])
  {
    var rs := [Range(0x1000, 1, false), Range(0x2000, 1, false), Range(0x3000, 1, false)];
    assert Mergeable(rs[0], rs[1]);
    assert rs[2..] == [Range(0x3000, 1, false)];
  }

  /** No two neighbours are left that `mergeAll` would join. */
  predicate Settled(rs: seq<Range>)
  {
    forall i :: 0 <= i < |rs| - 1 ==> !Mergeable(rs[i], rs[i + 1])
  }

  /** The corrected merge: the survivor is compared with its new successor. */
  function MergeFull(rs: seq<Range>): seq<Range>
    decreases |rs|
  {
    if |rs| < 2 then rs
    else if Mergeable(rs[0], rs[1]) then MergeFull([Join(rs[0], rs[1])] + rs[2..])
    else [rs[0]] + MergeFull(rs[1..])
  }

  /** The first descriptor keeps its base and its flag through a merge. */
  lemma {:induction false} MergeFullHead(rs: seq<Range>)
    requires rs != []
    ensures MergeFull(rs) != [] && MergeFull(rs)[0].base == rs[0].base && MergeFull(rs)[0].used == rs[0].used
    decreases |rs|
  {
    if |rs| >= 2 && Mergeable(rs[0], rs[1]) {
      MergeFullHead([Join(rs[0], rs[1])] + rs[2..]);
    }
  }

  /** The corrected merge leaves no mergeable neighbours and keeps the list sorted. */
  lemma {:induction false} MergeFullSettles(rs: seq<Range>)
    requires AllFit(rs)
    ensures Settled(MergeFull(rs)) && AllFit(MergeFull(rs))
    ensures Sorted(rs) ==> Sorted(MergeFull(rs))
    decreases |rs|
  {
    if |rs| >= 2 {
      if Mergeable(rs[0], rs[1]) {
        var next := [Join(rs[0], rs[1])] + rs[2..];
        JoinFits(rs[0], rs[1]);
        assert AllFit(next) by {
          forall k | 0 <= k < |next|
            ensures Fits(next[k])
          {
            if k > 0 {
              assert next[k] == rs[k + 1];
            }
          }
        }
        if Sorted(rs) {
          assert Sorted(next) by {
            forall k | 0 <= k < |next| - 1
              ensures next[k].base <= next[k + 1].base
            {
              if k > 0 {
                assert next[k] == rs[k + 1] && next[k + 1] == rs[k + 2];
              } else {
                assert next[1] == rs[2] && rs[0].base <= rs[1].base <= rs[2].base;
              }
            }
          }
        }
        MergeFullSettles(next);
      } else {
        var rest := MergeFull(rs[1..]);
        assert AllFit(rs[1..]);
        MergeFullSettles(rs[1..]);
        MergeFullHead(rs[1..]);
        var r := [rs[0]] + rest;
        assert AllFit(r) by {
          forall k | 0 <= k < |r|
            ensures Fits(r[k])
          {
            if k > 0 {
              assert r[k] == rest[k - 1];
            }
          }
        }
        assert Settled(r) by {
          forall k | 0 <= k < |r| - 1
            ensures !Mergeable(r[k], r[k + 1])
          {
            if k > 0 {
              assert r[k] == rest[k - 1] && r[k + 1] == rest[k];
            }
          }
        }
        if Sorted(rs) {
          assert Sorted(rs[1..]);
          assert Sorted(r) by {
            forall k | 0 <= k < |r| - 1
              ensures r[k].base <= r[k + 1].base
            {
              if k > 0 {
                assert r[k] == rest[k - 1] && r[k + 1] == rest[k];
              }
            }
          }
        }
      }
    }
  }

  /** The corrected merge keeps every used descriptor, in order, and every free page. */
  lemma {:induction false} MergeFullCounts(rs: seq<Range>)
    requires AllFit(rs)
    ensures UsedRanges(MergeFull(rs)) == UsedRanges(rs)
    ensures FreePages(MergeFull(rs)) == FreePages(rs)
    decreases |rs|
  {
    if |rs| >= 2 {
      assert rs == [rs[0], rs[1]] + rs[2..];
      FreePagesConcat([rs[0], rs[1]], rs[2..]);
      assert [rs[0], rs[1]] == [rs[0]] + [rs[1]];
      FreePagesConcat([rs[0]], [rs[1]]);
      Single(rs[0]);
      Single(rs[1]);
      if Mergeable(rs[0], rs[1]) {
        var j := Join(rs[0], rs[1]);
        var next := [j] + rs[2..];
        JoinFits(rs[0], rs[1]);
        Single(j);
        FreePagesConcat([j], rs[2..]);
        assert AllFit(next) by {
          forall k | 0 <= k < |next|
            ensures Fits(next[k])
          {
            if k > 0 {
              assert next[k] == rs[k + 1];
            }
          }
        }
        MergeFullCounts(next);
      } else {
        assert AllFit(rs[1..]);
        MergeFullCounts(rs[1..]);
        assert rs == [rs[0]] + rs[1..];
        FreePagesConcat([rs[0]], rs[1..]);
        FreePagesConcat([rs[0]], MergeFull(rs[1..]));
      }
    }
  }

  // ---------------------------------------------------------------------
  // addRange
  // ---------------------------------------------------------------------

  /** The descriptor `addRange(start, end)` creates. */
  function NewRange(start: nat, end: nat): Range
  {
    Range(start, Wrap(end - start) / PAGE_SIZE, false)
  }

  /** The last descriptor, in list order, whose base is above `b`. */
  function LastAbove(rs: seq<Range>, b: nat): (r: Option<nat>)
    ensures r.Some? ==> (r.value < |rs| && b < rs[r.value].base
      && forall j :: r.value < j < |rs| ==> rs[j].base <= b)
    ensures r.None? ==> forall j :: 0 <= j < |rs| ==> rs[j].base <= b
  {
    if rs == [] then None
    else if b < rs[|rs| - 1].base then Some(|rs| - 1)
    else LastAbove(rs[..|rs| - 1], b)
  }

  /**
   * Where `addRange` puts the new descriptor: right after the last one whose
   * base is above it or, when there is none, as the head in place of the old
   * head, which leaves the list.
   */
  function Placed(rs: seq<Range>, d: Range): seq<Range>
  {
    if rs == [] then [d]
    else match LastAbove(rs, d.base)
      case Some(i) => rs[..i + 1] + [d] + rs[i + 1..]
      case None => [d] + rs[1..]
  }

  /** `addRange` as written. */
  function AddRangeSpec(rs: seq<Range>, start: nat, end: nat): seq<Range>
  {
    if rs == [] then [NewRange(start, end)] else MergePass(Placed(rs, NewRange(start, end)))
  }

  /** When some base is above the new one, nothing is lost and the new pages are added. */
  lemma AddRangeKeeps(rs: seq<Range>, start: nat, end: nat)
    requires AllFit(rs) && Fits(NewRange(start, end))
    requires rs == [] || LastAbove(rs, start).Some?
    ensures var r := AddRangeSpec(rs, start, end);
      && FreePages(r) == FreePages(rs) + NewRange(start, end).pages
      && UsedRanges(r) == UsedRanges(rs)
  {
    var d := NewRange(start, end);
    Single(d);
    assert AllFit([d]);
    if rs != [] {
      var i := LastAbove(rs, start).value;
      var p := rs[..i + 1] + [d] + rs[i + 1..];
      assert Placed(rs, d) == p;
      Splice(rs, i + 1, i + 1, [d]);
      assert rs[i + 1..i + 1] == [];
      assert FreePages(p) == FreePages(rs) + d.pages;
      assert UsedRanges(p) == UsedRanges(rs);
      MergePassKeeps(p);
      assert AddRangeSpec(rs, start, end) == MergePass(p);
    }
  }

  /**
   * When no base is above the new one, the old head leaves the list: its
   * pages and, if it was in use, its descriptor are gone.
   */
  lemma AddRangeDropsHead(rs: seq<Range>, start: nat, end: nat)
    requires rs != [] && LastAbove(rs, start).None?
    requires AllFit(rs) && Fits(NewRange(start, end))
    ensures var r := AddRangeSpec(rs, start, end);
      && FreePages(r) + FreePages([rs[0]]) == FreePages(rs) + NewRange(start, end).pages
      && UsedRanges(r) == UsedRanges(rs[1..])
  {
    var d := NewRange(start, end);
    Single(d);
    assert AllFit([d]);
    var t := [d] + rs[1..];
    Splice(rs, 0, 1, [d]);
    assert rs[..0] == [] && rs[0..1] == [rs[0]] && rs[..0] + [d] + rs[1..] == t;
    assert UsedRanges([]) == [];
    assert FreePages(t) + FreePages([rs[0]]) == FreePages(rs) + d.pages;
    assert UsedRanges(t) == UsedRanges(rs[1..]);
    MergePassKeeps(t);
    assert Placed(rs, d) == t;
    assert AddRangeSpec(rs, start, end) == MergePass(t);
  }

  /** A used range at 0x1000 is lost when a range at 0x3000 is added. */
  lemma AddRangeLosesUsedRange()
    ensures AddRangeSpec([Range(0x1000, 1, true)], 0x3000, 0x4000) == [Range(0x3000, 1, false)]
  {
    var rs := [Range(0x1000, 1, true)];
    assert LastAbove(rs, 0x3000) == None;
    assert NewRange(0x3000, 0x4000) == Range(0x3000, 1, false);
  }

  /** A range added between two others goes to the end: the list is no longer sorted. */
  lemma AddRangeUnsorted()
    ensures var r := AddRangeSpec([Range(0x1000, 1, false), Range(0x5000, 1, false)], 0x3000, 0x4000);
      r == [Range(0x1000, 1, false), Range(0x5000, 1, false), Range(0x3000, 1, false)] && !Sorted(r)
  {
    var rs := [Range(0x1000, 1, false), Range(0x5000, 1, false)];
    var d := NewRange(0x3000, 0x4000);
    assert d == Range(0x3000, 1, false);
    assert LastAbove(rs, 0x3000) == Some(1);
    var p := rs + [d];
    assert Placed(rs, d) == p;
    assert !Mergeable(p[0], p[1]) && !Mergeable(p[1], p[2]);
    assert p[1..][1..] == [d];
    assert MergePass(p[1..]) == [p[1]] + MergePass([d]);
    assert MergePass(p) == [p[0]] + MergePass(p[1..]);
    var r := MergePass(p);
    assert r == p;
    assert r[1].base > r[2].base;
  }

  /** Insertion before the first descriptor with a greater base. */
  function InsertSorted(rs: seq<Range>, d: Range): seq<Range>
  {
    if rs == [] then [d]
    else if d.base < rs[0].base then [d] + rs
    else [rs[0]] + InsertSorted(rs[1..], d)
  }

  lemma {:induction false} InsertSortedShape(rs: seq<Range>, d: Range)
    ensures var r := InsertSorted(rs, d);
      && r != [] && (r[0] == d || (rs != [] && r[0] == rs[0]))
      && (Sorted(rs) ==> Sorted(r))
      && (AllFit(rs) && Fits(d) ==> AllFit(r))
  {
    if rs != [] && d.base >= rs[0].base {
      InsertSortedShape(rs[1..], d);
      var t := InsertSorted(rs[1..], d);
      if Sorted(rs) {
        assert Sorted(rs[1..]);
      }
      if AllFit(rs) && Fits(d) {
        assert AllFit(rs[1..]);
        AllFitConcat([rs[0]], t);
      }
    } else if rs != [] && AllFit(rs) && Fits(d) {
      AllFitConcat([d], rs);
    }
  }

  lemma {:induction false} InsertSortedCounts(rs: seq<Range>, d: Range)
    requires !d.used
    ensures var r := InsertSorted(rs, d);
      && FreePages(r) == FreePages(rs) + d.pages
      && UsedRanges(r) == UsedRanges(rs)
  {
    if rs != [] {
      assert rs == [rs[0]] + rs[1..];
      FreePagesConcat([rs[0]], rs[1..]);
      if d.base < rs[0].base {
        FreePagesConcat([d], rs);
        assert FreePages([d]) == d.pages && UsedRanges([d]) == [];
      } else {
        InsertSortedCounts(rs[1..], d);
        FreePagesConcat([rs[0]], InsertSorted(rs[1..], d));
      }
    }
  }

  /** The corrected `addRange`: a sorted insertion followed by a full merge. */
  function AddRangeSorted(rs: seq<Range>, start: nat, end: nat): seq<Range>
  {
    MergeFull(InsertSorted(rs, NewRange(start, end)))
  }

  /**
   * The corrected `addRange` keeps the list sorted and settled, loses no
   * descriptor and adds exactly the new pages.
   */
  lemma AddRangeSortedKeeps(rs: seq<Range>, start: nat, end: nat)
    requires AllFit(rs) && Fits(NewRange(start, end))
    ensures var r := AddRangeSorted(rs, start, end);
      && (Sorted(rs) ==> Sorted(r)) && Settled(r) && AllFit(r)
      && FreePages(r) == FreePages(rs) + NewRange(start, end).pages
      && UsedRanges(r) == UsedRanges(rs)
  {
    var d := NewRange(start, end);
    InsertSortedShape(rs, d);
    InsertSortedCounts(rs, d);
    MergeFullSettles(InsertSorted(rs, d));
    MergeFullCounts(InsertSorted(rs, d));
  }

  // ---------------------------------------------------------------------
  // allocateRange
  // ---------------------------------------------------------------------

  predicate Fit(r: Range, pages: nat)
  {
    !r.used && r.pages >= pages
  }

  /** First-fit from index `i`: the first free descriptor with enough pages. */
  function FirstFitFrom(rs: seq<Range>, pages: nat, i: nat): (r: Option<nat>)
    requires i <= |rs|
    ensures r.Some? ==> (i <= r.value < |rs| && Fit(rs[r.value], pages)
      && forall j :: i <= j < r.value ==> !Fit(rs[j], pages))
    ensures r.None? ==> forall j :: i <= j < |rs| ==> !Fit(rs[j], pages)
    decreases |rs| - i
  {
    if i == |rs| then None
    else if Fit(rs[i], pages) then Some(i)
    else FirstFitFrom(rs, pages, i + 1)
  }

  /**
   * `allocateRange` as written: the chosen descriptor is marked used and cut
   * to the request; the split that would keep the rest never runs.
   */
  function AllocateSpec(rs: seq<Range>, pages: nat): (seq<Range>, nat)
  {
    match FirstFitFrom(rs, pages, 0)
    case None => (rs, 0)
    case Some(i) => (rs[i := Range(rs[i].base, pages, true)], rs[i].base)
  }

  /**
   * First-fit: the base of the first free descriptor with enough pages comes
   * back and that descriptor now holds exactly the request, in use; with
   * none, 0 and no change. The list keeps its length, and the free pages
   * drop by the whole descriptor, not by the request.
   */
  lemma AllocateFirstFit(rs: seq<Range>, pages: nat)
    ensures var (r, base) := AllocateSpec(rs, pages);
      && |r| == |rs|
      && (FirstFitFrom(rs, pages, 0).None? ==> base == 0 && r == rs)
      && (FirstFitFrom(rs, pages, 0).Some? ==>
            var i := FirstFitFrom(rs, pages, 0).value;
            && base == rs[i].base && r[i] == Range(base, pages, true)
            && (forall j :: 0 <= j < i ==> !Fit(rs[j], pages))
            && (forall j :: 0 <= j < |rs| && j != i ==> r[j] == rs[j])
            && FreePages(r) + rs[i].pages == FreePages(rs)
            && |UsedRanges(r)| == |UsedRanges(rs)| + 1)
  {
    if FirstFitFrom(rs, pages, 0).Some? {
      var i := FirstFitFrom(rs, pages, 0).value;
      FreePagesUpdate(rs, i, Range(rs[i].base, pages, true));
    }
  }

  /** Asking one page of a four-page range loses the other three. */
  lemma AllocateDropsSurplus()
    ensures var (r, base) := AllocateSpec([Range(0x1000, 4, false)], 1);
      base == 0x1000 && r == [Range(0x1000, 1, true)] && FreePages(r) == 0
  {
    var rs := [Range(0x1000, 4, false)];
    assert FirstFitFrom(rs, 1, 0) == Some(0);
    var r := [Range(0x1000, 1, true)];
    assert r[1..] == [];
  }

  /**
   * What the corrected `allocateRange` puts in place of the chosen
   * descriptor: the request, in use, then the surplus, if any, still free.
   */
  function SplitPieces(x: Range, pages: nat): seq<Range>
  {
    [Range(x.base, pages, true)]
      + (if x.pages > pages then [Range(Wrap(x.base + pages * PAGE_SIZE), x.pages - pages, false)] else [])
  }

  lemma SplitPiecesAccount(x: Range, pages: nat)
    requires Fits(x) && x.pages >= pages
    ensures var xs := SplitPieces(x, pages);
      && xs[0] == Range(x.base, pages, true) && AllFit(xs)
      && FreePages(xs) + pages == x.pages && |UsedRanges(xs)| == 1
  {
    var a := Range(x.base, pages, true);
    var rest := if x.pages > pages then [Range(Wrap(x.base + pages * PAGE_SIZE), x.pages - pages, false)] else [];
    Single(a);
    FreePagesConcat([a], rest);
    if x.pages > pages {
      assert x.base + pages * PAGE_SIZE < TWO_64;
      Single(rest[0]);
      assert rest == [rest[0]];
    }
    AllFitConcat([a], rest);
  }

  /** The corrected `allocateRange`: the surplus stays behind as a free descriptor. */
  function AllocateSplit(rs: seq<Range>, pages: nat): (seq<Range>, nat)
  {
    match FirstFitFrom(rs, pages, 0)
    case None => (rs, 0)
    case Some(i) => (rs[..i] + SplitPieces(rs[i], pages) + rs[i + 1..], rs[i].base)
  }

  /**
   * With the split, the free pages drop by exactly the request, no page is
   * lost, and the handed-out range lies inside the descriptor it came from.
   */
  lemma AllocateSplitAccounts(rs: seq<Range>, pages: nat)
    requires AllFit(rs)
    ensures AllFit(AllocateSplit(rs, pages).0)
    ensures FirstFitFrom(rs, pages, 0).None? ==> AllocateSplit(rs, pages) == (rs, 0)
    ensures FirstFitFrom(rs, pages, 0).Some? ==>
      var i := FirstFitFrom(rs, pages, 0).value;
      var (r, base) := AllocateSplit(rs, pages);
      && base == rs[i].base && r[i] == Range(base, pages, true)
      && base + pages * PAGE_SIZE <= rs[i].base + rs[i].pages * PAGE_SIZE
      && FreePages(r) + pages == FreePages(rs)
      && |UsedRanges(r)| == |UsedRanges(rs)| + 1
  {
    if FirstFitFrom(rs, pages, 0).Some? {
      var i := FirstFitFrom(rs, pages, 0).value;
      var xs := SplitPieces(rs[i], pages);
      SplitPiecesAccount(rs[i], pages);
      assert rs[i..i + 1] == [rs[i]];
      Single(rs[i]);
      Splice(rs, i, i + 1, xs);
      var r := rs[..i] + xs + rs[i + 1..];
      assert r[i] == xs[0];
      assert AllocateSplit(rs, pages) == (r, rs[i].base);
    }
  }

  // ---------------------------------------------------------------------
  // freeRange
  // ---------------------------------------------------------------------

  /** The first descriptor from index `i` whose base is `base`. */
  function FindBaseFrom(rs: seq<Range>, base: nat, i: nat): (r: Option<nat>)
    requires i <= |rs|
    ensures r.Some? ==> (i <= r.value < |rs| && rs[r.value].base == base
      && forall j :: i <= j < r.value ==> rs[j].base != base)
    ensures r.None? ==> forall j :: i <= j < |rs| ==> rs[j].base != base
    decreases |rs| - i
  {
    if i == |rs| then None
    else if rs[i].base == base then Some(i)
    else FindBaseFrom(rs, base, i + 1)
  }

  /**
   * `freeRange` as written: an unknown base or a free descriptor changes
   * nothing; otherwise the descriptor is freed and one merge pass runs.
   */
  function FreeSpec(rs: seq<Range>, base: nat): seq<Range>
  {
    match FindBaseFrom(rs, base, 0)
    case None => rs
    case Some(i) => if !rs[i].used then rs else MergePass(rs[i := rs[i].(used := false)])
  }

  /**
   * Freeing a used descriptor gives its pages back and takes exactly that
   * descriptor out of the used ones, the others kept in order; anything else
   * leaves the list alone.
   */
  lemma FreeGivesBack(rs: seq<Range>, base: nat)
    requires AllFit(rs)
    ensures var r := FreeSpec(rs, base);
      match FindBaseFrom(rs, base, 0)
      case None => r == rs
      case Some(i) =>
        && (!rs[i].used ==> r == rs)
        && (rs[i].used ==>
              && FreePages(r) == FreePages(rs) + rs[i].pages
              && UsedRanges(rs) == UsedRanges(rs[..i]) + [rs[i]] + UsedRanges(rs[i + 1..])
              && UsedRanges(r) == UsedRanges(rs[..i]) + UsedRanges(rs[i + 1..]))
  {
    match FindBaseFrom(rs, base, 0)
    case None =>
    case Some(i) =>
      if rs[i].used {
        MarkFree(rs, i);
        MergePassKeeps(rs[i := rs[i].(used := false)]);
      }
  }

  /** Marking a used descriptor free frees its pages and drops it from the used ones. */
  lemma MarkFree(rs: seq<Range>, i: nat)
    requires AllFit(rs) && i < |rs| && rs[i].used
    ensures var t := rs[i := rs[i].(used := false)];
      && AllFit(t) && FreePages(t) == FreePages(rs) + rs[i].pages
      && UsedRanges(rs) == UsedRanges(rs[..i]) + [rs[i]] + UsedRanges(rs[i + 1..])
      && UsedRanges(t) == UsedRanges(rs[..i]) + UsedRanges(rs[i + 1..])
  {
    var t := rs[i := rs[i].(used := false)];
    FreePagesUpdate(rs, i, rs[i].(used := false));
    assert t == rs[..i] + [rs[i].(used := false)] + rs[i + 1..];
    assert rs[i..i + 1] == [rs[i]];
    Splice(rs, i, i + 1, [rs[i].(used := false)]);
    Single(rs[i]);
    Single(rs[i].(used := false));
    forall j | 0 <= j < |t|
      ensures Fits(t[j])
    {
      assert t[j].base == rs[j].base && t[j].pages == rs[j].pages;
    }
  }

  // ---------------------------------------------------------------------
  // The allocator object
  // ---------------------------------------------------------------------

  class VirtualRangeAllocator {
    /** The descriptor list, head first. */
    var ranges: seq<Range>

    constructor ()
      ensures ranges == []
    {
      ranges := [];
    }

    /** `addRange` */
    method AddRange(start: nat, end: nat)
      modifies this
      ensures ranges == AddRangeSpec(old(ranges), start, end)
    {
      var d := NewRange(start, end);
      if ranges == [] {
        ranges := [d];
        return;
      }
      var found: Option<nat> := None;
      var i := 0;
      while i < |ranges|
        invariant 0 <= i <= |ranges|
        invariant found == LastAbove(ranges[..i], d.base)
      {
        assert ranges[..i + 1][..i] == ranges[..i];
        if d.base < ranges[i].base {
          found := Some(i);
        }
        i := i + 1;
      }
      assert ranges[..i] == ranges;
      if found.Some? {
        ranges := ranges[..found.value + 1] + [d] + ranges[found.value + 1..];
      } else {
        ranges := [d] + ranges[1..];
      }
      MergeAll();
    }

    /** `allocateRange`: first-fit; returns the base, or 0 when nothing fits. */
    method AllocateRange(pages: nat) returns (base: nat)
      modifies this
      ensures (ranges, base) == AllocateSpec(old(ranges), pages)
    {
      var i := 0;
      while i < |ranges| && !(!ranges[i].used && ranges[i].pages >= pages)
        invariant 0 <= i <= |ranges|
        invariant ranges == old(ranges)
        invariant FirstFitFrom(ranges, pages, i) == FirstFitFrom(ranges, pages, 0)
      {
        i := i + 1;
      }
      if i == |ranges| {
        assert FirstFitFrom(ranges, pages, 0).None?;
        return 0;
      }
      assert FirstFitFrom(ranges, pages, 0) == Some(i);
      ranges := ranges[i := ranges[i].(used := true)];
      ranges := ranges[i := ranges[i].(pages := pages)];
      // The split of the surplus tests `pages > pages` here and never runs.
      base := ranges[i].base;
      assert ranges == old(ranges)[i := Range(old(ranges)[i].base, pages, true)];
      assert AllocateSpec(old(ranges), pages) == (ranges, base);
    }

    /** `mergeAll`: one pass over neighbouring pairs. */
    method MergeAll()
      modifies this
      ensures ranges == MergePass(old(ranges))
    {
      var done: seq<Range> := [];
      var rest := ranges;
      while |rest| >= 2
        invariant done + MergePass(rest) == MergePass(old(ranges))
        decreases |rest|
      {
        ghost var before := done;
        if Mergeable(rest[0], rest[1]) {
          var survivor := Join(rest[0], rest[1]);
          assert MergePass(rest) == [survivor] + MergePass(rest[2..]);
          done := done + [survivor];
          rest := rest[2..];
          assert before + ([survivor] + MergePass(rest)) == done + MergePass(rest);
        } else {
          var kept := rest[0];
          assert MergePass(rest) == [kept] + MergePass(rest[1..]);
          done := done + [kept];
          rest := rest[1..];
          assert before + ([kept] + MergePass(rest)) == done + MergePass(rest);
        }
      }
      ranges := done + rest;
    }

    /** `freeRange` */
    method FreeRange(base: nat)
      modifies this
      ensures ranges == FreeSpec(old(ranges), base)
    {
      var i := 0;
      while i < |ranges| && ranges[i].base != base
        invariant 0 <= i <= |ranges|
        invariant FindBaseFrom(ranges, base, i) == FindBaseFrom(ranges, base, 0)
      {
        i := i + 1;
      }
      if i == |ranges| {
        return;
      }
      if !ranges[i].used {
        return;
      }
      ranges := ranges[i := ranges[i].(used := false)];
      MergeAll();
    }
  }
}
