/** The buddy allocator over a fixed pool of pages (mm/ppa.zig). */
module Buddy {
  import opened Options
  import opened Arith

  const MAX_ORDER := 11
  const PAGE_SIZE := 4096
  const TOTAL_PAGES := 16384

  datatype PageInfo = PageInfo(order: nat, isFree: bool)
  type Meta = seq<PageInfo>

  // ------------------------------------------------------------- powers of two

  /** Pages in a block of order `k`. */
  function Size(k: nat): (n: nat)
    ensures n > 0
  {
    if k == 0 then 1 else 2 * Size(k - 1)
  }

  predicate AlignedTo(i: int, k: nat) { i % Size(k) == 0 }

  /** `i ^ (1 << k)`: flip bit `k`. */
  function BuddyOf(i: nat, k: nat): nat {
    if i / Size(k) % 2 == 0 then i + Size(k)
    else
      assert i >= Size(k) by { MulBounds(Size(k), i / Size(k)); }
      i - Size(k)
  }

  lemma MultipleFacts(i: int, m: nat)
    requires 0 < m && i % m == 0
    ensures i == m * (i / m)
    ensures (i + m) % m == 0 && (i - m) % m == 0
  {
    DivMod(i, m);
    var q := i / m;
    assert m * (q + 1) == m * q + m && m * (q - 1) == m * q - m;
    MultipleOf(m, q + 1);
    MultipleOf(m, q - 1);
  }

  lemma DivMod(i: int, m: nat)
    requires 0 < m
    ensures i == m * (i / m) + i % m
  {}

  lemma MultipleOf(m: nat, q: int)
    requires 0 < m
    ensures (m * q) % m == 0 && (m * q) / m == q
  {
    var v := m * q;
    var k := q - v / m;
    assert m * k == m * q - m * (v / m);
    MulBounds(m, k);
  }

  /** Multiples of `m` lie at least `m` apart. */
  lemma MultiplesApart(i: int, j: int, m: nat)
    requires 0 < m && i % m == 0 && j % m == 0 && i < j
    ensures i + m <= j
  {
    var k := j / m - i / m;
    assert m * k == j - i by { DivMod(i, m); DivMod(j, m); assert m * k == m * (j / m) - m * (i / m); }
    MulBounds(m, k);
  }

  lemma AlignedDown(i: int, k: nat)
    requires AlignedTo(i, k + 1)
    ensures AlignedTo(i, k) && AlignedTo(i + Size(k), k)
  {
    var m := Size(k);
    var q := i / (2 * m);
    DivMod(i, 2 * m);
    assert i == m * (2 * q) by { assert m * (2 * q) == (2 * m) * q; }
    MultipleOf(m, 2 * q);
    MultipleFacts(i, m);
  }

  lemma AlignedNext(i: int, k: nat)
    requires AlignedTo(i, k)
    ensures AlignedTo(i + Size(k), k)
  {
    MultipleFacts(i, Size(k));
  }

  lemma {:induction false} AlignedBelow(i: int, j: nat, k: nat)
    requires j <= k && AlignedTo(i, k)
    ensures AlignedTo(i, j) && AlignedTo(i + Size(k), j) && Size(j) <= Size(k)
    decreases k
  {
    AlignedNext(i, k);
    hide AlignedTo;
    if j < k {
      AlignedDown(i, k - 1);
      AlignedDown(i + Size(k), k - 1);
      AlignedBelow(i, j, k - 1);
      AlignedBelow(i + Size(k), j, k - 1);
    }
  }

  lemma EvenHalf(i: int, m: nat)
    requires 0 < m && i % m == 0 && i / m % 2 == 0
    ensures i % (2 * m) == 0 && (i + m) % m == 0 && (i + m) / m % 2 == 1
  {
    var q := i / m;
    var h := q / 2;
    MultipleFacts(i, m);
    assert i == (2 * m) * h by { assert m * (2 * h) == (2 * m) * h; }
    MultipleOf(2 * m, h);
    assert i + m == m * (q + 1) by { assert m * (q + 1) == m * q + m; }
    MultipleOf(m, q + 1);
  }

  lemma OddHalf(i: nat, m: nat)
    requires 0 < m && i % m == 0 && i / m % 2 == 1
    ensures i >= m && (i - m) % (2 * m) == 0 && (i - m) % m == 0 && (i - m) / m % 2 == 0
  {
    var q := i / m;
    var h := q / 2;
    MultipleFacts(i, m);
    MulBounds(m, q);
    assert i - m == (2 * m) * h by { assert m * (2 * h + 1) == (2 * m) * h + m; }
    MultipleOf(2 * m, h);
    assert i - m == m * (q - 1) by { assert m * (q - 1) == m * q - m; }
    MultipleOf(m, q - 1);
  }

  /** A block and its buddy are the two halves of one aligned block of the next order. */
  lemma BuddyHalves(i: nat, k: nat)
    requires AlignedTo(i, k)
    ensures var b := BuddyOf(i, k); var lo := if b < i then b else i;
            && AlignedTo(b, k) && BuddyOf(b, k) == i
            && AlignedTo(lo, k + 1) && (b == lo + Size(k) || i == lo + Size(k))
  {
    var m := Size(k);
    assert Size(k + 1) == 2 * m;
    if i / m % 2 == 0 {
      EvenHalf(i, m);
      assert BuddyOf(i, k) == i + m && BuddyOf(i + m, k) == i;
    } else {
      OddHalf(i, m);
      assert BuddyOf(i, k) == i - m && BuddyOf(i - m, k) == i;
    }
  }

  lemma SizeTen()
    ensures Size(10) == 1024
  {}

  /** The pool is a whole number of blocks of every order. */
  lemma PoolAligned(k: nat)
    requires k <= 10
    ensures AlignedTo(TOTAL_PAGES, k) && Size(k) <= 1024
  {
    SizeTen();
    AlignedBelow(TOTAL_PAGES, k, 10);
  }

  /** Aligned blocks inside the pool stay inside it. */
  lemma BlockInPool(i: nat, k: nat)
    requires i < TOTAL_PAGES && k <= 10 && AlignedTo(i, k)
    ensures i + Size(k) <= TOTAL_PAGES
  {
    PoolAligned(k);
    MultiplesApart(i, TOTAL_PAGES, Size(k));
  }

  lemma BuddyInPool(i: nat, k: nat)
    requires i < TOTAL_PAGES && k < 10 && AlignedTo(i, k)
    ensures BuddyOf(i, k) < TOTAL_PAGES
  {
    BuddyHalves(i, k);
    var b := BuddyOf(i, k);
    var lo := if b < i then b else i;
    BlockInPool(lo, k + 1);
  }

  // ------------------------------------------------- the allocator on page_meta

  /** What every run keeps, whatever is freed: orders are legal and every page is aligned to its order. */
  ghost predicate Bounded(m: Meta) {
    && |m| == TOTAL_PAGES
    && forall i | 0 <= i < |m| :: m[i].order <= 10 && AlignedTo(i, m[i].order)
  }

  /** The state `ppa_init` leaves: heads of maximum order, every other page marked free at order 0. */
  function InitialMeta(): Meta {
    seq(TOTAL_PAGES, i => PageInfo(if i % 1024 == 0 then 10 else 0, true))
  }

  /** The smallest order from `k` on that holds `pages` pages. */
  function RequestOrder(pages: nat, k: nat): Option<nat>
    requires k <= 10
    decreases 10 - k
  {
    if Size(k) >= pages then Some(k)
    else if k == 10 then None
    else RequestOrder(pages, k + 1)
  }

  predicate Hit(m: Meta, i: int, k: nat)
    requires 0 <= i < |m|
  {
    m[i].isFree && m[i].order == k
  }

  /** The first free block of order `k` at `i` or later, in steps of its size. */
  function Scan(m: Meta, k: nat, i: nat): Option<nat>
    requires |m| == TOTAL_PAGES
    decreases TOTAL_PAGES - i
  {
    if i >= TOTAL_PAGES then None
    else if Hit(m, i, k) then Some(i)
    else Scan(m, k, i + Size(k))
  }

  datatype Found = Found(index: nat, order: nat)

  /** The first hit over all orders from `k` up. */
  function Find(m: Meta, k: nat): Option<Found>
    requires |m| == TOTAL_PAGES && k <= 11
    decreases 11 - k
  {
    if k == 11 then None
    else match Scan(m, k, 0)
      case Some(i) => Some(Found(i, k))
      case None => Find(m, k + 1)
  }

  /** Split the block at `i` from order `from` down to order `to`, releasing the right halves. */
  function SplitDown(m: Meta, i: nat, from: nat, to: nat): (r: Meta)
    requires to <= from && i + Size(from) <= |m|
    ensures |r| == |m|
    decreases from
  {
    if from == to then m else SplitDown(SplitOnce(m, i, from - 1), i, from - 1, to)
  }

  /** Halve the block at `i` into two of order `k`; the right one becomes free. */
  function SplitOnce(m: Meta, i: nat, k: nat): (r: Meta)
    requires i + Size(k) < |m|
    ensures |r| == |m|
  {
    m[i := m[i].(order := k)][i + Size(k) := PageInfo(k, true)]
  }

  function Take(m: Meta, i: nat): Meta
    requires i < |m|
  {
    m[i := m[i].(isFree := false)]
  }

  /** `phys_alloc`: the metadata afterwards and the first page of the block, if any. */
  ghost function Alloc(m: Meta, pages: nat): (r: (Meta, Option<nat>))
    requires |m| == TOTAL_PAGES
    ensures |r.0| == |m|
  {
    if pages == 0 || RequestOrder(pages, 0).None? then (m, None)
    else
      var k := RequestOrder(pages, 0).value;
      if k <= 10 && Find(m, k).Some? then AllocAt(m, Find(m, k).value, k) else (m, None)
  }

  ghost function AllocAt(m: Meta, f: Found, k: nat): (r: (Meta, Option<nat>))
    ensures |r.0| == |m|
  {
    if k <= f.order && f.index + Size(f.order) <= |m|
    then (Take(SplitDown(m, f.index, f.order, k), f.index), Some(f.index)) else (m, None)
  }

  /** The coalescing loop of `phys_free`. With `clear` the absorbed right-hand head also loses its free mark;
      the source leaves it set when it merges into a left buddy. */
  function Coalesce(m: Meta, i: nat, k: nat, clear: bool): (r: Meta)
    requires |m| == TOTAL_PAGES && i < |m|
    ensures |r| == |m|
    decreases 10 - k
  {
    var b := BuddyOf(i, k);
    if k < 10 && b < TOTAL_PAGES && Hit(m, b, k) then
      var lo := if b < i then b else i;
      Coalesce(MergeStep(m, i, b, k, clear), lo, k + 1, clear)
    else m
  }

  function MergeStep(m: Meta, i: nat, b: nat, k: nat, clear: bool): (r: Meta)
    requires i < |m| && b < |m|
    ensures |r| == |m|
  {
    var m1 := Take(m, b);
    var m2 := if clear then Take(m1, i) else m1;
    m2[(if b < i then b else i) := PageInfo(k + 1, true)]
  }

  /** `phys_free` of a page index. */
  function Free(m: Meta, page: nat, clear: bool): (r: Meta)
    requires |m| == TOTAL_PAGES && page < |m|
    ensures |r| == |m|
  {
    if m[page].isFree then m
    else Coalesce(m[page := m[page].(isFree := true)], page, m[page].order, clear)
  }

  // ------------------------------------------------------------- search results

  /** The request order is the least one that fits, and exists up to 1024 pages. */
  lemma {:induction false} RequestOrderExact(pages: nat, k: nat)
    requires k <= 10 && (k > 0 ==> Size(k - 1) < pages)
    ensures match RequestOrder(pages, k)
            case None => pages > 1024
            case Some(r) => k <= r <= 10 && pages <= Size(r) <= 1024 && (r > 0 ==> Size(r - 1) < pages)
    decreases 10 - k
  {
    PoolAligned(k);
    if Size(k) < pages {
      if k == 10 {
        SizeTen();
      } else {
        RequestOrderExact(pages, k + 1);
      }
    }
  }

  lemma {:induction false} ScanSound(m: Meta, k: nat, i: nat)
    requires |m| == TOTAL_PAGES
    ensures var r := Scan(m, k, i); r.Some? ==> r.value < TOTAL_PAGES && Hit(m, r.value, k)
    decreases TOTAL_PAGES - i
  {
    if i < TOTAL_PAGES && !Hit(m, i, k) {
      ScanSound(m, k, i + Size(k));
    }
  }

  lemma {:induction false} ScanComplete(m: Meta, k: nat, i: nat, j: nat)
    requires |m| == TOTAL_PAGES && (Scan(m, k, i) == None || j < Scan(m, k, i).value)
    requires AlignedTo(i, k) && AlignedTo(j, k) && i <= j < TOTAL_PAGES
    ensures !Hit(m, j, k)
    decreases TOTAL_PAGES - i
  {
    if i < j {
      MultiplesApart(i, j, Size(k));
      AlignedNext(i, k);
      ScanComplete(m, k, i + Size(k), j);
    }
  }

  /** The search fails exactly when no page is marked free with an order of at least `k`. */
  lemma {:induction false} FindExact(m: Meta, k: nat)
    requires Bounded(m) && k <= 11
    ensures match Find(m, k)
            case None => forall j | 0 <= j < TOTAL_PAGES :: !(m[j].isFree && m[j].order >= k)
            case Some(f) => k <= f.order <= 10 && f.index + Size(f.order) <= TOTAL_PAGES && Hit(m, f.index, f.order)
    decreases 11 - k
  {
    if k < 11 {
      ScanSound(m, k, 0);
      match Scan(m, k, 0)
      case Some(i) =>
        BlockInPool(i, k);
      case None =>
        FindExact(m, k + 1);
        forall j | 0 <= j < TOTAL_PAGES && m[j].order == k
          ensures !m[j].isFree
        {
          ScanComplete(m, k, 0, j);
        }
    }
  }

  /** What the search finds is the lowest page of the least sufficient order. */
  lemma {:induction false} FindLeast(m: Meta, k: nat, j: nat)
    requires Bounded(m) && k <= 11 && Find(m, k).Some? && j < TOTAL_PAGES && m[j].isFree && m[j].order >= k
    ensures var f := Find(m, k).value; f.order < m[j].order || (f.order == m[j].order && f.index <= j)
    decreases 11 - k
  {
    FindExact(m, k);
    if m[j].order == k {
      assert AlignedTo(j, k) && AlignedTo(0, k);
      hide AlignedTo, Bounded;
      if Scan(m, k, 0).None? || j < Scan(m, k, 0).value {
        ScanComplete(m, k, 0, j);
      }
    } else if Scan(m, k, 0).None? {
      FindLeast(m, k + 1, j);
    }
  }

  // ------------------------------------------------- every run, as written

  datatype Call = AllocCall(pages: nat) | FreeCall(page: nat)

  /** One call; a free of a page outside the pool is ignored. */
  ghost function Step(m: Meta, c: Call, clear: bool): (r: Meta)
    requires |m| == TOTAL_PAGES
    ensures |r| == |m|
  {
    match c
    case AllocCall(pages) => Alloc(m, pages).0
    case FreeCall(page) => if page < TOTAL_PAGES then Free(m, page, clear) else m
  }

  lemma SplitOnceBounded(m: Meta, i: nat, k: nat)
    requires Bounded(m) && k <= 10 && i + Size(k) < |m| && AlignedTo(i, k) && AlignedTo(i + Size(k), k)
    ensures Bounded(SplitOnce(m, i, k))
  {}

  lemma {:induction false} SplitBounded(m: Meta, i: nat, from: nat, to: nat)
    requires Bounded(m) && to <= from <= 10 && i + Size(from) <= |m| && AlignedTo(i, from)
    ensures Bounded(SplitDown(m, i, from, to))
    decreases from
  {
    if to < from {
      AlignedDown(i, from - 1);
      hide AlignedTo, Bounded, SplitOnce;
      SplitOnceBounded(m, i, from - 1);
      SplitBounded(SplitOnce(m, i, from - 1), i, from - 1, to);
    }
  }

  lemma {:induction false} CoalesceBounded(m: Meta, i: nat, k: nat, clear: bool)
    requires Bounded(m) && i < |m| && k <= 10 && AlignedTo(i, k)
    ensures Bounded(Coalesce(m, i, k, clear))
    decreases 10 - k
  {
    hide AlignedTo;
    var b := BuddyOf(i, k);
    if k < 10 && b < TOTAL_PAGES && Hit(m, b, k) {
      BuddyHalves(i, k);
      CoalesceBounded(MergeStep(m, i, b, k, clear), if b < i then b else i, k + 1, clear);
    }
  }

  lemma StepBounded(m: Meta, c: Call, clear: bool)
    requires Bounded(m)
    ensures Bounded(Step(m, c, clear))
  {
    match c
    case AllocCall(pages) =>
      if pages > 0 && RequestOrder(pages, 0).Some? {
        var k := RequestOrder(pages, 0).value;
        RequestOrderExact(pages, 0);
        FindExact(m, k);
        if Find(m, k).Some? {
          var f := Find(m, k).value;
          SplitBounded(m, f.index, f.order, k);
        }
      }
    case FreeCall(page) =>
      if page < TOTAL_PAGES && !m[page].isFree {
        CoalesceBounded(m[page := m[page].(isFree := true)], page, m[page].order, clear);
      }
  }

  ghost function Run(m: Meta, calls: seq<Call>, clear: bool): Meta
    requires |m| == TOTAL_PAGES
    decreases |calls|
  {
    if calls == [] then m else Run(Step(m, calls[0], clear), calls[1..], clear)
  }

  lemma InitialBounded()
    ensures Bounded(InitialMeta())
  {}

  lemma {:induction false} RunBounded(m: Meta, calls: seq<Call>, clear: bool)
    requires Bounded(m)
    ensures Bounded(Run(m, calls, clear))
    decreases |calls|
  {
    hide Step;
    if calls != [] {
      StepBounded(m, calls[0], clear);
      RunBounded(Step(m, calls[0], clear), calls[1..], clear);
    }
  }

  /** From `ppa_init`, after any calls at all, every page is aligned to its recorded order of at most 10. */
  lemma EveryRunIsBounded(calls: seq<Call>)
    ensures Bounded(Run(InitialMeta(), calls, false))
  {
    InitialBounded();
    RunBounded(InitialMeta(), calls, false);
  }

  /** Whatever was freed before, a returned block lies in the pool, is aligned to its size,
      and is the smallest power of two that holds the request; its pages fit the request. */
  lemma AllocInPool(m: Meta, pages: nat)
    requires Bounded(m)
    ensures var r := Alloc(m, pages);
            if r.1.None? then r.0 == m
            else exists k ::
              && RequestOrder(pages, 0) == Some(k) && r.1.value + Size(k) <= TOTAL_PAGES && AlignedTo(r.1.value, k)
              && pages <= Size(k) < 2 * pages && r.0[r.1.value] == PageInfo(k, false)
  {
    if pages > 0 {
      RequestOrderExact(pages, 0);
      if RequestOrder(pages, 0).Some? {
        var k := RequestOrder(pages, 0).value;
        FindExact(m, k);
        if Find(m, k).Some? {
          var f := Find(m, k).value;
          AlignedBelow(f.index, k, f.order);
          SplitHead(m, f.index, f.order, k);
        }
      }
    }
  }

  lemma {:induction false} SplitHead(m: Meta, i: nat, from: nat, to: nat)
    requires to <= from && i + Size(from) <= |m| && m[i].order == from
    ensures SplitDown(m, i, from, to)[i] == PageInfo(to, m[i].isFree)
    decreases from
  {
    if to < from {
      SplitHead(SplitOnce(m, i, from - 1), i, from - 1, to);
    }
  }

  // ------------------------------------------------------------ the class

  lemma ScanAligned(m: Meta, k: nat, i: nat)
    requires Bounded(m) && k <= 10 && i < TOTAL_PAGES && Hit(m, i, k)
    ensures i + Size(k) <= TOTAL_PAGES
  {
    BlockInPool(i, k);
  }

  /** The allocator's page metadata, updated in place. Pages are named by index and pointers by their
      distance from the pool's base. */
  class PageAllocator {
    const pageMeta: array<PageInfo>

    /** `ppa_init`. */
    constructor ()
      ensures fresh(pageMeta) && pageMeta[..] == InitialMeta()
    {
      pageMeta := new PageInfo[TOTAL_PAGES](i => PageInfo(0, true));
      new;
      var i := 0;
      while i < TOTAL_PAGES
        invariant 0 <= i <= TOTAL_PAGES && i % 1024 == 0
        invariant forall j | 0 <= j < TOTAL_PAGES ::
                    pageMeta[j] == PageInfo(if j < i && j % 1024 == 0 then 10 else 0, true)
      {
        pageMeta[i] := pageMeta[i].(order := 10);
        i := i + 1024;
      }
    }

    /** `phys_alloc`: the first page of the block, or none. */
    method PhysAlloc(pages: nat) returns (page: Option<nat>)
      requires Bounded(pageMeta[..])
      modifies pageMeta
      ensures (pageMeta[..], page) == Alloc(old(pageMeta[..]), pages)
      ensures Bounded(pageMeta[..])
    {
      ghost var m := pageMeta[..];
      StepBounded(m, AllocCall(pages), false);
      if pages == 0 { return None; }
      var request := 0;
      while Size(request) < pages
        invariant request <= 10 && RequestOrder(pages, request) == RequestOrder(pages, 0)
        decreases 10 - request
      {
        request := request + 1;
        if request >= MAX_ORDER { return None; }
      }
      hide Bounded, AlignedTo;
      var current := request;
      while current < MAX_ORDER
        invariant request <= current <= MAX_ORDER && pageMeta[..] == m
        invariant Find(m, current) == Find(m, request)
      {
        var hit := ScanFor(current);
        if hit.Some? {
          ScanAligned(m, current, hit.value);
          SplitBlock(hit.value, current, request);
          return hit;
        }
        current := current + 1;
      }
      return None;
    }

    method ScanFor(order: nat) returns (hit: Option<nat>)
      requires pageMeta.Length == TOTAL_PAGES && order <= 10
      ensures hit == Scan(pageMeta[..], order, 0)
      ensures hit.Some? ==> hit.value < TOTAL_PAGES && Hit(pageMeta[..], hit.value, order)
    {
      var i := 0;
      while i < TOTAL_PAGES
        invariant Scan(pageMeta[..], order, i) == Scan(pageMeta[..], order, 0)
        decreases TOTAL_PAGES - i
      {
        if pageMeta[i].isFree && pageMeta[i].order == order {
          return Some(i);
        }
        i := i + Size(order);
      }
      return None;
    }

    method SplitBlock(i: nat, from: nat, to: nat)
      requires to <= from && i + Size(from) <= pageMeta.Length
      modifies pageMeta
      ensures pageMeta[..] == Take(SplitDown(old(pageMeta[..]), i, from, to), i)
    {
      var co := from;
      while co > to
        invariant to <= co <= from && i + Size(co) <= pageMeta.Length
        invariant SplitDown(pageMeta[..], i, co, to) == SplitDown(old(pageMeta[..]), i, from, to)
      {
        co := co - 1;
        ghost var before := pageMeta[..];
        pageMeta[i] := pageMeta[i].(order := co);
        pageMeta[i + Size(co)] := PageInfo(co, true);
        assert pageMeta[..] == SplitOnce(before, i, co);
      }
      pageMeta[i] := pageMeta[i].(isFree := false);
    }

    /** `phys_free`: `offset` is the pointer minus the pool's base, none the null pointer. */
    method PhysFree(offset: Option<int>)
      requires Bounded(pageMeta[..])
      modifies pageMeta
      ensures pageMeta[..] ==
        if offset.Some? && 0 <= offset.value < TOTAL_PAGES * PAGE_SIZE && offset.value % PAGE_SIZE == 0
        then Free(old(pageMeta[..]), offset.value / PAGE_SIZE, false) else old(pageMeta[..])
      ensures Bounded(pageMeta[..])
    {
      if offset.None? || offset.value < 0 || offset.value >= TOTAL_PAGES * PAGE_SIZE { return; }
      if offset.value % PAGE_SIZE != 0 { return; }
      var start := offset.value / PAGE_SIZE;
      if pageMeta[start].isFree { return; }
      StepBounded(pageMeta[..], FreeCall(start), false);
      hide Bounded, BuddyOf;
      ghost var result := Free(pageMeta[..], start, false);
      var order, idx := pageMeta[start].order, start;
      pageMeta[idx] := pageMeta[idx].(isFree := true);
      while order < MAX_ORDER - 1
        invariant idx < TOTAL_PAGES && Coalesce(pageMeta[..], idx, order, false) == result
        decreases MAX_ORDER - order
      {
        var buddy := BuddyOf(idx, order);
        if buddy >= TOTAL_PAGES { break; }
        if pageMeta[buddy].isFree && pageMeta[buddy].order == order {
          ghost var before := pageMeta[..];
          pageMeta[buddy] := pageMeta[buddy].(isFree := false);
          ghost var high := idx;
          idx := if buddy < idx then buddy else idx;
          order := order + 1;
          pageMeta[idx] := PageInfo(order, true);
          assert pageMeta[..] == MergeStep(before, high, buddy, order - 1, false);
        } else {
          break;
        }
      }
    }
  }
}
