/** The pool of mm/ppa.zig as a tiling by aligned blocks: what allocation and coalescing keep. */
module BuddyTiling {
  import opened Options
  import opened Buddy

  /** Block heads with their order and whether they are free. */
  type Blocks = map<nat, PageInfo>

  ghost predicate IsBlock(h: nat, b: PageInfo) {
    b.order <= 10 && AlignedTo(h, b.order) && h + Size(b.order) <= TOTAL_PAGES
  }

  ghost predicate Owns(t: Blocks, h: nat, p: int) {
    h in t && h <= p < h + Size(t[h].order)
  }

  ghost predicate Disjoint(t: Blocks) {
    forall g, h, p :: Owns(t, g, p) && Owns(t, h, p) ==> g == h
  }

  ghost predicate Covered(t: Blocks, p: nat) {
    exists h :: Owns(t, h, p)
  }

  ghost predicate Covering(t: Blocks) {
    forall p: nat | p < TOTAL_PAGES :: Covered(t, p)
  }

  /** Every page of the pool belongs to exactly one aligned block. */
  ghost predicate Tiling(t: Blocks) {
    (forall h <- t :: IsBlock(h, t[h])) && Disjoint(t) && Covering(t)
  }

  /** The metadata describes the tiling: heads carry their block, and only heads are marked free. */
  ghost predicate Describes(m: Meta, t: Blocks) {
    && |m| == TOTAL_PAGES
    && (forall p: nat | p < TOTAL_PAGES && p in t :: m[p] == t[p])
    && (forall p: nat | p < TOTAL_PAGES && p !in t :: !m[p].isFree)
  }

  /** Block `h` and its buddy are both free at the same order below the maximum. */
  ghost predicate FreePair(t: Blocks, h: nat) {
    h in t && t[h].isFree && t[h].order < 10 && BuddyOf(h, t[h].order) in t && t[BuddyOf(h, t[h].order)] == t[h]
  }

  ghost predicate NoFreePairs(t: Blocks) {
    forall h :: !FreePair(t, h)
  }

  /** The allocated blocks: head to order. */
  ghost function Live(t: Blocks): map<nat, nat> {
    map h | h in t && !t[h].isFree :: t[h].order
  }

  ghost predicate Tiled(m: Meta, t: Blocks) {
    Tiling(t) && Describes(m, t)
  }

  // ------------------------------------------------------------- split and merge

  ghost function SplitBlock(t: Blocks, h: nat, k: nat): Blocks
    requires h in t
  {
    t[h := t[h].(order := k)][h + Size(k) := PageInfo(k, true)]
  }

  lemma InnerPageIsNoHead(t: Blocks, h: nat, p: nat)
    requires Tiling(t) && Owns(t, h, p) && p != h
    ensures p !in t
  {
    assert p in t ==> Owns(t, p, p);
  }

  lemma SplitOwners(t: Blocks, h: nat, k: nat)
    requires Tiling(t) && h in t && t[h].order == k + 1
    ensures var t' := SplitBlock(t, h, k);
            forall x, p :: Owns(t', x, p) <==>
              if x == h then h <= p < h + Size(k)
              else if x == h + Size(k) then h + Size(k) <= p < h + Size(k + 1)
              else Owns(t, x, p)
  {}

  lemma SplitOwner(t: Blocks, h: nat, k: nat, x: nat, p: nat)
    requires Tiling(t) && h in t && t[h].order == k + 1 && Owns(t, x, p)
    ensures Covered(SplitBlock(t, h, k), p)
  {
    hide Covering, AlignedTo;
    var t', right := SplitBlock(t, h, k), h + Size(k);
    assert Owns(t, h, right);
    InnerPageIsNoHead(t, h, right);
    assert Size(k + 1) == 2 * Size(k);
    if x == h && p >= right {
      assert Owns(t', right, p);
    } else {
      assert Owns(t', x, p);
    }
  }

  lemma SplitCovering(t: Blocks, h: nat, k: nat)
    requires Tiling(t) && h in t && t[h].order == k + 1
    ensures Covering(SplitBlock(t, h, k))
  {
    hide SplitBlock, Owns, Disjoint, IsBlock;
    forall p: nat | p < TOTAL_PAGES
      ensures Covered(SplitBlock(t, h, k), p)
    {
      assert Covered(t, p);
      var x: nat :| Owns(t, x, p);
      SplitOwner(t, h, k, x, p);
    }
  }

  lemma SplitDisjoint(t: Blocks, h: nat, k: nat)
    requires Tiling(t) && h in t && t[h].order == k + 1
    ensures Disjoint(SplitBlock(t, h, k))
  {
    hide Covering;
    var t', right := SplitBlock(t, h, k), h + Size(k);
    SplitOwners(t, h, k);
    InnerPageIsNoHead(t, h, right) by { assert Owns(t, h, right); }
    forall x, y, p | Owns(t', x, p) && Owns(t', y, p)
      ensures x == y
    {
      assert Owns(t, if x == right then h else x, p) && Owns(t, if y == right then h else y, p);
    }
  }

  lemma SplitTiling(t: Blocks, h: nat, k: nat)
    requires Tiling(t) && h in t && t[h].order == k + 1
    ensures Tiling(SplitBlock(t, h, k))
  {
    SplitCovering(t, h, k);
    SplitDisjoint(t, h, k);
    AlignedDown(h, k);
    hide Covering, Disjoint, AlignedTo;
    assert IsBlock(h, t[h]);
  }

  ghost function MergeBlocks(t: Blocks, lo: nat, k: nat): Blocks {
    (t - {lo + Size(k)})[lo := PageInfo(k + 1, true)]
  }

  ghost predicate Mergeable(t: Blocks, lo: nat, k: nat) {
    && k < 10 && AlignedTo(lo, k + 1)
    && lo in t && lo + Size(k) in t && t[lo] == t[lo + Size(k)] == PageInfo(k, true)
  }

  lemma MergeOwners(t: Blocks, lo: nat, k: nat)
    requires Tiling(t) && Mergeable(t, lo, k)
    ensures var t' := MergeBlocks(t, lo, k);
            forall x, p :: Owns(t', x, p) <==>
              if x == lo then Owns(t, lo, p) || Owns(t, lo + Size(k), p)
              else x != lo + Size(k) && Owns(t, x, p)
  {}

  lemma MergeCovering(t: Blocks, lo: nat, k: nat)
    requires Tiling(t) && Mergeable(t, lo, k)
    ensures Covering(MergeBlocks(t, lo, k))
  {
    var t' := MergeBlocks(t, lo, k);
    MergeOwners(t, lo, k);
    forall p: nat | p < TOTAL_PAGES
      ensures Covered(t', p)
    {
      assert Covered(t, p);
      var x: nat :| Owns(t, x, p);
      assert Owns(t', if x == lo + Size(k) then lo else x, p);
    }
  }

  lemma MergeTiling(t: Blocks, lo: nat, k: nat)
    requires Tiling(t) && Mergeable(t, lo, k)
    ensures Tiling(MergeBlocks(t, lo, k))
  {
    hide Covering, AlignedTo;
    MergeCovering(t, lo, k);
    MergeOwners(t, lo, k);
    assert IsBlock(lo + Size(k), t[lo + Size(k)]);
    assert Size(k + 1) == 2 * Size(k);
    var t' := MergeBlocks(t, lo, k);
    forall x, y, p | Owns(t', x, p) && Owns(t', y, p)
      ensures x == y
    {
    }
  }

  // ------------------------------------------------------------- allocation

  lemma {:induction false} TakeCommutes(m: Meta, i: nat, from: nat, to: nat)
    requires to <= from && i + Size(from) <= |m|
    ensures Take(SplitDown(m, i, from, to), i) == SplitDown(Take(m, i), i, from, to)
    decreases from
  {
    if to < from {
      TakeCommutes(SplitOnce(m, i, from - 1), i, from - 1, to);
      assert Take(SplitOnce(m, i, from - 1), i) == SplitOnce(Take(m, i), i, from - 1);
    }
  }

  lemma SplitNoPairs(t: Blocks, i: nat, k: nat)
    requires Tiling(t) && NoFreePairs(t) && i in t && t[i] == PageInfo(k + 1, false)
    ensures NoFreePairs(SplitBlock(t, i, k))
  {
    var t', right := SplitBlock(t, i, k), i + Size(k);
    assert IsBlock(i, t[i]);
    RightHalf(i, k);
    forall h
      ensures !FreePair(t', h)
    {
      hide Covering, Disjoint, AlignedTo, BuddyOf;
      if h in t' && h != i && h != right && BuddyOf(h, t'[h].order) == right && t'[h].order == k {
        assert IsBlock(h, t[h]);
        BuddyHalves(h, k);
      }
      assert !FreePair(t, h);
    }
  }

  lemma SplitLive(t: Blocks, i: nat, k: nat)
    requires i in t && !t[i].isFree && i + Size(k) !in t
    ensures Live(SplitBlock(t, i, k)) == Live(t)[i := k]
  {}

  lemma SplitDescribes(m: Meta, t: Blocks, i: nat, k: nat)
    requires Describes(m, t) && i in t && i + Size(k) < TOTAL_PAGES
    ensures Describes(SplitOnce(m, i, k), SplitBlock(t, i, k))
  {}

  /** Halving an allocated block makes no free pair and keeps the description. */
  lemma SplitStep(m: Meta, t: Blocks, i: nat, k: nat)
    requires Tiled(m, t) && i in t && t[i] == PageInfo(k + 1, false)
    ensures i + Size(k) < |m| && i + Size(k) !in t && Tiled(SplitOnce(m, i, k), SplitBlock(t, i, k))
    ensures NoFreePairs(t) ==> NoFreePairs(SplitBlock(t, i, k))
    ensures Live(SplitBlock(t, i, k)) == Live(t)[i := k]
  {
    SplitTiling(t, i, k);
    if NoFreePairs(t) {
      SplitNoPairs(t, i, k);
    }
    assert Owns(t, i, i + Size(k));
    InnerPageIsNoHead(t, i, i + Size(k));
    assert IsBlock(i, t[i]);
    SplitDescribes(m, t, i, k);
    SplitLive(t, i, k);
  }

  lemma RightHalf(i: nat, k: nat)
    requires AlignedTo(i, k + 1)
    ensures BuddyOf(i + Size(k), k) == i && BuddyOf(i, k) == i + Size(k)
  {
    AlignedDown(i, k);
    BuddyHalves(i, k);
    BuddyHalves(i + Size(k), k);
    assert Size(k + 1) == 2 * Size(k);
    var b := BuddyOf(i, k);
    if b < i {
      MultiplesApart(b, i, Size(k + 1));
    }
  }

  /** Every block except the one at `i`, free or not, is still there. */
  ghost predicate KeepsOthers(t: Blocks, t': Blocks, i: nat) {
    forall h <- t | h != i :: h in t' && t'[h] == t[h]
  }

  lemma {:induction false} SplitDownTiled(m: Meta, t: Blocks, i: nat, from: nat, to: nat) returns (t': Blocks)
    requires Tiled(m, t) && i in t && t[i] == PageInfo(from, false)
    requires to <= from && i + Size(from) <= |m|
    ensures Tiled(SplitDown(m, i, from, to), t') && Live(t') == Live(t)[i := to] && KeepsOthers(t, t', i)
    ensures NoFreePairs(t) ==> NoFreePairs(t')
    decreases from
  {
    hide Tiling, Describes, NoFreePairs;
    if from == to {
      t' := t;
      assert Live(t) == Live(t)[i := to];
    } else {
      SplitStep(m, t, i, from - 1);
      t' := SplitDownTiled(SplitOnce(m, i, from - 1), SplitBlock(t, i, from - 1), i, from - 1, to);
      assert Live(t)[i := from - 1][i := to] == Live(t)[i := to];
    }
  }

  lemma {:induction false} SizeMonotone(j: nat, k: nat)
    requires j <= k
    ensures Size(j) <= Size(k)
    decreases k
  {
    if j < k {
      SizeMonotone(j, k - 1);
    }
  }

  /** As written, from a tiled pool: which block `Find` picks, and when it picks none. */
  lemma {:induction false} FindInTiling(m: Meta, t: Blocks, k: nat)
    requires Tiled(m, t) && k <= 11
    ensures match Find(m, k)
            case None => forall h <- t :: !(t[h].isFree && t[h].order >= k)
            case Some(f) => k <= f.order && f.index in t && t[f.index] == PageInfo(f.order, true)
    decreases 11 - k
  {
    hide Disjoint, Covering;
    if k == 11 {
      assert forall h <- t :: IsBlock(h, t[h]);
    } else {
      ScanSound(m, k, 0);
      if Scan(m, k, 0).None? {
        FindInTiling(m, t, k + 1);
        forall h <- t | t[h].order == k
          ensures !t[h].isFree
        {
          assert IsBlock(h, t[h]);
          ScanComplete(m, k, 0, h);
        }
      }
    }
  }

  /** Some free block of the tiling holds `pages` pages. */
  ghost predicate Fits(t: Blocks, pages: nat) {
    exists h <- t :: t[h].isFree && Size(t[h].order) >= pages
  }

  lemma FitsByOrder(t: Blocks, pages: nat, k: nat)
    requires (forall h <- t :: t[h].order <= 10) && RequestOrder(pages, 0) == Some(k) && pages > 0
    ensures Fits(t, pages) <==> exists h <- t :: t[h].isFree && t[h].order >= k
  {}

  /** A live block of order `k` at `i` was carved from a free block; every other block, free or live, stays. */
  ghost predicate Carved(t: Blocks, t': Blocks, i: nat, k: nat) {
    && i in t && t[i].isFree && k <= t[i].order && AlignedTo(i, k)
    && Live(t') == Live(t)[i := k] && KeepsOthers(t, t', i)
  }

  /** `phys_alloc` as written, from any tiled pool: it fails exactly when nothing fits, and otherwise turns part of
      one free block into a new live block and touches no other block. */
  lemma AllocFromTiling(m: Meta, t: Blocks, pages: nat) returns (t': Blocks)
    requires Tiled(m, t)
    ensures Alloc(m, pages).1.None? <==> pages == 0 || pages > 1024 || !Fits(t, pages)
    ensures Tiled(Alloc(m, pages).0, t') && (NoFreePairs(t) ==> NoFreePairs(t'))
    ensures match Alloc(m, pages).1
            case None => t' == t && Alloc(m, pages).0 == m
            case Some(i) => exists k: nat ::
              RequestOrder(pages, 0) == Some(k) && Carved(t, t', i, k) && pages <= Size(k) < 2 * pages
  {
    t' := t;
    RequestOrderExact(pages, 0);
    if pages > 0 && RequestOrder(pages, 0).Some? {
      var k := RequestOrder(pages, 0).value;
      assert forall h <- t :: IsBlock(h, t[h]);
      FindInTiling(m, t, k);
      FitsByOrder(t, pages, k);
      if Find(m, k).Some? {
        t' := AllocBlock(m, t, Find(m, k).value, k);
        assert Carved(t, t', Find(m, k).value.index, k);
      }
    } else if pages > 1024 {
      assert RequestOrder(pages, 0).None?;
    }
  }

  lemma AllocBlock(m: Meta, t: Blocks, f: Found, k: nat) returns (t': Blocks)
    requires Tiled(m, t) && k <= f.order && f.index in t && t[f.index] == PageInfo(f.order, true)
    ensures f.index + Size(f.order) <= |m| && AlignedTo(f.index, k)
    ensures Tiled(Take(SplitDown(m, f.index, f.order, k), f.index), t')
    ensures Live(t') == Live(t)[f.index := k] && KeepsOthers(t, t', f.index)
    ensures NoFreePairs(t) ==> NoFreePairs(t')
  {
    var i := f.index;
    assert IsBlock(i, t[i]);
    AlignedBelow(i, k, f.order);
    TakeCommutes(m, i, f.order, k);
    var t0 := t[i := PageInfo(f.order, false)];
    SameShape(m, t, i, false);
    hide Tiling, Describes, AlignedTo;
    assert NoFreePairs(t) ==> NoFreePairs(t0) by {
      forall h ensures FreePair(t0, h) ==> FreePair(t, h) {}
    }
    assert Live(t0) == Live(t)[i := f.order];
    t' := SplitDownTiled(Take(m, i), t0, i, f.order, k);
    assert Live(t)[i := f.order][i := k] == Live(t)[i := k];
  }

  /** Changing only the free mark of a block keeps the tiling. */
  lemma SameShape(m: Meta, t: Blocks, i: nat, free: bool)
    requires Tiled(m, t) && i in t
    ensures i < TOTAL_PAGES && Tiled(m[i := m[i].(isFree := free)], t[i := t[i].(isFree := free)])
  {
    assert IsBlock(i, t[i]);
    var t' := t[i := t[i].(isFree := free)];
    assert forall h, p :: Owns(t', h, p) <==> Owns(t, h, p);
    forall p: nat | p < TOTAL_PAGES
      ensures Covered(t', p)
    {
      assert Covered(t, p);
      var x: nat :| Owns(t, x, p);
      assert Owns(t', x, p);
    }
  }

  // ------------------------------------------------------------- coalescing

  /** No free pair other than the block being freed and its buddy. */
  ghost predicate OnlyPairAt(t: Blocks, i: nat) {
    forall h | FreePair(t, h) :: h == i || BuddyOf(h, t[h].order) == i
  }

  lemma MergeLive(t: Blocks, lo: nat, k: nat)
    requires Mergeable(t, lo, k)
    ensures Live(MergeBlocks(t, lo, k)) == Live(t)
  {}

  lemma MergePairs(t: Blocks, i: nat, b: nat, k: nat)
    requires i in t && b in t && i != b && BuddyOf(i, k) == b && BuddyOf(b, k) == i && OnlyPairAt(t, i)
    requires var lo := if b < i then b else i; Mergeable(t, lo, k) && (b == lo + Size(k) || i == lo + Size(k))
    ensures var lo := if b < i then b else i; OnlyPairAt(MergeBlocks(t, lo, k), lo)
  {
    hide BuddyOf, AlignedTo, Size;
    var lo := if b < i then b else i;
    var t' := MergeBlocks(t, lo, k);
    forall h | FreePair(t', h)
      ensures h == lo || BuddyOf(h, t'[h].order) == lo
    {
      assert h != lo && BuddyOf(h, t'[h].order) != lo ==> FreePair(t, h);
    }
  }

  lemma MergeDescribes(m: Meta, t: Blocks, i: nat, b: nat, k: nat)
    requires Describes(m, t) && i < TOTAL_PAGES && b < TOTAL_PAGES && i != b
    requires var lo := if b < i then b else i; b == lo + Size(k) || i == lo + Size(k)
    ensures var lo := if b < i then b else i; Describes(MergeStep(m, i, b, k, true), MergeBlocks(t, lo, k))
  {}

  /** The coalescing loop with both absorbed heads cleared: it keeps the tiling and every live block,
      and leaves no free pair if each pair there was involves block `i`. */
  lemma {:induction false} CoalesceTiled(m: Meta, t: Blocks, i: nat, k: nat) returns (t': Blocks)
    requires Tiled(m, t) && i in t && t[i] == PageInfo(k, true) && i < TOTAL_PAGES
    ensures Tiled(Coalesce(m, i, k, true), t') && Live(t') == Live(t)
    ensures OnlyPairAt(t, i) ==> NoFreePairs(t')
    decreases 10 - k
  {
    assert IsBlock(i, t[i]);
    BuddyHalves(i, k);
    var b := BuddyOf(i, k);
    var lo := if b < i then b else i;
    if k < 10 && b < TOTAL_PAGES && Hit(m, b, k) {
      hide AlignedTo, Disjoint, Covering;
      MergeTiling(t, lo, k);
      MergeDescribes(m, t, i, b, k);
      if OnlyPairAt(t, i) {
        MergePairs(t, i, b, k);
      }
      MergeLive(t, lo, k);
      t' := CoalesceTiled(MergeStep(m, i, b, k, true), MergeBlocks(t, lo, k), lo, k + 1);
    } else {
      t' := t;
      if OnlyPairAt(t, i) {
        NoPairLeft(m, t, i, k);
      }
    }
  }

  lemma NoPairLeft(m: Meta, t: Blocks, i: nat, k: nat)
    requires Tiled(m, t) && i in t && t[i] == PageInfo(k, true) && OnlyPairAt(t, i)
    requires !(k < 10 && BuddyOf(i, k) < TOTAL_PAGES && Hit(m, BuddyOf(i, k), k))
    ensures NoFreePairs(t)
  {
    hide Disjoint, Covering, AlignedTo, BuddyOf;
    var b := BuddyOf(i, k);
    assert IsBlock(i, t[i]);
    BuddyHalves(i, k);
    assert b in t ==> IsBlock(b, t[b]);
    forall h: nat | h in t
      ensures BuddyOf(BuddyOf(h, t[h].order), t[h].order) == h
    {
      assert IsBlock(h, t[h]);
      BuddyHalves(h, t[h].order);
    }
  }

  /** Freeing a live block, with both absorbed heads cleared. */
  lemma FreeTiled(m: Meta, t: Blocks, page: nat) returns (t': Blocks)
    requires Tiled(m, t) && page in t
    ensures page < TOTAL_PAGES
    ensures Tiled(Free(m, page, true), t') && Live(t') == Live(t) - {page}
    ensures NoFreePairs(t) ==> NoFreePairs(t')
  {
    assert IsBlock(page, t[page]);
    if t[page].isFree {
      t' := t;
      assert Live(t) == Live(t) - {page};
    } else {
      var t1 := t[page := t[page].(isFree := true)];
      SameShape(m, t, page, true);
      forall h | FreePair(t1, h)
        ensures FreePair(t, h) || h == page || BuddyOf(h, t1[h].order) == page
      {
      }
      t' := CoalesceTiled(m[page := m[page].(isFree := true)], t1, page, t[page].order);
      assert Live(t1) == Live(t) - {page};
    }
  }

  // ------------------------------------------------------- freeing everything

  /** A block that overlaps the parent of a smaller block contains it. */
  lemma ParentInside(g: nat, j: nat, h: nat, o: nat)
    requires AlignedTo(g, j) && AlignedTo(h, o) && o < j && g <= BuddyOf(h, o) < g + Size(j)
    ensures g <= h < g + Size(j)
  {
    BuddyHalves(h, o);
    AlignedBelow(g, o + 1, j);
    var b := BuddyOf(h, o);
    var lo := if b < h then b else h;
    assert Size(o + 1) == 2 * Size(o);
    if lo < g {
      MultiplesApart(lo, g, Size(o + 1));
    } else if g + Size(j) <= lo + Size(o) {
      MultiplesApart(lo, g + Size(j), Size(o + 1));
    }
  }

  lemma SameOrderOwner(g: nat, b: nat, o: nat)
    requires AlignedTo(g, o) && AlignedTo(b, o) && g <= b < g + Size(o)
    ensures g == b
  {
    if g < b {
      MultiplesApart(g, b, Size(o));
    }
  }

  lemma BuddyOwner(t: Blocks, h: nat, g: nat)
    requires Tiling(t) && h in t && t[h].order < 10
    requires Owns(t, g, BuddyOf(h, t[h].order)) && t[h].order <= t[g].order
    ensures g == BuddyOf(h, t[h].order) && t[g].order == t[h].order
  {
    var o := t[h].order;
    assert IsBlock(h, t[h]) && IsBlock(g, t[g]);
    var b := BuddyOf(h, o);
    BuddyHalves(h, o);
    assert Owns(t, h, h);
    hide AlignedTo, Covering, BuddyOf;
    if t[g].order > o {
      ParentInside(g, t[g].order, h, o);
    } else {
      SameOrderOwner(g, b, o);
    }
    assert t[g].order > o ==> Owns(t, g, h);
  }

  lemma SmallestHasFreeBuddy(t: Blocks, h: nat)
    requires Tiling(t) && h in t && t[h].order < 10
    requires forall g <- t :: t[g].isFree && t[h].order <= t[g].order
    ensures FreePair(t, h)
  {
    assert IsBlock(h, t[h]);
    BuddyInPool(h, t[h].order);
    assert Covered(t, BuddyOf(h, t[h].order));
    var g: nat :| Owns(t, g, BuddyOf(h, t[h].order));
    BuddyOwner(t, h, g);
  }

  lemma {:induction false} NoSmallBlocks(t: Blocks, o: nat)
    requires Tiling(t) && NoFreePairs(t) && (forall g <- t :: t[g].isFree) && o <= 10
    ensures forall g <- t :: t[g].order >= o
  {
    if o > 0 {
      NoSmallBlocks(t, o - 1);
      forall g <- t
        ensures t[g].order >= o
      {
        if t[g].order == o - 1 {
          SmallestHasFreeBuddy(t, g);
          assert false;
        }
      }
    }
  }

  /** When every block is free and no free pair is left, every block has the maximum order. */
  lemma AllFreeMeansMaximal(t: Blocks)
    requires Tiling(t) && NoFreePairs(t) && Live(t) == map[]
    ensures forall h <- t :: t[h] == PageInfo(10, true)
  {
    forall g <- t
      ensures t[g].isFree
    {
      assert !t[g].isFree ==> g in Live(t);
    }
    NoSmallBlocks(t, 10);
    assert forall g <- t :: IsBlock(g, t[g]);
  }

  // ------------------------------------------------------------- whole runs

  /** A pool whose only free marks are on the sixteen maximum-order heads. */
  function CleanMeta(): Meta {
    seq(TOTAL_PAGES, i => if i % 1024 == 0 then PageInfo(10, true) else PageInfo(0, false))
  }

  ghost function MaximalBlocks(): Blocks {
    map h: nat | h < TOTAL_PAGES && h % 1024 == 0 :: PageInfo(10, true)
  }

  lemma CleanIsTiled()
    ensures Tiled(CleanMeta(), MaximalBlocks()) && NoFreePairs(MaximalBlocks()) && Live(MaximalBlocks()) == map[]
  {
    var t := MaximalBlocks();
    SizeTen();
    forall p: nat | p < TOTAL_PAGES
      ensures Covered(t, p)
    {
      assert Owns(t, p - p % 1024, p);
    }
  }

  /** The pool as a client sees it: the metadata and the blocks it holds, by first page and order. */
  datatype Pool = Pool(m: Meta, held: map<nat, nat>)

  ghost predicate ValidPool(p: Pool) {
    exists t :: Tiled(p.m, t) && NoFreePairs(t) && Live(t) == p.held
  }

  ghost predicate LegalCall(p: Pool, c: Call) {
    c.FreeCall? ==> c.page in p.held
  }

  /** One call and the client's bookkeeping. */
  ghost function ClientStep(p: Pool, c: Call, clear: bool): Pool
    requires |p.m| == TOTAL_PAGES
  {
    var m' := Step(p.m, c, clear);
    match c
    case AllocCall(pages) =>
      var r := Alloc(p.m, pages).1;
      var k := RequestOrder(pages, 0);
      Pool(m', if r.Some? && k.Some? then p.held[r.value := k.value] else p.held)
    case FreeCall(page) => Pool(m', p.held - {page})
  }

  lemma ClientStepValid(p: Pool, c: Call)
    requires ValidPool(p) && LegalCall(p, c)
    ensures |p.m| == TOTAL_PAGES && ValidPool(ClientStep(p, c, true))
  {
    var t: Blocks :| Tiled(p.m, t) && NoFreePairs(t) && Live(t) == p.held;
    match c
    case AllocCall(pages) =>
      var t' := AllocFromTiling(p.m, t, pages);
      assert Live(t') == ClientStep(p, c, true).held;
    case FreeCall(page) =>
      assert page in t;
      var t' := FreeTiled(p.m, t, page);
      assert Live(t') == ClientStep(p, c, true).held;
  }

  /** Every free of the run names the head of a block held at that point. */
  ghost predicate LegalRun(p: Pool, calls: seq<Call>, clear: bool)
    decreases |calls|
  {
    && |p.m| == TOTAL_PAGES
    && (calls != [] ==> LegalCall(p, calls[0]) && LegalRun(ClientStep(p, calls[0], clear), calls[1..], clear))
  }

  ghost function ClientRun(p: Pool, calls: seq<Call>, clear: bool): Pool
    requires LegalRun(p, calls, clear)
    decreases |calls|
  {
    if calls == [] then p else ClientRun(ClientStep(p, calls[0], clear), calls[1..], clear)
  }

  lemma {:induction false} RunValid(p: Pool, calls: seq<Call>)
    requires ValidPool(p) && LegalRun(p, calls, true)
    ensures ValidPool(ClientRun(p, calls, true))
    decreases |calls|
  {
    hide ValidPool, ClientStep;
    if calls != [] {
      ClientStepValid(p, calls[0]);
      RunValid(ClientStep(p, calls[0], true), calls[1..]);
    }
  }

  /** Blocks held at the same time never share a page, and each is an aligned block of the pool. */
  lemma HeldBlocksDisjoint(p: Pool, g: nat, h: nat)
    requires ValidPool(p) && g in p.held && h in p.held && g < h
    ensures g + Size(p.held[g]) <= h && h + Size(p.held[h]) <= TOTAL_PAGES
    ensures AlignedTo(g, p.held[g]) && AlignedTo(h, p.held[h])
  {
    var t: Blocks :| Tiled(p.m, t) && NoFreePairs(t) && Live(t) == p.held;
    assert IsBlock(g, t[g]) && IsBlock(h, t[h]);
    assert Owns(t, h, h);
    assert h < g + Size(t[g].order) ==> Owns(t, g, h);
  }

  /** With nothing held, the pool is the sixteen maximum-order blocks again. */
  lemma NothingHeldMeansWhole(p: Pool)
    requires ValidPool(p) && p.held == map[]
    ensures |p.m| == TOTAL_PAGES
    ensures forall i: nat | i < TOTAL_PAGES ::
              if i % 1024 == 0 then p.m[i] == PageInfo(10, true) else !p.m[i].isFree
  {
    var t: Blocks :| Tiled(p.m, t) && NoFreePairs(t) && Live(t) == p.held;
    AllFreeMeansMaximal(t);
    SizeTen();
    forall i: nat | i < TOTAL_PAGES
      ensures i in t <==> i % 1024 == 0
    {
      assert Covered(t, i);
      var g: nat :| Owns(t, g, i);
      assert IsBlock(g, t[g]);
      assert i in t ==> IsBlock(i, t[i]);
      assert Size(t[g].order) == 1024;
    }
    hide Tiling;
  }

  /** Every run from a clean pool keeps it tiled; freeing everything, in any order and with allocations
      in between, rebuilds the maximum-order blocks. */
  lemma FreeingEverythingRebuilds(calls: seq<Call>)
    requires LegalRun(Pool(CleanMeta(), map[]), calls, true)
    ensures var p: Pool := ClientRun(Pool(CleanMeta(), map[]), calls, true);
            && ValidPool(p) && |p.m| == TOTAL_PAGES
            && (p.held == map[] ==> forall i: nat | i < TOTAL_PAGES ::
                  if i % 1024 == 0 then p.m[i] == PageInfo(10, true) else !p.m[i].isFree)
  {
    CleanIsTiled();
    var p0: Pool := Pool(CleanMeta(), map[]);
    assert ValidPool(p0);
    RunValid(p0, calls);
    var p: Pool := ClientRun(p0, calls, true);
    if p.held == map[] {
      NothingHeldMeansWhole(p);
    }
  }

  /** First fit: of the pages marked free with enough room, the one taken has the least order, and of those the lowest
      number. */
  lemma AllocFirstFit(m: Meta, pages: nat, j: nat)
    requires Bounded(m) && Alloc(m, pages).1.Some?
    requires j < TOTAL_PAGES && m[j].isFree && Size(m[j].order) >= pages
    ensures var i := Alloc(m, pages).1.value;
            && i < TOTAL_PAGES && m[i].isFree && Size(m[i].order) >= pages
            && (m[i].order < m[j].order || (m[i].order == m[j].order && i <= j))
  {
    RequestOrderExact(pages, 0);
    var k := RequestOrder(pages, 0).value;
    FindExact(m, k);
    if m[j].order < k {
      SizeMonotone(m[j].order, k - 1);
    }
    hide RequestOrder, Find, Bounded;
    FindLeast(m, k, j);
    SizeMonotone(k, Find(m, k).value.order);
  }

  // ------------------------------------------- the literal merge into a left buddy

  /** A free mark inside another free block: no tiling has one. */
  ghost predicate Overlap(m: Meta, f: nat, q: nat) {
    f < q < |m| && m[f].isFree && m[q].isFree && q < f + Size(m[f].order)
  }

  lemma OverlapIsNotTiled(m: Meta, t: Blocks, f: nat, q: nat)
    requires |m| == TOTAL_PAGES && Overlap(m, f, q)
    ensures !Tiled(m, t)
  {
    assert f in t && q in t && m[f] == t[f] ==> Owns(t, f, q) && Owns(t, q, q);
  }

  /** The coalescing loop reaches a merge into a left buddy; decided on the metadata before the call. */
  predicate MergesLeft(m: Meta, i: nat, k: nat)
    requires |m| == TOTAL_PAGES
    decreases 10 - k
  {
    var b := BuddyOf(i, k);
    k < 10 && b < TOTAL_PAGES && Hit(m, b, k) && (b < i || MergesLeft(m, i, k + 1))
  }

  lemma {:induction false} MergesLeftFrame(m: Meta, m': Meta, i: nat, k: nat)
    requires |m| == |m'| == TOTAL_PAGES && AlignedTo(i, k)
    requires forall p: nat | p < TOTAL_PAGES && !(i <= p < i + Size(k)) :: m[p] == m'[p]
    ensures MergesLeft(m, i, k) == MergesLeft(m', i, k)
    decreases 10 - k
  {
    BuddyHalves(i, k);
    var b := BuddyOf(i, k);
    assert Size(k + 1) == 2 * Size(k);
    hide AlignedTo, BuddyOf, Size;
    if k < 10 && b < TOTAL_PAGES && Hit(m, b, k) && b > i {
      MergesLeftFrame(m, m', i, k + 1);
    }
  }

  /** Without a left merge the literal loop and the clearing loop do the same. */
  lemma {:induction false} RightMergesAgree(m: Meta, i: nat, k: nat)
    requires |m| == TOTAL_PAGES && i < |m| && AlignedTo(i, k) && !MergesLeft(m, i, k)
    ensures Coalesce(m, i, k, false) == Coalesce(m, i, k, true)
    decreases 10 - k
  {
    BuddyHalves(i, k);
    var b := BuddyOf(i, k);
    assert Size(k + 1) == 2 * Size(k);
    hide AlignedTo, BuddyOf, Size;
    if k < 10 && b < TOTAL_PAGES && Hit(m, b, k) {
      var m' := MergeStep(m, i, b, k, false);
      assert m' == MergeStep(m, i, b, k, true);
      MergesLeftFrame(m, m', i, k + 1);
      RightMergesAgree(m', i, k + 1);
    }
  }

  /** A free mark strictly inside the block being coalesced survives and ends up inside the final block. */
  lemma {:induction false} StaleSurvives(m: Meta, i: nat, k: nat, q: nat) returns (f: nat)
    requires |m| == TOTAL_PAGES && AlignedTo(i, k) && i < |m| && m[i] == PageInfo(k, true)
    requires i < q < i + Size(k) && q < |m| && m[q].isFree
    ensures Overlap(Coalesce(m, i, k, false), f, q)
    decreases 10 - k
  {
    BuddyHalves(i, k);
    var b := BuddyOf(i, k);
    assert Size(k + 1) == 2 * Size(k);
    hide AlignedTo, BuddyOf;
    f := i;
    if k < 10 && b < TOTAL_PAGES && Hit(m, b, k) {
      f := StaleSurvives(MergeStep(m, i, b, k, false), if b < i then b else i, k + 1, q);
    }
  }

  lemma {:induction false} LeftMergeOverlaps(m: Meta, i: nat, k: nat) returns (f: nat, q: nat)
    requires |m| == TOTAL_PAGES && AlignedTo(i, k) && i < |m| && m[i] == PageInfo(k, true) && MergesLeft(m, i, k)
    ensures Overlap(Coalesce(m, i, k, false), f, q)
    decreases 10 - k
  {
    BuddyHalves(i, k);
    var b := BuddyOf(i, k);
    assert Size(k + 1) == 2 * Size(k);
    hide AlignedTo, BuddyOf;
    var m' := MergeStep(m, i, b, k, false);
    if b < i {
      q := i;
      f := StaleSurvives(m', b, k + 1, i);
    } else {
      MergesLeftFrame(m, m', i, k + 1);
      f, q := LeftMergeOverlaps(m', i, k + 1);
    }
  }

  /** `phys_free` as written leaves a tiled pool exactly when no merge goes into a left buddy. */
  lemma LiteralFreeTiledIff(m: Meta, t: Blocks, page: nat)
    requires Tiled(m, t) && page in t && !t[page].isFree
    ensures page < TOTAL_PAGES
    ensures (exists t' :: Tiled(Free(m, page, false), t')) <==> !MergesLeft(m, page, t[page].order)
  {
    assert IsBlock(page, t[page]);
    var k := t[page].order;
    var m1 := m[page := m[page].(isFree := true)];
    MergesLeftFrame(m, m1, page, k);
    assert m[page] == t[page] && AlignedTo(page, k);
    hide Tiling, Describes, NoFreePairs, MergesLeft, Coalesce, AlignedTo;
    if MergesLeft(m, page, k) {
      var f, q := LeftMergeOverlaps(m1, page, k);
      forall t' {
        OverlapIsNotTiled(Free(m, page, false), t', f, q);
      }
    } else {
      RightMergesAgree(m1, page, k);
      var t' := FreeTiled(m, t, page);
      assert Tiled(Free(m, page, false), t');
    }
  }

  /** `m` is `c` except for free marks left strictly inside the block of order `k` at `i`. */
  ghost predicate Leftover(m: Meta, c: Meta, i: nat, k: nat) {
    && |m| == |c| == TOTAL_PAGES
    && forall p: nat | p < TOTAL_PAGES ::
         m[p] == c[p] || (i < p < i + Size(k) && m[p] == c[p].(isFree := true))
  }

  lemma MergeLeftover(m: Meta, c: Meta, i: nat, k: nat)
    requires Leftover(m, c, i, k) && AlignedTo(i, k) && i < TOTAL_PAGES && c[i].isFree
    ensures BuddyOf(i, k) < TOTAL_PAGES ==>
              var b := BuddyOf(i, k); var lo := if b < i then b else i;
              && m[b] == c[b]
              && Leftover(MergeStep(m, i, b, k, false), MergeStep(c, i, b, k, true), lo, k + 1)
  {
    BuddyHalves(i, k);
    assert Size(k + 1) == 2 * Size(k);
    hide AlignedTo, BuddyOf, Size;
  }

  /** The loop as written merges exactly as the clearing loop does: the same block results, and all that differs is
      free marks left inside it. */
  lemma {:induction false} CoalesceLeftover(m: Meta, c: Meta, i: nat, k: nat) returns (lo: nat, top: nat)
    requires Leftover(m, c, i, k) && AlignedTo(i, k) && i < TOTAL_PAGES && c[i] == PageInfo(k, true)
    ensures Leftover(Coalesce(m, i, k, false), Coalesce(c, i, k, true), lo, top)
    ensures lo < TOTAL_PAGES && Coalesce(c, i, k, true)[lo] == PageInfo(top, true)
    decreases 10 - k
  {
    BuddyHalves(i, k);
    MergeLeftover(m, c, i, k);
    hide AlignedTo, BuddyOf, Leftover, Size;
    var b := BuddyOf(i, k);
    if k < 10 && b < TOTAL_PAGES && Hit(m, b, k) {
      var lo1 := if b < i then b else i;
      lo, top := CoalesceLeftover(MergeStep(m, i, b, k, false), MergeStep(c, i, b, k, true), lo1, k + 1);
    } else {
      lo, top := i, k;
    }
  }

  /** `phys_free` as written, with or without left merges: every block of the tiling that the clearing step reaches is
      marked as there, and other pages differ at most by a stray free mark. */
  lemma LiteralFreeBuilds(m: Meta, t: Blocks, page: nat) returns (t': Blocks)
    requires Tiled(m, t) && page in t
    ensures page < TOTAL_PAGES
    ensures Tiled(Free(m, page, true), t') && Live(t') == Live(t) - {page} && (NoFreePairs(t) ==> NoFreePairs(t'))
    ensures forall p <- t' :: p < TOTAL_PAGES && Free(m, page, false)[p] == t'[p]
    ensures forall p: nat | p < TOTAL_PAGES ::
              var c := Free(m, page, true)[p];
              Free(m, page, false)[p] == c || Free(m, page, false)[p] == c.(isFree := true)
  {
    t' := FreeTiled(m, t, page);
    assert IsBlock(page, t[page]) && m[page] == t[page];
    if t[page].isFree {
      assert forall p <- t' :: IsBlock(p, t'[p]);
    } else {
      var m1, k := m[page := PageInfo(t[page].order, true)], t[page].order;
      var lo, top := CoalesceLeftover(m1, m1, page, k);
      hide Coalesce, NoFreePairs, Covering, AlignedTo, Size;
      forall p <- t'
        ensures p < TOTAL_PAGES && Free(m, page, false)[p] == t'[p]
      {
        assert IsBlock(p, t'[p]);
        assert lo in t' && t'[lo] == PageInfo(top, true);
        if lo < p < lo + Size(top) {
          InnerPageIsNoHead(t', lo, p);
        }
      }
    }
  }

  /** A free as written leaves the page itself marked free, so freeing it again at once changes nothing. */
  lemma FreeingTwice(m: Meta, page: nat)
    requires Bounded(m) && page < TOTAL_PAGES
    ensures Free(Free(m, page, false), page, false) == Free(m, page, false)
  {
    if !m[page].isFree {
      MarkStays(m[page := m[page].(isFree := true)], page, m[page].order, page);
    }
  }

  lemma {:induction false} MarkStays(m: Meta, i: nat, k: nat, q: nat)
    requires |m| == TOTAL_PAGES && AlignedTo(i, k) && i <= q < i + Size(k) && q < TOTAL_PAGES && m[q].isFree
    ensures Coalesce(m, i, k, false)[q].isFree
    decreases 10 - k
  {
    BuddyHalves(i, k);
    var b := BuddyOf(i, k);
    assert Size(k + 1) == 2 * Size(k);
    hide AlignedTo, BuddyOf;
    if k < 10 && b < TOTAL_PAGES && Hit(m, b, k) {
      MarkStays(MergeStep(m, i, b, k, false), if b < i then b else i, k + 1, q);
    }
  }

  /** A pool in which the second half of the first maximum block is allocated and the first half is free. */
  function HalfMeta(): Meta {
    CleanMeta()[0 := PageInfo(9, true)][512 := PageInfo(9, false)]
  }

  lemma BuddyOf512()
    ensures BuddyOf(512, 9) == 0 && Size(9) == 512
  {}

  /** The literal code, concretely: freeing page 512 next to its free left buddy leaves both page 0 (order 10)
      and page 512 marked free, so the pool is no longer tiled. */
  lemma LiteralFreeBreaksTiling()
    ensures exists t: Blocks :: Tiled(HalfMeta(), t) && NoFreePairs(t) && 512 in t && !t[512].isFree
    ensures var m' := Free(HalfMeta(), 512, false);
            m'[0] == PageInfo(10, true) && m'[512] == PageInfo(9, true) && !exists t' :: Tiled(m', t')
  {
    BuddyOf512();
    SizeTen();
    var t := HalfBlocks();
    HalfIsTiled();
    assert MergesLeft(HalfMeta(), 512, 9);
    LiteralFreeTiledIff(HalfMeta(), t, 512);
  }

  ghost function HalfBlocks(): Blocks {
    MaximalBlocks()[0 := PageInfo(9, true)][512 := PageInfo(9, false)]
  }

  /** The first maximum block, taken and then halved. */
  ghost function Halved(): Blocks { SplitBlock(MaximalBlocks()[0 := PageInfo(10, false)], 0, 9) }

  lemma HalvedIsTiled()
    ensures Tiled(SplitOnce(Take(CleanMeta(), 0), 0, 9), Halved()) && NoFreePairs(Halved())
  {
    BuddyOf512();
    SizeTen();
    CleanIsTiled();
    var t0, t1 := MaximalBlocks(), MaximalBlocks()[0 := PageInfo(10, false)];
    SameShape(CleanMeta(), t0, 0, false);
    forall h ensures !FreePair(t1, h) { assert !FreePair(t0, h); }
    hide Tiling, Describes;
    SplitStep(Take(CleanMeta(), 0), t1, 0, 9);
  }

  /** Freeing the left half and taking the right one instead. */
  lemma HalfFromHalved()
    ensures HalfBlocks() == Halved()[0 := PageInfo(9, true)][512 := PageInfo(9, false)]
    ensures var m := SplitOnce(Take(CleanMeta(), 0), 0, 9);
            HalfMeta() == m[0 := PageInfo(9, true)][512 := PageInfo(9, false)]
    ensures NoFreePairs(Halved()) ==> NoFreePairs(HalfBlocks())
  {
    BuddyOf512();
    if NoFreePairs(Halved()) {
      forall h ensures !FreePair(HalfBlocks(), h) {
        assert !FreePair(Halved(), h);
      }
    }
  }

  lemma HalfIsTiled()
    ensures Tiled(HalfMeta(), HalfBlocks()) && NoFreePairs(HalfBlocks())
  {
    BuddyOf512();
    SizeTen();
    HalvedIsTiled();
    HalfFromHalved();
    var m := SplitOnce(Take(CleanMeta(), 0), 0, 9);
    assert Halved()[0].order == 9 && Halved()[512].order == 9;
    hide Tiling, Describes, NoFreePairs, Halved, HalfBlocks, HalfMeta;
    SameShape(m, Halved(), 0, true);
    SameShape(m[0 := PageInfo(9, true)], Halved()[0 := PageInfo(9, true)], 512, false);
  }
}
