/** Runs from the pool that `ppa_init` leaves (mm/ppa.zig), with the free marks it puts on interior pages. */
module BuddyInit {
  import opened Options
  import opened Buddy
  import opened BuddyTiling

  // ------------------------------------------- interior marks and larger requests

  /** `m` is `c` except that some pages outside every block head carry a stray order-0 free mark. */
  ghost predicate Shadows(m: Meta, c: Meta) {
    && |m| == |c| == TOTAL_PAGES
    && forall p: nat | p < TOTAL_PAGES :: m[p] == c[p] || (m[p] == PageInfo(0, true) && c[p] == PageInfo(0, false))
  }

  lemma InitialShadowsClean()
    ensures Shadows(InitialMeta(), CleanMeta())
  {}

  lemma {:induction false} ScanShadows(m: Meta, c: Meta, k: nat, i: nat)
    requires Shadows(m, c) && k >= 1
    ensures Scan(m, k, i) == Scan(c, k, i)
    decreases TOTAL_PAGES - i
  {
    if i < TOTAL_PAGES && !Hit(m, i, k) {
      ScanShadows(m, c, k, i + Size(k));
    }
  }

  lemma {:induction false} FindShadows(m: Meta, c: Meta, k: nat)
    requires Shadows(m, c) && 1 <= k <= 11
    ensures Find(m, k) == Find(c, k)
    ensures Find(m, k).Some? ==>
              var f := Find(m, k).value; f.order >= k && f.index < TOTAL_PAGES && m[f.index] == c[f.index]
    decreases 11 - k
  {
    if k < 11 {
      ScanShadows(m, c, k, 0);
      ScanSound(m, k, 0);
      FindShadows(m, c, k + 1);
    }
  }

  lemma {:induction false} SplitShadows(m: Meta, c: Meta, i: nat, from: nat, to: nat)
    requires Shadows(m, c) && to <= from && i + Size(from) <= TOTAL_PAGES && m[i] == c[i]
    ensures Shadows(SplitDown(m, i, from, to), SplitDown(c, i, from, to))
    ensures SplitDown(m, i, from, to)[i] == SplitDown(c, i, from, to)[i]
    decreases from
  {
    if to < from {
      hide Size;
      SplitShadows(SplitOnce(m, i, from - 1), SplitOnce(c, i, from - 1), i, from - 1, to);
    }
  }

  lemma AllocShadows(m: Meta, c: Meta, pages: nat)
    requires Shadows(m, c) && pages != 1
    ensures Shadows(Alloc(m, pages).0, Alloc(c, pages).0) && Alloc(m, pages).1 == Alloc(c, pages).1
  {
    RequestOrderExact(pages, 0);
    if pages > 1 && RequestOrder(pages, 0).Some? {
      var k := RequestOrder(pages, 0).value;
      assert k >= 1 by { assert Size(0) == 1; }
      FindShadows(m, c, k);
      hide Find, RequestOrder;
      if Find(m, k).Some? {
        var f := Find(m, k).value;
        if f.index + Size(f.order) <= TOTAL_PAGES {
          SplitShadows(m, c, f.index, f.order, k);
        }
      }
    }
  }

  lemma MergeShadows(m: Meta, c: Meta, i: nat, b: nat, k: nat, clear: bool)
    requires Shadows(m, c) && i < TOTAL_PAGES && b < TOTAL_PAGES && m[i] == c[i] && m[b] == c[b]
    ensures Shadows(MergeStep(m, i, b, k, clear), MergeStep(c, i, b, k, clear))
  {}

  lemma {:induction false} CoalesceShadows(m: Meta, c: Meta, i: nat, k: nat, clear: bool)
    requires Shadows(m, c) && i < TOTAL_PAGES && k >= 1 && m[i] == c[i]
    ensures Shadows(Coalesce(m, i, k, clear), Coalesce(c, i, k, clear))
    decreases 10 - k
  {
    hide BuddyOf;
    var b := BuddyOf(i, k);
    if k < 10 && b < TOTAL_PAGES && Hit(m, b, k) {
      MergeShadows(m, c, i, b, k, clear);
      var lo := if b < i then b else i;
      CoalesceShadows(MergeStep(m, i, b, k, clear), MergeStep(c, i, b, k, clear), lo, k + 1, clear);
    }
  }

  lemma {:induction false} MergesLeftShadows(m: Meta, c: Meta, i: nat, k: nat)
    requires Shadows(m, c) && k >= 1
    ensures MergesLeft(m, i, k) == MergesLeft(c, i, k)
    decreases 10 - k
  {
    hide BuddyOf;
    var b := BuddyOf(i, k);
    if k < 10 && b < TOTAL_PAGES && Hit(m, b, k) && b >= i {
      MergesLeftShadows(m, c, i, k + 1);
    }
  }

  // ------------------------------------------------------------- one step

  /** The pools have the same clients; every block they hold has more than one page. */
  ghost predicate Follows(p: Pool, q: Pool) {
    Shadows(p.m, q.m) && p.held == q.held && ValidPool(q) && forall h <- q.held :: q.held[h] >= 1
  }

  lemma HeldHead(q: Pool, h: nat)
    requires ValidPool(q) && h in q.held
    ensures |q.m| == TOTAL_PAGES && h < TOTAL_PAGES && q.m[h] == PageInfo(q.held[h], false)
    ensures AlignedTo(h, q.held[h])
  {
    var t: Blocks :| Tiled(q.m, t) && NoFreePairs(t) && Live(t) == q.held;
    assert IsBlock(h, t[h]);
  }

  /** The call does not ask for exactly one page. */
  predicate NotSingle(c: Call) { c.AllocCall? ==> c.pages != 1 }

  /** The call frees nothing into a left buddy; decided on the metadata before it. */
  predicate NoLeftMerge(m: Meta, c: Call)
    requires |m| == TOTAL_PAGES
  {
    c.FreeCall? && c.page < TOTAL_PAGES ==> !MergesLeft(m, c.page, m[c.page].order)
  }

  /** With no left merge, the code as written and the clearing step do the same to a valid pool. */
  lemma LiteralAgrees(q: Pool, c: Call)
    requires ValidPool(q) && LegalCall(q, c) && |q.m| == TOTAL_PAGES && NoLeftMerge(q.m, c)
    ensures ClientStep(q, c, false) == ClientStep(q, c, true)
  {
    if c.FreeCall? {
      HeldHead(q, c.page);
      var k, m1 := q.held[c.page], q.m[c.page := q.m[c.page].(isFree := true)];
      MergesLeftFrame(q.m, m1, c.page, k);
      RightMergesAgree(m1, c.page, k);
    }
  }

  lemma AllocFollows(p: Pool, q: Pool, pages: nat, clear: bool)
    requires Follows(p, q) && pages != 1
    ensures Follows(ClientStep(p, AllocCall(pages), clear), ClientStep(q, AllocCall(pages), true))
  {
    ClientStepValid(q, AllocCall(pages));
    AllocShadows(p.m, q.m, pages);
    RequestOrderExact(pages, 0);
    assert Size(0) == 1;
    hide ValidPool, Shadows, Alloc, RequestOrder;
  }

  lemma FreeShadows(p: Pool, q: Pool, page: nat, clear: bool)
    requires Follows(p, q) && page in p.held
    ensures |q.m| == TOTAL_PAGES && page < TOTAL_PAGES && p.m[page] == q.m[page]
    ensures Shadows(Free(p.m, page, clear), Free(q.m, page, clear))
    ensures MergesLeft(p.m, page, p.m[page].order) == MergesLeft(q.m, page, q.m[page].order)
  {
    HeldHead(q, page);
    var k := q.held[page];
    assert p.m[page] == q.m[page];
    MergesLeftShadows(p.m, q.m, page, k);
    CoalesceShadows(p.m[page := p.m[page].(isFree := true)], q.m[page := q.m[page].(isFree := true)], page, k, clear);
  }

  lemma StepFollows(p: Pool, q: Pool, c: Call, clear: bool)
    requires Follows(p, q) && LegalCall(p, c) && NotSingle(c) && (clear || NoLeftMerge(p.m, c))
    ensures Follows(ClientStep(p, c, clear), ClientStep(q, c, true))
  {
    hide ValidPool, Shadows, Alloc, Free, MergesLeft;
    match c
    case AllocCall(pages) =>
      AllocFollows(p, q, pages, clear);
    case FreeCall(page) =>
      ClientStepValid(q, c);
      FreeShadows(p, q, page, clear);
      if !clear {
        LiteralAgrees(q, c);
      }
  }

  // ------------------------------------------------------------- whole runs

  /** No call of the run frees into a left buddy. */
  ghost predicate NoLeftMerges(p: Pool, calls: seq<Call>, clear: bool)
    decreases |calls|
  {
    && |p.m| == TOTAL_PAGES
    && (calls != [] ==> NoLeftMerge(p.m, calls[0]) && NoLeftMerges(ClientStep(p, calls[0], clear), calls[1..], clear))
  }

  lemma {:induction false} RunFollows(p: Pool, q: Pool, calls: seq<Call>, clear: bool)
    requires Follows(p, q) && LegalRun(p, calls, clear) && (forall i | 0 <= i < |calls| :: NotSingle(calls[i]))
    requires clear || NoLeftMerges(p, calls, clear)
    ensures LegalRun(q, calls, true)
    ensures Follows(ClientRun(p, calls, clear), ClientRun(q, calls, true))
    decreases |calls|
  {
    assert |q.m| == TOTAL_PAGES;
    if calls != [] {
      StepFollows(p, q, calls[0], clear);
      hide Follows, ClientStep, NotSingle, NoLeftMerge;
      RunFollows(ClientStep(p, calls[0], clear), ClientStep(q, calls[0], true), calls[1..], clear);
    }
  }

  /** From `ppa_init`, if no request asks for exactly one page (and, for the code as written, no free merges into a
      left buddy), the clients hold what they would hold from a clean pool, and blocks held together are disjoint. */
  lemma DisjointWithoutSinglePages(calls: seq<Call>, clear: bool, g: nat, h: nat)
    requires LegalRun(Pool(InitialMeta(), map[]), calls, clear)
    requires forall i | 0 <= i < |calls| :: NotSingle(calls[i])
    requires clear || NoLeftMerges(Pool(InitialMeta(), map[]), calls, clear)
    ensures LegalRun(Pool(CleanMeta(), map[]), calls, true)
    ensures var held := ClientRun(Pool(InitialMeta(), map[]), calls, clear).held;
            && held == ClientRun(Pool(CleanMeta(), map[]), calls, true).held
            && (g in held && h in held && g < h ==> g + Size(held[g]) <= h && h + Size(held[h]) <= TOTAL_PAGES)
  {
    var p: Pool, q: Pool := Pool(InitialMeta(), map[]), Pool(CleanMeta(), map[]);
    InitialShadowsClean();
    CleanIsTiled();
    assert ValidPool(q);
    RunFollows(p, q, calls, clear);
    var q': Pool := ClientRun(q, calls, true);
    hide ClientRun, LegalRun, ValidPool, Shadows;
    if g in q'.held && h in q'.held && g < h {
      HeldBlocksDisjoint(q', g, h);
    }
  }

  /** A run of the code as written in which no free merges into a left buddy is the clearing run. */
  lemma {:induction false} LiteralRunAgrees(q: Pool, calls: seq<Call>)
    requires ValidPool(q) && LegalRun(q, calls, false) && NoLeftMerges(q, calls, false)
    ensures LegalRun(q, calls, true) && ClientRun(q, calls, false) == ClientRun(q, calls, true)
    decreases |calls|
  {
    hide ValidPool, ClientStep, NoLeftMerge, LegalCall;
    if calls != [] {
      LiteralAgrees(q, calls[0]);
      ClientStepValid(q, calls[0]);
      LiteralRunAgrees(ClientStep(q, calls[0], true), calls[1..]);
    }
  }

  /** So the code as written also rebuilds the maximum-order blocks on such runs from a clean pool. */
  lemma LiteralRunRebuilds(calls: seq<Call>)
    requires LegalRun(Pool(CleanMeta(), map[]), calls, false) && NoLeftMerges(Pool(CleanMeta(), map[]), calls, false)
    ensures var p: Pool := ClientRun(Pool(CleanMeta(), map[]), calls, false);
            && ValidPool(p) && |p.m| == TOTAL_PAGES
            && (p.held == map[] ==> forall i: nat | i < TOTAL_PAGES ::
                  if i % 1024 == 0 then p.m[i] == PageInfo(10, true) else !p.m[i].isFree)
  {
    CleanIsTiled();
    assert ValidPool(Pool(CleanMeta(), map[]));
    LiteralRunAgrees(Pool(CleanMeta(), map[]), calls);
    FreeingEverythingRebuilds(calls);
  }

  /** The metadata describes a tiling at every point of the run of the code as written. */
  ghost predicate AlwaysTiled(q: Pool, calls: seq<Call>)
    requires LegalRun(q, calls, false)
    decreases |calls|
  {
    && (exists t :: Tiled(q.m, t))
    && (calls != [] ==> AlwaysTiled(ClientStep(q, calls[0], false), calls[1..]))
  }

  lemma StepTiledIff(q: Pool, c: Call)
    requires ValidPool(q) && LegalCall(q, c) && |q.m| == TOTAL_PAGES
    ensures (exists t :: Tiled(ClientStep(q, c, false).m, t)) <==> NoLeftMerge(q.m, c)
  {
    if NoLeftMerge(q.m, c) {
      LiteralAgrees(q, c);
      ClientStepValid(q, c);
    } else {
      HeldHead(q, c.page);
      var t: Blocks :| Tiled(q.m, t) && NoFreePairs(t) && Live(t) == q.held;
      LiteralFreeTiledIff(q.m, t, c.page);
    }
  }

  /** A run of the code as written keeps the pool tiled throughout exactly when no free merges into a left buddy. */
  lemma {:induction false} LiteralRunTiledIff(q: Pool, calls: seq<Call>)
    requires ValidPool(q) && LegalRun(q, calls, false)
    ensures AlwaysTiled(q, calls) <==> NoLeftMerges(q, calls, false)
    decreases |calls|
  {
    if calls != [] {
      var c, q' := calls[0], ClientStep(q, calls[0], false);
      StepTiledIff(q, c);
      if NoLeftMerge(q.m, c) {
        LiteralAgrees(q, c);
        ClientStepValid(q, c);
        hide ValidPool, ClientStep, NoLeftMerge, LegalCall, Tiled;
        LiteralRunTiledIff(q', calls[1..]);
      }
    }
  }

  /** What a client sees after a left merge: from the pool of `LiteralFreeBreaksTiling`, requests for 1024 and then for
      512 pages get overlapping blocks. */
  lemma LeftMergeHandsOutTwice()
    ensures var m := Free(HalfMeta(), 512, false);
            var (m', x) := Alloc(m, 1024);
            x == Some(0) && Alloc(m', 512).1 == Some(512)
  {
    LiteralFreeBreaksTiling();
    SizeTen();
    assert Size(9) == 512;
    RequestOrderExact(1024, 0);
    RequestOrderExact(512, 0);
    var m := Free(HalfMeta(), 512, false);
    hide Free, HalfMeta, RequestOrder;
    var m' := Take(m, 0);
    assert Find(m, 10) == Some(Found(0, 10));
    assert Scan(m', 9, 0) == Scan(m', 9, 512) == Some(512);
    assert Find(m', 9) == Some(Found(512, 9));
  }

  // ------------------------------------------------------- two allocations

  /** The blocks of pages `[x, x + a)` and `[y, y + b)` share a page. */
  predicate Meet(x: nat, a: nat, y: nat, b: nat) { x < y + b && y < x + a }

  /** With no free block of orders 1 to 9, a larger request is served from the maximum block at page 0. */
  lemma {:induction false} FindTop(m: Meta, k: nat)
    requires |m| == TOTAL_PAGES && 1 <= k <= 10 && Hit(m, 0, 10)
    requires forall j: nat | j < TOTAL_PAGES && m[j].isFree :: m[j].order == 0 || m[j].order == 10
    ensures Find(m, k) == Some(Found(0, 10))
    decreases 10 - k
  {
    if k < 10 {
      ScanSound(m, k, 0);
      FindTop(m, k + 1);
    }
  }

  /** Splitting the block at page 0 down to an order above 0 leaves page 1 alone. */
  lemma {:induction false} SplitSparesPageOne(m: Meta, from: nat, to: nat)
    requires 1 <= to <= from && Size(from) <= |m| && |m| > 1
    ensures SplitDown(m, 0, from, to)[1] == m[1]
    decreases from
  {
    if to < from {
      assert Size(from - 1) >= 2 by { SizeMonotone(1, from - 1); assert Size(1) == 2; }
      SplitSparesPageOne(SplitOnce(m, 0, from - 1), from - 1, to);
    }
  }

  /** The first allocation from `ppa_init`: page 1 for one page, otherwise the start of the pool. */
  lemma FirstAlloc(a: nat, k: nat)
    requires 1 <= a <= 1024 && RequestOrder(a, 0) == Some(k)
    ensures Alloc(InitialMeta(), a).1 == Some(if a == 1 then 1 else 0) && (a == 1 <==> k == 0)
    ensures var m := Alloc(InitialMeta(), a).0;
            if a == 1 then m == Take(InitialMeta(), 1)
            else !m[0].isFree && m[1] == PageInfo(0, true)
  {
    var m := InitialMeta();
    RequestOrderExact(a, 0);
    SizeTen();
    assert Size(0) == 1;
    if a == 1 {
      assert Scan(m, 0, 0) == Scan(m, 0, 1) == Some(1);
    } else {
      FindTop(m, k);
      SplitSparesPageOne(m, 10, k);
      hide Find, RequestOrder, SplitDown;
    }
  }

  /** Two larger requests are served as from a clean pool, so they stay apart. */
  lemma LargerStayApart(a: nat, b: nat, ka: nat, kb: nat)
    requires 2 <= a <= 1024 && 2 <= b <= 1024 && RequestOrder(a, 0) == Some(ka) && RequestOrder(b, 0) == Some(kb)
    ensures var (m, x) := Alloc(InitialMeta(), a);
            var y := Alloc(m, b).1;
            x.Some? && y.Some? && !Meet(x.value, Size(ka), y.value, Size(kb))
  {
    var c := CleanMeta();
    InitialShadowsClean();
    CleanIsTiled();
    AllocShadows(InitialMeta(), c, a);
    AllocShadows(Alloc(InitialMeta(), a).0, Alloc(c, a).0, b);
    var t := MaximalBlocks();
    SizeTen();
    assert 0 in t && 1024 in t && 2048 in t;
    var t1 := AllocFromTiling(c, t, a);
    var x := Alloc(c, a).1.value;
    assert Fits(t1, b) by {
      var h: nat := if x == 1024 then 2048 else 1024;
      assert h in t1 && t1[h] == t[h];
    }
    var t2 := AllocFromTiling(Alloc(c, a).0, t1, b);
    var y := Alloc(Alloc(c, a).0, b).1.value;
    LiveStayApart(t2, x, y, ka, kb) by { assert x in Live(t1) && y !in Live(t1); }
  }

  lemma LiveStayApart(t: Blocks, x: nat, y: nat, ka: nat, kb: nat)
    requires Tiling(t) && x in Live(t) && y in Live(t) && x != y && Live(t)[x] == ka && Live(t)[y] == kb
    ensures !Meet(x, Size(ka), y, Size(kb))
  {
    assert Owns(t, x, x) && Owns(t, y, y);
    assert Owns(t, x, y) <==> x <= y < x + Size(ka);
    assert Owns(t, y, x) <==> y <= x < y + Size(kb);
  }

  /** The first two allocations from `ppa_init` share a page exactly when one of them, and not the other, asks for a
      single page. */
  lemma FirstTwoOverlapIff(a: nat, b: nat)
    requires 1 <= a <= 1024 && 1 <= b <= 1024
    ensures var (m, x) := Alloc(InitialMeta(), a);
            var y := Alloc(m, b).1;
            && x.Some? && y.Some? && RequestOrder(a, 0).Some? && RequestOrder(b, 0).Some?
            && (Meet(x.value, Size(RequestOrder(a, 0).value), y.value, Size(RequestOrder(b, 0).value))
                <==> ((a == 1) != (b == 1)))
  {
    RequestOrderExact(a, 0);
    RequestOrderExact(b, 0);
    var ka, kb := RequestOrder(a, 0).value, RequestOrder(b, 0).value;
    FirstAlloc(a, ka);
    FirstAlloc(b, kb);
    SizeMonotone(if a == 1 then 0 else 1, ka);
    SizeMonotone(if b == 1 then 0 else 1, kb);
    assert Size(0) == 1 && Size(1) == 2;
    var m := Alloc(InitialMeta(), a).0;
    if b == 1 {
      NextSinglePage(m, a == 1);
    } else if a == 1 {
      SizeTen();
      FindTop(m, kb);
    } else {
      LargerStayApart(a, b, ka, kb);
    }
  }

  /** A single page comes from page 1 if it is still marked free, and from page 2 right after it was taken. */
  lemma NextSinglePage(m: Meta, taken: bool)
    requires |m| == TOTAL_PAGES
    requires if taken then m == Take(InitialMeta(), 1) else !m[0].isFree && m[1] == PageInfo(0, true)
    ensures Alloc(m, 1).1 == Some(if taken then 2 else 1)
  {
    assert Size(0) == 1 && RequestOrder(1, 0) == Some(0);
    assert Scan(m, 0, 0) == Scan(m, 0, 1);
    if taken {
      assert Scan(m, 0, 1) == Scan(m, 0, 2) == Some(2);
    }
  }

  /** So `ppa_init` as written leaves no tiled pool. */
  lemma InitialPoolIsNotTiled()
    ensures forall t :: !Tiled(InitialMeta(), t)
  {
    SizeTen();
    assert Overlap(InitialMeta(), 0, 1);
    forall t { OverlapIsNotTiled(InitialMeta(), t, 0, 1); }
  }
}
