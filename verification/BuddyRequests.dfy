/** Runs of `phys_alloc` alone from the pool that `ppa_init` leaves (mm/ppa.zig): exactly which requests are given
    overlapping blocks. */
module BuddyRequests {
  import opened Options
  import opened Buddy
  import opened BuddyTiling
  import opened BuddyInit

  /** The pages outside the sixteen heads, and one more: then page 0 has been taken too. */
  const MOST_SINGLES := 16369

  // ------------------------------------------------------------- requests

  datatype Grant = Grant(page: nat, order: nat)

  predicate Overlap(a: Grant, b: Grant) { Meet(a.page, Size(a.order), b.page, Size(b.order)) }

  predicate SomeOverlap(gs: seq<Grant>) {
    exists i, j | 0 <= i < j < |gs| :: Overlap(gs[i], gs[j])
  }

  /** What one request gets: a block or nothing. */
  ghost function Granted(m: Meta, pages: nat): seq<Grant>
    requires |m| == TOTAL_PAGES
  {
    var r, k := Alloc(m, pages).1, RequestOrder(pages, 0);
    if r.Some? && k.Some? then [Grant(r.value, k.value)] else []
  }

  /** What a run of requests gets, in order. */
  ghost function Grants(m: Meta, reqs: seq<nat>): seq<Grant>
    requires |m| == TOTAL_PAGES
    decreases |reqs|
  {
    if reqs == [] then [] else Granted(m, reqs[0]) + Grants(Alloc(m, reqs[0]).0, reqs[1..])
  }

  predicate IsLarger(pages: nat) { 2 <= pages <= 1024 }

  function Singles(reqs: seq<nat>): nat {
    if reqs == [] then 0 else (if reqs[0] == 1 then 1 else 0) + Singles(reqs[1..])
  }

  function Larger(reqs: seq<nat>): nat {
    if reqs == [] then 0 else (if IsLarger(reqs[0]) then 1 else 0) + Larger(reqs[1..])
  }

  lemma OverlapCons(g: Grant, gs: seq<Grant>)
    ensures SomeOverlap([g] + gs) <==> SomeOverlap(gs) || exists x <- gs :: Overlap(g, x)
  {
    var all := [g] + gs;
    if SomeOverlap(all) {
      var i, j :| 0 <= i < j < |all| && Overlap(all[i], all[j]);
      assert all[j] == gs[j - 1];
      assert i > 0 ==> all[i] == gs[i - 1];
    }
    if SomeOverlap(gs) {
      var i, j :| 0 <= i < j < |gs| && Overlap(gs[i], gs[j]);
      assert all[i + 1] == gs[i] && all[j + 1] == gs[j];
    }
    if x :| x in gs && Overlap(g, x) {
      var j :| 0 <= j < |gs| && gs[j] == x;
      assert all[0] == g && all[j + 1] == x;
    }
  }

  lemma OverlapAcross(done: seq<Grant>, gs: seq<Grant>, a: Grant, b: Grant)
    requires a in done && b in gs && Overlap(a, b)
    ensures SomeOverlap(done + gs)
  {
    var i :| 0 <= i < |done| && done[i] == a;
    var j :| 0 <= j < |gs| && gs[j] == b;
    assert (done + gs)[i] == a && (done + gs)[|done| + j] == b;
  }

  /** The order of a request: none for no pages or too many, 0 for one page, more for more. */
  lemma OrderOf(pages: nat)
    ensures pages == 0 || pages > 1024 <==> pages == 0 || RequestOrder(pages, 0).None?
    ensures pages == 1 ==> RequestOrder(pages, 0) == Some(0)
    ensures IsLarger(pages) ==> RequestOrder(pages, 0).Some? && 1 <= RequestOrder(pages, 0).value <= 10
                                && Size(RequestOrder(pages, 0).value) >= 2
  {
    RequestOrderExact(pages, 0);
    assert Size(0) == 1;
  }

  lemma RefusedOutright(m: Meta, pages: nat)
    requires |m| == TOTAL_PAGES && pages != 1 && !IsLarger(pages)
    ensures Alloc(m, pages).0 == m && Granted(m, pages) == []
  {
    OrderOf(pages);
    hide RequestOrder, Find;
  }

  // ------------------------------------------------- larger requests only

  lemma {:induction false} ShadowGrants(m: Meta, c: Meta, reqs: seq<nat>)
    requires Shadows(m, c) && Singles(reqs) == 0
    ensures Grants(m, reqs) == Grants(c, reqs)
    decreases |reqs|
  {
    if reqs != [] {
      AllocShadows(m, c, reqs[0]);
      hide Shadows, Alloc, RequestOrder;
      ShadowGrants(Alloc(m, reqs[0]).0, Alloc(c, reqs[0]).0, reqs[1..]);
    }
  }

  ghost predicate Clear(t: Blocks, g: Grant) {
    forall h <- Live(t) :: !Meet(h, Size(Live(t)[h]), g.page, Size(g.order))
  }

  lemma StepFromTiling(c: Meta, t: Blocks, pages: nat) returns (t': Blocks)
    requires Tiled(c, t)
    ensures Tiled(Alloc(c, pages).0, t')
    ensures forall g <- Granted(c, pages) :: Clear(t, g) && g.page in Live(t') && Live(t')[g.page] == g.order
    ensures forall g | Clear(t', g) :: Clear(t, g)
  {
    t' := AllocFromTiling(c, t, pages);
    var r := Alloc(c, pages).1;
    if r.Some? {
      var i, k := r.value, RequestOrder(pages, 0).value;
      hide Alloc, RequestOrder, Tiling, Describes;
      assert i !in Live(t) && Live(t') == Live(t)[i := k];
      forall h <- Live(t)
        ensures !Meet(h, Size(Live(t)[h]), i, Size(k))
      {
        LiveStayApart(t', h, i, Live(t)[h], k);
      }
      forall g | Clear(t', g)
        ensures Clear(t, g)
      {
        assert forall h <- Live(t) :: h in Live(t') && Live(t')[h] == Live(t)[h];
      }
    }
  }

  lemma {:induction false} TiledGrants(c: Meta, t: Blocks, reqs: seq<nat>)
    requires Tiled(c, t)
    ensures !SomeOverlap(Grants(c, reqs)) && forall g <- Grants(c, reqs) :: Clear(t, g)
    decreases |reqs|
  {
    if reqs != [] {
      var t' := StepFromTiling(c, t, reqs[0]);
      var gs := Grants(Alloc(c, reqs[0]).0, reqs[1..]);
      var now := Granted(c, reqs[0]);
      TiledGrants(Alloc(c, reqs[0]).0, t', reqs[1..]);
      assert now == [] || now == [now[0]];
      hide Tiled, Alloc, Granted, SomeOverlap;
      if now == [] {
        assert Grants(c, reqs) == gs;
      } else {
        var g := now[0];
        OverlapCons(g, gs);
        assert g in now;
        forall x <- gs ensures !Overlap(g, x) {
          assert Clear(t', x);
        }
      }
    }
  }

  // ---------------------------------------------------- single pages first

  /** The heads are untouched; of the other pages, exactly those below `p` have been taken. */
  ghost predicate Drained(m: Meta, p: nat) {
    && |m| == TOTAL_PAGES && 1 <= p <= TOTAL_PAGES && (p % 1024 != 0 || p == TOTAL_PAGES)
    && forall i: nat | i < TOTAL_PAGES :: m[i] == if i % 1024 == 0 then PageInfo(10, true) else PageInfo(0, i >= p)
  }

  lemma InitialDrained()
    ensures Drained(InitialMeta(), 1)
  {}

  /** The next page outside the heads. */
  function After(p: nat): nat { if (p + 1) % 1024 == 0 && p + 1 < TOTAL_PAGES then p + 2 else p + 1 }

  /** How many pages outside the heads are left from `p` on. */
  function Left(p: nat): int { TOTAL_PAGES - 15 - p + (p - 1) / 1024 }

  lemma {:induction false} ScanDrained(m: Meta, p: nat, i: nat)
    requires Drained(m, p) && i <= p < TOTAL_PAGES
    ensures Scan(m, 0, i) == Some(p)
    decreases p - i
  {
    assert Size(0) == 1;
    if i < p {
      ScanDrained(m, p, i + 1);
    }
  }

  /** A single page is the next one outside the heads. */
  lemma DrainedSingle(m: Meta, p: nat)
    requires Drained(m, p) && p < TOTAL_PAGES
    ensures Granted(m, 1) == [Grant(p, 0)] && Drained(Alloc(m, 1).0, After(p))
    ensures After(p) > p && Left(After(p)) == Left(p) - 1 >= 0
  {
    OrderOf(1);
    ScanDrained(m, p, 0);
    hide RequestOrder, Scan;
    assert Size(0) == 1;
    assert Find(m, 0) == Some(Found(p, 0));
    assert Alloc(m, 1) == (Take(m, p), Some(p));
  }

  /** A larger request still gets the block at page 0. */
  lemma DrainedLarger(m: Meta, p: nat, pages: nat)
    requires Drained(m, p) && IsLarger(pages)
    ensures Granted(m, pages) == [Grant(0, RequestOrder(pages, 0).value)]
  {
    OrderOf(pages);
    SizeTen();
    FindTop(m, RequestOrder(pages, 0).value);
    hide RequestOrder, Find;
  }

  lemma {:induction false} SplitToPages(m: Meta, from: nat)
    requires 1 <= from <= 10 && |m| == TOTAL_PAGES && Size(from) <= 1024
    ensures var r := SplitDown(m, 0, from, 0);
            r[1] == PageInfo(0, true) && r[1024] == m[1024]
    decreases from
  {
    assert Size(0) == 1;
    if from > 1 {
      SplitToPages(SplitOnce(m, 0, from - 1), from - 1);
    } else {
      assert SplitDown(m, 0, 1, 0) == SplitDown(SplitOnce(m, 0, 0), 0, 0, 0) == SplitOnce(m, 0, 0);
    }
  }

  /** Page 0 is taken and page 1 is marked free at order 0. */
  ghost predicate Reopened(m: Meta) {
    Bounded(m) && !m[0].isFree && m[1] == PageInfo(0, true)
  }

  lemma ReopenedSingle(m: Meta)
    requires Reopened(m)
    ensures Granted(m, 1) == [Grant(1, 0)]
  {
    OrderOf(1);
    NextSinglePage(m, false);
    hide RequestOrder, Alloc;
  }

  /** With no page left outside the heads, a single page is split off page 0, and page 1 is marked free again. */
  lemma DrainedEmpty(m: Meta)
    requires Drained(m, TOTAL_PAGES)
    ensures Granted(m, 1) == [Grant(0, 0)]
    ensures var m' := Alloc(m, 1).0; Reopened(m') && Hit(m', 1024, 10)
  {
    OrderOf(1);
    SizeTen();
    assert Bounded(m);
    StepBounded(m, AllocCall(1), false);
    ScanSound(m, 0, 0);
    assert Scan(m, 0, 0).None?;
    FindTop(m, 1);
    assert Find(m, 0) == Find(m, 1) == Some(Found(0, 10));
    SplitToPages(m, 10);
    hide Find, Scan, RequestOrder, SplitDown;
    assert Alloc(m, 1) == (Take(SplitDown(m, 0, 10, 0), 0), Some(0));
  }

  /** Single pages only, and not too many: all different. */
  lemma {:induction false} SinglesApart(m: Meta, p: nat, reqs: seq<nat>)
    requires Drained(m, p) && Larger(reqs) == 0 && Singles(reqs) <= Left(p) + 1
    ensures !SomeOverlap(Grants(m, reqs))
    ensures forall g <- Grants(m, reqs) :: g.order == 0 && (g.page == 0 || g.page >= p)
    decreases |reqs|
  {
    if reqs != [] {
      var m', rest := Alloc(m, reqs[0]).0, reqs[1..];
      if reqs[0] != 1 {
        RefusedOutright(m, reqs[0]);
        SinglesApart(m, p, rest);
        assert Grants(m, reqs) == Grants(m, rest);
      } else if p < TOTAL_PAGES {
        DrainedSingle(m, p);
        SinglesApart(m', After(p), rest);
        OverlapCons(Grant(p, 0), Grants(m', rest));
        assert Size(0) == 1;
      } else {
        DrainedEmpty(m);
        NothingGranted(m', rest);
        OverlapCons(Grant(0, 0), []);
      }
    }
  }

  lemma {:induction false} NothingGranted(m: Meta, reqs: seq<nat>)
    requires |m| == TOTAL_PAGES && Singles(reqs) == 0 && Larger(reqs) == 0
    ensures Grants(m, reqs) == []
    decreases |reqs|
  {
    if reqs != [] {
      RefusedOutright(m, reqs[0]);
      NothingGranted(m, reqs[1..]);
    }
  }

  // ------------------------------------------------------- overlapping runs

  /** Every page below `p` outside the heads has been given away. */
  ghost predicate GivenAway(done: seq<Grant>, p: nat) {
    forall i: nat | i < p && i % 1024 != 0 :: Grant(i, 0) in done
  }

  lemma GivenMore(done: seq<Grant>, g: Grant, p: nat)
    requires GivenAway(done, p)
    ensures GivenAway(done + [g], p)
  {}

  lemma GivenOneMore(done: seq<Grant>, p: nat)
    requires GivenAway(done, p) && p % 1024 != 0
    ensures GivenAway(done + [Grant(p, 0)], After(p))
  {}

  lemma DrainedBounds(m: Meta, p: nat, done: seq<Grant>)
    requires Drained(m, p) && p >= 2 && GivenAway(done, p)
    ensures |m| == TOTAL_PAGES >= p && (if p < TOTAL_PAGES then p % 1024 != 0 else Left(p) == 0)
    ensures Left(p) >= 0 && Grant(1, 0) in done && Size(0) == 1
  {}

  /** Any block in the pool with more than one page meets a page that was given away. */
  lemma MeetsGivenAway(done: seq<Grant>, gs: seq<Grant>, g: Grant)
    requires GivenAway(done, TOTAL_PAGES) && g in gs && Size(g.order) >= 2 && g.page + Size(g.order) <= TOTAL_PAGES
    ensures SomeOverlap(done + gs)
  {
    var i := if g.page % 1024 == 0 then g.page + 1 else g.page;
    assert Size(0) == 1;
    OverlapAcross(done, gs, Grant(i, 0), g);
  }

  /** Once all of them and page 0 are given away, the next request that is served gets a block twice. */
  lemma {:induction false} ServedTwice(m: Meta, reqs: seq<nat>, done: seq<Grant>)
    requires Reopened(m) && Hit(m, 1024, 10) && GivenAway(done, TOTAL_PAGES)
    requires Singles(reqs) > 0 || Larger(reqs) > 0
    ensures SomeOverlap(done + Grants(m, reqs))
    decreases |reqs|
  {
    var r := reqs[0];
    if r == 1 {
      ReopenedSingle(m);
      assert Size(0) == 1;
      OverlapAcross(done, Grants(m, reqs), Grant(1, 0), Grant(1, 0));
    } else if IsLarger(r) {
      OrderOf(r);
      AllocInPool(m, r);
      FindExact(m, RequestOrder(r, 0).value);
      var g := Granted(m, r)[0];
      hide Alloc, RequestOrder, Find;
      MeetsGivenAway(done, Grants(m, reqs), g);
    } else {
      RefusedOutright(m, r);
      ServedTwice(m, reqs[1..], done);
      assert Grants(m, reqs) == Grants(m, reqs[1..]);
    }
  }

  /** After single pages, a larger request meets page 1, and too many single pages run out. */
  lemma {:induction false} SinglesThenOverlap(m: Meta, p: nat, reqs: seq<nat>, done: seq<Grant>)
    requires Drained(m, p) && p >= 2 && GivenAway(done, p)
    requires Larger(reqs) > 0 || Singles(reqs) > Left(p) + 1
    ensures SomeOverlap(done + Grants(m, reqs))
    decreases |reqs|
  {
    hide Drained, GivenAway, SomeOverlap, Alloc, Granted, RequestOrder, Size, After, Left;
    DrainedBounds(m, p, done);
    var r, m', rest := reqs[0], Alloc(m, reqs[0]).0, reqs[1..];
    assert Grants(m, reqs) == Granted(m, r) + Grants(m', rest);
    hide Grants;
    if IsLarger(r) {
      OrderOf(r);
      DrainedLarger(m, p, r);
      OverlapAcross(done, Grants(m, reqs), Grant(1, 0), Grant(0, RequestOrder(r, 0).value));
    } else if r != 1 {
      RefusedOutright(m, r);
      SinglesThenOverlap(m, p, rest, done);
      assert Grants(m, reqs) == Grants(m, rest);
    } else if p < TOTAL_PAGES {
      DrainedSingle(m, p);
      GivenOneMore(done, p);
      SinglesThenOverlap(m', After(p), rest, done + [Grant(p, 0)]);
      assert done + [Grant(p, 0)] + Grants(m', rest) == done + Grants(m, reqs);
    } else {
      DrainedEmpty(m);
      GivenMore(done, Grant(0, 0), p);
      ServedTwice(m', rest, done + [Grant(0, 0)]);
      assert done + [Grant(0, 0)] + Grants(m', rest) == done + Grants(m, reqs);
    }
  }

  /** A larger request that leaves page 0 taken and page 1 marked free does so again. */
  lemma ReopenedLarger(m: Meta, pages: nat)
    requires Reopened(m) && IsLarger(pages)
    ensures Reopened(Alloc(m, pages).0)
  {
    assert |m| == TOTAL_PAGES;
    hide Find, RequestOrder, SplitDown, Bounded, Size;
    OrderOf(pages);
    StepBounded(m, AllocCall(pages), false);
    var k := RequestOrder(pages, 0).value;
    FindExact(m, k);
    if Find(m, k).Some? {
      var f := Find(m, k).value;
      SplitSparesBelow(m, f.index, f.order, k);
      var r := SplitDown(m, f.index, f.order, k);
      assert f.index >= 2 && r[..f.index][0] == m[..f.index][0] && r[..f.index][1] == m[..f.index][1];
      assert Alloc(m, pages).0 == Take(r, f.index);
    }
  }

  lemma {:induction false} SplitSparesBelow(m: Meta, i: nat, from: nat, to: nat)
    requires to <= from && i + Size(from) <= |m|
    ensures SplitDown(m, i, from, to)[..i] == m[..i]
    decreases from
  {
    if to < from {
      SplitSparesBelow(SplitOnce(m, i, from - 1), i, from - 1, to);
    }
  }

  /** After a larger request, the next single page is page 1. */
  lemma {:induction false} SingleComes(m: Meta, reqs: seq<nat>)
    requires Reopened(m) && Singles(reqs) > 0
    ensures Grant(1, 0) in Grants(m, reqs)
    decreases |reqs|
  {
    var r := reqs[0];
    if r == 1 {
      ReopenedSingle(m);
    } else {
      if IsLarger(r) {
        ReopenedLarger(m, r);
      } else {
        RefusedOutright(m, r);
      }
      hide Reopened, Alloc, Granted;
      SingleComes(Alloc(m, r).0, reqs[1..]);
    }
  }

  lemma {:induction false} RunsInto(reqs: seq<nat>)
    requires (Singles(reqs) > 0 && Larger(reqs) > 0) || Singles(reqs) > MOST_SINGLES
    ensures SomeOverlap(Grants(InitialMeta(), reqs))
    decreases |reqs|
  {
    var m := InitialMeta();
    var r, m', rest := reqs[0], Alloc(m, reqs[0]).0, reqs[1..];
    InitialDrained();
    if r == 1 {
      DrainedSingle(m, 1);
      hide InitialMeta;
      SinglesThenOverlap(m', 2, rest, [Grant(1, 0)]);
    } else if IsLarger(r) {
      OrderOf(r);
      InitialBounded();
      StepBounded(m, AllocCall(r), false);
      FirstAlloc(r, RequestOrder(r, 0).value);
      DrainedLarger(m, 1, r);
      hide InitialMeta, Alloc, RequestOrder;
      SingleComes(m', rest);
      assert Size(0) == 1;
      OverlapCons(Granted(m, r)[0], Grants(m', rest));
    } else {
      RefusedOutright(m, r);
      hide InitialMeta;
      RunsInto(rest);
      assert Grants(m, reqs) == Grants(m, rest);
    }
  }

  /** Whatever is requested after `ppa_init`, in whatever order: two of the blocks given out share a page exactly when
      single pages and larger blocks were both requested, or more than 16369 single pages were. */
  lemma RequestsOverlapIff(reqs: seq<nat>)
    ensures SomeOverlap(Grants(InitialMeta(), reqs)) <==>
            (Singles(reqs) > 0 && Larger(reqs) > 0) || Singles(reqs) > MOST_SINGLES
  {
    hide InitialMeta;
    if (Singles(reqs) > 0 && Larger(reqs) > 0) || Singles(reqs) > MOST_SINGLES {
      RunsInto(reqs);
    } else if Larger(reqs) == 0 {
      InitialDrained();
      SinglesApart(InitialMeta(), 1, reqs);
    } else {
      InitialShadowsClean();
      CleanIsTiled();
      ShadowGrants(InitialMeta(), CleanMeta(), reqs);
      TiledGrants(CleanMeta(), MaximalBlocks(), reqs);
    }
  }
}
