/** Four-level x86_64 page tables (arch/x86_64/mm/paging.zig) and the flat map they refine. */
module Paging {
  import opened Options
  import opened Arith

  // ------------------------------------------------------------------ entries

  type Word = bv64

  const PT_ENTRIES := 512
  const PF_PRESENT: Word := 1
  const PF_WRITABLE: Word := 2
  const PF_USER: Word := 4
  const PF_HUGE: Word := 0x80
  const PF_NO_EXECUTE: Word := 0x8000_0000_0000_0000
  const PHYS_ADDR_MASK: Word := 0x000F_FFFF_FFFF_F000

  predicate Present(e: Word) { e & PF_PRESENT != 0 }
  predicate Writable(e: Word) { e & PF_WRITABLE != 0 }
  predicate User(e: Word) { e & PF_USER != 0 }
  predicate NoExecute(e: Word) { e & PF_NO_EXECUTE != 0 }
  predicate Huge(e: Word) { e & PF_HUGE != 0 }
  function Target(e: Word): Word { e & PHYS_ADDR_MASK }

  /** A page frame, named by its physical base address. */
  datatype Frame = Frame(base: Word)

  predicate Aligned(a: Frame) { Target(a.base) == a.base }

  /** The entry that `ensure_table` writes for a freshly allocated child table. */
  function Link(a: Frame): Word { a.base | PF_PRESENT | PF_WRITABLE | PF_USER }

  /** The entry that `map` writes into the last-level table. */
  function LeafWord(physicalAddr: Word, flags: Word): Word {
    Target(physicalAddr) | flags | PF_PRESENT
  }

  lemma LinkDecodes(a: Frame)
    requires Aligned(a)
    ensures Present(Link(a)) && Target(Link(a)) == a.base
    ensures Writable(Link(a)) && User(Link(a)) && !NoExecute(Link(a)) && !Huge(Link(a))
  {}

  /** The frame comes back from a leaf exactly when the flags add no frame bit to it. */
  lemma LeafFrame(pa: Word, flags: Word)
    ensures Present(LeafWord(pa, flags))
    ensures Target(LeafWord(pa, flags)) == Target(pa) <==> Target(flags) | Target(pa) == Target(pa)
    ensures Target(flags) == 0 ==> Target(LeafWord(pa, flags)) == Target(pa)
  {
    assert Target(LeafWord(pa, flags)) == Target(flags) | Target(pa);
  }

  /** Each access right of a leaf is the requested one, whatever the frame. */
  lemma LeafRights(pa: Word, flags: Word)
    ensures Writable(LeafWord(pa, flags)) == Writable(flags)
    ensures User(LeafWord(pa, flags)) == User(flags)
    ensures NoExecute(LeafWord(pa, flags)) == NoExecute(flags)
  {
    var frame := Target(pa);
    assert (frame | flags | PF_PRESENT) & PF_WRITABLE == flags & PF_WRITABLE;
    assert (frame | flags | PF_PRESENT) & PF_USER == flags & PF_USER;
    assert (frame | flags | PF_PRESENT) & PF_NO_EXECUTE == flags & PF_NO_EXECUTE;
  }

  // ------------------------------------------------------- virtual addresses

  type Vaddr = v: int | 0 <= v < 0x1_0000_0000_0000_0000
  type Index = i: int | 0 <= i < 512
  type Path = seq<Index>

  /** The four table indices of an address; shifts and low masks are written as division and remainder. */
  function Split(v: Vaddr): (p: Path)
    ensures |p| == 4
  {
    [v / 0x80_0000_0000 % 512, v / 0x4000_0000 % 512, v / 0x20_0000 % 512, v / 0x1000 % 512]
  }

  /** The 36-bit page number that a walk depends on. */
  function PageNumber(v: Vaddr): (n: int)
    ensures 0 <= n < 0x10_0000_0000
  {
    v / 0x1000 % 0x10_0000_0000
  }

  /** The indices are the four base-512 digits of the page number. */
  lemma SplitDigits(v: Vaddr)
    ensures var p := Split(v); var a: int, b: int, c: int, d: int := p[0], p[1], p[2], p[3];
            PageNumber(v) == ((a * 512 + b) * 512 + c) * 512 + d
  {
    var n := v / 0x1000;
    DivInSteps(v, 0x1000, 512);
    DivInSteps(v, 0x20_0000, 512);
    DivInSteps(v, 0x4000_0000, 512);
    BaseDigits(n);
  }

  lemma BaseDigits(n: nat)
    ensures n % 0x10_0000_0000 ==
            (((n / 512 / 512 / 512 % 512) * 512 + n / 512 / 512 % 512) * 512 + n / 512 % 512) * 512 + n % 512
  {
    ModInSteps(n, 512, 0x800_0000);
    ModInSteps(n / 512, 512, 0x4_0000);
    ModInSteps(n / 512 / 512, 512, 512);
  }

  /** Two addresses share all four indices exactly when they lie on the same 36-bit page. */
  lemma SplitInjective(v: Vaddr, w: Vaddr)
    ensures Split(v) == Split(w) <==> PageNumber(v) == PageNumber(w)
  {
    SplitDigits(v);
    SplitDigits(w);
    var p, q := Split(v), Split(w);
    if PageNumber(v) == PageNumber(w) {
      assert p[0] == q[0] && p[1] == q[1] && p[2] == q[2] && p[3] == q[3];
      assert p == q;
    }
  }

  // ------------------------------------------------------------ address space

  /** One address space: the page-table frames it owns, and the frames `phys_alloc` will hand out next. */
  datatype Space = Space(root: Frame, tables: map<Frame, seq<Word>>, supply: seq<Frame>)

  function Zeroed(): (t: seq<Word>)
    ensures |t| == PT_ENTRIES && forall i | 0 <= i < |t| :: t[i] == 0
  {
    seq(PT_ENTRIES, i => 0)
  }

  /** Take the next frame from the allocator and clear it. */
  function Alloc(s: Space): Space
    requires s.supply != []
  {
    Space(s.root, s.tables[s.supply[0] := Zeroed()], s.supply[1..])
  }

  /** Entry `i` of a table that may be absent. */
  function Read(s: Space, t: Option<Frame>, i: Index): Word {
    if t.Some? && t.value in s.tables && i < |s.tables[t.value]| then s.tables[t.value][i] else 0
  }

  /** The table an entry leads to. */
  function Follow(e: Word): Option<Frame> {
    if Present(e) then Some(Frame(Target(e))) else None
  }

  /** The table reached by following a path of indices from the root. */
  function TableAt(s: Space, q: Path): Option<Frame>
    decreases |q|
  {
    if q == [] then Some(s.root) else Follow(Read(s, TableAt(s, q[..|q| - 1]), q[|q| - 1]))
  }

  /** The raw entry a walk reads at the end of a non-empty path; zero when a table on the way is absent. */
  function EntryAt(s: Space, q: Path): Word
    requires q != []
  {
    Read(s, TableAt(s, q[..|q| - 1]), q[|q| - 1])
  }

  /** The translation of a page: its last-level entry, if a full walk reaches a present one. */
  function Leaf(s: Space, q: Path): Option<Word>
    requires |q| == 4
  {
    if Present(EntryAt(s, q)) then Some(EntryAt(s, q)) else None
  }

  ghost predicate Reaches(s: Space, q: Path, t: Frame) {
    |q| <= 3 && TableAt(s, q) == Some(t)
  }

  ghost predicate WellFormedTables(s: Space) {
    && s.root in s.tables
    && (forall t <- s.tables :: Aligned(t) && |s.tables[t]| == PT_ENTRIES)
    && (forall q, t :: Reaches(s, q, t) ==> t in s.tables)
  }

  /** The tables form a tree: no table is reached along two paths. */
  ghost predicate NoSharing(s: Space) {
    forall q, r, t :: Reaches(s, q, t) && Reaches(s, r, t) ==> q == r
  }

  ghost predicate UpperEntriesAreLinks(s: Space) {
    forall q: Path :: 1 <= |q| <= 3 && Present(EntryAt(s, q)) ==>
      EntryAt(s, q) == Link(Frame(Target(EntryAt(s, q))))
  }

  /** What every call of `phys_alloc(1)` promises: a page-aligned frame nobody holds. */
  ghost predicate FreshSupply(s: Space, supply: seq<Frame>) {
    && (forall k | 0 <= k < |supply| :: Aligned(supply[k]) && supply[k] !in s.tables)
    && (forall j, k | 0 <= j < k < |supply| :: supply[j] != supply[k])
  }

  ghost predicate Valid(s: Space) {
    WellFormedTables(s) && NoSharing(s) && UpperEntriesAreLinks(s) && FreshSupply(s, s.supply)
  }

  // -------------------------------------------------------------- operations

  function WriteEntry(s: Space, t: Frame, i: Index, e: Word): Space
    requires t in s.tables && i < |s.tables[t]|
  {
    s.(tables := s.tables[t := s.tables[t][i := e]])
  }

  /** A fresh, cleared table linked in as entry `i` of table `t`. */
  function Linked(s: Space, t: Frame, i: Index): Space
    requires t in s.tables && |s.tables[t]| == PT_ENTRIES && s.supply != []
  {
    WriteEntry(Alloc(s), t, i, Link(s.supply[0]))
  }

  /** `ensure_table` on entry `i` of table `t`. */
  function EnsureTable(s: Space, t: Frame, i: Index): (Space, Option<Frame>)
    requires t in s.tables && |s.tables[t]| == PT_ENTRIES
  {
    var e := s.tables[t][i];
    if Present(e) then (s, Some(Frame(Target(e))))
    else if s.supply == [] then (s, None)
    else (Linked(s, t, i), Some(s.supply[0]))
  }

  // ------------------------------------------------------- frame of one write

  lemma OnlyPath(s: Space, p: Path, r: Path, t: Frame)
    requires NoSharing(s) && Reaches(s, p, t) && |r| <= 3
    ensures TableAt(s, r) == Some(t) ==> r == p
  {
    assert TableAt(s, r) == Some(t) ==> Reaches(s, r, t);
  }

  /** Reading any other slot than the written one gives the old entry. */
  lemma WriteRead(s: Space, p: Path, t: Frame, i: Index, e: Word, r: Path, j: Index)
    requires WellFormedTables(s) && NoSharing(s) && Reaches(s, p, t)
    requires |r| <= 3 && (r != p || j != i)
    ensures Read(WriteEntry(s, t, i, e), TableAt(s, r), j) == Read(s, TableAt(s, r), j)
  {
    OnlyPath(s, p, r, t);
    hide NoSharing, TableAt;
  }

  /** Writing entry `i` of the table at path `p` only affects paths through `p + [i]`. */
  lemma {:induction false} WriteFrame(s: Space, p: Path, t: Frame, i: Index, e: Word, q: Path)
    requires WellFormedTables(s) && NoSharing(s) && Reaches(s, p, t)
    requires |q| <= 4 && !(p + [i] <= q)
    ensures TableAt(WriteEntry(s, t, i, e), q) == TableAt(s, q)
    ensures q != [] ==> EntryAt(WriteEntry(s, t, i, e), q) == EntryAt(s, q)
    decreases |q|
  {
    hide NoSharing, Follow, Read;
    if q != [] {
      var r, j := q[..|q| - 1], q[|q| - 1];
      assert q == r + [j];
      WriteFrame(s, p, t, i, e, r);
      WriteRead(s, p, t, i, e, r, j);
    }
  }

  /** A frame that no table points to can be zeroed without any walk noticing. */
  lemma {:induction false} AllocFrame(s: Space, q: Path)
    requires WellFormedTables(s) && s.supply != [] && s.supply[0] !in s.tables && |q| <= 4
    ensures TableAt(Alloc(s), q) == TableAt(s, q)
    ensures q != [] ==> EntryAt(Alloc(s), q) == EntryAt(s, q)
    decreases |q|
  {
    if q != [] {
      var r := q[..|q| - 1];
      AllocFrame(s, r);
      if TableAt(s, r).Some? {
        assert Reaches(s, r, TableAt(s, r).value);
      }
    }
  }

  /** Nothing is reachable below a missing table. */
  lemma {:induction false} AbsentBelow(s: Space, q: Path, n: nat)
    requires n <= |q| && TableAt(s, q[..n]) == None
    ensures TableAt(s, q) == None
    ensures n < |q| ==> EntryAt(s, q) == 0
    decreases |q|
  {
    if n == |q| {
      assert q[..n] == q;
    } else {
      var r := q[..|q| - 1];
      assert r[..n] == q[..n];
      AbsentBelow(s, r, n);
    }
  }

  // ------------------------------------------------- linking in a fresh table

  ghost predicate CanLink(s: Space, p: Path, t: Frame, i: Index) {
    && Valid(s) && Reaches(s, p, t) && |p| <= 2 && s.supply != []
    && t in s.tables && !Present(s.tables[t][i])
  }

  lemma AllocKeepsTree(s: Space)
    requires Valid(s) && s.supply != []
    ensures WellFormedTables(Alloc(s)) && NoSharing(Alloc(s))
    ensures forall q, t :: Reaches(Alloc(s), q, t) == Reaches(s, q, t)
  {
    forall q: Path, t | |q| <= 3
      ensures Reaches(Alloc(s), q, t) == Reaches(s, q, t)
    {
      AllocFrame(s, q);
    }
  }

  lemma LinkedChild(s: Space, p: Path, t: Frame, i: Index)
    requires CanLink(s, p, t, i)
    ensures TableAt(s, p + [i]) == None
    ensures EntryAt(Linked(s, t, i), p + [i]) == Link(s.supply[0])
    ensures TableAt(Linked(s, t, i), p + [i]) == Some(s.supply[0])
  {
    hide NoSharing, UpperEntriesAreLinks, Link;
    assert (p + [i])[..|p|] == p;
    AllocKeepsTree(s);
    AllocFrame(s, p);
    WriteFrame(Alloc(s), p, t, i, Link(s.supply[0]), p);
    LinkDecodes(s.supply[0]);
  }

  lemma LinkedGrandchild(s: Space, p: Path, t: Frame, i: Index, j: Index)
    requires CanLink(s, p, t, i)
    ensures EntryAt(Linked(s, t, i), p + [i] + [j]) == 0
    ensures TableAt(Linked(s, t, i), p + [i] + [j]) == None
  {
    hide NoSharing, UpperEntriesAreLinks, Link;
    LinkedChild(s, p, t, i);
    var c := p + [i];
    assert (c + [j])[..|c|] == c;
  }

  lemma LinkedBelow(s: Space, p: Path, t: Frame, i: Index, q: Path)
    requires CanLink(s, p, t, i) && p + [i] < q
    ensures TableAt(Linked(s, t, i), q) == None == TableAt(s, q)
    ensures EntryAt(Linked(s, t, i), q) == 0 == EntryAt(s, q)
  {
    hide NoSharing, UpperEntriesAreLinks, FreshSupply, Linked, Present, Target;
    var n := |p| + 1;
    assert q[..n] == p + [i];
    LinkedChild(s, p, t, i);
    AbsentBelow(s, q, n);
    LinkedGrandchild(s, p, t, i, q[n]);
    assert q[..n + 1] == p + [i] + [q[n]];
    AbsentBelow(Linked(s, t, i), q, n + 1);
    assert |q| == n + 1 ==> q[..n + 1] == q;
  }

  /** Linking a fresh table changes exactly one path: the one that now leads to it. */
  lemma LinkedPath(s: Space, p: Path, t: Frame, i: Index, q: Path)
    requires CanLink(s, p, t, i) && |q| <= 4
    ensures TableAt(Linked(s, t, i), q) == if q == p + [i] then Some(s.supply[0]) else TableAt(s, q)
    ensures q != [] ==>
      EntryAt(Linked(s, t, i), q) == if q == p + [i] then Link(s.supply[0]) else EntryAt(s, q)
  {
    if q == p + [i] {
      LinkedChild(s, p, t, i);
    } else if p + [i] <= q {
      LinkedBelow(s, p, t, i, q);
    } else {
      AllocKeepsTree(s);
      AllocFrame(s, q);
      WriteFrame(Alloc(s), p, t, i, Link(s.supply[0]), q);
    }
  }

  lemma LinkedTree(s: Space, p: Path, t: Frame, i: Index)
    requires CanLink(s, p, t, i)
    ensures WellFormedTables(Linked(s, t, i)) && NoSharing(Linked(s, t, i))
  {
    var s', a := Linked(s, t, i), s.supply[0];
    forall q, u | Reaches(s', q, u)
      ensures if q == p + [i] then u == a else Reaches(s, q, u)
    {
      LinkedPath(s, p, t, i, q);
    }
  }

  lemma LinkedLinks(s: Space, p: Path, t: Frame, i: Index)
    requires CanLink(s, p, t, i)
    ensures UpperEntriesAreLinks(Linked(s, t, i))
  {
    var s' := Linked(s, t, i);
    LinkDecodes(s.supply[0]);
    forall q: Path | 1 <= |q| <= 3 && Present(EntryAt(s', q))
      ensures EntryAt(s', q) == Link(Frame(Target(EntryAt(s', q))))
    {
      LinkedPath(s, p, t, i, q);
      assert q == p + [i] || Present(EntryAt(s, q));
    }
  }

  lemma LinkedSupply(s: Space, p: Path, t: Frame, i: Index)
    requires CanLink(s, p, t, i)
    ensures FreshSupply(Linked(s, t, i), Linked(s, t, i).supply)
  {
  }

  lemma LinkedValid(s: Space, p: Path, t: Frame, i: Index)
    requires CanLink(s, p, t, i)
    ensures Valid(Linked(s, t, i))
    ensures forall q: Path | |q| == 4 :: Leaf(Linked(s, t, i), q) == Leaf(s, q)
    ensures Reaches(Linked(s, t, i), p + [i], s.supply[0])
  {
    LinkedTree(s, p, t, i);
    LinkedLinks(s, p, t, i);
    LinkedChild(s, p, t, i);
    LinkedSupply(s, p, t, i);
    hide WellFormedTables, NoSharing, UpperEntriesAreLinks, FreshSupply, EntryAt, TableAt, Present;
    forall q: Path | |q| == 4
      ensures Leaf(Linked(s, t, i), q) == Leaf(s, q)
    {
      LinkedPath(s, p, t, i, q);
    }
  }

  /** `ensure_table` at any level: it fails exactly when the child table is absent and no frame is left, takes a frame
      exactly when the child is absent, changes no translation and no other table, and keeps the tree. */
  lemma EnsureTableCorrect(s: Space, p: Path, t: Frame, i: Index)
    requires Valid(s) && Reaches(s, p, t) && |p| <= 2
    ensures var (s', r) := EnsureTable(s, t, i);
            && Valid(s')
            && (forall q: Path | |q| == 4 :: Leaf(s', q) == Leaf(s, q))
            && (r.None? <==> TableAt(s, p + [i]).None? && s.supply == [])
            && (r.None? || TableAt(s, p + [i]).Some? ==> s' == s)
            && (r.Some? && TableAt(s, p + [i]).None? ==> s'.supply == s.supply[1..])
            && (r.Some? ==> Reaches(s', p + [i], r.value))
            && (forall q: Path | |q| <= 3 && q != p + [i] :: TableAt(s', q) == TableAt(s, q))
  {
    assert (p + [i])[..|p|] == p;
    if !Present(s.tables[t][i]) && s.supply != [] {
      LinkedValid(s, p, t, i);
      hide Valid, WellFormedTables, NoSharing, UpperEntriesAreLinks, FreshSupply;
      forall q: Path | |q| <= 3 && q != p + [i]
        ensures TableAt(Linked(s, t, i), q) == TableAt(s, q)
      {
        LinkedPath(s, p, t, i, q);
      }
    }
  }

  // -------------------------------------------------------- writing the leaf

  ghost predicate SameUpperLevels(s: Space, s': Space) {
    && s'.root == s.root && s'.tables.Keys == s.tables.Keys
    && (forall t <- s'.tables :: |s'.tables[t]| == PT_ENTRIES)
    && (forall q: Path | |q| <= 3 :: TableAt(s', q) == TableAt(s, q))
    && (forall q: Path | 1 <= |q| <= 3 :: EntryAt(s', q) == EntryAt(s, q))
  }

  /** The invariant only speaks of the upper levels and the frames in use. */
  lemma UpperLevelsDecideValidity(s: Space, s': Space)
    requires Valid(s) && SameUpperLevels(s, s') && FreshSupply(s, s'.supply)
    ensures Valid(s')
  {
    hide TableAt, EntryAt, Present, Target, Link;
    assert forall q, u :: Reaches(s', q, u) == Reaches(s, q, u);
  }

  lemma LeafWriteTree(s: Space, p: Path, t: Frame, i: Index, e: Word)
    requires Valid(s) && Reaches(s, p, t) && |p| == 3
    ensures Valid(WriteEntry(s, t, i, e))
  {
    hide NoSharing, UpperEntriesAreLinks, FreshSupply, EntryAt, TableAt;
    var s' := WriteEntry(s, t, i, e);
    forall q: Path | |q| <= 3
      ensures TableAt(s', q) == TableAt(s, q)
      ensures q != [] ==> EntryAt(s', q) == EntryAt(s, q)
    {
      WriteFrame(s, p, t, i, e, q);
    }
    UpperLevelsDecideValidity(s, s');
  }

  lemma LeafWrite(s: Space, p: Path, t: Frame, i: Index, e: Word)
    requires Valid(s) && Reaches(s, p, t) && |p| == 3
    ensures var s' := WriteEntry(s, t, i, e);
            && Valid(s')
            && EntryAt(s', p + [i]) == e
            && (forall q: Path | |q| == 4 && q != p + [i] :: Leaf(s', q) == Leaf(s, q))
  {
    hide NoSharing, UpperEntriesAreLinks, FreshSupply, Present;
    LeafWriteTree(s, p, t, i, e);
    WriteFrame(s, p, t, i, e, p);
    assert (p + [i])[..3] == p;
    forall q: Path | |q| == 4 && q != p + [i]
      ensures EntryAt(WriteEntry(s, t, i, e), q) == EntryAt(s, q)
    {
      WriteFrame(s, p, t, i, e, q);
    }
  }

  // ------------------------------------------------------------ map and unmap

  ghost predicate SameLeaves(s: Space, s': Space) {
    forall q: Path | |q| == 4 :: Leaf(s', q) == Leaf(s, q)
  }

  /** One more level of the descent of `map`; a failed level stays failed. */
  ghost function DescendFrom(d: (Space, Option<Frame>), i: Index): (Space, Option<Frame>) {
    if d.1.Some? && d.1.value in d.0.tables && |d.0.tables[d.1.value]| == PT_ENTRIES
    then EnsureTable(d.0, d.1.value, i) else (d.0, None)
  }

  /** Walk down the first `n` levels of a path, creating tables as needed, as `map` does three times. */
  ghost function Descend(s: Space, q: Path, n: nat): (Space, Option<Frame>)
    requires |q| == 4 && n <= 3
  {
    if n == 0 then (s, Some(s.root)) else DescendFrom(Descend(s, q, n - 1), q[n - 1])
  }

  ghost predicate Descended(s: Space, p: Path, d: (Space, Option<Frame>)) {
    && Valid(d.0) && SameLeaves(s, d.0)
    && (d.1.None? ==> d.0.supply == [])
    && (d.1.Some? ==> Reaches(d.0, p, d.1.value))
  }

  lemma DescendStep(s: Space, p: Path, d: (Space, Option<Frame>), i: Index)
    requires Descended(s, p, d) && |p| <= 2
    ensures Descended(s, p + [i], DescendFrom(d, i))
  {
    if d.1.Some? {
      EnsureTableCorrect(d.0, p, d.1.value, i);
    }
  }

  lemma {:induction false} DescendCorrect(s: Space, q: Path, n: nat)
    requires Valid(s) && |q| == 4 && n <= 3
    ensures Descended(s, q[..n], Descend(s, q, n))
  {
    hide Valid, NoSharing;
    if n > 0 {
      DescendCorrect(s, q, n - 1);
      DescendStep(s, q[..n - 1], Descend(s, q, n - 1), q[n - 1]);
      assert q[..n - 1] + [q[n - 1]] == q[..n];
    }
  }

  /** How many of the tables on the first `n` levels of a path are absent. */
  ghost function Missing(s: Space, q: Path, n: nat): nat
    requires n <= |q|
  {
    if n == 0 then 0 else Missing(s, q, n - 1) + (if TableAt(s, q[..n]).None? then 1 else 0)
  }

  /** The descent succeeds exactly when there is a frame for each absent table; it takes just those, and creates no
      table further down. */
  lemma {:induction false} DescendCounts(s: Space, q: Path, n: nat)
    requires Valid(s) && |q| == 4 && n <= 3
    ensures var d := Descend(s, q, n); var k := Missing(s, q, n);
            && (d.1.Some? <==> k <= |s.supply|)
            && d.0.supply == (if k <= |s.supply| then s.supply[k..] else [])
            && (forall m | n < m <= 3 :: TableAt(d.0, q[..m]) == TableAt(s, q[..m]))
  {
    hide Valid, NoSharing, TableAt, EnsureTable;
    if n > 0 {
      var d := Descend(s, q, n - 1);
      DescendCounts(s, q, n - 1);
      DescendCorrect(s, q, n - 1);
      assert q[..n - 1] + [q[n - 1]] == q[..n];
      if d.1.Some? {
        DescendTable(s, q, n - 1);
        EnsureTableCorrect(d.0, q[..n - 1], d.1.value, q[n - 1]);
      }
    }
  }

  /** Write the last-level entry for a path once the descent has found its table. */
  ghost function SetLeaf(s: Space, t: Option<Frame>, i: Index, e: Word): (Space, bool) {
    if t.Some? && t.value in s.tables && |s.tables[t.value]| == PT_ENTRIES
    then (WriteEntry(s, t.value, i, e), true) else (s, false)
  }

  /** `PagingContext.map`: the new space and whether the call succeeded. */
  ghost function Map(s: Space, q: Path, pa: Word, flags: Word): (Space, bool)
    requires |q| == 4
  {
    var d := Descend(s, q, 3);
    SetLeaf(d.0, d.1, q[3], LeafWord(pa, flags))
  }

  /** `PagingContext.unmap`. */
  ghost function Unmap(s: Space, q: Path): Space
    requires |q| == 4
  {
    SetLeaf(s, TableAt(s, q[..3]), q[3], 0).0
  }

  /** `map` succeeds exactly when there is a frame for each absent table and takes just those; it sets the translation
      of exactly one path, and out of memory changes no translation at all. */
  lemma MapCorrect(s: Space, q: Path, pa: Word, flags: Word)
    requires Valid(s) && |q| == 4
    ensures Valid(Map(s, q, pa, flags).0)
    ensures Map(s, q, pa, flags).1 <==> Missing(s, q, 3) <= |s.supply|
    ensures Map(s, q, pa, flags).0.supply ==
            if Map(s, q, pa, flags).1 then s.supply[Missing(s, q, 3)..] else []
    ensures forall r: Path | |r| == 4 :: Leaf(Map(s, q, pa, flags).0, r) ==
              if Map(s, q, pa, flags).1 && r == q then Some(LeafWord(pa, flags)) else Leaf(s, r)
  {
    hide NoSharing, UpperEntriesAreLinks, FreshSupply, TableAt, EntryAt, Present, LeafWord, Descend, Missing;
    DescendCorrect(s, q, 3);
    DescendCounts(s, q, 3);
    var d := Descend(s, q, 3);
    if d.1.Some? {
      LeafWrite(d.0, q[..3], d.1.value, q[3], LeafWord(pa, flags));
      LeafFrame(pa, flags);
      assert q[..3] + [q[3]] == q;
    }
  }

  /** A page with a translation has all its tables, and so has every page beside it: mapping them takes no frame. */
  lemma NeighboursNeedNoFrames(s: Space, q: Path, r: Path)
    requires |q| == |r| == 4 && q[..3] == r[..3] && Leaf(s, q).Some?
    ensures Missing(s, r, 3) == 0
  {
    forall n | 1 <= n <= 3
      ensures TableAt(s, r[..n]).Some?
    {
      assert r[..n] == q[..3][..n] == q[..n];
      if TableAt(s, q[..n]) == None {
        AbsentBelow(s, q, n);
      }
    }
    hide TableAt;
    assert Missing(s, r, 3) == Missing(s, r, 2) == Missing(s, r, 1) == Missing(s, r, 0);
  }

  /** `unmap` removes the translation of exactly one path. */
  lemma UnmapCorrect(s: Space, q: Path)
    requires Valid(s) && |q| == 4
    ensures Valid(Unmap(s, q))
    ensures forall r: Path | |r| == 4 :: Leaf(Unmap(s, q), r) == if r == q then None else Leaf(s, r)
  {
    hide NoSharing, UpperEntriesAreLinks, FreshSupply, TableAt;
    var t := TableAt(s, q[..3]);
    assert q[..3] + [q[3]] == q;
    if t.Some? {
      assert Reaches(s, q[..3], t.value);
      LeafWrite(s, q[..3], t.value, q[3], 0);
    } else {
      AbsentBelow(s, q, 3);
    }
  }

  // ------------------------------------------------------------ flat refinement

  /** The abstract address space: page number to last-level entry. */
  type Flat = map<int, Word>

  datatype Op =
    | MapPage(v: Vaddr, pa: Word, flags: Word)
    | UnmapPage(v: Vaddr)
    | Refill(frames: seq<Frame>)  // the allocator makes other free frames available

  ghost function Apply(s: Space, op: Op): Space {
    match op
    case MapPage(v, pa, flags) => Map(s, Split(v), pa, flags).0
    case UnmapPage(v) => Unmap(s, Split(v))
    case Refill(frames) => s.(supply := frames)
  }

  ghost function ApplyFlat(s: Space, f: Flat, op: Op): Flat {
    match op
    case MapPage(v, pa, flags) =>
      if Map(s, Split(v), pa, flags).1 then f[PageNumber(v) := LeafWord(pa, flags)] else f
    case UnmapPage(v) => f - {PageNumber(v)}
    case Refill(frames) => f
  }

  /** Every walk gives what the flat map holds for the page number, and nothing where it holds nothing. */
  ghost predicate Refines(s: Space, f: Flat) {
    forall v: Vaddr :: Leaf(s, Split(v)) == Lookup(f, PageNumber(v))
  }

  ghost function Lookup(f: Flat, n: int): Option<Word> {
    if n in f then Some(f[n]) else None
  }

  /** The allocator keeps its contract: refilled frames are aligned, distinct and not in use. */
  ghost predicate Legal(s: Space, op: Op) {
    op.Refill? ==> FreshSupply(s, op.frames)
  }

  lemma {:induction false} RefillFrame(s: Space, frames: seq<Frame>, q: Path)
    ensures TableAt(s.(supply := frames), q) == TableAt(s, q)
    decreases |q|
  {
    if q != [] {
      RefillFrame(s, frames, q[..|q| - 1]);
    }
  }

  lemma RefillKeepsTree(s: Space, frames: seq<Frame>)
    requires Valid(s) && FreshSupply(s, frames)
    ensures Valid(s.(supply := frames)) && SameLeaves(s, s.(supply := frames))
  {
    hide NoSharing, UpperEntriesAreLinks, FreshSupply, TableAt, Present;
    var s' := s.(supply := frames);
    forall q: Path
      ensures TableAt(s', q) == TableAt(s, q)
      ensures q != [] ==> EntryAt(s', q) == EntryAt(s, q)
    {
      RefillFrame(s, frames, q);
      if q != [] {
        RefillFrame(s, frames, q[..|q| - 1]);
      }
    }
    UpperLevelsDecideValidity(s, s');
  }

  lemma MapRefines(s: Space, f: Flat, v: Vaddr, pa: Word, flags: Word)
    requires Valid(s) && Refines(s, f)
    ensures Refines(Apply(s, MapPage(v, pa, flags)), ApplyFlat(s, f, MapPage(v, pa, flags)))
  {
    hide Valid, Map, Split, PageNumber, LeafWord;
    MapCorrect(s, Split(v), pa, flags);
    forall w: Vaddr {
      SplitInjective(v, w);
    }
  }

  lemma StepRefines(s: Space, f: Flat, op: Op)
    requires Valid(s) && Refines(s, f) && Legal(s, op)
    ensures Valid(Apply(s, op)) && Refines(Apply(s, op), ApplyFlat(s, f, op))
  {
    hide Valid, Map, Unmap, Split, PageNumber, LeafWord;
    match op
    case MapPage(v, pa, flags) =>
      MapCorrect(s, Split(v), pa, flags);
      MapRefines(s, f, v, pa, flags);
    case UnmapPage(v) =>
      UnmapCorrect(s, Split(v));
      forall w: Vaddr {
        SplitInjective(v, w);
      }
    case Refill(frames) =>
      RefillKeepsTree(s, frames);
  }

  /** A freshly created space and its runs. */
  function Created(frame: Frame, supply: seq<Frame>): Space {
    Space(frame, map[frame := Zeroed()], supply)
  }

  lemma {:induction false} CreatedIsEmpty(frame: Frame, supply: seq<Frame>, q: Path)
    requires q != []
    ensures TableAt(Created(frame, supply), q) == None && EntryAt(Created(frame, supply), q) == 0
    decreases |q|
  {}

  lemma CreatedValid(frame: Frame, supply: seq<Frame>)
    requires Aligned(frame) && FreshSupply(Created(frame, supply), supply)
    ensures Valid(Created(frame, supply)) && Refines(Created(frame, supply), map[])
  {
    var s := Created(frame, supply);
    forall q: Path | q != []
      ensures TableAt(s, q) == None && EntryAt(s, q) == 0
    {
      CreatedIsEmpty(frame, supply, q);
    }
    assert forall q, t :: Reaches(s, q, t) ==> q == [] && t == frame;
  }

  ghost predicate LegalRun(s: Space, ops: seq<Op>)
    decreases |ops|
  {
    ops != [] ==> Legal(s, ops[0]) && LegalRun(Apply(s, ops[0]), ops[1..])
  }

  ghost function Run(s: Space, ops: seq<Op>): Space
    decreases |ops|
  {
    if ops == [] then s else Run(Apply(s, ops[0]), ops[1..])
  }

  ghost function RunFlat(s: Space, f: Flat, ops: seq<Op>): Flat
    decreases |ops|
  {
    if ops == [] then f else RunFlat(Apply(s, ops[0]), ApplyFlat(s, f, ops[0]), ops[1..])
  }

  lemma {:induction false} RunFromRefines(s: Space, f: Flat, ops: seq<Op>)
    requires Valid(s) && Refines(s, f) && LegalRun(s, ops)
    ensures Valid(Run(s, ops)) && Refines(Run(s, ops), RunFlat(s, f, ops))
    decreases |ops|
  {
    hide Valid, Refines, Legal, Apply, ApplyFlat;
    if ops != [] {
      StepRefines(s, f, ops[0]);
      RunFromRefines(Apply(s, ops[0]), ApplyFlat(s, f, ops[0]), ops[1..]);
    }
  }

  /** On every run of map and unmap over a created space, the walk is the flat map. */
  lemma EveryRunRefinesFlatMap(frame: Frame, supply: seq<Frame>, ops: seq<Op>)
    requires Aligned(frame) && FreshSupply(Created(frame, supply), supply)
    requires LegalRun(Created(frame, supply), ops)
    ensures var s := Created(frame, supply);
            Valid(Run(s, ops)) && Refines(Run(s, ops), RunFlat(s, map[], ops))
  {
    hide Valid, Refines, LegalRun, Run, RunFlat;
    CreatedValid(frame, supply);
    RunFromRefines(Created(frame, supply), map[], ops);
  }

  // -------------------------------------------------------- access rights

  /** Outcome of the processor's walk, with rights accumulated over the levels
      (section 4.6 of Intel SDM volume 3A). */
  datatype Access =
    | Fault
    | LargePage(level: nat)
    | Page(frame: Word, writable: bool, user: bool, noExecute: bool)

  /** The processor's walk for levels `n` to 4, starting in table `t`. */
  function HardwareWalk(s: Space, t: Frame, q: Path, n: nat, w: bool, u: bool, x: bool): Access
    requires |q| == 4 && n < 4
    decreases 4 - n
  {
    var e := Read(s, Some(t), q[n]);
    if !Present(e) then Fault
    else if n == 3 then Page(Target(e), w && Writable(e), u && User(e), x || NoExecute(e))
    else if 0 < n && Huge(e) then LargePage(n)
    else HardwareWalk(s, Frame(Target(e)), q, n + 1, w && Writable(e), u && User(e), x || NoExecute(e))
  }

  function Walk(s: Space, v: Vaddr): Access {
    HardwareWalk(s, s.root, Split(v), 0, true, true, false)
  }

  function AccessOf(leaf: Option<Word>): Access {
    match leaf
    case None => Fault
    case Some(e) => Page(Target(e), Writable(e), User(e), NoExecute(e))
  }

  /** One upper level of a walk: a present entry grants every right and leads to the next table. */
  lemma UpperEntry(s: Space, t: Frame, q: Path, n: nat)
    requires Valid(s) && |q| == 4 && n < 3 && TableAt(s, q[..n]) == Some(t)
    ensures var e := Read(s, Some(t), q[n]);
            if Present(e) then
              && Writable(e) && User(e) && !NoExecute(e) && !Huge(e)
              && TableAt(s, q[..n + 1]) == Some(Frame(Target(e)))
            else Leaf(s, q) == None
  {
    hide NoSharing, WellFormedTables, FreshSupply;
    var p := q[..n + 1];
    assert p[..n] == q[..n];
    var e := EntryAt(s, p);
    if Present(e) {
      LinkDecodes(Frame(Target(e)));
    } else {
      AbsentBelow(s, q, n + 1);
    }
  }

  lemma {:induction false} UpperLevelsNeverNarrow(s: Space, t: Frame, q: Path, n: nat)
    requires Valid(s) && |q| == 4 && n < 4 && TableAt(s, q[..n]) == Some(t)
    ensures HardwareWalk(s, t, q, n, true, true, false) == AccessOf(Leaf(s, q))
    decreases 4 - n
  {
    hide Valid, TableAt, Read, Present, Writable, User, NoExecute, Huge, Target;
    var e := Read(s, Some(t), q[n]);
    if n < 3 {
      UpperEntry(s, t, q, n);
      if Present(e) {
        UpperLevelsNeverNarrow(s, Frame(Target(e)), q, n + 1);
      }
    }
  }

  /** On every run over a created space, the processor's walk grants what the flat map's entry grants, and faults
      exactly where the flat map has none. */
  lemma EveryRunWalksFlatMap(frame: Frame, supply: seq<Frame>, ops: seq<Op>, v: Vaddr)
    requires Aligned(frame) && FreshSupply(Created(frame, supply), supply)
    requires LegalRun(Created(frame, supply), ops)
    ensures var s := Created(frame, supply);
            Walk(Run(s, ops), v) == AccessOf(Lookup(RunFlat(s, map[], ops), PageNumber(v)))
  {
    hide Valid, LegalRun, Run, RunFlat, Split, PageNumber, Leaf, AccessOf;
    EveryRunRefinesFlatMap(frame, supply, ops);
    var s' := Run(Created(frame, supply), ops);
    RootTable(s');
    assert Split(v)[..0] == [];
    UpperLevelsNeverNarrow(s', s'.root, Split(v), 0);
  }

  /** After a successful `map`, the processor's walk grants exactly the requested rights on the requested frame. */
  lemma MappedRights(s: Space, v: Vaddr, pa: Word, flags: Word)
    requires Valid(s) && Map(s, Split(v), pa, flags).1 && flags & PHYS_ADDR_MASK == 0
    ensures Walk(Map(s, Split(v), pa, flags).0, v) ==
            Page(Target(pa), Writable(flags), User(flags), NoExecute(flags))
  {
    hide Split, Map, NoSharing, UpperEntriesAreLinks, FreshSupply;
    var s' := Map(s, Split(v), pa, flags).0;
    MapCorrect(s, Split(v), pa, flags);
    assert Split(v)[..0] == [];
    UpperLevelsNeverNarrow(s', s'.root, Split(v), 0);
    LeafFrame(pa, flags);
    LeafRights(pa, flags);
  }

  // ------------------------------------------------------------ the class

  /** `PagingContext` together with the page-table memory it writes in place. */
  class PagingContext {
    var pml4: Frame
    var tables: map<Frame, seq<Word>>
    var supply: seq<Frame>

    ghost function State(): Space
      reads this
    {
      Space(pml4, tables, supply)
    }

    constructor (frame: Frame, frames: seq<Frame>)
      ensures State() == Created(frame, frames)
    {
      pml4 := frame;
      tables := map[frame := Zeroed()];
      supply := frames;
    }

    /** `create`: a new empty address space, or null when no frame is left for its root. */
    static method Create(frames: seq<Frame>) returns (ctx: PagingContext?)
      requires forall k | 0 <= k < |frames| :: Aligned(frames[k])
      requires forall j, k | 0 <= j < k < |frames| :: frames[j] != frames[k]
      ensures ctx == null <==> frames == []
      ensures ctx != null ==> fresh(ctx) && Valid(ctx.State()) && Refines(ctx.State(), map[])
      ensures ctx != null ==> ctx.supply == frames[1..]
    {
      if frames == [] {
        return null;
      }
      ctx := new PagingContext(frames[0], frames[1..]);
      assert forall k | 0 <= k < |frames| - 1 :: frames[1..][k] == frames[k + 1];
      CreatedValid(frames[0], frames[1..]);
    }

    method EnsureTableAt(t: Frame, i: Index) returns (child: Option<Frame>)
      requires t in tables && |tables[t]| == PT_ENTRIES
      modifies this
      ensures (State(), child) == EnsureTable(old(State()), t, i)
    {
      var entry := tables[t][i];
      if Present(entry) {
        return Some(Frame(Target(entry)));
      }
      if supply == [] {
        return None;
      }
      var table := supply[0];
      supply := supply[1..];
      tables := tables[table := Zeroed()];
      tables := tables[t := tables[t][i := Link(table)]];
      return Some(table);
    }

    /** `map`: false stands for the out-of-memory error. */
    method MapPage(v: Vaddr, physicalAddr: Word, flags: Word) returns (ok: bool)
      requires Valid(State())
      modifies this
      ensures (State(), ok) == Map(old(State()), Split(v), physicalAddr, flags)
      ensures Valid(State())
    {
      hide Valid, EnsureTable, LeafWord, Split, Leaf;
      ghost var s := State();
      var va := Split(v);
      MapCorrect(s, va, physicalAddr, flags);
      DescendTable(s, va, 0);
      var pdpt := EnsureTableAt(pml4, va[0]);
      assert (State(), pdpt) == Descend(s, va, 1);
      DescendTable(s, va, 1);
      if pdpt.None? {
        assert Descend(s, va, 2) == (State(), None);
        return false;
      }
      var pd := EnsureTableAt(pdpt.value, va[1]);
      assert (State(), pd) == Descend(s, va, 2);
      DescendTable(s, va, 2);
      if pd.None? { return false; }
      var pt := EnsureTableAt(pd.value, va[2]);
      assert (State(), pt) == Descend(s, va, 3);
      DescendTable(s, va, 3);
      if pt.None? { return false; }
      tables := tables[pt.value := tables[pt.value][va[3] := LeafWord(physicalAddr, flags)]];
      return true;
    }

    /** `unmap`. */
    method UnmapPage(v: Vaddr)
      requires Valid(State())
      modifies this
      ensures State() == Unmap(old(State()), Split(v))
      ensures Valid(State())
    {
      hide Valid, Split, TableAt, Present, Leaf;
      ghost var s := State();
      var va := Split(v);
      UnmapCorrect(s, va);
      UnmapLevel(s, va, 0, pml4) by { assert va[..0] == []; RootTable(s); }
      var pml4e := tables[pml4][va[0]];
      if !Present(pml4e) { return; }
      var pdpt := Frame(Target(pml4e));
      UnmapLevel(s, va, 1, pdpt);
      var pdpte := tables[pdpt][va[1]];
      if !Present(pdpte) { return; }
      var pd := Frame(Target(pdpte));
      UnmapLevel(s, va, 2, pd);
      var pde := tables[pd][va[2]];
      if !Present(pde) { return; }
      var pt := Frame(Target(pde));
      UnmapLevel(s, va, 3, pt);
      tables := tables[pt := tables[pt][va[3] := 0]];
    }
  }

  lemma RootTable(s: Space)
    ensures TableAt(s, []) == Some(s.root)
  {}

  /** The table each level of `map` continues from is a full table in memory. */
  lemma DescendTable(s: Space, q: Path, n: nat)
    requires Valid(s) && |q| == 4 && n <= 3
    ensures var d := Descend(s, q, n);
            d.1.Some? ==> d.1.value in d.0.tables && |d.0.tables[d.1.value]| == PT_ENTRIES
  {
    hide NoSharing, UpperEntriesAreLinks, FreshSupply;
    DescendCorrect(s, q, n);
  }

  /** One level of `unmap`: either the next table is found in memory or the page has no table at all. */
  lemma UnmapLevel(s: Space, q: Path, n: nat, t: Frame)
    requires Valid(s) && |q| == 4 && n <= 3 && TableAt(s, q[..n]) == Some(t)
    ensures t in s.tables && |s.tables[t]| == PT_ENTRIES
    ensures n < 3 ==> var e := s.tables[t][q[n]];
              if Present(e) then TableAt(s, q[..n + 1]) == Some(Frame(Target(e))) else TableAt(s, q[..3]) == None
  {
    hide NoSharing, UpperEntriesAreLinks, FreshSupply;
    assert Reaches(s, q[..n], t);
    if n < 3 {
      assert q[..n + 1][..n] == q[..n];
      if !Present(s.tables[t][q[n]]) {
        assert q[..3][..n + 1] == q[..n + 1];
        AbsentBelow(s, q[..3], n + 1);
      }
    }
  }
}
