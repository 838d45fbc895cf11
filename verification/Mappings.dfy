/**
 * The edits of kernel/paging.c on a page-table tree whose tables come from the page pool, and what
 * each of them does to every translation.
 */
module Mappings {
  import opened Words
  import opened PhysicalMemory
  import opened PagePool
  import opened PageTables

  datatype Space = Space(pool: Pool, tables: Labels)

  /** No page-table frame is on the free list. */
  ghost predicate TablesHeld(s: Space) {
    forall f :: f in s.tables && f >= FIRST_FRAME ==> f - FIRST_FRAME !in s.pool.free
  }

  ghost predicate Good(s: Space, root: nat) {
    Valid(s.pool) && Tree(s.pool.mem, root, s.tables) && TablesHeld(s)
  }

  /** PRESENT | WRITABLE, with or without USER. */
  predicate LinkFlags(link: U64) {
    link == 3 || link == 7
  }

  function LinkEntry(f: nat, link: U64): U64
    requires PAGE_SIZE * f < TWO_52 && LinkFlags(link)
  {
    PAGE_SIZE * f + link
  }

  lemma LinkEntryBits(f: nat, link: U64)
    requires PAGE_SIZE * f < TWO_52 && LinkFlags(link)
    ensures var e := LinkEntry(f, link);
      && Present(e) && !Huge(e) && e < TWO_52 && TableOf(e) == f && e / PAGE_SIZE == f
      && Writable(e) == Writable(link) && User(e) == User(link)
  {
    FlagBits(2048 * f, 1024 * f, 512 * f, link);
    DropLow(32 * f, link);
    FrameOfSum(f, link);
  }

  /** The low three flags of a sum whose other part is a multiple of 4096. */
  lemma FlagBits(a: nat, b: nat, c: nat, link: nat)
    requires a == 2 * b && b == 2 * c
    ensures (2 * a + link) % 2 == link % 2
    ensures (2 * a + link) / 2 % 2 == link / 2 % 2
    ensures (2 * a + link) / 4 % 2 == link / 4 % 2
  {
    Halve(a, link);
    Halve(b, link / 2);
    Halve(c, link / 4);
  }

  lemma Halve(a: nat, b: nat)
    ensures (2 * a + b) / 2 == a + b / 2 && (2 * a + b) % 2 == b % 2
  {
  }

  lemma DropLow(a: nat, k: nat)
    requires k < 8
    ensures (128 * a + k) / 128 == a
  {
  }

  lemma FrameOfSum(f: nat, k: nat)
    requires k < 0x1000
    ensures (0x1000 * f + k) / 0x1000 == f
  {
  }

  /** A page handed out by the pool has a frame that fits a table entry and is in no tree. */
  lemma FreshFrame(s: Space, root: nat)
    requires Good(s, root) && Get(s.pool).1.Some?
    ensures var f := FIRST_FRAME + Get(s.pool).1.value;
      PAGE_SIZE * f < TWO_52 && f !in s.tables
  {
    var i := Get(s.pool).1.value;
    assert i in s.pool.free && i in Pages(s.pool.total);
    GetIs(s.pool, i);
  }

  // ---------------------------------------------------------------- one level

  lemma FrameFits(p: Pool)
    requires Valid(p) && Get(p).1.Some?
    ensures PAGE_SIZE * (FIRST_FRAME + Get(p).1.value) < TWO_52
    ensures PageAddress(Get(p).1.value) == PAGE_SIZE * (FIRST_FRAME + Get(p).1.value)
  {
    GetIs(p, Get(p).1.value);
  }

  /** Take a page, clear it and hang it at entry `i` of `table`. */
  ghost function LinkNew(s: Space, table: nat, i: nat, link: U64): Space
    requires Valid(s.pool) && Get(s.pool).1.Some? && LinkFlags(link) && table in s.tables && i < ENTRIES
  {
    FrameFits(s.pool);
    var f := FIRST_FRAME + Get(s.pool).1.value;
    var q := Get(s.pool).0;
    Space(q.(mem := Write(q.mem, table, i, LinkEntry(f, link))), s.tables[f := s.tables[table] + [i]])
  }

  /**
   * The block repeated at each level: use the table behind entry `i`, or take a page, clear it
   * and hang it there (kernel/paging.c:135-149, 152-166, 38-54, 62-76).
   */
  ghost function EnsureTable(s: Space, root: nat, table: nat, i: nat, link: U64): (r: (Space, Option<nat>))
    requires Good(s, root) && LinkFlags(link) && table in s.tables && i < ENTRIES
  {
    var e := Entry(s.pool.mem, table, i);
    if Present(e) then (s, Some(e / PAGE_SIZE))
    else match Get(s.pool).1
      case None => (s, None)
      case Some(k) => (LinkNew(s, table, i, link), Some(FIRST_FRAME + k))
  }

  /** The linking branch spelt out. */
  lemma EnsureTableIs(s: Space, root: nat, table: nat, i: nat, link: U64, k: nat)
    requires Good(s, root) && LinkFlags(link) && table in s.tables && i < ENTRIES
    requires !Present(Entry(s.pool.mem, table, i)) && Get(s.pool).1 == Some(k)
    ensures var f := FIRST_FRAME + k;
      && PAGE_SIZE * f < TWO_52 && PageAddress(k) == PAGE_SIZE * f
      && EnsureTable(s, root, table, i, link) ==
         (Space(Get(s.pool).0.(mem := Write(Get(s.pool).0.mem, table, i, LinkEntry(f, link))),
                s.tables[f := s.tables[table] + [i]]), Some(f))
  {
    FreshFrame(s, root);
    GetIs(s.pool, k);
  }

  lemma LinkAgrees(s: Space, root: nat, table: nat, i: nat, link: U64)
    requires Good(s, root) && LinkFlags(link) && table in s.tables && i < ENTRIES
    requires !Present(Entry(s.pool.mem, table, i)) && Get(s.pool).1.Some?
    ensures var f := FIRST_FRAME + Get(s.pool).1.value;
      var m' := EnsureTable(s, root, table, i, link).0.pool.mem;
      && PAGE_SIZE * f < TWO_52
      && AgreeBut(s.pool.mem, m', s.tables, table, i)
      && Entry(m', table, i) == LinkEntry(f, link)
      && forall j: nat :: j < ENTRIES ==> Entry(m', f, j) == 0
  {
    FreshFrame(s, root);
    GetIs(s.pool, Get(s.pool).1.value);
  }

  /** The lowest free page was taken, cleared and hung at entry `i` of `table`; nothing else changed. */
  ghost predicate Hung(p: Pool, q: Pool, table: nat, i: nat, link: U64)
    requires i < ENTRIES
  {
    && p.free != {}
    && var f := 256 + Least(p.free);
    && q.end == p.end && q.total == p.total && q.free == p.free - {f - 256} && q.used == p.used + 1
    && forall g: nat, j: nat :: j < ENTRIES ==>
         Entry(q.mem, g, j)
         == (if g == table && j == i then 0x1000 * f + link else if g == f then 0 else Entry(p.mem, g, j))
  }

  /** One word was written, and nothing else changed. */
  ghost predicate Wrote(p: Pool, q: Pool, table: nat, i: nat, e: U64)
    requires i < ENTRIES
  {
    && q == p.(mem := q.mem)
    && forall g: nat, j: nat :: j < ENTRIES ==>
         Entry(q.mem, g, j) == (if g == table && j == i then e else Entry(p.mem, g, j))
  }

  /** One level of the way down: a new table where there was none, if there is a page for it. */
  ghost predicate Level(p: Pool, q: Pool, table: nat, i: nat, link: U64)
    requires i < ENTRIES
  {
    if Present(Entry(p.mem, table, i)) || p.free == {} then q == p else Hung(p, q, table, i, link)
  }

  /** The words one level writes: an address with the link flags added, and a table of zeros. */
  lemma EnsureTableWrites(s: Space, root: nat, table: nat, i: nat, link: U64)
    requires Good(s, root) && LinkFlags(link) && table in s.tables && |s.tables[table]| < 2 && i < ENTRIES
    ensures var (s', t) := EnsureTable(s, root, table, i, link);
      && Level(s.pool, s'.pool, table, i, link)
      && t == if Present(Entry(s'.pool.mem, table, i)) then Some(TableOf(Entry(s'.pool.mem, table, i))) else None
  {
    EnsureTableGood(s, root, table, i, link);
    if !Present(Entry(s.pool.mem, table, i)) && s.pool.free != {} {
      FreshFrame(s, root);
      GetIs(s.pool, Least(s.pool.free));
    }
  }

  lemma LinkCloses(s: Space, root: nat, table: nat, i: nat, link: U64)
    requires Good(s, root) && LinkFlags(link) && table in s.tables && |s.tables[table]| < 2 && i < ENTRIES
    requires !Present(Entry(s.pool.mem, table, i)) && Get(s.pool).1.Some?
    ensures var s' := EnsureTable(s, root, table, i, link).0;
      Closed(s'.pool.mem, s'.tables)
  {
    var s' := EnsureTable(s, root, table, i, link).0;
    var m, m' := s.pool.mem, s'.pool.mem;
    var f := FIRST_FRAME + Get(s.pool).1.value;
    FreshFrame(s, root);
    LinkAgrees(s, root, table, i, link);
    LinkEntryBits(f, link);
    forall g: nat, j: nat | g in s'.tables && j < ENTRIES && PointsDown(|s'.tables[g]|, Entry(m', g, j))
      ensures Linked(s'.tables, s'.tables[g] + [j], Entry(m', g, j))
    {
      if g != f && !(g == table && j == i) {
        assert Entry(m', g, j) == Entry(m, g, j);
        assert Linked(s.tables, s.tables[g] + [j], Entry(m, g, j));
      }
    }
  }

  lemma EnsureTableGood(s: Space, root: nat, table: nat, i: nat, link: U64)
    requires Good(s, root) && LinkFlags(link) && table in s.tables && |s.tables[table]| < 2 && i < ENTRIES
    ensures var (s', t) := EnsureTable(s, root, table, i, link);
      && Good(s', root)
      && (forall f :: f in s.tables ==> f in s'.tables && s'.tables[f] == s.tables[f])
      && (t.None? ==> s' == s)
      && (t.Some? ==> t.value in s'.tables && s'.tables[t.value] == s.tables[table] + [i]
                      && PointsDown(|s.tables[table]|, Entry(s'.pool.mem, table, i))
                      && TableOf(Entry(s'.pool.mem, table, i)) == t.value)
  {
    var m := s.pool.mem;
    var e := Entry(m, table, i);
    if Present(e) {
      assert Linked(s.tables, s.tables[table] + [i], e);
    } else if Get(s.pool).1.Some? {
      LinkGood(s, root, table, i, link);
      LinkAgrees(s, root, table, i, link);
      LinkEntryBits(FIRST_FRAME + Get(s.pool).1.value, link);
    }
  }

  /** A page from the free list, hung in the tree, leaves both in order. */
  lemma LinkGood(s: Space, root: nat, table: nat, i: nat, link: U64)
    requires Good(s, root) && LinkFlags(link) && table in s.tables && |s.tables[table]| < 2 && i < ENTRIES
    requires !Present(Entry(s.pool.mem, table, i)) && Get(s.pool).1.Some?
    ensures Good(EnsureTable(s, root, table, i, link).0, root) && FIRST_FRAME + Get(s.pool).1.value !in s.tables
  {
    FreshFrame(s, root);
    LinkCloses(s, root, table, i, link);
    GetIs(s.pool, Get(s.pool).1.value);
  }

  /** `entry & ~0xFFF` is the address of the table just ensured. */
  lemma EnsuredAddress(s: Space, root: nat, table: nat, i: nat, link: U64)
    requires Good(s, root) && LinkFlags(link) && table in s.tables && |s.tables[table]| < 2 && i < ENTRIES
    ensures var (s', t) := EnsureTable(s, root, table, i, link);
      t.Some? ==> var e := Entry(s'.pool.mem, table, i); e - e % PAGE_SIZE == t.value * PAGE_SIZE
  {
    var (s', t) := EnsureTable(s, root, table, i, link);
    EnsureTableGood(s, root, table, i, link);
    if t.Some? {
      assert Linked(s'.tables, s'.tables[table] + [i], Entry(s'.pool.mem, table, i));
    }
  }

  /** Whether or not a table had to be made, no translation and no inherited right changes. */
  lemma EnsureTableInvisible(s: Space, root: nat, table: nat, i: nat, link: U64, va: U64)
    requires Good(s, root) && LinkFlags(link) && table in s.tables && |s.tables[table]| < 2 && i < ENTRIES
    ensures var m' := EnsureTable(s, root, table, i, link).0.pool.mem;
      && Walk(m', root, va) == Walk(s.pool.mem, root, va)
      && InheritedRights(m', root, va, link) == InheritedRights(s.pool.mem, root, va, link)
  {
    var m := s.pool.mem;
    if !Present(Entry(m, table, i)) && Get(s.pool).1.Some? {
      var m' := EnsureTable(s, root, table, i, link).0.pool.mem;
      var f := FIRST_FRAME + Get(s.pool).1.value;
      LinkAgrees(s, root, table, i, link);
      LinkEntryBits(f, link);
      WalkLink(m, m', s.tables, table, i, root, 0, va, ALL_RIGHTS);
      RightsLink(m, m', s.tables, table, i, root, 0, va, ALL_RIGHTS, link);
    }
  }

  // ---------------------------------------------------------------- three levels

  /** Walk down to the PD of `va`, making the tables that are missing on the way. */
  ghost function ReachPd(s: Space, root: nat, va: U64, link: U64): (r: (Space, Option<nat>))
    requires Good(s, root) && LinkFlags(link)
  {
    var (s1, pdpt) := EnsureTable(s, root, root, Index(va, 0), link);
    EnsureTableGood(s, root, root, Index(va, 0), link);
    if pdpt.None? then (s1, None) else EnsureTable(s1, root, pdpt.value, Index(va, 1), link)
  }

  ghost function WriteLeaf(s: Space, pd: nat, va: U64, leaf: U64): Space {
    s.(pool := s.pool.(mem := Write(s.pool.mem, pd, Index(va, 2), leaf)))
  }

  /** Reach the PD of `va` and write `leaf` there. */
  ghost function Install(s: Space, root: nat, va: U64, link: U64, leaf: U64): (r: (Space, bool))
    requires Good(s, root) && LinkFlags(link)
  {
    var (s2, pd) := ReachPd(s, root, va, link);
    if pd.None? then (s2, false) else (WriteLeaf(s2, pd.value, va, leaf), true)
  }

  /**
   * Everything an installation writes, in order: at most one new table in the PML4 slot, at most one
   * in the PDPT slot, and the leaf. Where a table is missing and no page is left it stops, and what
   * it wrote until then stays.
   */
  ghost predicate InstallSteps(p: Pool, p1: Pool, p2: Pool, q: Pool, ok: bool,
                               root: nat, i: nat, j: nat, k: nat, link: U64, leaf: U64)
    requires i < ENTRIES && j < ENTRIES && k < ENTRIES
  {
    && Level(p, p1, root, i, link)
    && if !Present(Entry(p1.mem, root, i)) then !ok && q == p1
       else
         var pdpt := TableOf(Entry(p1.mem, root, i));
         && Level(p1, p2, pdpt, j, link)
         && if !Present(Entry(p2.mem, pdpt, j)) then !ok && q == p2
            else ok && Wrote(p2, q, TableOf(Entry(p2.mem, pdpt, j)), k, leaf)
  }

  lemma InstallWrites(s: Space, root: nat, va: U64, link: U64, leaf: U64) returns (p1: Pool, p2: Pool)
    requires Good(s, root) && LinkFlags(link)
    ensures InstallSteps(s.pool, p1, p2, Install(s, root, va, link, leaf).0.pool, Install(s, root, va, link, leaf).1,
                         root, Index(va, 0), Index(va, 1), Index(va, 2), link, leaf)
  {
    var (s1, t1) := EnsureTable(s, root, root, Index(va, 0), link);
    EnsureTableGood(s, root, root, Index(va, 0), link);
    EnsureTableWrites(s, root, root, Index(va, 0), link);
    p1, p2 := s1.pool, s1.pool;
    if t1.Some? {
      var (s2, t2) := EnsureTable(s1, root, t1.value, Index(va, 1), link);
      EnsureTableWrites(s1, root, t1.value, Index(va, 1), link);
      p2 := s2.pool;
    }
  }

  lemma LowestOf(lo: nat, n: nat)
    requires lo < n
    ensures Interval(lo, n) != {} && Least(Interval(lo, n)) == lo && Interval(lo, n) - {lo} == Interval(lo + 1, n)
  {
    LeastUnique(Interval(lo, n), lo);
  }

  /** Hanging the lowest page of an interval. */
  lemma HungLowest(p: Pool, q: Pool, table: nat, i: nat, link: U64, lo: nat, n: nat)
    requires i < ENTRIES && Level(p, q, table, i, link) && LinkFlags(link) && !Present(Entry(p.mem, table, i))
    requires p.free == Interval(lo, n) && lo < n <= 0x10_0000 && table < 256 + lo
    ensures q.free == Interval(lo + 1, n)
    ensures forall g: nat, j: nat :: j < ENTRIES ==>
        Entry(q.mem, g, j) == if g == table && j == i then 0x1000 * (256 + lo) + link
                              else if g == 256 + lo then 0 else Entry(p.mem, g, j)
    ensures Present(Entry(q.mem, table, i)) && TableOf(Entry(q.mem, table, i)) == 256 + lo
  {
    LowestOf(lo, n);
    LinkEntryBits(256 + lo, link);
  }

  /** An installation that finds neither table, on a pool whose free pages are an interval. */
  lemma TwoTables(p: Pool, p1: Pool, p2: Pool, q: Pool, ok: bool,
                  root: nat, i: nat, j: nat, k: nat, link: U64, leaf: U64, lo: nat, n: nat)
    requires i < ENTRIES && j < ENTRIES && k < ENTRIES && LinkFlags(link)
    requires InstallSteps(p, p1, p2, q, ok, root, i, j, k, link, leaf) && !Present(Entry(p.mem, root, i))
    requires p.free == Interval(lo, n) && lo + 2 <= n <= 0x10_0000 && root < 256 + lo
    ensures ok && q.free == Interval(lo + 2, n)
    ensures forall g: nat, w: nat :: w < ENTRIES ==>
        Entry(q.mem, g, w) == if g == root && w == i then 0x1000 * (256 + lo) + link
                              else if g == 256 + lo then (if w == j then 0x1000 * (257 + lo) + link else 0)
                              else if g == 257 + lo then (if w == k then leaf else 0)
                              else Entry(p.mem, g, w)
  {
    HungLowest(p, p1, root, i, link, lo, n);
    HungLowest(p1, p2, 256 + lo, j, link, lo + 1, n);
  }

  /** The tables that `va` still lacks. */
  function Missing(m: Memory, root: nat, va: U64): nat {
    var e := Entry(m, root, Index(va, 0));
    if !Present(e) then 2
    else if !Present(Entry(m, TableOf(e), Index(va, 1))) then 1
    else 0
  }

  predicate SameRegion(va: U64, va': U64) {
    PathOf(va, 3) == PathOf(va', 3)
  }

  /** For canonical addresses, equal indices mean the same 2 MB block. */
  lemma SameRegionIs2MB(va: U64, va': U64)
    requires Canonical(va) && Canonical(va')
    ensures SameRegion(va, va') <==> va / 0x20_0000 == va' / 0x20_0000
  {
    SameIndices(va, va');
    IndicesMakeBlock(va);
    IndicesMakeBlock(va');
    BlockNumberInjective(Index(va, 0), Index(va, 1), Index(va, 2), Index(va', 0), Index(va', 1), Index(va', 2));
  }

  lemma SameIndices(va: U64, va': U64)
    ensures SameRegion(va, va') <==> forall d :: 0 <= d < 3 ==> Index(va, d) == Index(va', d)
  {
    PathOfThree(va);
    PathOfThree(va');
    assert SameRegion(va, va') ==> PathOf(va, 3)[0] == PathOf(va', 3)[0] && PathOf(va, 3)[1] == PathOf(va', 3)[1];
    assert (Index(va, 0) == Index(va', 0) && Index(va, 1) == Index(va', 1) && Index(va, 2) == Index(va', 2))
      ==> SameRegion(va, va');
  }

  lemma PathOfThree(va: U64)
    ensures PathOf(va, 3) == [Index(va, 0), Index(va, 1), Index(va, 2)]
  {
    assert PathOf(va, 1) == [Index(va, 0)];
    assert PathOf(va, 2) == [Index(va, 0), Index(va, 1)];
  }

  lemma IndicesMakeBlock(va: U64)
    requires Canonical(va)
    ensures va < 0x8000_0000_0000 <==> Index(va, 0) < 256
    ensures va / 0x20_0000 == BlockNumber(Index(va, 0), Index(va, 1), Index(va, 2))
  {
    var b := va / 0x20_0000;
    assert va / 0x4000_0000 == b / 0x200;
    assert va / 0x80_0000_0000 == b / 0x4_0000;
    ThreeDigits(b);
    TopIndex(b / 0x4_0000);
  }

  /** The 2 MB block with these three indices, at the canonical end its first index selects. */
  function BlockNumber(i: nat, j: nat, k: nat): nat {
    (if i < 256 then 0 else 0x7FF_F800_0000) + i * 0x4_0000 + j * 0x200 + k
  }

  lemma BlockNumberInjective(i: nat, j: nat, k: nat, i': nat, j': nat, k': nat)
    requires i < 512 && j < 512 && k < 512 && i' < 512 && j' < 512 && k' < 512
    ensures BlockNumber(i, j, k) == BlockNumber(i', j', k') ==> i == i' && j == j' && k == k'
  {
  }

  lemma ThreeDigits(b: nat)
    ensures b == b / 0x4_0000 * 0x4_0000 + b / 0x200 % 512 * 0x200 + b % 512
  {
    assert b / 0x4_0000 == b / 0x200 / 512;
  }

  lemma TopIndex(top: nat)
    ensures top < 256 ==> top % 512 == top
    ensures 0x1FF_FF00 <= top < 0x200_0000 ==> top % 512 == top - 0x1FF_FE00
  {
  }

  // ---------------------------------------------------------------- what an installation does

  /** What the two levels above the leaf look like once both tables exist. */
  ghost predicate Descends(m: Memory, root: nat, va: U64, pdpt: nat, pd: nat) {
    var e0 := Entry(m, root, Index(va, 0));
    var e1 := Entry(m, pdpt, Index(va, 1));
    && Present(e0) && TableOf(e0) == pdpt
    && Present(e1) && !Huge(e1) && TableOf(e1) == pd
  }

  lemma {:induction false} DescendsWalk(m: Memory, root: nat, va: U64, pdpt: nat, pd: nat, link: U64)
    requires Descends(m, root, va, pdpt, pd) && !Huge(Entry(m, root, Index(va, 0))) && Canonical(va)
    requires Huge(Entry(m, pd, Index(va, 2)))
    ensures Walk(m, root, va) == LeafTranslation(Entry(m, pd, Index(va, 2)), 2, va, InheritedRights(m, root, va, link))
  {
    var r0 := Meet(ALL_RIGHTS, Entry(m, root, Index(va, 0)));
    var r1 := Meet(r0, Entry(m, pdpt, Index(va, 1)));
    assert RightsFrom(m, pd, 2, va, r1, link) == r1;
    assert RightsFrom(m, pdpt, 1, va, r0, link) == r1;
    assert WalkFrom(m, pd, 2, va, r1) == LeafTranslation(Entry(m, pd, Index(va, 2)), 2, va, r1);
    assert WalkFrom(m, pdpt, 1, va, r0) == WalkFrom(m, pd, 2, va, r1);
  }

  /** The state just before the leaf is written, with everything the final step needs. */
  lemma Prepared(s: Space, root: nat, va: U64, link: U64) returns (s2: Space, pdpt: nat, pd: nat)
    requires Good(s, root) && LinkFlags(link) && ReachPd(s, root, va, link).1.Some?
    ensures Good(s2, root)
    ensures ReachPd(s, root, va, link) == (s2, Some(pd))
    ensures Descends(s2.pool.mem, root, va, pdpt, pd) && !Huge(Entry(s2.pool.mem, root, Index(va, 0)))
    ensures pdpt in s2.tables && s2.tables[pdpt] == PathOf(va, 1)
    ensures pd in s2.tables && s2.tables[pd] == PathOf(va, 2)
    ensures forall va': U64 ::
      && Walk(s2.pool.mem, root, va') == Walk(s.pool.mem, root, va')
      && InheritedRights(s2.pool.mem, root, va', link) == InheritedRights(s.pool.mem, root, va', link)
  {
    var i, j := Index(va, 0), Index(va, 1);
    var (s1, t1) := EnsureTable(s, root, root, i, link);
    EnsureTableGood(s, root, root, i, link);
    pdpt := t1.value;
    assert s1.tables[pdpt] == PathOf(va, 1);
    var (s2', t2) := EnsureTable(s1, root, pdpt, j, link);
    EnsureTableGood(s1, root, pdpt, j, link);
    s2, pd := s2', t2.value;
    RootEntryKept(s1, root, pdpt, i, j, link);
    forall va': U64
      ensures Walk(s2.pool.mem, root, va') == Walk(s.pool.mem, root, va')
      ensures InheritedRights(s2.pool.mem, root, va', link) == InheritedRights(s.pool.mem, root, va', link)
    {
      EnsureTableInvisible(s, root, root, i, link, va');
      EnsureTableInvisible(s1, root, pdpt, j, link, va');
    }
    assert Linked(s2.tables, s2.tables[root] + [i], Entry(s2.pool.mem, root, i));
    assert Linked(s2.tables, s2.tables[pdpt] + [j], Entry(s2.pool.mem, pdpt, j));
  }

  /** Making the second table does not disturb the entry that leads to the first. */
  lemma RootEntryKept(s1: Space, root: nat, pdpt: nat, i: nat, j: nat, link: U64)
    requires Good(s1, root) && LinkFlags(link) && i < ENTRIES && j < ENTRIES
    requires pdpt in s1.tables && |s1.tables[pdpt]| == 1
    ensures Entry(EnsureTable(s1, root, pdpt, j, link).0.pool.mem, root, i) == Entry(s1.pool.mem, root, i)
  {
    if !Present(Entry(s1.pool.mem, pdpt, j)) && Get(s1.pool).1.Some? {
      LinkAgrees(s1, root, pdpt, j, link);
    }
  }

  /** Writing a huge-page leaf into a PD keeps the tree. */
  lemma LeafWriteGood(s: Space, root: nat, pd: nat, k: nat, leaf: U64)
    requires Good(s, root) && pd in s.tables && |s.tables[pd]| == 2 && k < ENTRIES && Huge(leaf)
    ensures Good(s.(pool := s.pool.(mem := Write(s.pool.mem, pd, k, leaf))), root)
    ensures AgreeBut(s.pool.mem, Write(s.pool.mem, pd, k, leaf), s.tables, pd, k)
  {
    var m' := Write(s.pool.mem, pd, k, leaf);
    forall f: nat, i: nat | f in s.tables && i < ENTRIES && PointsDown(|s.tables[f]|, Entry(m', f, i))
      ensures Linked(s.tables, s.tables[f] + [i], Entry(m', f, i))
    {
      if f != pd || i != k {
        assert Entry(m', f, i) == Entry(s.pool.mem, f, i);
      }
    }
  }

  /** Success or not depends only on whether the pool can supply the missing tables. */
  lemma InstallOutcome(s: Space, root: nat, va: U64, link: U64, leaf: U64)
    requires Good(s, root) && LinkFlags(link)
    ensures Install(s, root, va, link, leaf).1 <==> |s.pool.free| >= Missing(s.pool.mem, root, va)
    ensures Install(s, root, va, link, leaf).1 ==>
      |Install(s, root, va, link, leaf).0.pool.free| == |s.pool.free| - Missing(s.pool.mem, root, va)
  {
    var i, j := Index(va, 0), Index(va, 1);
    var m := s.pool.mem;
    var (s1, t1) := EnsureTable(s, root, root, i, link);
    EnsureTableGood(s, root, root, i, link);
    if t1.Some? {
      if !Present(Entry(m, root, i)) {
        LinkAgrees(s, root, root, i, link);
        LinkEntryBits(t1.value, link);
        assert Entry(s1.pool.mem, t1.value, j) == 0;
      } else {
        assert Linked(s.tables, s.tables[root] + [i], Entry(m, root, i));
      }
    }
  }

  /**
   * The main theorem about an edit. If it goes through, exactly the addresses of the target 2 MB
   * region change, and they now follow the leaf with the rights the upper levels already gave them.
   * If an allocation fails, even after a first table was linked in, no translation changes.
   */
  lemma InstallTranslation(s: Space, root: nat, va: U64, link: U64, leaf: U64, va': U64)
    requires Good(s, root) && LinkFlags(link) && Huge(leaf)
    ensures var (s', ok) := Install(s, root, va, link, leaf);
      && Good(s', root)
      && InheritedRights(s'.pool.mem, root, va', link) == InheritedRights(s.pool.mem, root, va', link)
      && Walk(s'.pool.mem, root, va') ==
         if ok && Canonical(va') && SameRegion(va, va')
         then LeafTranslation(leaf, 2, va', InheritedRights(s.pool.mem, root, va', link))
         else Walk(s.pool.mem, root, va')
  {
    if !Install(s, root, va, link, leaf).1 {
      var (s1, t1) := EnsureTable(s, root, root, Index(va, 0), link);
      EnsureTableGood(s, root, root, Index(va, 0), link);
      EnsureTableInvisible(s, root, root, Index(va, 0), link, va');
      if t1.Some? {
        EnsureTableGood(s1, root, t1.value, Index(va, 1), link);
        EnsureTableInvisible(s1, root, t1.value, Index(va, 1), link, va');
      }
    } else {
      var s2, pdpt, pd := Prepared(s, root, va, link);
      LeafWrite(s2, root, va, link, leaf, pdpt, pd, va');
    }
  }

  lemma LeafWrite(s2: Space, root: nat, va: U64, link: U64, leaf: U64, pdpt: nat, pd: nat, va': U64)
    requires Good(s2, root) && LinkFlags(link) && Huge(leaf)
    requires Descends(s2.pool.mem, root, va, pdpt, pd) && !Huge(Entry(s2.pool.mem, root, Index(va, 0)))
    requires pdpt in s2.tables && s2.tables[pdpt] == PathOf(va, 1)
    requires pd in s2.tables && s2.tables[pd] == PathOf(va, 2)
    ensures var m := s2.pool.mem;
      var m' := Write(m, pd, Index(va, 2), leaf);
      && Good(WriteLeaf(s2, pd, va, leaf), root)
      && InheritedRights(m', root, va', link) == InheritedRights(m, root, va', link)
      && Walk(m', root, va') ==
         if Canonical(va') && SameRegion(va, va')
         then LeafTranslation(leaf, 2, va', InheritedRights(m, root, va', link))
         else Walk(m, root, va')
  {
    var m := s2.pool.mem;
    var k := Index(va, 2);
    var m' := Write(m, pd, k, leaf);
    LeafWriteGood(s2, root, pd, k, leaf);
    RightsAvoid(m, m', s2.tables, pd, k, root, 0, va', ALL_RIGHTS, link);
    PathOfThree(va);
    PathOfThree(va');
    if SameRegion(va, va') {
      if Canonical(va') {
        assert PathOf(va, 3)[0] == PathOf(va', 3)[0] && PathOf(va, 3)[1] == PathOf(va', 3)[1];
        assert PathOf(va, 3)[2] == PathOf(va', 3)[2];
        DescendsWalk(m', root, va', pdpt, pd, link);
      }
    } else {
      WalkAvoids(m, m', s2.tables, pd, k, root, 0, va', ALL_RIGHTS);
    }
  }

  // ---------------------------------------------------------------- which entries are written

  lemma EnsureKeepsEntry(s: Space, root: nat, table: nat, k: nat, link: U64, f: nat, i: nat)
    requires Good(s, root) && LinkFlags(link) && table in s.tables && |s.tables[table]| < 2 && k < ENTRIES
    requires f in s.tables && i < ENTRIES
    requires !(f == table && i == k) || Present(Entry(s.pool.mem, f, i)) || s.pool.free == {}
    ensures var s' := EnsureTable(s, root, table, k, link).0;
      Entry(s'.pool.mem, f, i) == Entry(s.pool.mem, f, i) && s'.pool.free <= s.pool.free
  {
    if !Present(Entry(s.pool.mem, table, k)) && Get(s.pool).1.Some? {
      LinkAgrees(s, root, table, k, link);
    }
  }

  /** An entry an installation for `va` leaves alone: off its path, or above the leaf and not to be filled. */
  ghost predicate Spared(s: Space, va: U64, f: nat, i: nat) {
    && f in s.tables && |s.tables[f]| < 3 && i < ENTRIES
    && (s.tables[f] + [i] != PathOf(va, |s.tables[f]| + 1)
        || (|s.tables[f]| < 2 && (Present(Entry(s.pool.mem, f, i)) || s.pool.free == {})))
  }

  lemma ReachKeepsEntry(s: Space, root: nat, va: U64, link: U64, f: nat, i: nat)
    requires Good(s, root) && LinkFlags(link) && Spared(s, va, f, i)
    ensures var s' := ReachPd(s, root, va, link).0;
      Entry(s'.pool.mem, f, i) == Entry(s.pool.mem, f, i) && s'.pool.free <= s.pool.free
  {
    var i0, i1 := Index(va, 0), Index(va, 1);
    var (s1, t1) := EnsureTable(s, root, root, i0, link);
    EnsureTableGood(s, root, root, i0, link);
    assert PathOf(va, 1) == [i0];
    EnsureKeepsEntry(s, root, root, i0, link, f, i);
    if t1.Some? {
      assert PathOf(va, 2) == [i0] + [i1];
      EnsureKeepsEntry(s1, root, t1.value, i1, link, f, i);
    }
  }

  lemma ReachLabels(s: Space, root: nat, va: U64, link: U64)
    requires Good(s, root) && LinkFlags(link)
    ensures var (s', pd) := ReachPd(s, root, va, link);
      && (forall f :: f in s.tables ==> f in s'.tables && s'.tables[f] == s.tables[f])
      && (pd.Some? ==> pd.value in s'.tables && s'.tables[pd.value] == PathOf(va, 2))
  {
    var (s1, t1) := EnsureTable(s, root, root, Index(va, 0), link);
    EnsureTableGood(s, root, root, Index(va, 0), link);
    if t1.Some? {
      EnsureTableGood(s1, root, t1.value, Index(va, 1), link);
      assert PathOf(va, 1) == [Index(va, 0)];
    }
  }

  /**
   * An installation writes only the entries on its own path: the leaf, and above it an absent entry
   * when there is a page to hang there. It relabels nothing.
   */
  lemma InstallKeepsEntry(s: Space, root: nat, va: U64, link: U64, leaf: U64, f: nat, i: nat)
    requires Good(s, root) && LinkFlags(link) && Spared(s, va, f, i)
    ensures var s' := Install(s, root, va, link, leaf).0;
      && Entry(s'.pool.mem, f, i) == Entry(s.pool.mem, f, i) && s'.pool.free <= s.pool.free
      && f in s'.tables && s'.tables[f] == s.tables[f]
  {
    ReachKeepsEntry(s, root, va, link, f, i);
    ReachLabels(s, root, va, link);
  }

  // ---------------------------------------------------------------- page accounting

  /** The managed pages that hold page tables. */
  ghost function TablePages(s: Space): set<nat> {
    set i | i in Pages(s.pool.total) && FIRST_FRAME + i in s.tables
  }

  /** Between `s` and `s'` exactly the pages `taken` left the free list, and they became tables. */
  ghost predicate Takes(s: Space, s': Space, taken: set<nat>) {
    && s'.pool.total == s.pool.total && taken !! UsedPages(s.pool)
    && UsedPages(s'.pool) == UsedPages(s.pool) + taken
    && TablePages(s') == TablePages(s) + taken
  }

  lemma TakesOne(s: Space, s': Space, k: nat)
    requires k in s.pool.free && k in Pages(s.pool.total) && s'.pool.total == s.pool.total
    requires s'.pool.free == s.pool.free - {k} && s'.tables.Keys == s.tables.Keys + {FIRST_FRAME + k}
    ensures Takes(s, s', {k})
  {
  }

  lemma TakesBoth(s: Space, s1: Space, s2: Space, a: set<nat>, b: set<nat>)
    requires Takes(s, s1, a) && Takes(s1, s2, b)
    ensures Takes(s, s2, a + b)
  {
  }

  lemma TakesNone(s: Space, s': Space)
    requires s'.pool.total == s.pool.total && s'.pool.free == s.pool.free && s'.tables == s.tables
    ensures Takes(s, s', {})
  {
    assert TablePages(s') == TablePages(s);
  }

  lemma EnsureTablePages(s: Space, root: nat, table: nat, i: nat, link: U64) returns (taken: set<nat>)
    requires Good(s, root) && LinkFlags(link) && table in s.tables && i < ENTRIES
    ensures Takes(s, EnsureTable(s, root, table, i, link).0, taken)
  {
    var s' := EnsureTable(s, root, table, i, link).0;
    if !Present(Entry(s.pool.mem, table, i)) && Get(s.pool).1.Some? {
      var k := Get(s.pool).1.value;
      EnsureTableIs(s, root, table, i, link, k);
      TakesOne(s, s', k);
      taken := {k};
    } else {
      TakesNone(s, s');
      taken := {};
    }
  }

  lemma ReachPdPages(s: Space, root: nat, va: U64, link: U64) returns (taken: set<nat>)
    requires Good(s, root) && LinkFlags(link)
    ensures Takes(s, ReachPd(s, root, va, link).0, taken)
  {
    var (s1, t1) := EnsureTable(s, root, root, Index(va, 0), link);
    EnsureTableGood(s, root, root, Index(va, 0), link);
    taken := EnsureTablePages(s, root, root, Index(va, 0), link);
    if t1.Some? {
      var more := EnsureTablePages(s1, root, t1.value, Index(va, 1), link);
      TakesBoth(s, s1, EnsureTable(s1, root, t1.value, Index(va, 1), link).0, taken, more);
      taken := taken + more;
    }
  }

  /** Every page an installation takes becomes a table, and every new table is a page it took. */
  lemma InstallPages(s: Space, root: nat, va: U64, link: U64, leaf: U64) returns (taken: set<nat>)
    requires Good(s, root) && LinkFlags(link)
    ensures Takes(s, Install(s, root, va, link, leaf).0, taken)
  {
    taken := ReachPdPages(s, root, va, link);
    var (s2, pd) := ReachPd(s, root, va, link);
    if pd.Some? {
      TakesSame(s, s2, WriteLeaf(s2, pd.value, va, leaf), taken);
    }
  }

  lemma TakesSame(s: Space, s2: Space, s3: Space, taken: set<nat>)
    requires Takes(s, s2, taken)
    requires s3.pool.total == s2.pool.total && s3.pool.free == s2.pool.free && s3.tables == s2.tables
    ensures Takes(s, s3, taken)
  {
    assert TablePages(s3) == TablePages(s2);
  }
}
