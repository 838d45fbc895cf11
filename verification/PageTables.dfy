/**
 * Four-level page tables: the hardware walk of section "4-Level Paging" of the Intel SDM,
 * Volume 3A, and the table edits of kernel/paging.c on memory that comes from the page pool.
 */
module PageTables {
  import opened Words
  import opened PhysicalMemory

  // Entry flags and the kernel window (include/paging.h:10-27).
  const HUGE: nat := 128
  const KERNEL_BASE: U64 := 0xFFFF_FFFF_8000_0000
  const KERNEL_LEAF: U64 := 0x183   // physical 0, PRESENT | WRITABLE | HUGE | GLOBAL

  predicate Present(e: U64) { e % 2 == 1 }
  predicate Writable(e: U64) { e / 2 % 2 == 1 }
  predicate User(e: U64) { e / 4 % 2 == 1 }
  predicate Huge(e: U64) { e / 128 % 2 == 1 }

  // ---------------------------------------------------------------- the hardware walk

  /** Bytes covered by one entry at a depth: 0 is the PML4, 1 the PDPT, 2 the PD, 3 the PT. */
  function Span(depth: nat): (r: nat)
    requires depth < 4
    ensures r > 0
  {
    if depth == 0 then 0x80_0000_0000 else if depth == 1 then 0x4000_0000 else if depth == 2 then 0x20_0000 else 0x1000
  }

  /** The PML4_INDEX, PDPT_INDEX, PD_INDEX and PT_INDEX macros. */
  function Index(va: U64, depth: nat): (i: nat)
    requires depth < 4
    ensures i < ENTRIES
  {
    va / Span(depth) % 512
  }

  /** The first `n` indices of an address. */
  function PathOf(va: U64, n: nat): (p: seq<nat>)
    requires n <= 4
    ensures |p| == n
  {
    if n == 0 then [] else PathOf(va, n - 1) + [Index(va, n - 1)]
  }

  /** The frame an entry points to: bits 51 to 12. */
  function TableOf(e: U64): nat {
    e % TWO_52 / PAGE_SIZE
  }

  datatype Rights = Rights(writable: bool, user: bool)
  datatype Translation = Fault | Mapped(address: nat, rights: Rights)

  const ALL_RIGHTS := Rights(true, true)

  function Meet(r: Rights, e: U64): Rights {
    Rights(r.writable && Writable(e), r.user && User(e))
  }

  function LeafTranslation(e: U64, depth: nat, va: U64, r: Rights): Translation
    requires depth < 4
  {
    if Present(e) then Mapped(e % TWO_52 - e % TWO_52 % Span(depth) + va % Span(depth), Meet(r, e)) else Fault
  }

  function WalkFrom(m: Memory, table: nat, depth: nat, va: U64, r: Rights): Translation
    requires depth < 4
    decreases 4 - depth
  {
    var e := Entry(m, table, Index(va, depth));
    if depth == 3 || (depth >= 1 && Huge(e)) then LeafTranslation(e, depth, va, r)
    else if !Present(e) then Fault
    else WalkFrom(m, TableOf(e), depth + 1, va, Meet(r, e))
  }

  predicate Canonical(va: U64) {
    va < 0x8000_0000_0000 || va >= 0xFFFF_8000_0000_0000
  }

  function Walk(m: Memory, root: nat, va: U64): Translation {
    if Canonical(va) then WalkFrom(m, root, 0, va, ALL_RIGHTS) else Fault
  }

  // ---------------------------------------------------------------- the tree invariant

  /** Each page-table frame with the path of indices that leads to it. */
  type Labels = map<nat, seq<nat>>

  /** An entry at a depth that points to a lower table. */
  predicate PointsDown(depth: nat, e: U64) {
    depth < 3 && Present(e) && (depth < 2 || !Huge(e))
  }

  /** Where such an entry leads: a frame labelled with exactly this path, and no 1 GB page. */
  ghost predicate Linked(tables: Labels, path: seq<nat>, e: U64) {
    e < TWO_52 && !Huge(e) && TableOf(e) in tables && tables[TableOf(e)] == path
  }

  ghost predicate Closed(m: Memory, tables: Labels) {
    forall f: nat, i: nat {:trigger Entry(m, f, i)} ::
      f in tables && i < ENTRIES && PointsDown(|tables[f]|, Entry(m, f, i)) ==>
        Linked(tables, tables[f] + [i], Entry(m, f, i))
  }

  /** The tables under `root` form a tree: every frame carries one path, so nothing is shared. */
  ghost predicate Tree(m: Memory, root: nat, tables: Labels) {
    && root in tables && tables[root] == []
    && Closed(m, tables)
  }

  predicate Indices(path: seq<nat>) {
    forall j :: 0 <= j < |path| ==> path[j] < ENTRIES
  }

  /** Follows a path of indices down from a table; `None` when an entry on the way is absent or a leaf. */
  function Follow(m: Memory, root: nat, path: seq<nat>): Option<nat>
    requires Indices(path)
  {
    if path == [] then Some(root)
    else
      var n := |path| - 1;
      match Follow(m, root, path[..n])
      case None => None
      case Some(t) =>
        var e := Entry(m, t, path[n]);
        if PointsDown(n, e) then Some(TableOf(e)) else None
  }

  /** What the labels mean: in a tree no table can be reached by two different paths. */
  lemma NothingShared(m: Memory, root: nat, tables: Labels, p: seq<nat>, q: seq<nat>)
    requires Tree(m, root, tables)
    requires Indices(p) && Indices(q)
    requires Follow(m, root, p).Some? && Follow(m, root, p) == Follow(m, root, q)
    ensures p == q
  {
    FollowIsLabelled(m, root, tables, p);
    FollowIsLabelled(m, root, tables, q);
  }

  lemma {:induction false} FollowIsLabelled(m: Memory, root: nat, tables: Labels, path: seq<nat>)
    requires Tree(m, root, tables)
    requires Indices(path)
    ensures Follow(m, root, path).Some? ==>
      Follow(m, root, path).value in tables && tables[Follow(m, root, path).value] == path
  {
    if path != [] {
      var n := |path| - 1;
      FollowIsLabelled(m, root, tables, path[..n]);
      assert path == path[..n] + [path[n]];
    }
  }

  // ---------------------------------------------------------------- walks under edits

  /** Two memories agree on every table entry except possibly entry `k` of table `t`. */
  ghost predicate AgreeBut(m: Memory, m': Memory, tables: Labels, t: nat, k: nat) {
    forall f: nat, i: nat :: f in tables && i < ENTRIES && !(f == t && i == k) ==> Entry(m', f, i) == Entry(m, f, i)
  }

  /** An edit is invisible to an address whose path does not run through the edited entry. */
  lemma {:induction false} WalkAvoids(m: Memory, m': Memory, tables: Labels, t: nat, k: nat,
                                      table: nat, depth: nat, va: U64, r: Rights)
    requires Closed(m, tables) && AgreeBut(m, m', tables, t, k)
    requires t in tables && |tables[t]| < 4 && PathOf(va, |tables[t]| + 1) != tables[t] + [k]
    requires depth < 4 && table in tables && tables[table] == PathOf(va, depth)
    ensures WalkFrom(m', table, depth, va, r) == WalkFrom(m, table, depth, va, r)
    decreases 4 - depth
  {
    var i := Index(va, depth);
    assert !(table == t && i == k);
    var e := Entry(m, table, i);
    assert Entry(m', table, i) == e;
    if PointsDown(depth, e) {
      assert Linked(tables, tables[table] + [i], e);
      WalkAvoids(m, m', tables, t, k, TableOf(e), depth + 1, va, Meet(r, e));
    }
  }

  /** Hanging an empty table on an absent entry changes no translation at all. */
  lemma {:induction false} WalkLink(m: Memory, m': Memory, tables: Labels, t: nat, k: nat,
                                    table: nat, depth: nat, va: U64, r: Rights)
    requires Closed(m, tables) && AgreeBut(m, m', tables, t, k)
    requires t in tables && |tables[t]| < 2 && k < ENTRIES
    requires !Present(Entry(m, t, k)) && !Huge(Entry(m', t, k))
    requires forall j: nat :: j < ENTRIES ==> Entry(m', TableOf(Entry(m', t, k)), j) == 0
    requires depth < 4 && table in tables && tables[table] == PathOf(va, depth)
    ensures WalkFrom(m', table, depth, va, r) == WalkFrom(m, table, depth, va, r)
    decreases 4 - depth
  {
    var i := Index(va, depth);
    var e := Entry(m, table, i);
    if table == t && i == k {
      var e' := Entry(m', table, i);
      assert WalkFrom(m, table, depth, va, r) == Fault;
      assert Entry(m', TableOf(e'), Index(va, depth + 1)) == 0;
    } else {
      assert Entry(m', table, i) == e;
      if PointsDown(depth, e) {
        assert Linked(tables, tables[table] + [i], e);
        WalkLink(m, m', tables, t, k, TableOf(e), depth + 1, va, Meet(r, e));
      }
    }
  }

  /**
   * The rights the levels above the PD leave to an address, where a missing table counts with the
   * rights it would be created with.
   */
  function RightsFrom(m: Memory, table: nat, depth: nat, va: U64, r: Rights, link: U64): Rights
    requires depth <= 2
    decreases 2 - depth
  {
    if depth == 2 then r
    else
      var e := Entry(m, table, Index(va, depth));
      if Present(e) then RightsFrom(m, TableOf(e), depth + 1, va, Meet(r, e), link) else Meet(r, link)
  }

  function InheritedRights(m: Memory, root: nat, va: U64, link: U64): Rights {
    RightsFrom(m, root, 0, va, ALL_RIGHTS, link)
  }

  lemma {:induction false} RightsLink(m: Memory, m': Memory, tables: Labels, t: nat, k: nat,
                                      table: nat, depth: nat, va: U64, r: Rights, link: U64)
    requires Closed(m, tables) && AgreeBut(m, m', tables, t, k)
    requires t in tables && |tables[t]| < 2 && k < ENTRIES
    requires !Present(Entry(m, t, k)) && Present(Entry(m', t, k))
    requires forall x :: Meet(x, Entry(m', t, k)) == Meet(x, link)
    requires forall j: nat :: j < ENTRIES ==> Entry(m', TableOf(Entry(m', t, k)), j) == 0
    requires depth <= 2 && table in tables && tables[table] == PathOf(va, depth)
    ensures RightsFrom(m', table, depth, va, r, link) == RightsFrom(m, table, depth, va, r, link)
    decreases 2 - depth
  {
    if depth < 2 {
      var i := Index(va, depth);
      var e := Entry(m, table, i);
      if table == t && i == k {
        var e' := Entry(m', table, i);
        assert Meet(Meet(r, link), link) == Meet(r, link);
        if depth == 0 {
          assert Entry(m', TableOf(e'), Index(va, 1)) == 0;
        }
      } else {
        assert Entry(m', table, i) == e;
        if Present(e) {
          assert Linked(tables, tables[table] + [i], e);
          RightsLink(m, m', tables, t, k, TableOf(e), depth + 1, va, Meet(r, e), link);
        }
      }
    }
  }

  /** A write into a PD leaves every inherited right alone. */
  lemma {:induction false} RightsAvoid(m: Memory, m': Memory, tables: Labels, t: nat, k: nat,
                                       table: nat, depth: nat, va: U64, r: Rights, link: U64)
    requires Closed(m, tables) && AgreeBut(m, m', tables, t, k)
    requires t in tables && |tables[t]| >= 2
    requires depth <= 2 && table in tables && tables[table] == PathOf(va, depth)
    ensures RightsFrom(m', table, depth, va, r, link) == RightsFrom(m, table, depth, va, r, link)
    decreases 2 - depth
  {
    if depth < 2 {
      var i := Index(va, depth);
      var e := Entry(m, table, i);
      assert Entry(m', table, i) == e;
      if Present(e) {
        assert Linked(tables, tables[table] + [i], e);
        RightsAvoid(m, m', tables, t, k, TableOf(e), depth + 1, va, Meet(r, e), link);
      }
    }
  }

  /** Tables whose entries are all unchanged translate alike, and leave the same rights. */
  lemma WalkKeeps(m: Memory, m': Memory, tables: Labels, table: nat, depth: nat, va: U64, r: Rights, link: U64)
    requires Closed(m, tables)
    requires forall f: nat, i: nat :: f in tables && i < ENTRIES ==> Entry(m', f, i) == Entry(m, f, i)
    requires depth < 4 && table in tables && tables[table] == PathOf(va, depth)
    ensures WalkFrom(m', table, depth, va, r) == WalkFrom(m, table, depth, va, r)
    ensures depth <= 2 ==> RightsFrom(m', table, depth, va, r, link) == RightsFrom(m, table, depth, va, r, link)
    decreases 4 - depth
  {
    var e := Entry(m, table, Index(va, depth));
    assert Entry(m', table, Index(va, depth)) == e;
    if PointsDown(depth, e) {
      assert Linked(tables, tables[table] + [Index(va, depth)], e);
      WalkKeeps(m, m', tables, TableOf(e), depth + 1, va, Meet(r, e), link);
    }
  }

  /** Rights only shrink on the way down: a user translation needs a user right at the top. */
  lemma {:induction false} UserFromTop(m: Memory, table: nat, depth: nat, va: U64, r: Rights)
    requires depth < 4 && WalkFrom(m, table, depth, va, r).Mapped? && WalkFrom(m, table, depth, va, r).rights.user
    ensures r.user && Present(Entry(m, table, Index(va, depth))) && User(Entry(m, table, Index(va, depth)))
    decreases 4 - depth
  {
    var e := Entry(m, table, Index(va, depth));
    if !(depth == 3 || (depth >= 1 && Huge(e))) {
      UserFromTop(m, TableOf(e), depth + 1, va, Meet(r, e));
    }
  }
}
