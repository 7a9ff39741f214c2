/**
 `paging_map`, `paging_query` and their `_early` forms as they run: loads and stores through the
 kernel's own pointers. The `_early` forms use physical addresses; the others use the direct
 map, that is, they walk and change the very tables that translate their accesses.
 */
module Paging {
  import opened Words
  import opened PageTables
  import opened PageTableProofs
  import opened Sv39
  import opened DirectMap
  import opened MachineModel
  import opened PageAllocator

  /** The table tree under frame `root` is sound, RAM can be reached, and the allocator's free pages are RAM. */
  ghost predicate ReadyState(mem: Memory, satp: Option<nat>, current: nat, end: nat, root: nat, g: Region) {
    && current < TWO64 && end < TWO64 && Sound(current, end)
    && end / PAGE_SIZE <= g.last
    && Hosted(mem, satp, current / PAGE_SIZE, g)
    && Inv(mem, root, g.lo, current / PAGE_SIZE)
    && (satp.Some? ==> satp.value == root)
  }

  ghost predicate Ready(m: Machine, a: PhysicalPageAllocator, root: nat, g: Region)
    reads m, m.cells, a
  {
    ReadyState(m.Words(), m.satp, a.current, a.end, root, g)
  }

  // ---------- steps that keep RAM reachable ----------

  /** Zeroing a frame that is not in use yet leaves the active tables alone. */
  lemma ZeroingKeepsHosted(mem: Memory, satp: Option<nat>, cur: nat, g: Region, f: nat, n: nat)
    requires Hosted(mem, satp, cur, g) && cur <= f && n <= ENTRIES
    ensures Hosted(ZeroPrefix(mem, f, n), satp, cur, g)
  {
    ZeroPrefixWord(mem, f, n, f, 0);
    if satp.Some? {
      var mem' := ZeroPrefix(mem, f, n);
      forall p, i: nat | IsPath(p) && i < ENTRIES && Table(mem, satp.value, p).Some?
        ensures Word(mem', Table(mem, satp.value, p).value, i) == Word(mem, Table(mem, satp.value, p).value, i)
      {
        ZeroPrefixWord(mem, f, n, Table(mem, satp.value, p).value, i);
      }
      TablesUntouched(mem, mem', satp.value, g.lo, cur);
    }
  }

  /** A step that keeps the tree and all direct-map entries keeps RAM reachable. */
  lemma StepKeepsHosted(mem: Memory, mem': Memory, satp: Option<nat>, root: nat, cur: nat, cur': nat, g: Region)
    requires Hosted(mem, satp, cur, g) && StepKeeps(mem, mem', root, g.lo, cur, cur') && cur' <= g.last
    requires satp.Some? ==> satp.value == root
    requires forall page: nat :: DIRECT_PAGE + g.first <= page < DIRECT_PAGE + g.last ==>
      Entry(mem', root, page) == Entry(mem, root, page)
    ensures Hosted(mem', satp, cur', g)
  {
  }

  // ---------- the kernel's accesses to a table ----------

  lemma EntryAddress(p: nat, f: nat, i: nat)
    requires p % PAGE_SIZE == 0
    ensures (p + 8 * i) % 8 == 0
    ensures (f * PAGE_SIZE + 8 * i) / 8 == ENTRIES * f + i
  {
    assert f * PAGE_SIZE + 8 * i == 8 * (ENTRIES * f + i);
    assert p + 8 * i == 8 * (512 * (p / PAGE_SIZE) + i);
  }

  lemma EntryReaches(mem: Memory, satp: Option<nat>, cur: nat, g: Region, f: nat, i: nat, access: Access)
    requires Hosted(mem, satp, cur, g) && g.first <= f < g.last && i < ENTRIES && !access.Execute?
    ensures PointerTo(satp, f) + 8 * i < TWO64 && (PointerTo(satp, f) + 8 * i) % 8 == 0
    ensures Resolve(mem, satp, PointerTo(satp, f) + 8 * i, access).Some?
    ensures Resolve(mem, satp, PointerTo(satp, f) + 8 * i, access).value / 8 == ENTRIES * f + i
    ensures ENTRIES * f + i < |mem|
  {
    PointerReaches(mem, satp, cur, g, f, 8 * i, access);
    EntryAddress(PointerTo(satp, f), f, i);
  }

  /** `table->entries[i]` read through the kernel's pointer. */
  method ReadEntry(m: Machine, table: u64, i: nat, ghost f: nat, ghost cur: nat, ghost g: Region) returns (w: u64)
    requires Hosted(m.Words(), m.satp, cur, g) && g.first <= f < g.last && table == PointerTo(m.satp, f)
    requires i < ENTRIES
    ensures w == Word(m.Words(), f, i)
  {
    EntryReaches(m.Words(), m.satp, cur, g, f, i, Read);
    w := m.LoadWord(table + 8 * i);
  }

  /** `table->entries[i] = w` written through the kernel's pointer. */
  method WriteEntry(m: Machine, table: u64, i: nat, w: u64, ghost f: nat, ghost cur: nat, ghost g: Region)
    requires Hosted(m.Words(), m.satp, cur, g) && g.first <= f < g.last && table == PointerTo(m.satp, f)
    requires i < ENTRIES
    modifies m.cells
    ensures m.Words() == Store(old(m.Words()), f, i, w)
  {
    EntryReaches(m.Words(), m.satp, cur, g, f, i, Write);
    m.StoreWord(table + 8 * i, w);
  }

  method ZeroTable(m: Machine, table: u64, ghost f: nat, ghost cur: nat, ghost g: Region)
    requires Hosted(m.Words(), m.satp, cur, g) && cur <= f < g.last && table == PointerTo(m.satp, f)
    modifies m.cells
    ensures m.Words() == ZeroPrefix(old(m.Words()), f, ENTRIES)
  {
    for i := 0 to ENTRIES
      invariant m.Words() == ZeroPrefix(old(m.Words()), f, i)
    {
      ZeroingKeepsHosted(old(m.Words()), m.satp, cur, g, f, i);
      WriteEntry(m, table, i, 0, f, cur, g);
    }
  }

  /** What `Descend` leaves behind is ready for the next step, and so is the state after zeroing the new table. */
  lemma DescendReady(mem: Memory, satp: Option<nat>, current: nat, end: nat, root: nat, p: Path, f: nat, i: nat,
      g: Region)
    requires ReadyState(mem, satp, current, end, root, g) && i < ENTRIES
    requires IsPath(p) && !p.Low? && Table(mem, root, p) == Some(f)
    ensures var cur := current / PAGE_SIZE;
      var s := Descend(mem, f, i, cur, end / PAGE_SIZE);
      && g.first <= f < g.last
      && ReadyState(s.mem, satp, s.cur * PAGE_SIZE, end, root, g)
      && (s.ok ==> Table(s.mem, root, Extend(p, i)) == Some(s.table))
      && (s.ok ==> g.first <= s.table < g.last)
  {
    var cur := current / PAGE_SIZE;
    var s := Descend(mem, f, i, cur, end / PAGE_SIZE);
    DescendCorrect(mem, root, g.lo, cur, end / PAGE_SIZE, p, f, i);
    assert IsPath(Extend(p, i));
    StepReady(mem, s.mem, satp, current, end, root, g, s.cur);
  }

  /** The allocator's answer in terms of frames. */
  lemma AllocFrame(current: u64, end: u64)
    requires Sound(current, end)
    ensures var cur := current / PAGE_SIZE;
      && current == cur * PAGE_SIZE
      && AllocStep(current, end)
        == (if cur + 1 <= end / PAGE_SIZE then (current, current + PAGE_SIZE) else (0, current))
      && cur < FRAMES && PteFromPhys(current, PTE_V) == Wrap(PointerPte(cur))
  {
    AllocStepSound(current, end);
    PointerFacts(current / PAGE_SIZE);
  }

  /** Zeroes the new table `next` in frame `cur` and links it from entry `i` of `table`. */
  method LinkTable(m: Machine, table: u64, i: nat, page: u64, next: u64, ghost f: nat, ghost cur: nat, ghost g: Region)
    requires Hosted(m.Words(), m.satp, cur, g) && cur < g.last && g.first <= f < g.last && i < ENTRIES
    requires table == PointerTo(m.satp, f) && next == PointerTo(m.satp, cur) && page == cur * PAGE_SIZE
    modifies m.cells
    ensures m.Words() == Store(ZeroPrefix(old(m.Words()), cur, ENTRIES), f, i, Wrap(PointerPte(cur)))
  {
    ZeroingKeepsHosted(m.Words(), m.satp, cur, g, cur, ENTRIES);
    PointerFacts(cur);
    ZeroTable(m, next, cur, cur, g);
    WriteEntry(m, table, i, PteFromPhys(page, PTE_V), f, cur, g);
  }

  lemma PointerFromPte(e: u64)
    ensures PointerTo(None, FrameOf(e)) == PhysFromPte(e)
    ensures forall root: nat {:trigger PointerTo(Some(root), FrameOf(e))} ::
      PointerTo(Some(root), FrameOf(e)) == PhysToVirt(PhysFromPte(e))
  {
  }

  /** One level of `paging_map_early`: makes entry `i` of the table point to a table. */
  method DescendEarly(m: Machine, table: u64, i: nat, a: PhysicalPageAllocator, ghost root: nat, ghost p: Path,
      ghost f: nat, ghost g: Region)
    returns (ok: bool, next: u64)
    requires Ready(m, a, root, g) && m.satp.None?
    requires IsPath(p) && !p.Low? && Table(m.Words(), root, p) == Some(f) && table == PointerTo(m.satp, f)
    requires i < ENTRIES
    modifies m.cells, a
    ensures a.end == old(a.end)
    ensures var s := old(Descend(m.Words(), f, i, a.current / PAGE_SIZE, a.end / PAGE_SIZE));
      && ok == s.ok && m.Words() == s.mem && a.current == s.cur * PAGE_SIZE
      && (ok ==> next == PointerTo(m.satp, s.table))
  {
    hide Inv, DirectMapped, Resolve, PhysToVirt, PhysFromPte, FrameOf, ZeroPrefix, Store, IsLeaf, PointerPte;
    ghost var cur := a.current / PAGE_SIZE;
    DescendReady(m.Words(), m.satp, a.current, a.end, root, p, f, i, g);
    AllocFrame(a.current, a.end);
    next := 0;
    var e := ReadEntry(m, table, i, f, cur, g);
    if !IsValid(e) {
      var page := a.AllocPage();
      if page == 0 {
        return false, 0;
      }
      next := page;
      LinkTable(m, table, i, page, next, f, cur, g);
    } else {
      if IsLeaf(e) {
        return false, 0;
      }
      PointerFromPte(e);
      next := PhysFromPte(e);
    }
    ok := true;
  }

  /** One level of `paging_map`: the same through the direct map. */
  method DescendMapped(m: Machine, table: u64, i: nat, a: PhysicalPageAllocator, ghost root: nat, ghost p: Path,
      ghost f: nat, ghost g: Region)
    returns (ok: bool, next: u64)
    requires Ready(m, a, root, g) && m.satp.Some?
    requires IsPath(p) && !p.Low? && Table(m.Words(), root, p) == Some(f) && table == PointerTo(m.satp, f)
    requires i < ENTRIES
    modifies m.cells, a
    ensures a.end == old(a.end)
    ensures var s := old(Descend(m.Words(), f, i, a.current / PAGE_SIZE, a.end / PAGE_SIZE));
      && ok == s.ok && m.Words() == s.mem && a.current == s.cur * PAGE_SIZE
      && (ok ==> next == PointerTo(m.satp, s.table))
  {
    hide Inv, DirectMapped, Resolve, PhysToVirt, PhysFromPte, FrameOf, ZeroPrefix, Store, IsLeaf, PointerPte;
    ghost var cur := a.current / PAGE_SIZE;
    DescendReady(m.Words(), m.satp, a.current, a.end, root, p, f, i, g);
    AllocFrame(a.current, a.end);
    next := 0;
    var e := ReadEntry(m, table, i, f, cur, g);
    if !IsValid(e) {
      var page := a.AllocPage();
      if page == 0 {
        return false, 0;
      }
      next := PhysToVirt(page);
      assert next == PointerTo(m.satp, cur);
      LinkTable(m, table, i, page, next, f, cur, g);
    } else {
      if IsLeaf(e) {
        return false, 0;
      }
      PointerFromPte(e);
      next := PhysToVirt(PhysFromPte(e));
    }
    ok := true;
  }

  // ---------- paging_map ----------

  /** `paging_map` keeps the tables sound and RAM reachable: a page of the direct map is never mapped again. */
  lemma MapPageReady(mem: Memory, satp: Option<nat>, current: nat, end: nat, root: nat, g: Region, va: u64, pa: u64,
      flags: nat)
    requires ReadyState(mem, satp, current, end, root, g) && flags < 1024
    ensures var out := MapPage(mem, root, current / PAGE_SIZE, end / PAGE_SIZE, va, pa, flags);
      ReadyState(out.mem, satp, out.cur * PAGE_SIZE, end, root, g)
  {
    var cur := current / PAGE_SIZE;
    var out := MapPage(mem, root, cur, end / PAGE_SIZE, va, pa, flags);
    MapPageCorrect(mem, root, g.lo, cur, end / PAGE_SIZE, va, pa, flags);
    if satp.Some? {
      DirectPagesStay(mem, root, g, cur, end / PAGE_SIZE, va, pa, flags);
    }
    StepReady(mem, out.mem, satp, current, end, root, g, out.cur);
  }

  lemma StepReady(mem: Memory, mem': Memory, satp: Option<nat>, current: nat, end: nat, root: nat, g: Region, cur': nat)
    requires ReadyState(mem, satp, current, end, root, g)
    requires StepKeeps(mem, mem', root, g.lo, current / PAGE_SIZE, cur') && cur' <= end / PAGE_SIZE
    requires satp.Some? ==> forall page: nat :: DIRECT_PAGE + g.first <= page < DIRECT_PAGE + g.last ==>
      Entry(mem', root, page) == Entry(mem, root, page)
    ensures ReadyState(mem', satp, cur' * PAGE_SIZE, end, root, g)
  {
    if satp.Some? {
      StepKeepsHosted(mem, mem', satp, root, current / PAGE_SIZE, cur', g);
    }
    assert cur' * PAGE_SIZE <= end;
  }

  /** No page of the direct map is ever mapped again. */
  lemma DirectPagesStay(mem: Memory, root: nat, g: Region, cur: nat, end: nat, va: u64, pa: u64, flags: nat)
    requires Inv(mem, root, g.lo, cur) && g.lo <= cur <= end <= FRAMES && ENTRIES * end <= |mem| && flags < 1024
    requires DirectMapped(mem, root, g.first, g.last)
    ensures forall page: nat :: DIRECT_PAGE + g.first <= page < DIRECT_PAGE + g.last ==>
      Entry(MapPage(mem, root, cur, end, va, pa, flags).mem, root, page) == Entry(mem, root, page)
  {
    hide MapPage, StepKeeps, MissingTables, Entry, LeafPte, IsValid;
    MapPageCorrect(mem, root, g.lo, cur, end, va, pa, flags);
    var out := MapPage(mem, root, cur, end, va, pa, flags);
    forall page: nat | DIRECT_PAGE + g.first <= page < DIRECT_PAGE + g.last
      ensures Entry(out.mem, root, page) == Entry(mem, root, page)
    {
      DirectPteFacts(page - DIRECT_PAGE);
    }
  }

  /** `paging_map_early`. */
  method PagingMapEarly(m: Machine, root: u64, va: u64, pa: u64, flags: nat, a: PhysicalPageAllocator, ghost r: nat,
      ghost g: Region)
    returns (ok: bool)
    requires m.satp.None? && flags < 1024
    requires root != 0 ==> Ready(m, a, r, g) && root == PointerTo(m.satp, r)
    modifies m.cells, a
    ensures a.end == old(a.end)
    ensures root == 0 ==> !ok && m.Words() == old(m.Words()) && a.current == old(a.current)
    ensures root != 0 ==> Ready(m, a, r, g)
    ensures root != 0 ==>
      Outcome(ok, m.Words(), a.current / PAGE_SIZE) ==
      old(MapPage(m.Words(), r, a.current / PAGE_SIZE, a.end / PAGE_SIZE, va, pa, flags))
  {
    hide Inv, Hosted, Descend, Resolve;
    if root == 0 {
      return false;
    }
    MapPageReady(m.Words(), m.satp, a.current, a.end, r, g, va, pa, flags);
    if !PageAligned(va) {
      return false;
    }
    if !PageAligned(pa) {
      return false;
    }
    ghost var mem, cur, end := m.Words(), a.current / PAGE_SIZE, a.end / PAGE_SIZE;
    ghost var s1 := Descend(mem, r, Vpn2(va), cur, end);
    DescendReady(mem, m.satp, a.current, a.end, r, Top, r, Vpn2(va), g);
    var ok1, level1 := DescendEarly(m, root, Vpn2(va), a, r, Top, r, g);
    if !ok1 {
      return false;
    }
    ghost var s0 := Descend(s1.mem, s1.table, Vpn1(va), s1.cur, end);
    DescendReady(s1.mem, m.satp, a.current, a.end, r, Mid(Vpn2(va)), s1.table, Vpn1(va), g);
    var ok0, level0 := DescendEarly(m, level1, Vpn1(va), a, r, Mid(Vpn2(va)), s1.table, g);
    if !ok0 {
      return false;
    }
    var e := ReadEntry(m, level0, Vpn0(va), s0.table, s0.cur, g);
    if IsValid(e) {
      return false;
    }
    LeafFlagsFit(flags);
    WriteEntry(m, level0, Vpn0(va), PteFromPhys(pa, LeafFlags(flags)), s0.table, s0.cur, g);
    return true;
  }

  /** `paging_map`. */
  method PagingMap(m: Machine, root: u64, va: u64, pa: u64, flags: nat, a: PhysicalPageAllocator, ghost r: nat,
      ghost g: Region)
    returns (ok: bool)
    requires m.satp.Some? && flags < 1024
    requires root != 0 ==> Ready(m, a, r, g) && root == PointerTo(m.satp, r)
    modifies m.cells, a
    ensures a.end == old(a.end)
    ensures root == 0 ==> !ok && m.Words() == old(m.Words()) && a.current == old(a.current)
    ensures root != 0 ==> Ready(m, a, r, g)
    ensures root != 0 ==>
      Outcome(ok, m.Words(), a.current / PAGE_SIZE) ==
      old(MapPage(m.Words(), r, a.current / PAGE_SIZE, a.end / PAGE_SIZE, va, pa, flags))
  {
    hide Inv, Hosted, Descend, Resolve;
    if root == 0 {
      return false;
    }
    MapPageReady(m.Words(), m.satp, a.current, a.end, r, g, va, pa, flags);
    if !PageAligned(va) {
      return false;
    }
    if !PageAligned(pa) {
      return false;
    }
    ghost var mem, cur, end := m.Words(), a.current / PAGE_SIZE, a.end / PAGE_SIZE;
    ghost var s1 := Descend(mem, r, Vpn2(va), cur, end);
    DescendReady(mem, m.satp, a.current, a.end, r, Top, r, Vpn2(va), g);
    var ok1, level1 := DescendMapped(m, root, Vpn2(va), a, r, Top, r, g);
    if !ok1 {
      return false;
    }
    ghost var s0 := Descend(s1.mem, s1.table, Vpn1(va), s1.cur, end);
    DescendReady(s1.mem, m.satp, a.current, a.end, r, Mid(Vpn2(va)), s1.table, Vpn1(va), g);
    var ok0, level0 := DescendMapped(m, level1, Vpn1(va), a, r, Mid(Vpn2(va)), s1.table, g);
    if !ok0 {
      return false;
    }
    var e := ReadEntry(m, level0, Vpn0(va), s0.table, s0.cur, g);
    if IsValid(e) {
      return false;
    }
    LeafFlagsFit(flags);
    WriteEntry(m, level0, Vpn0(va), PteFromPhys(pa, LeafFlags(flags)), s0.table, s0.cur, g);
    return true;
  }

  // ---------- paging_query ----------

  /** Tables lie in RAM, so the walk can read them. */
  lemma TablesReachable(mem: Memory, satp: Option<nat>, current: nat, end: nat, root: nat, g: Region, va: u64)
    requires ReadyState(mem, satp, current, end, root, g)
    ensures g.first <= root < g.last
    ensures var l2 := Word(mem, root, Vpn2(va));
      IsValid(l2) && !IsLeaf(l2) ==>
        && g.first <= FrameOf(l2) < g.last
        && var l1 := Word(mem, FrameOf(l2), Vpn1(va));
           IsValid(l1) && !IsLeaf(l1) ==> g.first <= FrameOf(l1) < g.last
  {
    assert g.first <= g.lo && current / PAGE_SIZE <= g.last;
    hide Hosted;
    assert IsPath(Top) && Table(mem, root, Top) == Some(root);
    assert IsPath(Mid(Vpn2(va))) && IsPath(Low(Vpn2(va), Vpn1(va)));
  }

  /** `paging_query_early`. */
  method PagingQueryEarly(m: Machine, root: u64, va: u64, ghost r: nat, ghost current: nat, ghost end: nat,
      ghost g: Region)
    returns (found: bool, pa: u64, flags: nat)
    requires m.satp.None?
    requires root != 0 ==> ReadyState(m.Words(), m.satp, current, end, r, g) && root == PointerTo(m.satp, r)
    ensures root == 0 ==> !found
    ensures root != 0 ==> Query(m.Words(), r, va) == if found then Some(Translation(pa, flags)) else None
    ensures !found ==> pa == 0 && flags == 0
  {
    hide Inv, DirectMapped, Resolve;
    found, pa, flags := false, 0, 0;
    if root == 0 {
      return;
    }
    TablesReachable(m.Words(), m.satp, current, end, r, g, va);
    ghost var cur := current / PAGE_SIZE;
    var l2 := ReadEntry(m, root, Vpn2(va), r, cur, g);
    if !IsValid(l2) || IsLeaf(l2) {
      return;
    }
    PointerFromPte(l2);
    var level1 := PhysFromPte(l2);
    var l1 := ReadEntry(m, level1, Vpn1(va), FrameOf(l2), cur, g);
    if !IsValid(l1) || IsLeaf(l1) {
      return;
    }
    PointerFromPte(l1);
    var level0 := PhysFromPte(l1);
    var l0 := ReadEntry(m, level0, Vpn0(va), FrameOf(l1), cur, g);
    if !IsValid(l0) || !IsLeaf(l0) {
      return;
    }
    return true, PhysFromPte(l0) + va % PAGE_SIZE, FlagsOf(l0);
  }

  /** `paging_query`. */
  method PagingQuery(m: Machine, root: u64, va: u64, ghost r: nat, ghost current: nat, ghost end: nat, ghost g: Region)
    returns (found: bool, pa: u64, flags: nat)
    requires m.satp.Some?
    requires root != 0 ==> ReadyState(m.Words(), m.satp, current, end, r, g) && root == PointerTo(m.satp, r)
    ensures root == 0 ==> !found
    ensures root != 0 ==> Query(m.Words(), r, va) == if found then Some(Translation(pa, flags)) else None
    ensures !found ==> pa == 0 && flags == 0
  {
    hide Inv, DirectMapped, Resolve, PhysToVirt;
    found, pa, flags := false, 0, 0;
    if root == 0 {
      return;
    }
    TablesReachable(m.Words(), m.satp, current, end, r, g, va);
    ghost var cur := current / PAGE_SIZE;
    var l2 := ReadEntry(m, root, Vpn2(va), r, cur, g);
    if !IsValid(l2) || IsLeaf(l2) {
      return;
    }
    PointerFromPte(l2);
    var level1 := PhysToVirt(PhysFromPte(l2));
    var l1 := ReadEntry(m, level1, Vpn1(va), FrameOf(l2), cur, g);
    if !IsValid(l1) || IsLeaf(l1) {
      return;
    }
    PointerFromPte(l1);
    var level0 := PhysToVirt(PhysFromPte(l1));
    var l0 := ReadEntry(m, level0, Vpn0(va), FrameOf(l1), cur, g);
    if !IsValid(l0) || !IsLeaf(l0) {
      return;
    }
    return true, PhysFromPte(l0) + va % PAGE_SIZE, FlagsOf(l0);
  }
}
