/** `paging_map_range`, and `paging_init`, which builds the kernel's address space and switches translation on. */
module PagingInit {
  import opened Words
  import opened PageTables
  import opened PageTableProofs
  import opened PageRanges
  import opened DirectMap
  import opened MachineModel
  import opened PageAllocator
  import opened Paging
  import opened Sv39
  import opened UserAccess

  lemma RangeStart(va: u64, pa: u64)
    ensures Wrap(va + 0) == va && Wrap(pa + 0) == pa
  {
  }

  /** One step of the specification. */
  lemma MapPagesUnfold(mem: Memory, root: nat, cur: nat, end: nat, va: u64, pa: u64, flags: nat, n: nat)
    requires flags < 1024 && n > 0
    ensures var one := MapPage(mem, root, cur, end, va, pa, flags);
      var rest := MapPages(one.mem, root, one.cur, end, Wrap(va + PAGE_SIZE), Wrap(pa + PAGE_SIZE), flags, n - 1);
      MapPages(mem, root, cur, end, va, pa, flags, n) ==
      if one.ok then rest.(mapped := rest.mapped + 1) else RangeOutcome(false, one.mem, one.cur, 0)
  {
    hide MapPage, Wrap;
  }

  lemma NoPagesLeft(mem: Memory, root: nat, cur: nat, end: nat, va: u64, pa: u64, flags: nat)
    requires flags < 1024
    ensures MapPages(mem, root, cur, end, va, pa, flags, 0) == RangeOutcome(true, mem, cur, 0)
  {
  }

  /** `paging_map_range_early`. */
  method PagingMapRangeEarly(m: Machine, root: u64, vaStart: u64, paStart: u64, size: u64, flags: nat,
      a: PhysicalPageAllocator, ghost r: nat, ghost g: Region)
    returns (ok: bool)
    requires m.satp.None? && flags < 1024
    requires root != 0 ==> Ready(m, a, r, g) && root == PointerTo(m.satp, r)
    modifies m.cells, a
    ensures a.end == old(a.end)
    ensures root == 0 ==> ok == (AlignUp(size) == 0) && m.Words() == old(m.Words()) && a.current == old(a.current)
    ensures root != 0 ==> Ready(m, a, r, g)
    ensures root != 0 ==>
      var out := old(MapPages(m.Words(), r, a.current / PAGE_SIZE, a.end / PAGE_SIZE, vaStart, paStart, flags,
                              AlignUp(size) / PAGE_SIZE));
      ok == out.ok && m.Words() == out.mem && a.current / PAGE_SIZE == out.cur
  {
    hide Ready, MapPage, MapPages, AlignUp, Wrap, PhysToVirt;
    RangeStart(vaStart, paStart);
    NoPagesLeft(m.Words(), r, a.current / PAGE_SIZE, a.end / PAGE_SIZE, vaStart, paStart, flags);
    if size == 0 {
      return true;
    }
    var alignedSize := AlignUp(size);
    var mapped := 0;
    ghost var out := MapPages(m.Words(), r, a.current / PAGE_SIZE, a.end / PAGE_SIZE, vaStart, paStart, flags,
      alignedSize / PAGE_SIZE);
    while mapped < alignedSize
      invariant mapped % PAGE_SIZE == 0 && mapped <= alignedSize
      invariant a.end == old(a.end)
      invariant root == 0 ==> mapped == 0 && m.Words() == old(m.Words()) && a.current == old(a.current)
      invariant root != 0 ==> Ready(m, a, r, g)
      invariant root != 0 ==>
        var rest := MapPages(m.Words(), r, a.current / PAGE_SIZE, a.end / PAGE_SIZE,
          Wrap(vaStart + mapped), Wrap(paStart + mapped), flags, (alignedSize - mapped) / PAGE_SIZE);
        rest.ok == out.ok && rest.mem == out.mem && rest.cur == out.cur
    {
      MapPagesUnfold(m.Words(), r, a.current / PAGE_SIZE, a.end / PAGE_SIZE,
        Wrap(vaStart + mapped), Wrap(paStart + mapped), flags, (alignedSize - mapped) / PAGE_SIZE);
      RangeStep(vaStart, mapped, alignedSize);
      RangeStep(paStart, mapped, alignedSize);
      var one := PagingMapEarly(m, root, Wrap(vaStart + mapped), Wrap(paStart + mapped), flags, a, r, g);
      if !one {
        return false;
      }
      mapped := mapped + PAGE_SIZE;
    }
    NoPagesLeft(m.Words(), r, a.current / PAGE_SIZE, a.end / PAGE_SIZE,
      Wrap(vaStart + mapped), Wrap(paStart + mapped), flags);
    return true;
  }

  /** `paging_map_range`. */
  method PagingMapRange(m: Machine, root: u64, vaStart: u64, paStart: u64, size: u64, flags: nat,
      a: PhysicalPageAllocator, ghost r: nat, ghost g: Region)
    returns (ok: bool)
    requires m.satp.Some? && flags < 1024
    requires root != 0 ==> Ready(m, a, r, g) && root == PointerTo(m.satp, r)
    modifies m.cells, a
    ensures a.end == old(a.end)
    ensures root == 0 ==> ok == (AlignUp(size) == 0) && m.Words() == old(m.Words()) && a.current == old(a.current)
    ensures root != 0 ==> Ready(m, a, r, g)
    ensures root != 0 ==>
      var out := old(MapPages(m.Words(), r, a.current / PAGE_SIZE, a.end / PAGE_SIZE, vaStart, paStart, flags,
                              AlignUp(size) / PAGE_SIZE));
      ok == out.ok && m.Words() == out.mem && a.current / PAGE_SIZE == out.cur
  {
    hide Ready, MapPage, MapPages, AlignUp, Wrap, PhysToVirt;
    RangeStart(vaStart, paStart);
    NoPagesLeft(m.Words(), r, a.current / PAGE_SIZE, a.end / PAGE_SIZE, vaStart, paStart, flags);
    if size == 0 {
      return true;
    }
    var alignedSize := AlignUp(size);
    var mapped := 0;
    ghost var out := MapPages(m.Words(), r, a.current / PAGE_SIZE, a.end / PAGE_SIZE, vaStart, paStart, flags,
      alignedSize / PAGE_SIZE);
    while mapped < alignedSize
      invariant mapped % PAGE_SIZE == 0 && mapped <= alignedSize
      invariant a.end == old(a.end)
      invariant root == 0 ==> mapped == 0 && m.Words() == old(m.Words()) && a.current == old(a.current)
      invariant root != 0 ==> Ready(m, a, r, g)
      invariant root != 0 ==>
        var rest := MapPages(m.Words(), r, a.current / PAGE_SIZE, a.end / PAGE_SIZE,
          Wrap(vaStart + mapped), Wrap(paStart + mapped), flags, (alignedSize - mapped) / PAGE_SIZE);
        rest.ok == out.ok && rest.mem == out.mem && rest.cur == out.cur
    {
      MapPagesUnfold(m.Words(), r, a.current / PAGE_SIZE, a.end / PAGE_SIZE,
        Wrap(vaStart + mapped), Wrap(paStart + mapped), flags, (alignedSize - mapped) / PAGE_SIZE);
      RangeStep(vaStart, mapped, alignedSize);
      RangeStep(paStart, mapped, alignedSize);
      var one := PagingMap(m, root, Wrap(vaStart + mapped), Wrap(paStart + mapped), flags, a, r, g);
      if !one {
        return false;
      }
      mapped := mapped + PAGE_SIZE;
    }
    NoPagesLeft(m.Words(), r, a.current / PAGE_SIZE, a.end / PAGE_SIZE,
      Wrap(vaStart + mapped), Wrap(paStart + mapped), flags);
    return true;
  }

  // ---------- the kernel's address space ----------

  /** The section boundaries that the linker provides. */
  datatype KernelImage = KernelImage(
    textStart: u64, textEnd: u64, rodataStart: u64, rodataEnd: u64,
    dataStart: u64, dataEnd: u64, bssStart: u64, bssEnd: u64)

  const FLAGS_RX: nat := 10
  const FLAGS_R: nat := 2
  const FLAGS_RW: nat := 6

  function Identity(start: u64, size: u64, flags: nat): Mapping {
    Mapping(start, start, size, flags)
  }

  /** The seven ranges `paging_init` maps, in order; the last one is the direct map of RAM. */
  function InitMappings(k: KernelImage, p: PlatformInfo): (ms: seq<Mapping>)
    ensures |ms| == 7 && WellFlagged(ms)
  {
    var dtbBase := AlignDown(p.dtbAddr);
    [ Identity(k.textStart, Wrap(k.textEnd - k.textStart), FLAGS_RX),
      Identity(k.rodataStart, Wrap(k.rodataEnd - k.rodataStart), FLAGS_R),
      Identity(k.dataStart, Wrap(k.dataEnd - k.dataStart), FLAGS_RW),
      Identity(k.bssStart, Wrap(k.bssEnd - k.bssStart), FLAGS_RW),
      Identity(AlignDown(p.uartBase), PAGE_SIZE, FLAGS_RW),
      Identity(dtbBase, Wrap(AlignUp(Wrap(p.dtbAddr + p.dtbSize)) - dtbBase), FLAGS_RW),
      Mapping(PhysToVirt(p.ramBase), p.ramBase, p.ramSize, FLAGS_RW) ]
  }

  // ---------- what the kernel's address space grants ----------

  /** Supervisor mode reads the byte at `pa` through `va`, writes it if `w`, executes it if `x`; user mode does
      nothing. */
  ghost predicate Allows(mem: Memory, root: nat, va: u64, pa: nat, w: bool, x: bool) {
    forall access, mode ::
      HardwareTranslate(mem, root, va, access, mode) ==
      if mode.Supervisor? && (access.Write? ==> w) && (access.Execute? ==> x) then Some(pa) else None
  }

  ghost predicate SectionAllows(mem: Memory, root: nat, start: u64, end: u64, w: bool, x: bool) {
    forall va: u64 :: start <= va < end <= 0x40_0000_0000 ==> Allows(mem, root, va, va, w, x)
  }

  /** The kernel as it runs after satp has been written: text is executed and not written, rodata only read, data and
      bss read and written, and so are the page of the UART, the pages of the device tree, and all of RAM at its
      direct-map addresses. Everything but RAM keeps its address. */
  ghost predicate KernelAccess(mem: Memory, root: nat, k: KernelImage, p: PlatformInfo) {
    && SectionAllows(mem, root, k.textStart, k.textEnd, false, true)
    && SectionAllows(mem, root, k.rodataStart, k.rodataEnd, false, false)
    && SectionAllows(mem, root, k.dataStart, k.dataEnd, true, false)
    && SectionAllows(mem, root, k.bssStart, k.bssEnd, true, false)
    && (forall va: u64 :: va < 0x40_0000_0000 && va / PAGE_SIZE == p.uartBase / PAGE_SIZE ==>
          Allows(mem, root, va, va, true, false))
    && (forall va: u64 ::
          p.dtbAddr / PAGE_SIZE <= va / PAGE_SIZE &&
            va / PAGE_SIZE * PAGE_SIZE < p.dtbAddr + p.dtbSize <= 0x40_0000_0000 ==>
          Allows(mem, root, va, va, true, false))
    && (forall pa: u64 :: p.ramBase <= pa < p.ramBase + p.ramSize <= 0x40_0000_0000 ==>
          Allows(mem, root, PhysToVirt(pa), pa, true, false))
  }

  /** One page of an identity range. */
  lemma IdentityPage(start: u64, size: u64, va: u64)
    requires PageAligned(start) && start <= va < start + AlignUp(size) && start + size <= 0x40_0000_0000
    ensures Distance(Vpn(start), Vpn(va)) < AlignUp(size) / PAGE_SIZE
    ensures Wrap(start + Distance(Vpn(start), Vpn(va)) * PAGE_SIZE) == AlignDown(va) &&
      AlignDown(va) + va % PAGE_SIZE == va
    ensures Canonical(va)
  {
    var d := va / PAGE_SIZE - start / PAGE_SIZE;
    assert Distance(Vpn(start), Vpn(va)) == d;
    assert start + d * PAGE_SIZE == AlignDown(va);
  }

  /** The permission bits of the flags. */
  predicate KernelFlags(flags: nat, w: bool, x: bool) {
    && flags < 1024 && IsLeaf(flags) && HasBit(flags, PTE_R) && !HasBit(flags, PTE_U)
    && HasBit(flags, PTE_W) == w && HasBit(flags, PTE_X) == x
  }

  lemma KernelFlagBits()
    ensures KernelFlags(FLAGS_RX, false, true) && KernelFlags(FLAGS_R, false, false)
    ensures KernelFlags(FLAGS_RW, true, false) && KernelFlags(DIRECT_FLAGS, true, false)
  {
  }

  lemma PageAllows(mem: Memory, root: nat, lo: nat, cur: nat, va: u64, page: u64, flags: nat, w: bool, x: bool)
    requires Inv(mem, root, lo, cur) && Canonical(va) && KernelFlags(flags, w, x)
    requires PageAligned(page) && page < 0x100_0000_0000_0000 && Entry(mem, root, Vpn(va)) == LeafPte(page, flags)
    ensures Allows(mem, root, va, page + va % PAGE_SIZE, w, x)
  {
    hide Inv, Entry, LeafPte, HardwareTranslate, HasBit, IsLeaf, Vpn, PageAligned;
    forall access, mode
      ensures HardwareTranslate(mem, root, va, access, mode) ==
        if mode.Supervisor? && (access.Write? ==> w) && (access.Execute? ==> x) then Some(page + va % PAGE_SIZE)
          else None
    {
      MappedAccess(mem, root, lo, cur, va, page, flags, access, mode);
    }
  }

  lemma IdentityAllows(mem: Memory, root: nat, lo: nat, cur: nat, start: u64, size: u64, flags: nat, w: bool, x: bool,
      va: u64)
    requires Inv(mem, root, lo, cur) && KernelFlags(flags, w, x) && HasMapping(mem, root, Identity(start, size, flags))
    requires PageAligned(start) && start <= va < start + AlignUp(size) && start + size <= 0x40_0000_0000
    ensures Allows(mem, root, va, va, w, x)
  {
    hide Inv, Entry, LeafPte, Allows, KernelFlags, Vpn, Distance, AlignUp;
    IdentityPage(start, size, va);
    VpnDigits(va);
    assert InMapping(Identity(start, size, flags), Vpn(va));
    PageAllows(mem, root, lo, cur, va, AlignDown(va), flags, w, x);
  }

  lemma SectionFrom(mem: Memory, root: nat, lo: nat, cur: nat, start: u64, end: u64, flags: nat, w: bool, x: bool)
    requires Inv(mem, root, lo, cur) && KernelFlags(flags, w, x)
    requires HasMapping(mem, root, Identity(start, Wrap(end - start), flags))
    requires AlignUp(Wrap(end - start)) > 0 ==> PageAligned(start)
    ensures SectionAllows(mem, root, start, end, w, x)
  {
    hide Inv, Allows, KernelFlags, HasMapping, PageAligned;
    forall va: u64 | start <= va < end <= 0x40_0000_0000 ensures Allows(mem, root, va, va, w, x) {
      assert Wrap(end - start) == end - start;
      IdentityAllows(mem, root, lo, cur, start, end - start, flags, w, x, va);
    }
  }

  /** The device tree, from the page of its first byte to that of its last one. */
  lemma DeviceTreePages(p: PlatformInfo, va: u64)
    requires p.dtbAddr / PAGE_SIZE <= va / PAGE_SIZE
    requires va / PAGE_SIZE * PAGE_SIZE < p.dtbAddr + p.dtbSize <= 0x40_0000_0000
    ensures var base := AlignDown(p.dtbAddr);
      var size := Wrap(AlignUp(Wrap(p.dtbAddr + p.dtbSize)) - base);
      && PageAligned(base) && base <= va < base + AlignUp(size) && base + size <= 0x40_0000_0000
  {
    hide AlignUp, AlignDown, PageAligned;
    var base, end := AlignDown(p.dtbAddr), AlignUp(p.dtbAddr + p.dtbSize);
    PageFrom(p.dtbAddr, va);
    PageBelow(va, p.dtbAddr + p.dtbSize);
    PageWhole(base, end);
    WrapSmall(p.dtbAddr + p.dtbSize);
  }

  lemma WrapSmall(x: nat)
    requires x <= 0x40_0000_0000
    ensures Wrap(x) == x
  {
  }

  lemma PageFrom(start: u64, va: u64)
    requires start / PAGE_SIZE <= va / PAGE_SIZE
    ensures AlignDown(start) <= va && AlignDown(start) % PAGE_SIZE == 0
  {
  }

  lemma PageBelow(va: u64, end: u64)
    requires va / PAGE_SIZE * PAGE_SIZE < end <= 0x40_0000_0000
    ensures va < AlignUp(end) <= 0x40_0000_0000 && AlignUp(end) % PAGE_SIZE == 0
  {
    var q, n := va / PAGE_SIZE, AlignUp(end) / PAGE_SIZE;
    assert AlignUp(end) == n * PAGE_SIZE && end <= AlignUp(end) < end + PAGE_SIZE;
    assert q < n;
  }

  lemma PageWhole(base: nat, end: nat)
    requires base % PAGE_SIZE == 0 && end % PAGE_SIZE == 0 && base <= end <= 0x40_0000_0000
    ensures PageAligned(base) && Wrap(end - base) == end - base && AlignUp(end - base) == end - base
  {
  }

  lemma UartPage(p: PlatformInfo, va: u64)
    requires va < 0x40_0000_0000 && va / PAGE_SIZE == p.uartBase / PAGE_SIZE
    ensures var base := AlignDown(p.uartBase);
      && PageAligned(base) && base <= va < base + AlignUp(PAGE_SIZE) && base + PAGE_SIZE <= 0x40_0000_0000
  {
  }

  /** When the seven ranges are mapped, the hardware grants what the kernel needs, and no more. */
  lemma MappedKernelAccess(mem: Memory, root: nat, lo: nat, cur: nat, k: KernelImage, p: PlatformInfo)
    requires Inv(mem, root, lo, cur)
    requires forall i :: 0 <= i < 7 ==> HasMapping(mem, root, InitMappings(k, p)[i])
    requires forall i :: 0 <= i < 7 && Pages(InitMappings(k, p)[i]) > 0 ==>
      PageAligned(InitMappings(k, p)[i].va) && PageAligned(InitMappings(k, p)[i].pa)
    ensures KernelAccess(mem, root, k, p)
  {
    hide Inv, Entry, LeafPte, Allows, SectionAllows, KernelFlags, HasMapping, HardwareTranslate, Vpn, PhysToVirt;
    KernelFlagBits();
    var ms := InitMappings(k, p);
    assert HasMapping(mem, root, ms[0]) && HasMapping(mem, root, ms[1]) && HasMapping(mem, root, ms[2]);
    assert HasMapping(mem, root, ms[3]) && HasMapping(mem, root, ms[4]) && HasMapping(mem, root, ms[5]);
    assert HasMapping(mem, root, ms[6]);
    SectionFrom(mem, root, lo, cur, k.textStart, k.textEnd, FLAGS_RX, false, true);
    SectionFrom(mem, root, lo, cur, k.rodataStart, k.rodataEnd, FLAGS_R, false, false);
    SectionFrom(mem, root, lo, cur, k.dataStart, k.dataEnd, FLAGS_RW, true, false);
    SectionFrom(mem, root, lo, cur, k.bssStart, k.bssEnd, FLAGS_RW, true, false);
    forall va: u64 | va < 0x40_0000_0000 && va / PAGE_SIZE == p.uartBase / PAGE_SIZE
      ensures Allows(mem, root, va, va, true, false)
    {
      UartPage(p, va);
      IdentityAllows(mem, root, lo, cur, AlignDown(p.uartBase), PAGE_SIZE, FLAGS_RW, true, false, va);
    }
    forall va: u64 | p.dtbAddr / PAGE_SIZE <= va / PAGE_SIZE
        && va / PAGE_SIZE * PAGE_SIZE < p.dtbAddr + p.dtbSize <= 0x40_0000_0000
      ensures Allows(mem, root, va, va, true, false)
    {
      DeviceTreePages(p, va);
      IdentityAllows(mem, root, lo, cur, ms[5].va, ms[5].size, FLAGS_RW, true, false, va);
    }
    forall pa: u64 | p.ramBase <= pa < p.ramBase + p.ramSize <= 0x40_0000_0000
      ensures Allows(mem, root, PhysToVirt(pa), pa, true, false)
    {
      RamAllows(mem, root, lo, cur, p, pa);
    }
  }

  lemma RamAllows(mem: Memory, root: nat, lo: nat, cur: nat, p: PlatformInfo, pa: u64)
    requires Inv(mem, root, lo, cur) && p.ramBase <= pa < p.ramBase + p.ramSize <= 0x40_0000_0000
    requires HasMapping(mem, root, Mapping(PhysToVirt(p.ramBase), p.ramBase, p.ramSize, FLAGS_RW))
    requires AlignUp(p.ramSize) / PAGE_SIZE > 0 ==> PageAligned(p.ramBase)
    ensures Allows(mem, root, PhysToVirt(pa), pa, true, false)
  {
    hide Inv, Allows, KernelFlags, Entry, LeafPte, HardwareTranslate, PhysToVirt, Vpn, Distance;
    var f := pa / PAGE_SIZE;
    RamPage(p, pa);
    DirectAddress(pa);
    KernelFlagBits();
    VpnDigits(PhysToVirt(pa));
    assert InMapping(Mapping(PhysToVirt(p.ramBase), p.ramBase, p.ramSize, FLAGS_RW), Vpn(PhysToVirt(pa)));
    PageAllows(mem, root, lo, cur, PhysToVirt(pa), f * PAGE_SIZE, FLAGS_RW, true, false);
  }

  lemma RamPage(p: PlatformInfo, pa: u64)
    requires p.ramBase <= pa < p.ramBase + p.ramSize <= 0x40_0000_0000
    requires AlignUp(p.ramSize) / PAGE_SIZE > 0 ==> PageAligned(p.ramBase)
    ensures var d := Distance(Vpn(PhysToVirt(p.ramBase)), Vpn(PhysToVirt(pa)));
      && d < AlignUp(p.ramSize) / PAGE_SIZE && Wrap(p.ramBase + d * PAGE_SIZE) == pa / PAGE_SIZE * PAGE_SIZE
    ensures PageAligned(pa / PAGE_SIZE * PAGE_SIZE)
  {
    assert AlignUp(p.ramSize) >= p.ramSize;
    DirectAddress(p.ramBase);
    DirectAddress(pa);
    hide PhysToVirt, Vpn;
    var d := pa / PAGE_SIZE - p.ramBase / PAGE_SIZE;
    assert Distance(Vpn(PhysToVirt(p.ramBase)), Vpn(PhysToVirt(pa))) == d;
    assert p.ramBase + d * PAGE_SIZE == pa / PAGE_SIZE * PAGE_SIZE;
  }

  /** RAM is installed, lies in 4096 .. 2^38, and the allocator hands out its part above `a.current`. */
  ghost predicate BootState(m: Machine, a: PhysicalPageAllocator, p: PlatformInfo)
    reads m, m.cells, a
  {
    && m.satp.None? && Sound(a.current, a.end)
    && PAGE_SIZE <= p.ramBase <= a.current && p.ramBase + p.ramSize == a.end
    && ENTRIES * (a.end / PAGE_SIZE) <= m.cells.Length
  }

  function RamRegion(p: PlatformInfo, current: u64): Region {
    Region(p.ramBase / PAGE_SIZE, (p.ramBase + p.ramSize) / PAGE_SIZE, current / PAGE_SIZE)
  }

  /** A zeroed frame is a tree without any table below it. */
  lemma ZeroRootIsSound(mem: Memory, root: nat)
    requires root < FRAMES && ENTRIES * (root + 1) <= |mem|
    ensures var z := ZeroPrefix(mem, root, ENTRIES);
      && Inv(z, root, root, root + 1)
      && |z| == |mem|
      && EmptyTree(z, root)
  {
    var z := ZeroPrefix(mem, root, ENTRIES);
    ZeroPrefixWord(mem, root, ENTRIES, root, 0);
    forall i: nat | i < ENTRIES ensures Word(z, root, i) == 0 { ZeroPrefixWord(mem, root, ENTRIES, root, i); }
    forall page: nat | page < PAGES ensures Entry(z, root, page) == 0 { assert IsPath(LowOf(page)); }
  }

  /** `paging_create_root_table`. */
  method CreateRootTable(m: Machine, a: PhysicalPageAllocator, p: PlatformInfo) returns (root: u64)
    requires BootState(m, a, p)
    modifies m.cells, a
    ensures a.end == old(a.end)
    ensures root == 0 <==> old(a.current / PAGE_SIZE + 1 > a.end / PAGE_SIZE)
    ensures var g := RamRegion(p, old(a.current));
      root != 0 ==>
        && root == old(a.current) == PointerTo(None, g.lo) && Ready(m, a, g.lo, g)
        && EmptyTree(m.Words(), g.lo) && a.current / PAGE_SIZE == old(a.current / PAGE_SIZE) + 1
  {
    ghost var g := RamRegion(p, a.current);
    AllocFrame(a.current, a.end);
    root := a.AllocPage();
    if root == 0 {
      return;
    }
    ZeroRootIsSound(m.Words(), g.lo);
    ZeroTable(m, root, g.lo, g.lo, g);
  }

  lemma MapAllStep(mem: Memory, root: nat, cur: nat, end: nat, ms: seq<Mapping>, k: nat)
    requires WellFlagged(ms) && k < |ms|
    ensures var one := MapPages(mem, root, cur, end, ms[k].va, ms[k].pa, ms[k].flags, Pages(ms[k]));
      MapAll(mem, root, cur, end, ms[k..]) ==
      if one.ok then MapAll(one.mem, root, one.cur, end, ms[k + 1..]) else Outcome(false, one.mem, one.cur)
  {
    assert ms[k..][0] == ms[k] && ms[k..][1..] == ms[k + 1..];
  }

  /** The last mapping is the direct map that all later accesses go through. */
  lemma DirectFromMapping(mem: Memory, root: nat, p: PlatformInfo)
    requires HasMapping(mem, root, Mapping(PhysToVirt(p.ramBase), p.ramBase, p.ramSize, FLAGS_RW))
    requires PageAligned(p.ramBase) && p.ramBase + p.ramSize <= 0x40_0000_0000
    ensures DirectMapped(mem, root, p.ramBase / PAGE_SIZE, (p.ramBase + p.ramSize) / PAGE_SIZE)
  {
    hide Entry, LeafPte;
    var x := Mapping(PhysToVirt(p.ramBase), p.ramBase, p.ramSize, FLAGS_RW);
    var first, last := p.ramBase / PAGE_SIZE, (p.ramBase + p.ramSize) / PAGE_SIZE;
    DirectAddress(p.ramBase);
    assert last <= first + Pages(x);
    forall page: nat | DIRECT_PAGE + first <= page < DIRECT_PAGE + last
      ensures Entry(mem, root, page) == LeafPte((page - DIRECT_PAGE) * PAGE_SIZE, DIRECT_FLAGS)
    {
      var d := page - DIRECT_PAGE - first;
      assert Distance(Vpn(x.va), page) == d && InMapping(x, page);
      assert p.ramBase + d * PAGE_SIZE == (page - DIRECT_PAGE) * PAGE_SIZE;
    }
  }

  lemma ReadyAligned(m: Machine, a: PhysicalPageAllocator, r: nat, g: Region)
    requires Ready(m, a, r, g)
    ensures a.current == a.current / PAGE_SIZE * PAGE_SIZE
  {
  }

  /** One `paging_map_range_early` of `paging_init`, the `i`-th of the requests `ms`. */
  method MapNext(m: Machine, root: u64, x: Mapping, a: PhysicalPageAllocator, ghost r: nat, ghost g: Region,
      ghost ms: seq<Mapping>, ghost i: nat)
    returns (ok: bool)
    requires m.satp.None? && Ready(m, a, r, g) && root != 0 && root == PointerTo(m.satp, r)
    requires WellFlagged(ms) && i < |ms| && x == ms[i]
    modifies m.cells, a
    ensures a.end == old(a.end) && Ready(m, a, r, g)
    ensures old(MapAll(m.Words(), r, a.current / PAGE_SIZE, a.end / PAGE_SIZE, ms[i..])) ==
      if ok then MapAll(m.Words(), r, a.current / PAGE_SIZE, a.end / PAGE_SIZE, ms[i + 1..])
      else Outcome(false, m.Words(), a.current / PAGE_SIZE)
  {
    hide Ready, MapPages, MapAll;
    MapAllStep(m.Words(), r, a.current / PAGE_SIZE, a.end / PAGE_SIZE, ms, i);
    ok := PagingMapRangeEarly(m, root, x.va, x.pa, x.size, x.flags, a, r, g);
  }

  /** The seven requests of `paging_init` on a fresh root table. */
  method MapKernel(m: Machine, root: u64, a: PhysicalPageAllocator, p: PlatformInfo, k: KernelImage, ghost r: nat,
      ghost g: Region)
    returns (ok: bool)
    requires m.satp.None? && Ready(m, a, r, g) && root != 0 && root == PointerTo(m.satp, r)
    modifies m.cells, a
    ensures a.end == old(a.end) && Ready(m, a, r, g)
    ensures Outcome(ok, m.Words(), a.current / PAGE_SIZE) ==
      old(MapAll(m.Words(), r, a.current / PAGE_SIZE, a.end / PAGE_SIZE, InitMappings(k, p)))
  {
    hide Ready, MapPages, AlignUp, AlignDown, PhysToVirt, Wrap;
    ghost var ms := InitMappings(k, p);
    assert ms[0..] == ms;
    ok := MapNext(m, root, Identity(k.textStart, Wrap(k.textEnd - k.textStart), FLAGS_RX), a, r, g, ms, 0);
    if !ok {
      return;
    }
    ok := MapNext(m, root, Identity(k.rodataStart, Wrap(k.rodataEnd - k.rodataStart), FLAGS_R), a, r, g, ms, 1);
    if !ok {
      return;
    }
    ok := MapNext(m, root, Identity(k.dataStart, Wrap(k.dataEnd - k.dataStart), FLAGS_RW), a, r, g, ms, 2);
    if !ok {
      return;
    }
    ok := MapNext(m, root, Identity(k.bssStart, Wrap(k.bssEnd - k.bssStart), FLAGS_RW), a, r, g, ms, 3);
    if !ok {
      return;
    }
    var uartPage := AlignDown(p.uartBase);
    ok := MapNext(m, root, Identity(uartPage, PAGE_SIZE, FLAGS_RW), a, r, g, ms, 4);
    if !ok {
      return;
    }
    var dtbBase := AlignDown(p.dtbAddr);
    var dtbEnd: int := AlignUp(Wrap(p.dtbAddr + p.dtbSize));
    ok := MapNext(m, root, Identity(dtbBase, Wrap(dtbEnd - dtbBase), FLAGS_RW), a, r, g, ms, 5);
    if !ok {
      return;
    }
    ok := MapNext(m, root, Mapping(PhysToVirt(p.ramBase), p.ramBase, p.ramSize, FLAGS_RW), a, r, g, ms, 6);
    if !ok {
      return;
    }
  }

  /** `paging_init`. On success translation is on and self-hosting: the tables are sound, all of RAM, the
      tables included, is reached through the direct map they define, the seven ranges are mapped as
      requested and no other page is, and the hardware grants what the kernel needs. It succeeds exactly when the
      ranges are aligned and do not meet, and a frame is left for the root and for every table they need. On failure
      translation stays off. */
  method PagingInit(m: Machine, a: PhysicalPageAllocator, p: PlatformInfo, k: KernelImage)
    returns (ok: bool, root: u64)
    requires BootState(m, a, p)
    modifies m, m.cells, a
    ensures a.end == old(a.end)
    ensures ok <==>
      var ms := InitMappings(k, p);
      Compatible(ms) && old(a.current / PAGE_SIZE) + 1 + |ListTables(ms)| <= a.end / PAGE_SIZE
    ensures !ok ==> m.satp.None?
    ensures ok ==> KernelAccess(m.Words(), RamRegion(p, old(a.current)).lo, k, p)
    ensures var g := RamRegion(p, old(a.current));
      ok ==>
        && m.satp == Some(g.lo) && root == PointerTo(m.satp, g.lo)
        && Ready(m, a, g.lo, g)
        && (forall i :: 0 <= i < 7 ==> HasMapping(m.Words(), g.lo, InitMappings(k, p)[i]))
        && (forall page: nat :: page < PAGES && Entry(m.Words(), g.lo, page) != 0 ==>
              exists i :: 0 <= i < 7 && InMapping(InitMappings(k, p)[i], page))
  {
    hide ReadyState, HasMapping, InMapping, Entry, InitMappings, PhysToVirt, MapAll, Compatible, ListTables,
      KernelAccess, EmptyTree;
    ghost var g := RamRegion(p, a.current);
    ok := false;
    root := CreateRootTable(m, a, p);
    if root == 0 {
      return;
    }
    KernelMapped(m.Words(), a.current, a.end, g, p, k);
    ok := MapKernel(m, root, a, p, k, g.lo, g);
    if !ok {
      return;
    }
    ReadyAligned(m, a, g.lo, g);
    m.satp := Some(root / PAGE_SIZE);
    root := PhysToVirt(root);
  }

  /** Once all seven requests have succeeded, satp can be written: RAM stays reachable. */
  lemma KernelMapped(mem: Memory, current: nat, end: nat, g: Region, p: PlatformInfo, k: KernelImage)
    requires ReadyState(mem, None, current, end, g.lo, g)
    requires g == RamRegion(p, g.lo * PAGE_SIZE) && p.ramBase + p.ramSize == end && PAGE_SIZE <= p.ramBase < end
    requires EmptyTree(mem, g.lo)
    ensures var ms := InitMappings(k, p);
      var out := MapAll(mem, g.lo, current / PAGE_SIZE, end / PAGE_SIZE, ms);
      && (out.ok <==> Compatible(ms) && current / PAGE_SIZE + |ListTables(ms)| <= end / PAGE_SIZE)
      && (out.ok ==>
        && KernelAccess(out.mem, g.lo, k, p) && out.cur == current / PAGE_SIZE + |ListTables(ms)|
        && ReadyState(out.mem, Some(g.lo), out.cur * PAGE_SIZE, end, g.lo, g)
        && (forall i :: 0 <= i < 7 ==> HasMapping(out.mem, g.lo, ms[i]))
        && (forall page: nat :: page < PAGES && Entry(out.mem, g.lo, page) != 0 ==>
              exists i :: 0 <= i < 7 && InMapping(ms[i], page)))
  {
    hide MapAll, HasMapping, InMapping, Inv, Compatible, AllFit, KernelAccess, EmptyTree, ListMissing, ListTables,
      PhysToVirt, InitMappings, ReadyState, Pages;
    var ms := InitMappings(k, p);
    BootBounds(mem, current, end, g);
    RamIsLast(k, p);
    EmptyEntries(mem, g.lo);
    EmptyFits(mem, g.lo, ms);
    EmptyMissingList(mem, g.lo, ms);
    MapAllWithinCost(mem, g.lo, g.lo, current / PAGE_SIZE, end / PAGE_SIZE, ms);
    MapAllCorrect(mem, g.lo, g.lo, current / PAGE_SIZE, end / PAGE_SIZE, ms);
    var out := MapAll(mem, g.lo, current / PAGE_SIZE, end / PAGE_SIZE, ms);
    if out.ok {
      DirectFromMapping(out.mem, g.lo, p);
      NowHosted(mem, current, end, g, p, out.mem, out.cur);
      MappedKernelAccess(out.mem, g.lo, g.lo, out.cur, k, p);
    }
  }

  lemma BootBounds(mem: Memory, current: nat, end: nat, g: Region)
    requires ReadyState(mem, None, current, end, g.lo, g)
    ensures Inv(mem, g.lo, g.lo, current / PAGE_SIZE) && end <= 0x40_0000_0000
    ensures g.lo <= current / PAGE_SIZE <= end / PAGE_SIZE <= FRAMES && ENTRIES * (end / PAGE_SIZE) <= |mem|
  {
  }

  /** The last range is RAM. */
  lemma RamIsLast(k: KernelImage, p: PlatformInfo)
    ensures var x := InitMappings(k, p)[6];
      && x == Mapping(PhysToVirt(p.ramBase), p.ramBase, p.ramSize, FLAGS_RW)
      && (0 < p.ramSize <= 0x40_0000_0000 ==> Pages(x) > 0)
  {
    hide PhysToVirt;
  }

  lemma NowHosted(mem: Memory, current: nat, end: nat, g: Region, p: PlatformInfo, mem': Memory, cur': nat)
    requires ReadyState(mem, None, current, end, g.lo, g)
    requires g == RamRegion(p, g.lo * PAGE_SIZE) && p.ramBase + p.ramSize == end
    requires Inv(mem', g.lo, g.lo, cur') && |mem'| == |mem| && current / PAGE_SIZE <= cur' <= end / PAGE_SIZE
    requires DirectMapped(mem', g.lo, p.ramBase / PAGE_SIZE, (p.ramBase + p.ramSize) / PAGE_SIZE)
    ensures ReadyState(mem', Some(g.lo), cur' * PAGE_SIZE, end, g.lo, g)
  {
    hide Inv, DirectMapped;
    assert cur' * PAGE_SIZE <= end && cur' * PAGE_SIZE / PAGE_SIZE == cur';
  }

  lemma EmptyEntries(mem: Memory, root: nat)
    requires EmptyTree(mem, root)
    ensures forall page: nat :: page < PAGES ==> Entry(mem, root, page) == 0
  {
  }
}
