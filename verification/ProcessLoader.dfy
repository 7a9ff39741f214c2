/** The first user program: memory layout, user regions, and the load that combines them. */
module ProcessLoader {
  import opened Words
  import opened PageTables
  import opened PageTableProofs
  import opened PageRanges
  import opened Sv39
  import opened DirectMap
  import opened MachineModel
  import opened PageAllocator
  import opened Paging
  import opened UserMemory
  import opened UserCopy

  const USER_TEXT_START: u64 := 0x40_0000
  const USER_STACK_TOP: u64 := 0x3F_FFFF_F000
  const USER_STACK_SIZE: u64 := 4096
  const FLAGS_RXU: nat := 26
  const FLAGS_RU: nat := 18
  const FLAGS_RWU: nat := 22

  // ---------- the layout ----------

  datatype MemoryRegion = MemoryRegion(start: u64, size: u64, flags: nat)

  datatype ProcessMemoryLayout = ProcessMemoryLayout(
    text: MemoryRegion, rodata: MemoryRegion, data: MemoryRegion, bss: MemoryRegion, heap: MemoryRegion,
    stack: MemoryRegion, heapBreak: u64, stackTop: u64, entry: u64)

  function StackPages(stackSize: u64): u64 {
    if AlignUp(stackSize) == 0 then PAGE_SIZE else AlignUp(stackSize)
  }

  /** `process_memory_layout_init`; all sums wrap at 2^64 as they do in the kernel. */
  function LayoutInit(textSize: u64, rodataSize: u64, dataSize: u64, bssSize: u64,
      stackSize: u64): Option<ProcessMemoryLayout> {
    var rodataStart := Wrap(USER_TEXT_START + AlignUp(textSize));
    var dataStart := Wrap(rodataStart + AlignUp(rodataSize));
    var bssStart := Wrap(dataStart + AlignUp(dataSize));
    var heapStart := Wrap(bssStart + AlignUp(bssSize));
    var stackTop := AlignDown(USER_STACK_TOP);
    var stackStart := Wrap(stackTop - StackPages(stackSize));
    if stackStart <= heapStart then None else
    Some(ProcessMemoryLayout(
      MemoryRegion(USER_TEXT_START, AlignUp(textSize), FLAGS_RXU),
      MemoryRegion(rodataStart, AlignUp(rodataSize), FLAGS_RU),
      MemoryRegion(dataStart, AlignUp(dataSize), FLAGS_RWU),
      MemoryRegion(bssStart, AlignUp(bssSize), FLAGS_RWU),
      MemoryRegion(heapStart, 0, FLAGS_RWU),
      MemoryRegion(stackStart, StackPages(stackSize), FLAGS_RWU),
      heapStart, stackTop, USER_TEXT_START))
  }

  predicate Covers(r: MemoryRegion, start: int, size: u64) {
    r.start == start && PageAligned(r.start) && PageAligned(r.size) && size <= r.size < size + PAGE_SIZE
  }

  /** Page-aligned regions that hold what was asked for and no whole page more, one directly after the other, all below
      the stack, which has at least a page and ends at the stack top; a gap is left for the heap, which is empty. */
  predicate SoundLayout(l: ProcessMemoryLayout, textSize: u64, rodataSize: u64, dataSize: u64, bssSize: u64,
      stackSize: u64) {
    && Covers(l.text, USER_TEXT_START, textSize)
    && Covers(l.rodata, l.text.start + l.text.size, rodataSize)
    && Covers(l.data, l.rodata.start + l.rodata.size, dataSize)
    && Covers(l.bss, l.data.start + l.data.size, bssSize)
    && l.heap.start == l.bss.start + l.bss.size == l.heapBreak && l.heap.size == 0
    && l.heap.start < l.stack.start
    && Covers(l.stack, l.stackTop - l.stack.size, if stackSize == 0 then 1 else stackSize)
    && l.stackTop == USER_STACK_TOP && l.entry == l.text.start
  }

  /** No size is in the last page of the address space, and neither the regions nor the stack wrap around. */
  predicate LayoutFits(textSize: u64, rodataSize: u64, dataSize: u64, bssSize: u64, stackSize: u64) {
    var last := TWO64 - PAGE_SIZE;
    && textSize <= last && rodataSize <= last && dataSize <= last && bssSize <= last && stackSize <= last
    && USER_TEXT_START + AlignUp(textSize) + AlignUp(rodataSize) + AlignUp(dataSize) + AlignUp(bssSize) < TWO64
    && StackPages(stackSize) <= USER_STACK_TOP
  }

  /** The sums are not checked for overflow, so success alone does not make the layout sound: it is
      sound exactly when, besides, nothing wraps around. */
  lemma LayoutSoundIff(textSize: u64, rodataSize: u64, dataSize: u64, bssSize: u64, stackSize: u64)
    requires LayoutInit(textSize, rodataSize, dataSize, bssSize, stackSize).Some?
    ensures SoundLayout(LayoutInit(textSize, rodataSize, dataSize, bssSize, stackSize).value,
                        textSize, rodataSize, dataSize, bssSize, stackSize)
        <==> LayoutFits(textSize, rodataSize, dataSize, bssSize, stackSize)
  {
    if LayoutFits(textSize, rodataSize, dataSize, bssSize, stackSize) {
      FitsIsSound(textSize, rodataSize, dataSize, bssSize, stackSize);
    }
    if SoundLayout(LayoutInit(textSize, rodataSize, dataSize, bssSize, stackSize).value,
                   textSize, rodataSize, dataSize, bssSize, stackSize) {
      SoundFits(textSize, rodataSize, dataSize, bssSize, stackSize);
    }
  }

  /** A layout is refused exactly when, nothing wrapping around, the regions and the stack leave no gap for the heap. */
  lemma LayoutAcceptedIff(textSize: u64, rodataSize: u64, dataSize: u64, bssSize: u64, stackSize: u64)
    requires LayoutFits(textSize, rodataSize, dataSize, bssSize, stackSize)
    ensures LayoutInit(textSize, rodataSize, dataSize, bssSize, stackSize).Some? <==>
      USER_TEXT_START + AlignUp(textSize) + AlignUp(rodataSize) + AlignUp(dataSize) + AlignUp(bssSize)
        + StackPages(stackSize) < USER_STACK_TOP
  {
    hide PageAligned, AlignUp, AlignDown, Wrap, StackPages;
    StackTopAligned();
    var t1 := USER_TEXT_START + AlignUp(textSize);
    var t2 := t1 + AlignUp(rodataSize);
    var t3 := t2 + AlignUp(dataSize);
    WrapFits(t1); WrapFits(t2); WrapFits(t3); WrapFits(t3 + AlignUp(bssSize));
    WrapFits(USER_STACK_TOP - StackPages(stackSize));
  }

  /** What the flags of a region let user mode do; supervisor mode is let do nothing. */
  predicate UserFlags(flags: nat, w: bool, x: bool) {
    && flags < 1024 && IsLeaf(flags) && HasBit(flags, PTE_U) && HasBit(flags, PTE_R)
    && HasBit(flags, PTE_W) == w && HasBit(flags, PTE_X) == x
  }

  /** Text is executed and not written, rodata only read, and everything else written and not executed. */
  lemma LayoutFlags(textSize: u64, rodataSize: u64, dataSize: u64, bssSize: u64, stackSize: u64)
    requires LayoutInit(textSize, rodataSize, dataSize, bssSize, stackSize).Some?
    ensures var l := LayoutInit(textSize, rodataSize, dataSize, bssSize, stackSize).value;
      && UserFlags(l.text.flags, false, true) && UserFlags(l.rodata.flags, false, false)
      && UserFlags(l.data.flags, true, false) && UserFlags(l.bss.flags, true, false)
      && UserFlags(l.heap.flags, true, false) && UserFlags(l.stack.flags, true, false)
  {
    UserFlagBits();
  }

  lemma UserFlagBits()
    ensures UserFlags(FLAGS_RXU, false, true) && UserFlags(FLAGS_RU, false, false) && UserFlags(FLAGS_RWU, true, false)
  {
  }

  lemma SoundFits(textSize: u64, rodataSize: u64, dataSize: u64, bssSize: u64, stackSize: u64)
    requires LayoutInit(textSize, rodataSize, dataSize, bssSize, stackSize).Some?
    requires SoundLayout(LayoutInit(textSize, rodataSize, dataSize, bssSize, stackSize).value,
                         textSize, rodataSize, dataSize, bssSize, stackSize)
    ensures LayoutFits(textSize, rodataSize, dataSize, bssSize, stackSize)
  {
    hide AlignUp, Wrap, AlignDown, PageAligned;
  }

  lemma FitsIsSound(textSize: u64, rodataSize: u64, dataSize: u64, bssSize: u64, stackSize: u64)
    requires LayoutInit(textSize, rodataSize, dataSize, bssSize, stackSize).Some?
    requires LayoutFits(textSize, rodataSize, dataSize, bssSize, stackSize)
    ensures SoundLayout(LayoutInit(textSize, rodataSize, dataSize, bssSize, stackSize).value,
                        textSize, rodataSize, dataSize, bssSize, stackSize)
  {
    hide Wrap, PageAligned, AlignUp, AlignDown;
    StackTopAligned();
    var t1 := USER_TEXT_START + AlignUp(textSize);
    var t2 := t1 + AlignUp(rodataSize);
    var t3 := t2 + AlignUp(dataSize);
    var t4 := t3 + AlignUp(bssSize);
    WrapFits(t1); WrapFits(t2); WrapFits(t3); WrapFits(t4);
    WrapFits(USER_STACK_TOP - StackPages(stackSize));
    AlignedSum(USER_TEXT_START, AlignUp(textSize));
    AlignedSum(t1, AlignUp(rodataSize));
    AlignedSum(t2, AlignUp(dataSize));
    AlignedSum(t3, AlignUp(bssSize));
    AlignedDifference(USER_STACK_TOP, StackPages(stackSize));
  }

  lemma WrapFits(x: int)
    requires 0 <= x < TWO64
    ensures Wrap(x) == x
  {
  }

  lemma AlignedSum(x: int, y: int)
    requires 0 <= x && 0 <= y && x + y < TWO64 && x % PAGE_SIZE == 0 && y % PAGE_SIZE == 0
    ensures PageAligned(x) && PageAligned(y) && PageAligned(x + y) && (x + y) % PAGE_SIZE == 0
  {
  }

  lemma AlignedDifference(x: int, y: int)
    requires 0 <= y <= x < TWO64 && x % PAGE_SIZE == 0 && y % PAGE_SIZE == 0
    ensures PageAligned(x - y) && PageAligned(y)
  {
  }

  lemma StackTopAligned()
    ensures AlignDown(USER_STACK_TOP) == USER_STACK_TOP && AlignUp(0) == 0 && AlignUp(PAGE_SIZE) == PAGE_SIZE
  {
  }

  /** A stack request that is larger than the user half is accepted, with a stack that does not end at the stack top. */
  lemma HugeStackAccepted()
    ensures LayoutInit(0, 0, 0, 0, 0x8000_0000_0000_0000).Some?
    ensures !SoundLayout(LayoutInit(0, 0, 0, 0, 0x8000_0000_0000_0000).value, 0, 0, 0, 0, 0x8000_0000_0000_0000)
  {
    StackTopAligned();
    assert AlignUp(0x8000_0000_0000_0000) == 0x8000_0000_0000_0000;
  }

  // ---------- map_region ----------

  /** Loading keeps the tables sound and RAM reachable. */
  lemma LoadReady(mem: Memory, mem': Memory, current: nat, end: nat, root: nat, g: Region, cur': nat)
    requires ReadyState(mem, Some(root), current, end, root, g)
    requires LoadKeeps(mem, mem', root, g.lo, current / PAGE_SIZE, cur') && cur' <= end / PAGE_SIZE
    ensures ReadyState(mem', Some(root), cur' * PAGE_SIZE, end, root, g)
  {
    hide Inv, Entry, LeafPte, Table, Word;
    forall page: nat | DIRECT_PAGE + g.first <= page < DIRECT_PAGE + g.last
      ensures Entry(mem', root, page) == Entry(mem, root, page)
    {
      LeafPteValid((page - DIRECT_PAGE) * PAGE_SIZE, DIRECT_FLAGS);
    }
    assert cur' * PAGE_SIZE <= end && cur' * PAGE_SIZE / PAGE_SIZE == cur';
  }

  lemma ClearingKeepsHosted(mem: Memory, satp: Option<nat>, cur: nat, g: Region, f: nat, n: nat)
    requires Hosted(mem, satp, cur, g) && cur <= f < g.last && n <= PAGE_SIZE
    ensures Hosted(ZeroBytes(mem, f, n), satp, cur, g)
  {
    hide Inv, Entry, Table, Word, ZeroBytes, LeafPte;
    ZeroBytesFacts(mem, f, n);
    if satp.Some? {
      UnusedFrame(mem, satp.value, g.lo, cur, f);
      OutsideTables(mem, ZeroBytes(mem, f, n), satp.value, g.lo, cur, f);
    }
  }

  lemma UnusedFrame(mem: Memory, root: nat, lo: nat, cur: nat, f: nat)
    requires Inv(mem, root, lo, cur) && cur <= f
    ensures !IsTable(mem, root, f)
  {
  }

  /** The byte loop of `map_region` that clears a new page. */
  method ClearFrame(m: Machine, bytes: u64, ghost f: nat, ghost cur: nat, ghost g: Region)
    requires Hosted(m.Words(), m.satp, cur, g) && cur <= f < g.last && bytes == PointerTo(m.satp, f)
    modifies m.cells
    ensures m.Words() == ZeroBytes(old(m.Words()), f, PAGE_SIZE)
  {
    hide Hosted, Resolve, PointerTo, StoreByteAt;
    for i := 0 to PAGE_SIZE
      invariant m.Words() == ZeroBytes(old(m.Words()), f, i)
    {
      ClearingKeepsHosted(old(m.Words()), m.satp, cur, g, f, i);
      HostedBounds(m.Words(), m.satp, cur, g);
      PointerReaches(m.Words(), m.satp, cur, g, f, i, Write);
      m.StoreByte(bytes + i, 0);
    }
  }

  lemma HostedBounds(mem: Memory, satp: Option<nat>, cur: nat, g: Region)
    requires Hosted(mem, satp, cur, g)
    ensures 1 <= g.first <= g.lo <= cur <= g.last <= DIRECT_PAGE && ENTRIES * g.last <= |mem|
  {
  }

  /** One step of the loop of `map_region`, with the state it leaves. */
  lemma FreshReady(mem: Memory, current: nat, end: nat, root: nat, g: Region, va: u64, flags: nat)
    requires ReadyState(mem, Some(root), current, end, root, g) && flags < 1024 && current / PAGE_SIZE < end / PAGE_SIZE
    ensures var cur := current / PAGE_SIZE;
      var z := ZeroBytes(mem, cur, PAGE_SIZE);
      && ReadyState(z, Some(root), current + PAGE_SIZE, end, root, g)
      && Hosted(mem, Some(root), cur, g) && g.lo <= cur < g.last
      && current == cur * PAGE_SIZE
      && (current + PAGE_SIZE) / PAGE_SIZE == cur + 1
  {
    hide Inv, ZeroBytes, Entry, Table, Word, LeafPte;
    var cur := current / PAGE_SIZE;
    FreshFrame(mem, root, g.lo, cur);
    OutsideTables(mem, ZeroBytes(mem, cur, PAGE_SIZE), root, g.lo, cur, cur);
  }

  /** `map_region`. */
  method MapRegion(m: Machine, root: u64, region: MemoryRegion, a: PhysicalPageAllocator, ghost r: nat, ghost g: Region)
    returns (ok: bool)
    requires m.satp.Some? && region.flags < 1024
    requires root != 0 ==> Ready(m, a, r, g) && root == PointerTo(m.satp, r)
    modifies m.cells, a
    ensures a.end == old(a.end)
    ensures root == 0 || !PageAligned(region.start) || !PageAligned(region.size) ==>
      !ok && m.Words() == old(m.Words()) && a.current == old(a.current)
    ensures root != 0 ==> Ready(m, a, r, g)
    ensures root != 0 && PageAligned(region.start) && PageAligned(region.size) ==>
      var out := old(MapFresh(m.Words(), r, a.current / PAGE_SIZE, a.end / PAGE_SIZE, region.start, region.flags,
                              region.size / PAGE_SIZE));
      ok == out.ok && m.Words() == out.mem && a.current / PAGE_SIZE == out.cur
  {
    hide ReadyState, MapPage, ZeroBytes, PhysToVirt;
    if root == 0 {
      return false;
    }
    if !PageAligned(region.start) {
      return false;
    }
    if !PageAligned(region.size) {
      return false;
    }
    ghost var out := MapFresh(m.Words(), r, a.current / PAGE_SIZE, a.end / PAGE_SIZE, region.start, region.flags,
      region.size / PAGE_SIZE);
    var offset := 0;
    while offset < region.size
      invariant offset % PAGE_SIZE == 0 && offset <= region.size
      invariant a.end == old(a.end) && Ready(m, a, r, g)
      invariant var rest := MapFresh(m.Words(), r, a.current / PAGE_SIZE, a.end / PAGE_SIZE,
          Wrap(region.start + offset), region.flags, (region.size - offset) / PAGE_SIZE);
        rest.ok == out.ok && rest.mem == out.mem && rest.cur == out.cur
    {
      RangeStep(region.start, offset, region.size);
      ok := MapOne(m, root, Wrap(region.start + offset), region.flags, a, r, g);
      if !ok {
        return false;
      }
      offset := offset + PAGE_SIZE;
    }
    return true;
  }

  /** The loop body of `map_region`: allocate, clear, map. */
  method MapOne(m: Machine, root: u64, va: u64, flags: nat, a: PhysicalPageAllocator, ghost r: nat, ghost g: Region)
    returns (ok: bool)
    requires m.satp.Some? && flags < 1024 && root != 0
    requires Ready(m, a, r, g) && root == PointerTo(m.satp, r)
    modifies m.cells, a
    ensures a.end == old(a.end) && Ready(m, a, r, g)
    ensures var mem, cur, end := old(m.Words()), old(a.current) / PAGE_SIZE, a.end / PAGE_SIZE;
      if cur + 1 > end then !ok && m.Words() == mem && a.current / PAGE_SIZE == cur
      else Outcome(ok, m.Words(), a.current / PAGE_SIZE) ==
           MapPage(ZeroBytes(mem, cur, PAGE_SIZE), r, cur + 1, end, va, Wrap(cur * PAGE_SIZE), flags)
  {
    hide Inv, Hosted, MapPage, ZeroBytes, PhysToVirt;
    ghost var mem, cur := m.Words(), a.current / PAGE_SIZE;
    AllocFrame(a.current, a.end);
    if cur < a.end / PAGE_SIZE {
      FreshReady(mem, a.current, a.end, r, g, va, flags);
    }
    var page := a.AllocPage();
    if page == 0 {
      return false;
    }
    ClearFrame(m, PhysToVirt(page), cur, cur, g);
    ok := PagingMap(m, root, va, page, flags, a, r, g);
  }

  // ---------- copy_into_region ----------

  /** Every mapped page that the copy may reach is RAM and not a table. */
  ghost predicate SafeTarget(mem: Memory, root: nat, va: u64, size: nat, g: Region) {
    forall i: nat :: i < size ==> SafeByte(mem, root, va, i, g)
  }

  ghost predicate SafeByte(mem: Memory, root: nat, va: u64, i: nat, g: Region) {
    match Query(mem, root, Wrap(va + i))
    case None => true
    case Some(t) => g.first <= t.pa / PAGE_SIZE < g.last && !IsTable(mem, root, t.pa / PAGE_SIZE)
  }

  /** The kernel reaches a byte of RAM at its direct-map address. */
  lemma PhysReaches(mem: Memory, satp: Option<nat>, cur: nat, g: Region, pa: u64)
    requires Hosted(mem, satp, cur, g) && satp.Some? && g.first <= pa / PAGE_SIZE < g.last
    ensures Resolve(mem, satp, PhysToVirt(pa), Write) == Some(pa as nat)
  {
    hide Hosted, Resolve;
    var f, k := pa / PAGE_SIZE, pa % PAGE_SIZE;
    PointerReaches(mem, satp, cur, g, f, k, Write);
    HostedBounds(mem, satp, cur, g);
    DirectAddress(pa);
    DirectAddress(f * PAGE_SIZE);
  }

  /** A byte stored outside the tables disturbs neither the tables nor any later query. */
  lemma PokeKeeps(mem: Memory, current: nat, end: nat, root: nat, g: Region, pa: u64, b: byte)
    requires ReadyState(mem, Some(root), current, end, root, g)
    requires !IsTable(mem, root, pa / PAGE_SIZE)
    ensures var mem' := StoreByteAt(mem, pa, b);
      && ReadyState(mem', Some(root), current, end, root, g)
      && (forall va: u64 :: Query(mem', root, va) == Query(mem, root, va))
      && (forall f: nat :: IsTable(mem', root, f) == IsTable(mem, root, f))
  {
    hide Inv, Entry, Table, Word, LeafPte, Query;
    var mem' := StoreByteAt(mem, pa, b);
    StoreByteOutside(mem, pa / PAGE_SIZE, pa % PAGE_SIZE, b);
    OutsideTables(mem, mem', root, g.lo, current / PAGE_SIZE, pa / PAGE_SIZE);
    forall va: u64 ensures Query(mem', root, va) == Query(mem, root, va) {
      QueryReadsEntry(mem, root, g.lo, current / PAGE_SIZE, va);
      QueryReadsEntry(mem', root, g.lo, current / PAGE_SIZE, va);
      VpnDigits(va);
    }
  }

  lemma SafeTargetAt(mem: Memory, root: nat, va: u64, size: nat, g: Region, i: nat)
    requires SafeTarget(mem, root, va, size, g) && i < size
    ensures SafeByte(mem, root, va, i, g)
  {
  }

  lemma SafeTargetKept(mem: Memory, mem': Memory, root: nat, va: u64, size: nat, g: Region)
    requires SafeTarget(mem, root, va, size, g)
    requires forall va: u64 :: Query(mem', root, va) == Query(mem, root, va)
    requires forall f: nat :: IsTable(mem', root, f) == IsTable(mem, root, f)
    ensures SafeTarget(mem', root, va, size, g)
  {
    hide Query, IsTable;
    forall i: nat | i < size ensures SafeByte(mem', root, va, i, g) {
      assert SafeByte(mem, root, va, i, g);
    }
  }

  /** Byte `j` from `va` on has a translation. */
  predicate Translates(mem: Memory, root: nat, va: u64, j: nat) {
    Query(mem, root, Wrap(va + j)).Some?
  }

  /** The copy from byte `i` on succeeds exactly when every address from there on translates: the stores disturb no
      later query. */
  lemma {:induction false} CopySucceedsIff(mem: Memory, current: nat, end: nat, root: nat, g: Region, va: u64,
      source: seq<byte>, i: nat)
    requires ReadyState(mem, Some(root), current, end, root, g) && SafeTarget(mem, root, va, |source|, g) &&
      i <= |source|
    ensures CopyInto(mem, root, Wrap(va + i), source[i..]).0 <==>
      forall j: nat :: i <= j < |source| ==> Translates(mem, root, va, j)
    decreases |source| - i
  {
    hide ReadyState, SafeTarget, Query, StoreByteAt, IsTable, Wrap;
    if i < |source| {
      SafeTargetAt(mem, root, va, |source|, g, i);
      assert Translates(mem, root, va, i) <==> Query(mem, root, Wrap(va + i)).Some?;
      var t := Query(mem, root, Wrap(va + i));
      if t.Some? {
        var mem' := StoreByteAt(mem, t.value.pa, source[i]);
        PokeKeeps(mem, current, end, root, g, t.value.pa, source[i]);
        SafeTargetKept(mem, mem', root, va, |source|, g);
        WrapNext(va, i);
        assert source[i..][1..] == source[i + 1..];
        CopySucceedsIff(mem', current, end, root, g, va, source, i + 1);
        assert forall j: nat :: Translates(mem', root, va, j) == Translates(mem, root, va, j);
      }
    }
  }

  /** `copy_into_region`: each byte is queried anew and stored through the direct map. */
  method CopyIntoRegion(m: Machine, root: u64, va: u64, source: seq<byte>, ghost r: nat, ghost current: nat,
      ghost end: nat, ghost g: Region)
    returns (ok: bool)
    requires m.satp.Some?
    requires root != 0 ==> ReadyState(m.Words(), m.satp, current, end, r, g) && root == PointerTo(m.satp, r)
    requires root != 0 ==> SafeTarget(m.Words(), r, va, |source|, g)
    modifies m.cells
    ensures root == 0 ==> ok == (source == []) && m.Words() == old(m.Words())
    ensures root != 0 ==> ReadyState(m.Words(), m.satp, current, end, r, g)
    ensures root != 0 ==> (ok, m.Words()) == CopyInto(old(m.Words()), r, va, source)
    ensures root != 0 ==> (ok <==> forall j: nat :: j < |source| ==> Translates(old(m.Words()), r, va, j))
  {
    hide Inv, Hosted, Query, StoreByteAt, Resolve, IsTable, PhysToVirt, SafeTarget, Translates;
    if root != 0 {
      assert source[0..] == source && Wrap(va + 0) == va;
      SatpIsRoot(m.Words(), m.satp, current, end, r, g);
      CopySucceedsIff(m.Words(), current, end, r, g, va, source, 0);
    }
    if root == 0 && |source| != 0 {
      return false;
    }
    if root == 0 {
      return true;
    }
    for i := 0 to |source|
      invariant ReadyState(m.Words(), m.satp, current, end, r, g)
      invariant SafeTarget(m.Words(), r, va, |source|, g)
      invariant CopyInto(m.Words(), r, Wrap(va + i), source[i..]) == CopyInto(old(m.Words()), r, va, source)
    {
      SafeTargetAt(m.Words(), r, va, |source|, g, i);
      var found, pa, _ := PagingQuery(m, root, Wrap(va + i), r, current, end, g);
      if !found {
        return false;
      }
      PhysReaches(m.Words(), m.satp, current / PAGE_SIZE, g, pa);
      PokeKeeps(m.Words(), current, end, r, g, pa, source[i]);
      SafeTargetKept(m.Words(), StoreByteAt(m.Words(), pa, source[i]), r, va, |source|, g);
      WrapNext(va, i);
      m.StoreByte(PhysToVirt(pa), source[i]);
    }
    return true;
  }

  lemma SatpIsRoot(mem: Memory, satp: Option<nat>, current: nat, end: nat, root: nat, g: Region)
    requires ReadyState(mem, satp, current, end, root, g) && satp.Some?
    ensures satp == Some(root)
  {
  }

  lemma WrapNext(va: u64, i: nat)
    ensures Wrap(Wrap(va + i) + 1) == Wrap(va + (i + 1)) && Wrap(va + 0) == va
  {
    WrapShift(Wrap(va + i) + 1, (va + i) / TWO64);
  }

  // ---------- loading the first program ----------

  /** All bytes of a region read as zero. */
  ghost predicate ZeroRegion(mem: Memory, root: nat, start: u64, n: nat) {
    forall x: nat :: x < n * PAGE_SIZE ==> RegionByte(mem, root, start, x) == Some(0)
  }

  /** The first `|image|` bytes of a region are the image, the rest is zero. */
  ghost predicate HoldsImage(mem: Memory, root: nat, start: u64, n: nat, image: seq<byte>) {
    forall x: nat :: x < n * PAGE_SIZE ==>
      RegionByte(mem, root, start, x) == Some(if x < |image| then image[x] else 0)
  }

  lemma FreshRegion(mem: Memory, root: nat, lo: nat, cur: nat, end: nat, region: MemoryRegion)
    requires Inv(mem, root, lo, cur) && lo <= cur <= end <= FRAMES && ENTRIES * end <= |mem|
    requires region.flags < 1024 && IsLeaf(region.flags) && PageAligned(region.start) && PageAligned(region.size)
    requires region.start + region.size <= 0x40_0000_0000
    requires MapFresh(mem, root, cur, end, region.start, region.flags, region.size / PAGE_SIZE).ok
    ensures var out := MapFresh(mem, root, cur, end, region.start, region.flags, region.size / PAGE_SIZE);
      && LoadKeeps(mem, out.mem, root, lo, cur, out.cur) && out.cur <= end && Inv(out.mem, root, lo, out.cur)
      && |out.mem| == |mem| && cur <= out.cur
      && UserRegion(out.mem, root, region.start, region.size / PAGE_SIZE, region.flags, cur, out.cur)
      && ZeroRegion(out.mem, root, region.start, region.size / PAGE_SIZE)
      && |Tables(out.mem, root)| - |Tables(mem, root)| == out.cur - cur - region.size / PAGE_SIZE
  {
    hide Inv, MapFresh, LoadKeeps, UserPages, ZeroedPages, Tables, RegionByte, IsLeaf;
    var n := region.size / PAGE_SIZE;
    MapFreshCorrect(mem, root, lo, cur, end, region.start, region.flags, n);
    var out := MapFresh(mem, root, cur, end, region.start, region.flags, n);
    LoadKeepsBounds(mem, out.mem, root, lo, cur, out.cur);
    forall x: nat | x < n * PAGE_SIZE ensures RegionByte(out.mem, root, region.start, x) == Some(0) {
      ZeroByteOfRegion(out.mem, root, lo, out.cur, region.start, n, region.flags, cur, out.cur, x);
    }
  }

  lemma ZeroByteOfRegion(mem: Memory, root: nat, lo: nat, cur: nat, start: u64, n: nat, flags: nat, from: nat, to: nat,
      x: nat)
    requires Inv(mem, root, lo, cur) && UserRegion(mem, root, start, n, flags, from, to) && x < n * PAGE_SIZE
    requires ZeroedPages(mem, root, Vpn(start), n)
    ensures RegionByte(mem, root, start, x) == Some(0)
  {
    hide Inv, Entry, Table, Query, Distance, UserPages, Vpn;
    RegionAddress(mem, root, lo, cur, start, n, flags, from, to, x);
    RegionPage(start, n, x);
    assert ByteIn(mem, FrameAt(mem, root, Vpn(start + x)), x % PAGE_SIZE) == 0;
  }

  /** A region keeps its frames and its bytes while others are mapped. */
  lemma RegionSurvives(mem: Memory, mem': Memory, root: nat, lo: nat, cur: nat, cur': nat, start: u64, n: nat,
      flags: nat, from: nat, to: nat)
    requires Inv(mem, root, lo, cur) && LoadKeeps(mem, mem', root, lo, cur, cur') && to <= cur
    requires UserRegion(mem, root, start, n, flags, from, to)
    ensures UserRegion(mem', root, start, n, flags, from, to)
    ensures ZeroRegion(mem, root, start, n) ==> ZeroRegion(mem', root, start, n)
  {
    hide Inv, Entry, Table, Word, LoadKeeps, Distance, LeafPte, IsLeaf, ByteIn, Vpn, RegionByte;
    LoadKeepsBounds(mem, mem', root, lo, cur, cur');
    forall page: nat | page < PAGES && Distance(Vpn(start), page) < n
      ensures UserPage(mem', root, page, flags, from, to) && FrameAt(mem', root, page) == FrameAt(mem, root, page)
    {
      UserPageSurvives(mem, mem', root, lo, cur, cur', page, flags, from, to);
    }
    forall x: nat | x < n * PAGE_SIZE ensures RegionByte(mem', root, start, x) == RegionByte(mem, root, start, x) {
      ByteSurvives(mem, mem', root, lo, cur, cur', start, n, flags, from, to, x);
    }
  }

  lemma ByteSurvives(mem: Memory, mem': Memory, root: nat, lo: nat, cur: nat, cur': nat, start: u64, n: nat, flags: nat,
      from: nat, to: nat, x: nat)
    requires Inv(mem, root, lo, cur) && Inv(mem', root, lo, cur') && x < n * PAGE_SIZE && to <= cur
    requires UserRegion(mem, root, start, n, flags, from, to) && UserRegion(mem', root, start, n, flags, from, to)
    requires LoadKeeps(mem, mem', root, lo, cur, cur')
    ensures RegionByte(mem', root, start, x) == RegionByte(mem, root, start, x)
  {
    hide Inv, Entry, Table, Word, LoadKeeps, Distance, LeafPte, IsLeaf, Vpn, Query, UserPage;
    RegionAddress(mem, root, lo, cur, start, n, flags, from, to, x);
    RegionAddress(mem', root, lo, cur', start, n, flags, from, to, x);
    RegionPage(start, n, x);
    var page := Vpn(start + x);
    UserPageSurvives(mem, mem', root, lo, cur, cur', page, flags, from, to);
    var f := FrameAt(mem, root, page);
    assert ByteIn(mem', f, x % PAGE_SIZE) == ByteIn(mem, f, x % PAGE_SIZE);
  }

  /** Copying into one region leaves a region with other frames alone. */
  lemma CopyElsewhere(mem: Memory, mem': Memory, root: nat, lo: nat, cur: nat, low: nat, high: nat, start: u64, n: nat,
      flags: nat, from: nat, to: nat)
    requires Inv(mem, root, lo, cur) && Inv(mem', root, lo, cur) && |mem'| == |mem|
    requires EntriesKept(mem, mem', root) && forall p :: IsPath(p) ==> Table(mem', root, p) == Table(mem, root, p)
    requires forall f: nat, j: nat :: j < ENTRIES && !(low <= f < high) ==> Word(mem', f, j) == Word(mem, f, j)
    requires high <= from && UserRegion(mem, root, start, n, flags, from, to)
    ensures UserRegion(mem', root, start, n, flags, from, to)
    ensures ZeroRegion(mem, root, start, n) ==> ZeroRegion(mem', root, start, n)
  {
    hide Inv, Entry, Table, Word, Distance, LeafPte, IsLeaf, Vpn, Query, RegionByte, UserPages, IsPath, ByteIn;
    UserPagesKept(mem, mem', root, Vpn(start), n, flags, from, to);
    forall x: nat | x < n * PAGE_SIZE ensures RegionByte(mem', root, start, x) == RegionByte(mem, root, start, x) {
      RegionPage(start, n, x);
      FrameKept(mem, mem', root, Vpn(start + x));
      ByteElsewhere(mem, mem', root, lo, cur, start, n, flags, from, to, x);
    }
  }

  lemma FrameKept(mem: Memory, mem': Memory, root: nat, page: nat)
    requires EntriesKept(mem, mem', root) && page < PAGES
    ensures FrameAt(mem', root, page) == FrameAt(mem, root, page)
  {
  }

  lemma ByteElsewhere(mem: Memory, mem': Memory, root: nat, lo: nat, cur: nat, start: u64, n: nat, flags: nat,
      from: nat, to: nat, x: nat)
    requires Inv(mem, root, lo, cur) && Inv(mem', root, lo, cur) && |mem'| == |mem| && x < n * PAGE_SIZE
    requires UserRegion(mem, root, start, n, flags, from, to) && UserRegion(mem', root, start, n, flags, from, to)
    requires Vpn(start + x) < PAGES && FrameAt(mem', root, Vpn(start + x)) == FrameAt(mem, root, Vpn(start + x))
    requires forall f: nat, j: nat :: j < ENTRIES && from <= f ==> Word(mem', f, j) == Word(mem, f, j)
    ensures RegionByte(mem', root, start, x) == RegionByte(mem, root, start, x)
  {
    hide Inv, Entry, Table, Word, Distance, LeafPte, IsLeaf, Vpn, Query, UserPages, ByteIn, FrameAt;
    RegionAddress(mem, root, lo, cur, start, n, flags, from, to, x);
    RegionAddress(mem', root, lo, cur, start, n, flags, from, to, x);
    FrameBytes(mem', mem, FrameAt(mem, root, Vpn(start + x)));
    ByteInOf(mem, FrameAt(mem, root, Vpn(start + x)), x % PAGE_SIZE);
    ByteInOf(mem', FrameAt(mem, root, Vpn(start + x)), x % PAGE_SIZE);
  }

  lemma ByteInOf(mem: Memory, f: nat, k: nat)
    ensures ByteIn(mem, f, k) == ByteAt(mem, f * PAGE_SIZE + k)
  {
  }

  /** The layout of the first program: its image, one bss page and one stack page. */
  lemma ProgramAccepted(size: u64)
    requires size <= 0x40_0000_0000
    ensures LayoutInit(size, 0, 0, PAGE_SIZE, USER_STACK_SIZE).Some? <==> ProgramFits(AlignUp(size) / PAGE_SIZE)
  {
    assert AlignUp(0) == 0 && AlignUp(PAGE_SIZE) == PAGE_SIZE && AlignUp(size) / PAGE_SIZE * PAGE_SIZE == AlignUp(size);
    hide AlignUp, LayoutInit;
    LayoutAcceptedIff(size, 0, 0, PAGE_SIZE, USER_STACK_SIZE);
  }

  lemma ProgramLayout(size: u64)
    requires size <= 0x40_0000_0000
    ensures LayoutInit(size, 0, 0, PAGE_SIZE, USER_STACK_SIZE).Some? <==> ProgramFits(AlignUp(size) / PAGE_SIZE)
    ensures match LayoutInit(size, 0, 0, PAGE_SIZE, USER_STACK_SIZE)
      case None => true
      case Some(l) =>
        && l.text == MemoryRegion(USER_TEXT_START, AlignUp(size), FLAGS_RXU)
        && l.bss == MemoryRegion(USER_TEXT_START + AlignUp(size), PAGE_SIZE, FLAGS_RWU)
        && l.stack == MemoryRegion(USER_STACK_TOP - PAGE_SIZE, PAGE_SIZE, FLAGS_RWU)
        && l.bss.start + l.bss.size <= l.stack.start
        && l.stackTop == USER_STACK_TOP && l.entry == USER_TEXT_START
        && PageAligned(l.text.start) && PageAligned(l.bss.start) && PageAligned(l.stack.start)
        && PageAligned(l.text.size) && PageAligned(PAGE_SIZE)
  {
    ProgramAccepted(size);
    if LayoutInit(size, 0, 0, PAGE_SIZE, USER_STACK_SIZE).Some? {
      hide AlignUp, Wrap, AlignDown, PageAligned;
      StackTopAligned();
      WrapFits(USER_TEXT_START + AlignUp(size));
      WrapFits(USER_TEXT_START + AlignUp(size) + PAGE_SIZE);
      WrapFits(USER_STACK_TOP - PAGE_SIZE);
      AlignedSum(USER_TEXT_START, AlignUp(size));
      AlignedSum(USER_STACK_TOP - PAGE_SIZE, PAGE_SIZE);
    }
  }

  function TextPages(image: seq<byte>): nat
    requires |image| <= 0x40_0000_0000
  {
    AlignUp(|image|) / PAGE_SIZE
  }

  /** The three regions are in place, in frames of their own (text in `c0 .. c1`, bss in `c1 .. c2`, stack
      in `c2 .. c3`) that are no tables; text holds the image and zeros, bss and stack hold zeros. */
  ghost predicate ProgramLoaded(mem: Memory, root: nat, image: seq<byte>, c0: nat, c1: nat, c2: nat, c3: nat)
    requires |image| <= 0x40_0000_0000
  {
    var n := TextPages(image);
    var bss := USER_TEXT_START + n * PAGE_SIZE;
    && bss + PAGE_SIZE <= USER_STACK_TOP - PAGE_SIZE
    && c0 <= c1 <= c2 <= c3
    && UserRegion(mem, root, USER_TEXT_START, n, FLAGS_RXU, c0, c1)
    && UserRegion(mem, root, bss, 1, FLAGS_RWU, c1, c2)
    && UserRegion(mem, root, USER_STACK_TOP - PAGE_SIZE, 1, FLAGS_RWU, c2, c3)
    && HoldsImage(mem, root, USER_TEXT_START, n, image)
    && ZeroRegion(mem, root, bss, 1)
    && ZeroRegion(mem, root, USER_STACK_TOP - PAGE_SIZE, 1)
  }

  /** The three calls of `map_region`. */
  lemma MapThree(m0: Memory, m1: Memory, m2: Memory, m3: Memory, root: nat, lo: nat, c0: nat, c1: nat, c2: nat, c3: nat,
      end: nat, text: MemoryRegion, bss: MemoryRegion, stack: MemoryRegion)
    requires Inv(m0, root, lo, c0) && lo <= c0 <= end <= FRAMES && ENTRIES * end <= |m0|
    requires forall r :: r in {text, bss, stack} ==>
      r.flags < 1024 && IsLeaf(r.flags) && PageAligned(r.start) && PageAligned(r.size) &&
        r.start + r.size <= 0x40_0000_0000
    requires var o := MapFresh(m0, root, c0, end, text.start, text.flags, text.size / PAGE_SIZE);
      o.ok && o.mem == m1 && o.cur == c1
    requires var o := MapFresh(m1, root, c1, end, bss.start, bss.flags, bss.size / PAGE_SIZE);
      o.ok && o.mem == m2 && o.cur == c2
    requires var o := MapFresh(m2, root, c2, end, stack.start, stack.flags, stack.size / PAGE_SIZE);
      o.ok && o.mem == m3 && o.cur == c3
    ensures LoadKeeps(m0, m3, root, lo, c0, c3) && c0 <= c1 <= c2 <= c3 <= end && Inv(m3, root, lo, c3)
    ensures UserRegion(m3, root, text.start, text.size / PAGE_SIZE, text.flags, c0, c1)
    ensures UserRegion(m3, root, bss.start, bss.size / PAGE_SIZE, bss.flags, c1, c2)
    ensures UserRegion(m3, root, stack.start, stack.size / PAGE_SIZE, stack.flags, c2, c3)
    ensures ZeroRegion(m3, root, text.start, text.size / PAGE_SIZE)
    ensures ZeroRegion(m3, root, bss.start, bss.size / PAGE_SIZE)
    ensures ZeroRegion(m3, root, stack.start, stack.size / PAGE_SIZE)
    ensures |Tables(m3, root)| - |Tables(m0, root)| ==
            c3 - c0 - text.size / PAGE_SIZE - bss.size / PAGE_SIZE - stack.size / PAGE_SIZE
  {
    hide Inv, MapFresh, LoadKeeps, UserRegion, ZeroRegion, Tables, IsLeaf, PageAligned;
    assert text in {text, bss, stack} && bss in {text, bss, stack} && stack in {text, bss, stack};
    FreshRegion(m0, root, lo, c0, end, text);
    FreshRegion(m1, root, lo, c1, end, bss);
    FreshRegion(m2, root, lo, c2, end, stack);
    RegionSurvives(m1, m2, root, lo, c1, c2, text.start, text.size / PAGE_SIZE, text.flags, c0, c1);
    RegionSurvives(m2, m3, root, lo, c2, c3, text.start, text.size / PAGE_SIZE, text.flags, c0, c1);
    RegionSurvives(m2, m3, root, lo, c2, c3, bss.start, bss.size / PAGE_SIZE, bss.flags, c1, c2);
    LoadKeepsTrans(m0, m1, m2, root, lo, c0, c1, c2);
    LoadKeepsTrans(m0, m2, m3, root, lo, c0, c2, c3);
  }

  // ---------- when the program is loaded ----------

  /** The pages of the program, `n` of them text, are free. */
  ghost predicate ProgramFree(mem: Memory, root: nat, n: nat)
    requires USER_TEXT_START + (n + 2) * PAGE_SIZE < USER_STACK_TOP
  {
    && Unmapped(mem, root, Vpn(USER_TEXT_START), n)
    && !IsValid(Entry(mem, root, Vpn(USER_TEXT_START + n * PAGE_SIZE)))
    && !IsValid(Entry(mem, root, Vpn(USER_STACK_TOP - PAGE_SIZE)))
  }

  /** The places where a table is missing on the way to them. */
  function ProgramMissing(mem: Memory, root: nat, n: nat): set<Path>
    requires USER_TEXT_START + (n + 2) * PAGE_SIZE < USER_STACK_TOP
  {
    RangeMissing(mem, root, Vpn(USER_TEXT_START), n)
    + MissingPaths(mem, root, Vpn(USER_TEXT_START + n * PAGE_SIZE))
    + MissingPaths(mem, root, Vpn(USER_STACK_TOP - PAGE_SIZE))
  }

  /** Where the three regions lie. */
  lemma ProgramPages(n: nat)
    requires USER_TEXT_START + (n + 2) * PAGE_SIZE < USER_STACK_TOP
    ensures var text, bss, stack := USER_TEXT_START, USER_TEXT_START + n * PAGE_SIZE, USER_STACK_TOP - PAGE_SIZE;
      && PageAligned(text) && PageAligned(bss) && PageAligned(stack) && n <= PAGES
      && Vpn(text) < PAGES && Vpn(bss) < PAGES && Vpn(stack) < PAGES && Vpn(bss) != Vpn(stack)
      && Distance(Vpn(text), Vpn(bss)) >= n && Distance(Vpn(text), Vpn(stack)) >= n
  {
  }

  lemma OnePage(mem: Memory, root: nat, page: nat)
    requires page < PAGES
    ensures Unmapped(mem, root, page, 1) <==> !IsValid(Entry(mem, root, page))
    ensures RangeMissing(mem, root, page, 1) == MissingPaths(mem, root, page)
  {
    hide Entry, IsValid, MissingPaths;
    assert RangeMissing(mem, root, Next(page), 0) == {};
    if Unmapped(mem, root, page, 1) { UnmappedFirst(mem, root, page, 1); }
  }

  /** A single page of the program, after others have been mapped elsewhere and got the tables `gone`. */
  lemma ProgramPage(mem: Memory, one: Memory, root: nat, lo: nat, cur: nat, end: nat, va: u64, flags: nat,
      gone: set<Path>)
    requires Inv(one, root, lo, cur) && lo <= cur <= end <= FRAMES && ENTRIES * end <= |one| && flags < 1024
    requires PageAligned(va) && Links(mem, one, root, gone) && Entry(one, root, Vpn(va)) == Entry(mem, root, Vpn(va))
    ensures var out := MapFresh(one, root, cur, end, va, flags, 1);
      var missing := MissingPaths(mem, root, Vpn(va));
      && (out.ok <==> !IsValid(Entry(mem, root, Vpn(va))) && cur + 1 + |missing - gone| <= end)
      && (out.ok ==> out.cur == cur + 1 + |missing - gone| && Links(mem, out.mem, root, gone + missing))
  {
    hide Inv, Entry, IsValid, MissingPaths, Links, MapFresh, Vpn, RangeMissing, Unmapped, PageAligned;
    VpnDigits(va);
    MapFreshWithinCost(one, root, lo, cur, end, va, flags, 1);
    OnePage(one, root, Vpn(va));
    StillMissingHere(mem, one, root, gone, Vpn(va));
    var out := MapFresh(one, root, cur, end, va, flags, 1);
    if out.ok { LinksTwice(mem, one, out.mem, root, gone, MissingPaths(mem, root, Vpn(va))); }
  }

  /** The three calls of `map_region` succeed exactly when the pages are free and a frame is left for each of them and
      for each table that is missing. */
  lemma ProgramMapsIff(m0: Memory, root: nat, lo: nat, c0: nat, end: nat, n: nat)
    requires Inv(m0, root, lo, c0) && lo <= c0 <= end <= FRAMES && ENTRIES * end <= |m0|
    requires USER_TEXT_START + (n + 2) * PAGE_SIZE < USER_STACK_TOP
    ensures var one := MapFresh(m0, root, c0, end, USER_TEXT_START, FLAGS_RXU, n);
      var two := MapFresh(one.mem, root, one.cur, end, USER_TEXT_START + n * PAGE_SIZE, FLAGS_RWU, 1);
      var three := MapFresh(two.mem, root, two.cur, end, USER_STACK_TOP - PAGE_SIZE, FLAGS_RWU, 1);
      one.ok && two.ok && three.ok <==>
        ProgramFree(m0, root, n) && c0 + n + 2 + |ProgramMissing(m0, root, n)| <= end
  {
    hide Inv, Entry, IsValid, MissingPaths, Links, MapFresh, Vpn, RangeMissing, Unmapped, LoadKeeps, UserPages,
      ZeroedPages, Tables, Distance, PageAligned;
    ProgramPages(n);
    var text, bss, stack := USER_TEXT_START, USER_TEXT_START + n * PAGE_SIZE, USER_STACK_TOP - PAGE_SIZE;
    var a, b, c := RangeMissing(m0, root, Vpn(text), n), MissingPaths(m0, root, Vpn(bss)),
      MissingPaths(m0, root, Vpn(stack));
    SplitSize(a, b);
    SplitSize(a + b, c);
    MapFreshWithinCost(m0, root, lo, c0, end, text, FLAGS_RXU, n);
    MapFreshCorrect(m0, root, lo, c0, end, text, FLAGS_RXU, n);
    var one := MapFresh(m0, root, c0, end, text, FLAGS_RXU, n);
    if one.ok {
      LoadKeepsBounds(m0, one.mem, root, lo, c0, one.cur);
      ProgramPage(m0, one.mem, root, lo, one.cur, end, bss, FLAGS_RWU, a);
      MapFreshCorrect(one.mem, root, lo, one.cur, end, bss, FLAGS_RWU, 1);
      var two := MapFresh(one.mem, root, one.cur, end, bss, FLAGS_RWU, 1);
      if two.ok {
        LoadKeepsBounds(one.mem, two.mem, root, lo, one.cur, two.cur);
        ApartDistance(Vpn(bss), Vpn(stack));
        ProgramPage(m0, two.mem, root, lo, two.cur, end, stack, FLAGS_RWU, a + b);
      }
    }
  }

  lemma ApartDistance(first: nat, page: nat)
    requires first < PAGES && page < PAGES && first != page
    ensures Distance(first, page) >= 1
  {
  }

  /** Copying the image into the text region. */
  lemma CopyImage(mem: Memory, root: nat, lo: nat, cur: nat, image: seq<byte>, n: nat, from: nat, to: nat)
    requires Inv(mem, root, lo, cur) && |image| <= n * PAGE_SIZE
    requires UserRegion(mem, root, USER_TEXT_START, n, FLAGS_RXU, from, to) && ZeroRegion(mem, root, USER_TEXT_START, n)
    ensures var (ok, mem') := CopyInto(mem, root, USER_TEXT_START, image);
      && ok && |mem'| == |mem| && Inv(mem', root, lo, cur)
      && EntriesKept(mem, mem', root)
      && (forall p :: IsPath(p) ==> Table(mem', root, p) == Table(mem, root, p))
      && (forall f: nat, j: nat :: j < ENTRIES && !(from <= f < to) ==> Word(mem', f, j) == Word(mem, f, j))
      && UserRegion(mem', root, USER_TEXT_START, n, FLAGS_RXU, from, to)
      && HoldsImage(mem', root, USER_TEXT_START, n, image)
  {
    hide Inv, Entry, Table, Word, CopyInto, RegionByte, UserRegion, IsPath;
    assert Wrap(USER_TEXT_START + 0) == USER_TEXT_START;
    CopyRegion(mem, root, lo, cur, USER_TEXT_START, n, FLAGS_RXU, from, to, 0, image);
  }

  /** The pages of a user region may be written by the copy. */
  lemma RegionIsSafe(mem: Memory, root: nat, lo: nat, cur: nat, g: Region, n: nat, from: nat, to: nat, size: nat)
    requires Inv(mem, root, lo, cur) && g.first <= from && to <= g.last && size <= n * PAGE_SIZE
    requires UserRegion(mem, root, USER_TEXT_START, n, FLAGS_RXU, from, to)
    ensures SafeTarget(mem, root, USER_TEXT_START, size, g)
  {
    hide Inv, Entry, Table, Query, UserRegion, FrameAt;
    forall i: nat | i < size ensures SafeByte(mem, root, USER_TEXT_START, i, g) {
      RegionAddress(mem, root, lo, cur, USER_TEXT_START, n, FLAGS_RXU, from, to, i);
      RegionQuery(mem, root, lo, cur, USER_TEXT_START, n, FLAGS_RXU, from, to, i);
      SameFrame(FrameAt(mem, root, Vpn(USER_TEXT_START + i)), i % PAGE_SIZE,
                RegionPhys(mem, root, USER_TEXT_START, i) / PAGE_SIZE,
                  RegionPhys(mem, root, USER_TEXT_START, i) % PAGE_SIZE);
    }
  }

  /** From the three mapped regions to the loaded program. */
  lemma ImageInPlace(m0: Memory, m3: Memory, m4: Memory, root: nat, lo: nat, c0: nat, c1: nat, c2: nat, c3: nat,
      image: seq<byte>)
    requires |image| <= 0x40_0000_0000 && Inv(m3, root, lo, c3) && LoadKeeps(m0, m3, root, lo, c0, c3) &&
      c0 <= c1 <= c2 <= c3
    requires var n := TextPages(image);
      var bss := USER_TEXT_START + n * PAGE_SIZE;
      && bss + PAGE_SIZE <= USER_STACK_TOP - PAGE_SIZE
      && UserRegion(m3, root, USER_TEXT_START, n, FLAGS_RXU, c0, c1)
      && UserRegion(m3, root, bss, 1, FLAGS_RWU, c1, c2)
      && UserRegion(m3, root, USER_STACK_TOP - PAGE_SIZE, 1, FLAGS_RWU, c2, c3)
      && ZeroRegion(m3, root, USER_TEXT_START, n) && ZeroRegion(m3, root, bss, 1)
      && ZeroRegion(m3, root, USER_STACK_TOP - PAGE_SIZE, 1)
    requires CopyInto(m3, root, USER_TEXT_START, image) == (true, m4)
    ensures ProgramLoaded(m4, root, image, c0, c1, c2, c3)
    ensures KeepsValid(m0, m4, root)
  {
    hide Inv, CopyInto, RegionByte, Entry, Table, Word, UserRegion, AlignUp, IsPath, ZeroRegion, HoldsImage;
    var n := TextPages(image);
    ImageFits(image);
    CopyImage(m3, root, lo, c3, image, n, c0, c1);
    CopyElsewhere(m3, m4, root, lo, c3, c0, c1, USER_TEXT_START + n * PAGE_SIZE, 1, FLAGS_RWU, c1, c2);
    CopyElsewhere(m3, m4, root, lo, c3, c0, c1, USER_STACK_TOP - PAGE_SIZE, 1, FLAGS_RWU, c2, c3);
    SurvivorsStay(m0, m3, m4, root, lo, c0, c3);
  }

  lemma SurvivorsStay(m0: Memory, m3: Memory, m4: Memory, root: nat, lo: nat, c0: nat, c3: nat)
    requires LoadKeeps(m0, m3, root, lo, c0, c3) && EntriesKept(m3, m4, root)
    ensures KeepsValid(m0, m4, root)
  {
    hide Entry, Inv, Table;
  }

  lemma ImageFits(image: seq<byte>)
    requires |image| <= 0x40_0000_0000
    ensures |image| <= TextPages(image) * PAGE_SIZE == AlignUp(|image|)
  {
  }

  /** There is room for `n` pages of text, the bss and the stack between the two addresses, with a gap for the heap. */
  predicate ProgramFits(n: nat) {
    USER_TEXT_START + (n + 2) * PAGE_SIZE < USER_STACK_TOP
  }

  /** `process_load_initial_user_program`. It succeeds exactly when the image leaves a gap below the stack, the pages of
      the program are free, and a frame is left for each of them and for each table they need. Then the program is in
      place and every translation that existed before still does; in every case the tables stay sound and RAM
      reachable. */
  method LoadInitialProgram(m: Machine, root: u64, image: seq<byte>, a: PhysicalPageAllocator, ghost r: nat,
      ghost g: Region)
    returns (ok: bool, entry: u64, stackTop: u64, ghost c1: nat, ghost c2: nat)
    requires m.satp.Some? && |image| <= 0x40_0000_0000
    requires root != 0 ==> Ready(m, a, r, g) && root == PointerTo(m.satp, r)
    modifies m.cells, a
    ensures a.end == old(a.end)
    ensures root == 0 ==> !ok && m.Words() == old(m.Words()) && a.current == old(a.current)
    ensures root != 0 ==> Ready(m, a, r, g)
    ensures var n := TextPages(image);
      root != 0 ==>
        (ok <==>
          && ProgramFits(n) && ProgramFree(old(m.Words()), r, n)
          && old(a.current) / PAGE_SIZE + n + 2 + |ProgramMissing(old(m.Words()), r, n)| <= a.end / PAGE_SIZE)
    ensures ok ==>
      && entry == USER_TEXT_START && stackTop == USER_STACK_TOP
      && ProgramLoaded(m.Words(), r, image, old(a.current) / PAGE_SIZE, c1, c2, a.current / PAGE_SIZE)
      && KeepsValid(old(m.Words()), m.Words(), r)
  {
    hide ReadyState, MapFresh, CopyInto, AlignUp, UserRegion, ZeroRegion, LoadKeeps, Tables, Inv, LayoutInit,
      KeepsValid, ProgramLoaded, ProgramFree, ProgramMissing;
    ok, entry, stackTop, c1, c2 := false, 0, 0, 0, 0;
    if root == 0 {
      return;
    }
    ProgramLayout(|image|);
    var layout := LayoutInit(|image|, 0, 0, PAGE_SIZE, USER_STACK_SIZE);
    if layout.None? {
      return;
    }
    var l := layout.value;
    ReadyFacts(m, a, r, g);
    ghost var m0, c0 := m.Words(), a.current / PAGE_SIZE;
    ImageFits(image);
    ProgramMapsIff(m0, r, g.lo, c0, a.end / PAGE_SIZE, TextPages(image));
    var mapped := MapRegion(m, root, l.text, a, r, g);
    if !mapped {
      return;
    }
    ghost var m1 := m.Words();
    c1 := a.current / PAGE_SIZE;
    mapped := MapRegion(m, root, l.bss, a, r, g);
    if !mapped {
      return;
    }
    ghost var m2 := m.Words();
    c2 := a.current / PAGE_SIZE;
    mapped := MapRegion(m, root, l.stack, a, r, g);
    if !mapped {
      return;
    }
    ghost var m3, c3 := m.Words(), a.current / PAGE_SIZE;
    UserFlagsAreLeaves();
    MapThree(m0, m1, m2, m3, r, g.lo, c0, c1, c2, c3, a.end / PAGE_SIZE, l.text, l.bss, l.stack);
    RegionIsSafe(m3, r, g.lo, c3, g, TextPages(image), c0, c1, |image|);
    CopyImage(m3, r, g.lo, c3, image, TextPages(image), c0, c1);
    mapped := CopyIntoRegion(m, root, l.text.start, image, r, a.current, a.end, g);
    if !mapped {
      return;
    }
    ImageInPlace(m0, m3, m.Words(), r, g.lo, c0, c1, c2, c3, image);
    ok, entry, stackTop := true, l.entry, l.stackTop;
  }

  lemma ReadyFacts(m: Machine, a: PhysicalPageAllocator, r: nat, g: Region)
    requires Ready(m, a, r, g)
    ensures Inv(m.Words(), r, g.lo, a.current / PAGE_SIZE)
    ensures g.first <= g.lo <= a.current / PAGE_SIZE <= a.end / PAGE_SIZE <= g.last <= FRAMES
    ensures ENTRIES * (a.end / PAGE_SIZE) <= |m.Words()|
  {
  }

  lemma UserFlagsAreLeaves()
    ensures IsLeaf(FLAGS_RXU) && IsLeaf(FLAGS_RWU)
  {
  }
}
