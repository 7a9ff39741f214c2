/** The main results about translations, in terms of what software and hardware see. */
module AddressSpace {
  import opened Words
  import opened PageTables
  import opened PageTableProofs
  import opened PageRanges
  import opened Sv39
  import opened MachineModel
  import opened Paging
  import opened PagingInit
  import opened UserMemory
  import opened UserCopy
  import opened UserAccess
  import ProcessLoader

  /** `paging_map` is an insertion into the translation function: after a success exactly the addresses of
      the new page translate differently, to the page given, with V, A and D added to the flags; after any
      failure, even one that has linked a table, no address translates differently. A page mapped without
      R, W and X does not translate. Only the low 56 bits of the physical address are kept. */
  lemma MapThenQuery(mem: Memory, root: nat, lo: nat, cur: nat, end: nat, va: u64, pa: u64, flags: nat, x: u64)
    requires Inv(mem, root, lo, cur) && lo <= cur <= end <= FRAMES && ENTRIES * end <= |mem| && flags < 1024
    ensures var out := MapPage(mem, root, cur, end, va, pa, flags);
      Query(out.mem, root, x) ==
      if out.ok && Vpn(x) == Vpn(va) then
        if IsLeaf(flags) then Some(Translation((pa / PAGE_SIZE) % FRAMES * PAGE_SIZE + x % PAGE_SIZE, LeafFlags(flags)))
          else None
      else Query(mem, root, x)
  {
    hide Inv, Entry, Query, MapPage, LeafPte, IsLeaf, LeafFlags, StepKeeps, MissingTables, Vpn, FlagsOf, FrameOf;
    var out := MapPage(mem, root, cur, end, va, pa, flags);
    MapPageCorrect(mem, root, lo, cur, end, va, pa, flags);
    StepKeepsBounds(mem, out.mem, root, lo, cur, out.cur);
    QueryReadsEntry(mem, root, lo, cur, x);
    QueryReadsEntry(out.mem, root, lo, out.cur, x);
    VpnDigits(x);
    LeafPteValid(pa, flags);
  }

  /** A page that translates cannot be mapped again. */
  lemma MappedPageRefused(mem: Memory, root: nat, lo: nat, cur: nat, end: nat, va: u64, pa: u64, flags: nat)
    requires Inv(mem, root, lo, cur) && lo <= cur <= end <= FRAMES && ENTRIES * end <= |mem| && flags < 1024
    requires Query(mem, root, va).Some?
    ensures !MapPage(mem, root, cur, end, va, pa, flags).ok
  {
    hide Inv, Entry, Query, MapPage, LeafPte, StepKeeps, MissingTables, Vpn;
    MapPageCorrect(mem, root, lo, cur, end, va, pa, flags);
    QueryReadsEntry(mem, root, lo, cur, va);
  }

  // ---------- after paging_init ----------

  /** With satp written, an instruction fetch from the kernel text reaches the same physical address as
      before, and stores to the text fault. */
  lemma KernelTextExecutes(mem: Memory, root: nat, lo: nat, cur: nat, k: KernelImage, va: u64)
    requires Inv(mem, root, lo, cur) && k.textStart <= va < k.textEnd <= 0x40_0000_0000 && PageAligned(k.textStart)
    requires HasMapping(mem, root, Identity(k.textStart, Wrap(k.textEnd - k.textStart), FLAGS_RX))
    ensures HardwareTranslate(mem, root, va, Execute, Supervisor) == Some(va as nat)
    ensures HardwareTranslate(mem, root, va, Write, Supervisor) == None
    ensures HardwareTranslate(mem, root, va, Execute, User) == None
  {
    hide Inv, HasMapping, HardwareTranslate, KernelFlags;
    KernelFlagBits();
    SectionFrom(mem, root, lo, cur, k.textStart, k.textEnd, FLAGS_RX, false, true);
    assert Allows(mem, root, va, va, false, true);
  }

  // ---------- user regions ----------

  /** What the hardware lets a program do with a byte of a region: user mode gets exactly the accesses of the
      region's flags, at the same byte the software walk finds; supervisor mode gets none. */
  lemma UserRegionAccess(mem: Memory, root: nat, lo: nat, cur: nat, start: u64, n: nat, flags: nat, from: nat, to: nat,
      x: nat, access: Access, mode: Mode)
    requires Inv(mem, root, lo, cur) && UserRegion(mem, root, start, n, flags, from, to) && x < n * PAGE_SIZE
    requires HasBit(flags, PTE_U) && HasBit(flags, PTE_R)
    ensures HardwareTranslate(mem, root, start + x, access, mode) ==
      if mode.User? && (access.Write? ==> HasBit(flags, PTE_W)) && (access.Execute? ==> HasBit(flags, PTE_X))
      then Some(RegionPhys(mem, root, start, x)) else None
  {
    hide Inv, Entry, HardwareTranslate, Table, Query, IsLeaf, HasBit, Distance, LeafPte, Vpn;
    RegionPage(start, n, x);
    var f := FrameAt(mem, root, Vpn(start + x));
    FrameFits(f);
    MappedAccess(mem, root, lo, cur, start + x, f * PAGE_SIZE, flags, access, mode);
  }

  /** A loaded program runs: user mode executes and reads every byte of its text, from 0x400000 on, where it finds the
      image. It cannot write there, and supervisor mode can do nothing at all. */
  lemma LoadedTextRuns(mem: Memory, root: nat, lo: nat, cur: nat, image: seq<byte>, c0: nat, c1: nat, c2: nat, c3: nat,
      x: nat, access: Access, mode: Mode)
    requires Inv(mem, root, lo, cur) && |image| <= 0x40_0000_0000
    requires ProcessLoader.ProgramLoaded(mem, root, image, c0, c1, c2, c3)
    requires x < ProcessLoader.TextPages(image) * PAGE_SIZE
    ensures var p := RegionPhys(mem, root, 0x40_0000, x);
      && HardwareTranslate(mem, root, 0x40_0000 + x, access, mode)
        == (if mode.User? && !access.Write? then Some(p) else None)
      && (x < |image| ==> ByteAt(mem, p) == image[x])
  {
    hide Inv, HardwareTranslate, UserRegion, HasBit, RegionPhys, ByteAt, IsLeaf, Query, ProcessLoader.ZeroRegion;
    ProcessLoader.UserFlagBits();
    var n := ProcessLoader.TextPages(image);
    UserRegionAccess(mem, root, lo, cur, 0x40_0000, n, ProcessLoader.FLAGS_RXU, c0, c1, x, access, mode);
    RegionQuery(mem, root, lo, cur, 0x40_0000, n, ProcessLoader.FLAGS_RXU, c0, c1, x);
    assert RegionByte(mem, root, 0x40_0000, x) == Some(if x < |image| then image[x] else 0);
    PeekPhys(mem, root, 0x40_0000, x);
  }

  /** It reads and writes every byte of its bss, behind the text, and of its stack, the page below 0x3FFFFFF000, and
      cannot execute them. The image fits into the text. */
  lemma LoadedDataWorks(mem: Memory, root: nat, lo: nat, cur: nat, image: seq<byte>, c0: nat, c1: nat, c2: nat, c3: nat,
      x: nat, access: Access, mode: Mode)
    requires Inv(mem, root, lo, cur) && |image| <= 0x40_0000_0000 && x < PAGE_SIZE
    requires ProcessLoader.ProgramLoaded(mem, root, image, c0, c1, c2, c3)
    ensures var size := ProcessLoader.TextPages(image) * PAGE_SIZE;
      var bss, stack := 0x40_0000 + size, 0x3F_FFFF_E000;
      && |image| <= size < |image| + PAGE_SIZE && bss + PAGE_SIZE <= stack
      && HardwareTranslate(mem, root, bss + x, access, mode) ==
         (if mode.User? && !access.Execute? then Some(RegionPhys(mem, root, bss, x)) else None)
      && HardwareTranslate(mem, root, stack + x, access, mode) ==
         (if mode.User? && !access.Execute? then Some(RegionPhys(mem, root, stack, x)) else None)
  {
    hide Inv, HardwareTranslate, UserRegion, HasBit, RegionPhys, ByteAt, IsLeaf, Query, ProcessLoader.ZeroRegion;
    ProcessLoader.UserFlagBits();
    ProcessLoader.ImageFits(image);
    var bss := 0x40_0000 + ProcessLoader.TextPages(image) * PAGE_SIZE;
    UserRegionAccess(mem, root, lo, cur, bss, 1, ProcessLoader.FLAGS_RWU, c1, c2, x, access, mode);
    UserRegionAccess(mem, root, lo, cur, 0x3F_FFFF_E000, 1, ProcessLoader.FLAGS_RWU, c2, c3, x, access, mode);
  }

  /** The byte that is read through the software walk. */
  lemma PeekPhys(mem: Memory, root: nat, start: u64, x: nat)
    requires start + x < TWO64 && Query(mem, root, start + x).Some?
    requires Query(mem, root, start + x).value.pa == RegionPhys(mem, root, start, x)
    ensures RegionByte(mem, root, start, x) == Some(ByteAt(mem, RegionPhys(mem, root, start, x)))
  {
    hide Query, RegionPhys;
  }

  // ---------- runs ----------

  /** What the kernel does to its address space once translation is on. */
  datatype Op =
    | MapOp(va: u64, pa: u64, flags: nat)
    | RangeOp(va: u64, pa: u64, size: u64, flags: nat)
    | RegionOp(va: u64, size: u64, flags: nat)

  predicate ValidOp(op: Op) { op.flags < 1024 }

  predicate ValidOps(ops: seq<Op>) { forall i :: 0 <= i < |ops| ==> ValidOp(ops[i]) }

  function Apply(mem: Memory, root: nat, cur: nat, end: nat, op: Op): Outcome
    requires ValidOp(op)
  {
    match op
    case MapOp(va, pa, flags) => MapPage(mem, root, cur, end, va, pa, flags)
    case RangeOp(va, pa, size, flags) =>
      var out := MapPages(mem, root, cur, end, va, pa, flags, AlignUp(size) / PAGE_SIZE);
      Outcome(out.ok, out.mem, out.cur)
    case RegionOp(va, size, flags) =>
      var out := MapFresh(mem, root, cur, end, va, flags, size / PAGE_SIZE);
      Outcome(out.ok, out.mem, out.cur)
  }

  /** The state after a sequence of operations, successful or not. */
  function Run(mem: Memory, root: nat, cur: nat, end: nat, ops: seq<Op>): Outcome
    requires ValidOps(ops)
    decreases |ops|
  {
    if ops == [] then Outcome(true, mem, cur) else
    var one := Apply(mem, root, cur, end, ops[0]);
    Run(one.mem, root, one.cur, end, ops[1..])
  }

  /** One operation keeps tables and valid entries, and uses only free frames. */
  lemma ApplyKeeps(mem: Memory, root: nat, lo: nat, cur: nat, end: nat, op: Op)
    requires Inv(mem, root, lo, cur) && lo <= cur <= end <= FRAMES && ENTRIES * end <= |mem| && ValidOp(op)
    ensures var out := Apply(mem, root, cur, end, op);
      LoadKeeps(mem, out.mem, root, lo, cur, out.cur) && out.cur <= end
  {
    hide Inv, Entry, IsValid, MapPage, MapPages, MapFresh, AlignUp, Table, Word, LeafPte, IsTable, Tables;
    match op
    case MapOp(va, pa, flags) =>
      MapPageCorrect(mem, root, lo, cur, end, va, pa, flags);
    case RangeOp(va, pa, size, flags) =>
      OneRange(mem, root, lo, cur, end, Mapping(va, pa, size, flags));
    case RegionOp(va, size, flags) =>
      MapFreshCorrect(mem, root, lo, cur, end, va, flags, size / PAGE_SIZE);
  }

  /** In every state reached after `paging_init` the walk is self-hosted: the tables are sound, RAM, and
      with it every table, is reached through the direct map, and no translation has been lost. */
  lemma {:induction false} EveryRunIsHosted(mem: Memory, current: nat, end: nat, root: nat, g: Region, ops: seq<Op>)
    requires ReadyState(mem, Some(root), current, end, root, g) && ValidOps(ops)
    ensures var out := Run(mem, root, current / PAGE_SIZE, end / PAGE_SIZE, ops);
      && ReadyState(out.mem, Some(root), out.cur * PAGE_SIZE, end, root, g)
      && KeepsValid(mem, out.mem, root)
    decreases |ops|
  {
    hide Inv, Hosted, Entry, Apply, IsValid, LoadKeeps, ReadyState;
    if ops != [] {
      StateBounds(mem, current, end, root, g);
      var one := Apply(mem, root, current / PAGE_SIZE, end / PAGE_SIZE, ops[0]);
      ApplyKeeps(mem, root, g.lo, current / PAGE_SIZE, end / PAGE_SIZE, ops[0]);
      ProcessLoader.LoadReady(mem, one.mem, current, end, root, g, one.cur);
      LoadKeepsValid(mem, one.mem, root, g.lo, current / PAGE_SIZE, one.cur);
      EveryRunIsHosted(one.mem, one.cur * PAGE_SIZE, end, root, g, ops[1..]);
    } else {
      StateBounds(mem, current, end, root, g);
    }
  }

  lemma LoadKeepsValid(mem: Memory, mem': Memory, root: nat, lo: nat, cur: nat, cur': nat)
    requires LoadKeeps(mem, mem', root, lo, cur, cur')
    ensures KeepsValid(mem, mem', root)
  {
  }

  lemma StateBounds(mem: Memory, current: nat, end: nat, root: nat, g: Region)
    requires ReadyState(mem, Some(root), current, end, root, g)
    ensures Inv(mem, root, g.lo, current / PAGE_SIZE) && current == current / PAGE_SIZE * PAGE_SIZE
    ensures g.lo <= current / PAGE_SIZE <= end / PAGE_SIZE <= FRAMES && ENTRIES * (end / PAGE_SIZE) <= |mem|
  {
  }
}
