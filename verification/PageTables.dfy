/**
 Sv39 page tables as they lie in physical memory, and the page-table operations as
 functions on that memory.

 Memory is a sequence of 64-bit words; a frame is a physical page number, and word `i`
 of frame `f` is word `512 * f + i` of memory.
 */
module PageTables {
  import opened Words

  const ENTRIES: int := 512
  const PAGES: int := 0x800_0000        // 2^27 virtual pages are told apart by bits 38..12
  const FRAMES: int := 0x1000_0000_0000 // 2^44 frames can be named by an entry

  const PTE_V: nat := 1
  const PTE_R: nat := 2
  const PTE_W: nat := 4
  const PTE_X: nat := 8
  const PTE_U: nat := 16
  const PTE_A: nat := 64
  const PTE_D: nat := 128

  type Memory = seq<u64>

  // ---------- entries and addresses ----------

  function Vpn2(va: u64): nat { (va / 0x4000_0000) % ENTRIES }
  function Vpn1(va: u64): nat { (va / 0x20_0000) % ENTRIES }
  function Vpn0(va: u64): nat { (va / PAGE_SIZE) % ENTRIES }

  /** The virtual page number: bits 38..12 of an address. */
  function Vpn(va: u64): nat { (va / PAGE_SIZE) % PAGES }

  function PteFromPhys(pa: u64, flags: nat): u64
    requires flags < 1024
  {
    pa / PAGE_SIZE * 1024 + flags
  }

  function PhysFromPte(pte: u64): u64 {
    FrameOf(pte) * PAGE_SIZE
  }

  function FrameOf(pte: u64): nat {
    (pte / 1024) % FRAMES
  }

  function FlagsOf(pte: u64): nat { pte % 1024 }

  predicate IsValid(pte: u64) { pte % 2 == 1 }

  /** Any of R, W and X is set. */
  predicate IsLeaf(pte: u64) { (pte / 2) % 8 != 0 }

  /** `flags | PTE_V | PTE_A | PTE_D`. */
  function LeafFlags(flags: nat): nat {
    SetBit(SetBit(SetBit(flags, PTE_V), PTE_A), PTE_D)
  }

  function PointerPte(frame: nat): nat { frame * 1024 + PTE_V }

  // ---------- reading the tree ----------

  /** A table of the tree, named by the indices that lead to it. */
  datatype Path = Top | Mid(i2: nat) | Low(i2: nat, i1: nat)

  predicate IsPath(p: Path) {
    match p
    case Top => true
    case Mid(i2) => i2 < ENTRIES
    case Low(i2, i1) => i2 < ENTRIES && i1 < ENTRIES
  }

  /** Word `i` of frame `f`; memory beyond the installed words reads as 0. */
  function Word(mem: Memory, f: nat, i: nat): u64 {
    if ENTRIES * f + i < |mem| then mem[ENTRIES * f + i] else 0
  }

  /** The frame of the table that entry `i` of table `f` points to. */
  function Child(mem: Memory, f: nat, i: nat): Option<nat> {
    var e := Word(mem, f, i);
    if IsValid(e) && !IsLeaf(e) then Some(FrameOf(e)) else None
  }

  /** The frame of the table at `p`, if that table exists. */
  function Table(mem: Memory, root: nat, p: Path): Option<nat> {
    match p
    case Top => Some(root)
    case Mid(i2) => Child(mem, root, i2)
    case Low(i2, i1) =>
      match Child(mem, root, i2)
      case None => None
      case Some(f) => Child(mem, f, i1)
  }

  function LowOf(page: nat): Path { Low(page / 0x4_0000, (page / ENTRIES) % ENTRIES) }
  function MidOf(page: nat): Path { Mid(page / 0x4_0000) }

  /** The level-0 entry that governs virtual page `page`, 0 if no level-0 table covers it. */
  function Entry(mem: Memory, root: nat, page: nat): u64 {
    match Table(mem, root, LowOf(page))
    case None => 0
    case Some(f) => Word(mem, f, page % ENTRIES)
  }

  /** A translation: physical address and the ten flag bits of the entry. */
  datatype Translation = Translation(pa: u64, flags: nat)

  /** What `paging_query_early` answers. */
  function Query(mem: Memory, root: nat, va: u64): Option<Translation> {
    var l2 := Word(mem, root, Vpn2(va));
    if !IsValid(l2) || IsLeaf(l2) then None else
    var l1 := Word(mem, FrameOf(l2), Vpn1(va));
    if !IsValid(l1) || IsLeaf(l1) then None else
    var l0 := Word(mem, FrameOf(l1), Vpn0(va));
    if !IsValid(l0) || !IsLeaf(l0) then None else
    Some(Translation(PhysFromPte(l0) + va % PAGE_SIZE, FlagsOf(l0)))
  }

  // ---------- the tables' invariant ----------

  /** Frames `lo <= f < cur` have been handed out by the allocator; every table is one of them,
      no two places of the tree share a table, and every valid entry above level 0 is exactly a pointer. */
  ghost predicate Inv(mem: Memory, root: nat, lo: nat, cur: nat) {
    && cur <= FRAMES
    && ENTRIES * cur <= |mem|
    && TablesInRange(mem, root, lo, cur)
    && TablesDistinct(mem, root)
    && PointersOnly(mem, root)
  }

  ghost predicate TablesInRange(mem: Memory, root: nat, lo: nat, cur: nat) {
    forall p :: IsPath(p) && Table(mem, root, p).Some? ==> lo <= Table(mem, root, p).value < cur
  }

  ghost predicate TablesDistinct(mem: Memory, root: nat) {
    forall p, q ::
      IsPath(p) && IsPath(q) && Table(mem, root, p).Some? && Table(mem, root, p) == Table(mem, root, q)
      ==> p == q
  }

  ghost predicate PointersOnly(mem: Memory, root: nat) {
    forall p, i: nat :: IsPath(p) && !p.Low? && i < ENTRIES && Table(mem, root, p).Some?
                        && IsValid(Word(mem, Table(mem, root, p).value, i)) ==>
      Word(mem, Table(mem, root, p).value, i) == PointerPte(FrameOf(Word(mem, Table(mem, root, p).value, i)))
  }

  ghost predicate IsTable(mem: Memory, root: nat, f: nat) {
    exists p :: IsPath(p) && Table(mem, root, p) == Some(f)
  }

  // ---------- writing ----------

  function Store(mem: Memory, f: nat, i: nat, w: u64): Memory {
    if ENTRIES * f + i < |mem| then mem[ENTRIES * f + i := w] else mem
  }

  /** Memory after `n` iterations of the zeroing loop over frame `f`. */
  function ZeroPrefix(mem: Memory, f: nat, n: nat): Memory {
    if n == 0 then mem else Store(ZeroPrefix(mem, f, n - 1), f, n - 1, 0)
  }

  datatype Step = Step(ok: bool, mem: Memory, cur: nat, table: nat)

  /** Makes sure entry `i` of table `f` points to a table: follows it, or links a zeroed frame `cur`
      if one is left below `end`. */
  function Descend(mem: Memory, f: nat, i: nat, cur: nat, end: nat): Step {
    var e := Word(mem, f, i);
    if IsValid(e) then Step(!IsLeaf(e), mem, cur, FrameOf(e))
    else if cur + 1 > end then Step(false, mem, cur, 0)
    else Step(true, Store(ZeroPrefix(mem, cur, ENTRIES), f, i, Wrap(PointerPte(cur))), cur + 1, cur)
  }

  datatype Outcome = Outcome(ok: bool, mem: Memory, cur: nat)

  /** `paging_map_early` on memory: frames `cur .. end` are free. */
  function MapPage(mem: Memory, root: nat, cur: nat, end: nat, va: u64, pa: u64, flags: nat): Outcome
    requires flags < 1024
  {
    if !PageAligned(va) || !PageAligned(pa) then Outcome(false, mem, cur) else
    var s1 := Descend(mem, root, Vpn2(va), cur, end);
    if !s1.ok then Outcome(false, s1.mem, s1.cur) else
    var s0 := Descend(s1.mem, s1.table, Vpn1(va), s1.cur, end);
    if !s0.ok then Outcome(false, s0.mem, s0.cur) else
    if IsValid(Word(s0.mem, s0.table, Vpn0(va))) then Outcome(false, s0.mem, s0.cur) else
    LeafFlagsFit(flags);
    Outcome(true, Store(s0.mem, s0.table, Vpn0(va), PteFromPhys(pa, LeafFlags(flags))), s0.cur)
  }

  lemma SetBitKeeps(flags: nat, bit: nat)
    requires flags < 1024 && (bit == 64 || bit == 128)
    ensures SetBit(flags, bit) < 1024
    ensures SetBit(flags, bit) % 64 == flags % 64
  {
    if (flags / bit) % 2 == 0 {
      var q, r := flags / bit, flags % bit;
      assert q < 1024 / bit;
      assert flags + bit == bit * (q + 1) + r;
    }
  }

  lemma LowBits(x: nat)
    ensures (x % 64) % 2 == x % 2
    ensures ((x % 64) / 2) % 8 == (x / 2) % 8
  {
    ModShift(x % 64, x / 64 * 32, 2);
    assert x / 2 == x / 64 * 32 + (x % 64) / 2;
    ModShift((x % 64) / 2, x / 64 * 4, 8);
  }

  lemma ModShift(r: nat, k: nat, m: nat)
    requires m == 2 || m == 8
    ensures (m * k + r) % m == r % m
  {
  }

  lemma LeafFlagsFit(flags: nat)
    requires flags < 1024
    ensures LeafFlags(flags) < 1024
    ensures IsValid(LeafFlags(flags))
    ensures IsLeaf(LeafFlags(flags)) == IsLeaf(flags)
  {
    var a := SetBit(flags, PTE_V);
    assert a < 1024 && a % 2 == 1 && a / 2 == flags / 2;
    SetBitKeeps(a, PTE_A);
    var b := SetBit(a, PTE_A);
    SetBitKeeps(b, PTE_D);
    LowBits(a);
    LowBits(SetBit(b, PTE_D));
  }
}
