/** Reading and writing user memory through the software walk. */
module UserCopy {
  import opened Words
  import opened PageTables
  import opened PageTableProofs
  import opened PageRanges
  import opened Sv39
  import opened MachineModel
  import opened UserMemory

  /** Query, then load: the byte a virtual address holds, if it is mapped. */
  function Peek(mem: Memory, root: nat, va: u64): Option<byte> {
    match Query(mem, root, va)
    case None => None
    case Some(t) => Some(ByteAt(mem, t.pa))
  }

  /** The byte at offset `x` of a region. */
  function RegionByte(mem: Memory, root: nat, start: u64, x: nat): Option<byte> {
    Peek(mem, root, Wrap(start + x))
  }

  /** `copy_into_region` on memory. */
  function CopyInto(mem: Memory, root: nat, va: u64, source: seq<byte>): (bool, Memory)
    decreases |source|
  {
    if source == [] then (true, mem) else
    match Query(mem, root, va)
    case None => (false, mem)
    case Some(t) => CopyInto(StoreByteAt(mem, t.pa, source[0]), root, Wrap(va + 1), source[1..])
  }

  /** A region of `n` user pages from address `start`, below 2^38, whose pages can be read and written. */
  ghost predicate UserRegion(mem: Memory, root: nat, start: u64, n: nat, flags: nat, from: nat, to: nat) {
    && flags < 1024 && IsLeaf(flags)
    && PageAligned(start) && start + n * PAGE_SIZE <= 0x40_0000_0000
    && to * ENTRIES <= |mem| && to <= FRAMES
    && UserPages(mem, root, Vpn(start), n, flags, from, to)
  }

  lemma RegionPage(start: u64, n: nat, x: nat)
    requires PageAligned(start) && start + n * PAGE_SIZE <= 0x40_0000_0000 && x < n * PAGE_SIZE
    ensures Vpn(start + x) == Vpn(start) + x / PAGE_SIZE
    ensures Distance(Vpn(start), Vpn(start + x)) == x / PAGE_SIZE < n
    ensures (start + x) % PAGE_SIZE == x % PAGE_SIZE && Vpn(start + x) < PAGES
  {
  }

  /** The physical address behind byte `x` of a region. */
  function RegionPhys(mem: Memory, root: nat, start: u64, x: nat): nat
    requires start + x < TWO64
  {
    FrameAt(mem, root, Vpn(start + x)) * PAGE_SIZE + x % PAGE_SIZE
  }

  lemma RegionQuery(mem: Memory, root: nat, lo: nat, cur: nat, start: u64, n: nat, flags: nat, from: nat, to: nat,
      x: nat)
    requires Inv(mem, root, lo, cur) && UserRegion(mem, root, start, n, flags, from, to) && x < n * PAGE_SIZE
    ensures Query(mem, root, start + x) == Some(Translation(RegionPhys(mem, root, start, x), LeafFlags(flags)))
    ensures from <= FrameAt(mem, root, Vpn(start + x)) < to && !IsTable(mem, root, FrameAt(mem, root, Vpn(start + x)))
    ensures RegionPhys(mem, root, start, x) / 8 < |mem|
  {
    hide Inv, Entry, Table, LeafPte, IsValid, IsLeaf, Distance, Query, LeafFlags, Wrap, Vpn, UserPage;
    RegionPage(start, n, x);
    var page := Vpn(start + x);
    QueryReadsEntry(mem, root, lo, cur, start + x);
    UserPageValid(mem, root, page, flags, from, to);
    UserPageFacts(mem, root, page, flags, from, to);
    WordOfByte(FrameAt(mem, root, page), x % PAGE_SIZE);
  }

  lemma UserPageFacts(mem: Memory, root: nat, page: nat, flags: nat, from: nat, to: nat)
    requires flags < 1024 && UserPage(mem, root, page, flags, from, to)
    ensures FlagsOf(Entry(mem, root, page)) == LeafFlags(flags)
    ensures from <= FrameAt(mem, root, page) < to && !IsTable(mem, root, FrameAt(mem, root, page))
  {
    LeafPteValid(Wrap(FrameAt(mem, root, page) * PAGE_SIZE), flags);
  }

  /** Different bytes of a region are different bytes of memory. */
  lemma RegionInjective(mem: Memory, root: nat, start: u64, n: nat, flags: nat, from: nat, to: nat, x: nat, y: nat)
    requires UserRegion(mem, root, start, n, flags, from, to) && x < n * PAGE_SIZE && y < n * PAGE_SIZE
    requires RegionPhys(mem, root, start, x) == RegionPhys(mem, root, start, y)
    ensures x == y
  {
    hide Entry, Table, LeafPte, IsLeaf, Distance, Vpn, UserPage, FrameAt;
    RegionPage(start, n, x);
    RegionPage(start, n, y);
    SameFrame(FrameAt(mem, root, Vpn(start + x)), x % PAGE_SIZE, FrameAt(mem, root, Vpn(start + y)), y % PAGE_SIZE);
  }

  lemma SameFrame(f: nat, k: nat, g: nat, j: nat)
    requires k < PAGE_SIZE && j < PAGE_SIZE && f * PAGE_SIZE + k == g * PAGE_SIZE + j
    ensures f == g && k == j
  {
  }

  /** Storing one byte of a region changes exactly that byte of it, no translation, and no other frame. */
  lemma PokeRegion(mem: Memory, root: nat, lo: nat, cur: nat, start: u64, n: nat, flags: nat, from: nat, to: nat,
      x: nat, b: byte)
    requires Inv(mem, root, lo, cur) && UserRegion(mem, root, start, n, flags, from, to) && x < n * PAGE_SIZE
    ensures var mem' := StoreByteAt(mem, RegionPhys(mem, root, start, x), b);
      && Inv(mem', root, lo, cur) && UserRegion(mem', root, start, n, flags, from, to)
      && EntriesKept(mem, mem', root)
      && (forall p :: IsPath(p) ==> Table(mem', root, p) == Table(mem, root, p))
      && AgreeOutside(mem, mem', FrameAt(mem, root, Vpn(start + x)))
      && (forall y: nat :: y < n * PAGE_SIZE ==>
            RegionByte(mem', root, start, y) == if y == x then Some(b) else RegionByte(mem, root, start, y))
  {
    hide Inv, Entry, Table, LeafPte, IsLeaf, Distance, Vpn, Query, ByteAt, Word, StoreByteAt, LeafFlags, UserPages,
      IsPath;
    var pa := RegionPhys(mem, root, start, x);
    var mem' := StoreByteAt(mem, pa, b);
    RegionQuery(mem, root, lo, cur, start, n, flags, from, to, x);
    StoreByteOutside(mem, FrameAt(mem, root, Vpn(start + x)), x % PAGE_SIZE, b);
    OutsideTables(mem, mem', root, lo, cur, FrameAt(mem, root, Vpn(start + x)));
    UserPagesKept(mem, mem', root, Vpn(start), n, flags, from, to);
    forall y: nat | y < n * PAGE_SIZE
      ensures RegionByte(mem', root, start, y) == if y == x then Some(b) else RegionByte(mem, root, start, y)
    {
      RegionQuery(mem, root, lo, cur, start, n, flags, from, to, y);
      RegionQuery(mem', root, lo, cur, start, n, flags, from, to, y);
      RegionPage(start, n, y);
      ByteStores(mem, pa, b, RegionPhys(mem, root, start, y));
      if RegionPhys(mem, root, start, y) == pa { RegionInjective(mem, root, start, n, flags, from, to, x, y); }
    }
  }

  lemma UserPagesKept(mem: Memory, mem': Memory, root: nat, first: nat, n: nat, flags: nat, from: nat, to: nat)
    requires flags < 1024 && UserPages(mem, root, first, n, flags, from, to) && EntriesKept(mem, mem', root)
    requires forall p :: IsPath(p) ==> Table(mem', root, p) == Table(mem, root, p)
    ensures UserPages(mem', root, first, n, flags, from, to)
  {
    hide Entry, Table, LeafPte, Distance;
  }

  /** Copying into a region at offset `i` succeeds and changes exactly the bytes copied; no translation,
      table or other frame is touched, so every later byte is queried in the same tree. */
  lemma {:induction false} CopyRegion(mem: Memory, root: nat, lo: nat, cur: nat, start: u64, n: nat, flags: nat,
      from: nat, to: nat, i: nat, source: seq<byte>)
    requires Inv(mem, root, lo, cur) && UserRegion(mem, root, start, n, flags, from, to)
    requires i + |source| <= n * PAGE_SIZE
    ensures var (ok, mem') := CopyInto(mem, root, Wrap(start + i), source);
      && ok && |mem'| == |mem| && Inv(mem', root, lo, cur) && UserRegion(mem', root, start, n, flags, from, to)
      && EntriesKept(mem, mem', root)
      && (forall p :: IsPath(p) ==> Table(mem', root, p) == Table(mem, root, p))
      && (forall g: nat, j: nat :: j < ENTRIES && !(from <= g < to) ==> Word(mem', g, j) == Word(mem, g, j))
      && (forall y: nat :: y < n * PAGE_SIZE ==>
            RegionByte(mem', root, start, y) ==
            if i <= y < i + |source| then Some(source[y - i]) else RegionByte(mem, root, start, y))
    decreases |source|
  {
    hide Inv, Entry, Table, Vpn, Query, Word, StoreByteAt, RegionByte, UserRegion, IsPath, RegionPhys;
    if source != [] {
      RegionAddress(mem, root, lo, cur, start, n, flags, from, to, i);
      PokeRegion(mem, root, lo, cur, start, n, flags, from, to, i, source[0]);
      var next := StoreByteAt(mem, RegionPhys(mem, root, start, i), source[0]);
      CopyRegion(next, root, lo, cur, start, n, flags, from, to, i + 1, source[1..]);
    }
  }

  /** Where byte `i` of a region is found, and that its address does not wrap. */
  lemma RegionAddress(mem: Memory, root: nat, lo: nat, cur: nat, start: u64, n: nat, flags: nat, from: nat, to: nat,
      i: nat)
    requires Inv(mem, root, lo, cur) && UserRegion(mem, root, start, n, flags, from, to) && i < n * PAGE_SIZE
    ensures start + i < 0x40_0000_0000
    ensures Query(mem, root, Wrap(start + i)) == Some(Translation(RegionPhys(mem, root, start, i), LeafFlags(flags)))
    ensures Wrap(Wrap(start + i) + 1) == Wrap(start + (i + 1))
    ensures from <= FrameAt(mem, root, Vpn(start + i)) < to
  {
    hide Inv, Entry, Table, Vpn, Query, RegionPhys, LeafFlags;
    RegionQuery(mem, root, lo, cur, start, n, flags, from, to, i);
  }
}
