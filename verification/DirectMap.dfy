/** The kernel's direct map of RAM: physical address `pa` appears at `pa + KERNEL_DIRECT_MAP_BASE`. */
module DirectMap {
  import opened Words
  import opened PageTables
  import opened PageTableProofs
  import opened Sv39

  const KERNEL_DIRECT_MAP_BASE: u64 := 0xFFFF_FFC0_0000_0000
  const DIRECT_FLAGS: nat := 6 // PTE_R | PTE_W
  const DIRECT_PAGE: nat := 0x400_0000 // the virtual page of frame 0; frames from 2^26 on do not fit

  function PhysToVirt(pa: u64): u64 {
    Wrap(pa + KERNEL_DIRECT_MAP_BASE)
  }

  function VirtToPhys(va: u64): u64 {
    Wrap(va - KERNEL_DIRECT_MAP_BASE)
  }

  /** The conversions are inverse on all addresses; below 2^38 nothing wraps and the page number is shifted by 2^26. */
  lemma DirectAddress(pa: u64)
    ensures VirtToPhys(PhysToVirt(pa)) == pa && PhysToVirt(VirtToPhys(pa)) == pa
    ensures pa < 0x40_0000_0000 ==>
      && PhysToVirt(pa) == pa + KERNEL_DIRECT_MAP_BASE
      && Canonical(PhysToVirt(pa))
      && Vpn(PhysToVirt(pa)) == DIRECT_PAGE + pa / PAGE_SIZE
      && PhysToVirt(pa) % PAGE_SIZE == pa % PAGE_SIZE
  {
    if pa < 0x40_0000_0000 {
      assert PhysToVirt(pa) / PAGE_SIZE == 0xF_FFFF_FC00_0000 + pa / PAGE_SIZE;
      assert 0xF_FFFF_FC00_0000 == PAGES * 0x1FF_FFFF + DIRECT_PAGE;
    }
  }

  /** Frames `first <= f < last` appear read-write, supervisor-only, at their direct-map page. */
  ghost predicate DirectMapped(mem: Memory, root: nat, first: nat, last: nat) {
    && last <= DIRECT_PAGE
    && forall page: nat :: DIRECT_PAGE + first <= page < DIRECT_PAGE + last ==>
      Entry(mem, root, page) == LeafPte((page - DIRECT_PAGE) * PAGE_SIZE, DIRECT_FLAGS)
  }

  lemma DirectPteFacts(f: nat)
    requires f < DIRECT_PAGE
    ensures var e := LeafPte(f * PAGE_SIZE, DIRECT_FLAGS);
      && e == f * 1024 + 199 && IsValid(e) && IsLeaf(e) && FrameOf(e) == f && FlagsOf(e) == 199
      && !Reserved(e) && Permits(e, Read, Supervisor) && Permits(e, Write, Supervisor)
  {
    hide HasBit;
    DirectEntry(f);
    DirectBits(f);
  }

  lemma DirectEntry(f: nat)
    requires f < DIRECT_PAGE
    ensures var e := LeafPte(f * PAGE_SIZE, DIRECT_FLAGS);
      e == f * 1024 + 199 && IsValid(e) && IsLeaf(e) && FrameOf(e) == f && FlagsOf(e) == 199
  {
    PteRoundTrip(f * PAGE_SIZE, 199);
  }

  lemma DirectBits(f: nat)
    ensures var e := f * 1024 + 199;
      && HasBit(e, PTE_V) && HasBit(e, PTE_R) && HasBit(e, PTE_W) && !HasBit(e, PTE_U)
      && HasBit(e, PTE_A) && HasBit(e, PTE_D)
  {
    var e := f * 1024 + 199;
    BitIs(e, PTE_V, 512 * f + 99, 1, 0);
    BitIs(e, PTE_R, 256 * f + 49, 1, 1);
    BitIs(e, PTE_W, 128 * f + 24, 1, 3);
    BitIs(e, PTE_U, 32 * f + 6, 0, 7);
    BitIs(e, PTE_A, 8 * f + 1, 1, 7);
    BitIs(e, PTE_D, 4 * f, 1, 71);
  }

  /** The bit of weight `k`: what is above it, the bit, and what is below it. */
  lemma BitIs(e: nat, k: nat, q: nat, bit: nat, r: nat)
    requires r < k && bit < 2 && e == k * (2 * q + bit) + r
    ensures HasBit(e, k) <==> bit == 1
  {
    QuotientIs(e, k, 2 * q + bit, r);
  }

  lemma QuotientIs(e: nat, k: nat, q: nat, r: nat)
    requires r < k && e == k * q + r
    ensures e / k == q
  {
    var d, m := e / k, e % k;
    assert e == k * d + m && 0 <= m < k;
    if d < q { MultipleGap(k, d, q); }
    if q < d { MultipleGap(k, q, d); }
  }

  lemma {:induction false} MultipleGap(k: nat, d: nat, q: nat)
    requires d < q
    ensures k * q >= k * d + k
  {
    if d + 1 < q { MultipleGap(k, d, q - 1); }
    assert k * q == k * (q - 1) + k;
  }

  /** The tables translate accesses to RAM, themselves included. */
  lemma DirectTranslate(mem: Memory, root: nat, lo: nat, cur: nat, first: nat, last: nat, pa: u64, access: Access)
    requires Inv(mem, root, lo, cur) && DirectMapped(mem, root, first, last)
    requires first <= pa / PAGE_SIZE < last && !access.Execute?
    ensures HardwareTranslate(mem, root, PhysToVirt(pa), access, Supervisor) == Some(pa as nat)
  {
    var f := pa / PAGE_SIZE;
    DirectAddress(pa);
    DirectPteFacts(f);
    QueryReadsEntry(mem, root, lo, cur, PhysToVirt(pa));
    HardwareAgrees(mem, root, lo, cur, PhysToVirt(pa), access, Supervisor);
  }
}
