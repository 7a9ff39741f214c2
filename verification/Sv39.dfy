/**
 The Sv39 address-translation algorithm of the RISC-V Privileged Architecture (version 20211203,
 sections 4.3.2 and 4.4), and its agreement with the kernel's own software walk.
 */
module Sv39 {
  import opened Words
  import opened PageTables
  import opened PageTableProofs

  datatype Access = Read | Write | Execute
  datatype Mode = Supervisor | User

  predicate HasBit(e: nat, bit: nat)
    requires bit > 0
  {
    (e / bit) % 2 == 1
  }

  /** Bits 63..39 all equal bit 38. */
  predicate Canonical(va: u64) {
    va < 0x40_0000_0000 || va >= TWO64 - 0x40_0000_0000
  }

  /** Encodings that are reserved: bits 63..54, and W without R. */
  predicate Reserved(e: u64) {
    e >= 0x40_0000_0000_0000 || (HasBit(e, PTE_W) && !HasBit(e, PTE_R))
  }

  /** A, D and U are reserved in a pointer to the next level. */
  predicate ReservedPointer(e: u64) {
    HasBit(e, PTE_A) || HasBit(e, PTE_D) || HasBit(e, PTE_U)
  }

  /** Permission bits and the accessed and dirty bits; supervisor accesses to user pages fault (SUM = 0). */
  predicate Permits(flags: nat, access: Access, mode: Mode) {
    && (access.Read? ==> HasBit(flags, PTE_R))
    && (access.Write? ==> HasBit(flags, PTE_W) && HasBit(flags, PTE_D))
    && (access.Execute? ==> HasBit(flags, PTE_X))
    && (mode.User? <==> HasBit(flags, PTE_U))
    && HasBit(flags, PTE_A)
  }

  /** The number of pages that one entry at `level` spans. */
  function Span(level: nat): nat
    requires level <= 2
  {
    if level == 0 then 1 else if level == 1 then 512 else 0x4_0000
  }

  function VpnAt(va: u64, level: nat): nat
    requires level <= 2
  {
    (va / PAGE_SIZE / Span(level)) % ENTRIES
  }

  /** Steps 2 to 8 of the algorithm at one level; `None` is a page fault. */
  function Walk(mem: Memory, f: nat, level: nat, va: u64, access: Access, mode: Mode): Option<nat>
    requires level <= 2
    decreases level
  {
    var e := Word(mem, f, VpnAt(va, level));
    if !IsValid(e) || Reserved(e) then None
    else if !HasBit(e, PTE_R) && !HasBit(e, PTE_X) then
      if level == 0 || ReservedPointer(e) then None
      else Walk(mem, FrameOf(e), level - 1, va, access, mode)
    else if !Permits(e, access, mode) then None
    else if FrameOf(e) % Span(level) != 0 then None
    else Some((FrameOf(e) + (va / PAGE_SIZE) % Span(level)) * PAGE_SIZE + va % PAGE_SIZE)
  }

  /** The translation of `va` with `root` in satp. */
  function HardwareTranslate(mem: Memory, root: nat, va: u64, access: Access, mode: Mode): Option<nat> {
    if Canonical(va) then Walk(mem, root, 2, va, access, mode) else None
  }

  // ---------- software walk and hardware walk ----------

  /** In a well-formed tree the software walk reads the level-0 entry of the page. */
  lemma QueryReadsEntry(mem: Memory, root: nat, lo: nat, cur: nat, va: u64)
    requires Inv(mem, root, lo, cur)
    ensures Query(mem, root, va) ==
      var e := Entry(mem, root, Vpn(va));
      if IsValid(e) && IsLeaf(e) then Some(Translation(PhysFromPte(e) + va % PAGE_SIZE, FlagsOf(e))) else None
  {
    VpnDigits(va);
  }

  lemma VpnAtDigits(va: u64)
    ensures VpnAt(va, 2) == Vpn2(va) && VpnAt(va, 1) == Vpn1(va) && VpnAt(va, 0) == Vpn0(va)
  {
    var q := va / PAGE_SIZE;
    assert va / 0x20_0000 == q / 512 && va / 0x4000_0000 == q / 0x4_0000;
  }

  lemma LeafBits(e: u64)
    ensures IsLeaf(e) <==> HasBit(e, PTE_R) || HasBit(e, PTE_W) || HasBit(e, PTE_X)
  {
    var x := e / 2;
    assert e / 4 == x / 2 && e / 8 == x / 4;
    ThreeBits(x / 8, x % 8);
  }

  lemma ThreeBits(q: nat, r: nat)
    requires r < 8
    ensures var x := 8 * q + r; x % 2 == r % 2 && (x / 2) % 2 == (r / 2) % 2 && (x / 4) % 2 == (r / 4) % 2
  {
    var x := 8 * q + r;
    assert x / 2 == 4 * q + r / 2 && x / 4 == 2 * q + r / 4;
  }

  lemma PointerIsPlain(e: u64)
    requires FrameOf(e) < FRAMES && e == PointerPte(FrameOf(e))
    ensures IsValid(e) && !Reserved(e) && !HasBit(e, PTE_R) && !HasBit(e, PTE_X) && !ReservedPointer(e)
  {
    var f := FrameOf(e);
    assert e / 2 == 2 * (256 * f) && e / 4 == 2 * (128 * f) && e / 8 == 2 * (64 * f);
    assert e / 16 == 2 * (32 * f) && e / 64 == 2 * (8 * f) && e / 128 == 2 * (4 * f);
  }

  /** The kernel's software walk answers what the hardware would, except that it does not look at
      reserved encodings and permissions: on a canonical address the hardware translates exactly when
      the software walk finds a page whose entry is not reserved and permits the access. */
  lemma HardwareAgrees(mem: Memory, root: nat, lo: nat, cur: nat, va: u64, access: Access, mode: Mode)
    requires Inv(mem, root, lo, cur) && Canonical(va)
    ensures var e := Entry(mem, root, Vpn(va));
      HardwareTranslate(mem, root, va, access, mode) ==
      match Query(mem, root, va)
      case Some(t) => if !Reserved(e) && Permits(e, access, mode) then Some(t.pa as nat) else None
      case None => None
  {
    VpnDigits(va);
    VpnAtDigits(va);
    var e2 := Word(mem, root, Vpn2(va));
    assert IsPath(Top) && Table(mem, root, Top) == Some(root);
    if IsValid(e2) {
      PointerIsPlain(e2);
      PointerFacts(FrameOf(e2));
      var f1 := FrameOf(e2);
      assert IsPath(Mid(Vpn2(va))) && Table(mem, root, Mid(Vpn2(va))) == Some(f1);
      var e1 := Word(mem, f1, Vpn1(va));
      if IsValid(e1) {
        PointerIsPlain(e1);
        PointerFacts(FrameOf(e1));
        var e0 := Word(mem, FrameOf(e1), Vpn0(va));
        assert Entry(mem, root, Vpn(va)) == e0;
        LeafBits(e0);
        assert Walk(mem, root, 2, va, access, mode) == Walk(mem, f1, 1, va, access, mode)
            == Walk(mem, FrameOf(e1), 0, va, access, mode);
      }
    }
  }
}
