/** What the hardware permits on the pages that `paging_map` creates. */
module UserAccess {
  import opened Words
  import opened PageTables
  import opened PageTableProofs
  import opened PageRanges
  import opened Sv39

  predicate IsFlagBit(bit: nat) {
    bit == 2 || bit == 4 || bit == 8 || bit == 16 || bit == 64 || bit == 128
  }

  lemma DivShift(x: nat, d: nat, n: nat)
    requires d > 0
    ensures (x + d * n) / d == x / d + n
  {
    var q, r := (x + d * n) / d, (x + d * n) % d;
    assert d * (q - x / d - n) == x % d - r;
    var t := q - x / d - n;
    assert t >= 1 ==> d * t >= d;
    assert t <= -1 ==> d * t + d <= 0;
  }

  /** Adding a multiple of `2 * bit` leaves `bit` alone, adding `bit` flips it. */
  lemma ShiftBit(x: nat, bit: nat, n: nat)
    requires bit > 0
    ensures HasBit(x + bit * (2 * n), bit) == HasBit(x, bit)
    ensures HasBit(x + bit * 1, bit) == !HasBit(x, bit)
  {
    DivShift(x, bit, 2 * n);
    DivShift(x, bit, 1);
  }

  /** The flag bits of an entry do not depend on its frame. */
  lemma FlagBit(k: nat, flags: nat, bit: nat)
    requires flags < 1024 && IsFlagBit(bit)
    ensures HasBit(k * 1024 + flags, bit) == HasBit(flags, bit)
  {
    hide HasBit;
    ShiftBit(flags, bit, if bit == 2 then 256 * k else if bit == 4 then 128 * k else if bit == 8 then 64 * k
                         else if bit == 16 then 32 * k else if bit == 64 then 8 * k else 4 * k);
  }

  lemma SetBitBits(flags: nat, added: nat, bit: nat)
    requires flags < 1024 && (added == 1 || added == 64 || added == 128) && IsFlagBit(bit)
    ensures HasBit(SetBit(flags, added), bit) == (bit == added || HasBit(flags, bit))
  {
    if (flags / added) % 2 == 0 {
      if added == 1 {
        EvenNext(flags / 2, bit / 2);
        assert flags == 2 * (flags / 2) && bit == 2 * (bit / 2);
      } else {
        SetHighBit(flags, added, bit);
      }
    }
  }

  lemma Below(x: nat, d: nat)
    requires x < d
    ensures x / d == 0
  {
  }

  /** An even number and its successor have the same quotient by an even divisor. */
  lemma {:induction false} EvenNext(y: nat, h: nat)
    requires h > 0
    ensures (2 * y + 1) / (2 * h) == 2 * y / (2 * h)
  {
    if y < h {
      Below(2 * y, 2 * h);
      Below(2 * y + 1, 2 * h);
    } else {
      EvenNext(y - h, h);
      DivShift(2 * (y - h), 2 * h, 1);
      DivShift(2 * (y - h) + 1, 2 * h, 1);
    }
  }

  lemma SetHighBit(flags: nat, added: nat, bit: nat)
    requires flags < 1024 && (added == 64 || added == 128) && IsFlagBit(bit) && (flags / added) % 2 == 0
    ensures HasBit(flags + added, bit) == (bit == added || HasBit(flags, bit))
  {
    hide HasBit;
    if bit == 128 && added == 64 {
      Bit64Below128(flags);
    } else {
      var n := if bit <= 16 then added / bit / 2 else if bit < added then 1 else 0;
      assert bit == added || added == bit * (2 * n);
      ShiftBit(flags, bit, n);
      NotSet(flags, added);
    }
  }

  lemma NotSet(flags: nat, bit: nat)
    requires bit > 0 && (flags / bit) % 2 == 0
    ensures !HasBit(flags, bit)
  {
  }

  lemma Bit64Below128(flags: nat)
    requires (flags / 64) % 2 == 0
    ensures HasBit(flags + 64, 128) == HasBit(flags, 128)
  {
    var q := flags / 64;
    assert flags == 64 * q + flags % 64 && q == 2 * (q / 2);
    assert flags / 128 == q / 2 && (flags + 64) / 128 == q / 2;
  }

  /** V, A and D are set, R, W, X and U stay. */
  lemma LeafFlagBits(flags: nat, bit: nat)
    requires flags < 1024 && IsFlagBit(bit)
    ensures LeafFlags(flags) < 1024
    ensures HasBit(LeafFlags(flags), bit) == (bit == PTE_A || bit == PTE_D || HasBit(flags, bit))
  {
    LeafFlagsFit(flags);
    SetBitFits(flags, PTE_V);
    SetBitFits(SetBit(flags, PTE_V), PTE_A);
    SetBitBits(flags, PTE_V, bit);
    SetBitBits(SetBit(flags, PTE_V), PTE_A, bit);
    SetBitBits(SetBit(SetBit(flags, PTE_V), PTE_A), PTE_D, bit);
  }

  lemma SetBitFits(flags: nat, bit: nat)
    requires flags < 1024 && (bit == 1 || bit == 64)
    ensures SetBit(flags, bit) < 1024
  {
    if bit == 64 { SetBitKeeps(flags, 64); }
  }

  /** What a page mapped with `flags` grants. */
  predicate Grants(flags: nat, access: Access, mode: Mode) {
    && (access.Read? ==> HasBit(flags, PTE_R))
    && (access.Write? ==> HasBit(flags, PTE_W))
    && (access.Execute? ==> HasBit(flags, PTE_X))
    && (mode.User? <==> HasBit(flags, PTE_U))
    && (HasBit(flags, PTE_W) ==> HasBit(flags, PTE_R))
  }

  /** The hardware translates exactly the accesses granted by the flags that were passed to `paging_map`. */
  lemma MappedAccess(mem: Memory, root: nat, lo: nat, cur: nat, va: u64, pa: u64, flags: nat, access: Access,
      mode: Mode)
    requires Inv(mem, root, lo, cur) && Canonical(va) && flags < 1024 && IsLeaf(flags) && pa < 0x100_0000_0000_0000
    requires Entry(mem, root, Vpn(va)) == LeafPte(pa, flags) && PageAligned(pa)
    ensures HardwareTranslate(mem, root, va, access, mode) ==
            if Grants(flags, access, mode) then Some(pa + va % PAGE_SIZE) else None
  {
    hide Inv, Entry, Table, Word, Query, LeafFlags, HardwareTranslate, IsLeaf, IsValid, Vpn, HasBit;
    HardwareAgrees(mem, root, lo, cur, va, access, mode);
    QueryReadsEntry(mem, root, lo, cur, va);
    LeafPteValid(pa, flags);
    LeafEntryBits(pa, flags, access, mode);
    LeafPtePhys(pa, flags);
  }

  lemma LeafPtePhys(pa: u64, flags: nat)
    requires pa < 0x100_0000_0000_0000 && flags < 1024 && PageAligned(pa)
    ensures PhysFromPte(LeafPte(pa, flags)) == pa
  {
    LeafPteValid(pa, flags);
    assert (pa / PAGE_SIZE) % FRAMES == pa / PAGE_SIZE;
  }

  lemma LeafEntryBits(pa: u64, flags: nat, access: Access, mode: Mode)
    requires pa < 0x100_0000_0000_0000 && flags < 1024
    ensures (!Reserved(LeafPte(pa, flags)) && Permits(LeafPte(pa, flags), access, mode)) == Grants(flags, access, mode)
  {
    hide HasBit, LeafFlags;
    forall bit: nat | IsFlagBit(bit)
      ensures HasBit(LeafPte(pa, flags), bit) == (bit == PTE_A || bit == PTE_D || HasBit(flags, bit))
    {
      LeafFlagBits(flags, bit);
      FlagBit(pa / PAGE_SIZE, LeafFlags(flags), bit);
    }
    LeafFlagBits(flags, PTE_R);
    assert IsFlagBit(PTE_R) && IsFlagBit(PTE_W) && IsFlagBit(PTE_X) && IsFlagBit(PTE_U) && IsFlagBit(PTE_A) &&
      IsFlagBit(PTE_D);
  }
}
