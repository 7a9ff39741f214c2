/**
 The machine the kernel runs on: RAM, the satp register, and loads and stores. Once satp
 holds a root table, every access goes through the hardware translation; an access that the
 hardware would not translate is a trap, so "no trap" is a precondition of every access.
 */
module MachineModel {
  import opened Words
  import opened PageTables
  import opened Sv39
  import opened DirectMap

  /** The physical address an access reaches, `None` if it traps. */
  function Resolve(mem: Memory, satp: Option<nat>, address: u64, access: Access): Option<nat> {
    var pa := match satp
      case None => Some(address as nat)
      case Some(root) => HardwareTranslate(mem, root, address, access, Supervisor);
    if pa.Some? && pa.value / 8 < |mem| then pa else None
  }

  /** Byte `k` of a little-endian word. */
  function ByteOf(w: nat, k: nat): byte {
    if k == 0 then w % 256 else ByteOf(w / 256, k - 1)
  }

  /** The word with byte `k` replaced. */
  function PutByte(w: nat, k: nat, b: byte): nat {
    if k == 0 then w / 256 * 256 + b else PutByte(w / 256, k - 1, b) * 256 + w % 256
  }

  function Pow256(n: nat): nat {
    if n == 0 then 1 else 256 * Pow256(n - 1)
  }

  lemma {:induction false} PutByteFits(w: nat, k: nat, b: byte, n: nat)
    requires k < n && w < Pow256(n)
    ensures PutByte(w, k, b) < Pow256(n)
  {
    assert w / 256 < Pow256(n - 1);
    if k > 0 {
      PutByteFits(w / 256, k - 1, b, n - 1);
    }
  }

  lemma {:induction false} PutByteBytes(w: nat, k: nat, b: byte, j: nat)
    ensures ByteOf(PutByte(w, k, b), j) == if j == k then b else ByteOf(w, j)
  {
    if k == 0 {
      assert PutByte(w, k, b) / 256 == w / 256;
    } else {
      assert PutByte(w, k, b) / 256 == PutByte(w / 256, k - 1, b);
      if j > 0 { PutByteBytes(w / 256, k - 1, b, j - 1); }
    }
  }

  function PutByteWord(w: u64, k: nat, b: byte): u64
    requires k < 8
  {
    assert TWO64 == Pow256(8);
    PutByteFits(w, k, b, 8);
    PutByte(w, k, b)
  }

  /** The byte at a physical address, and memory after storing one. */
  function ByteAt(mem: Memory, pa: nat): byte {
    if pa / 8 < |mem| then ByteOf(mem[pa / 8], pa % 8) else 0
  }

  function StoreByteAt(mem: Memory, pa: nat, b: byte): Memory {
    if pa / 8 < |mem| then mem[pa / 8 := PutByteWord(mem[pa / 8], pa % 8, b)] else mem
  }

  class Machine {
    const cells: array<u64>
    var satp: Option<nat>

    constructor (words: nat)
      ensures fresh(cells) && cells.Length == words && satp.None?
    {
      cells := new u64[words];
      satp := None;
    }

    ghost function Words(): Memory
      reads cells
    {
      cells[..]
    }

    method LoadWord(address: u64) returns (w: u64)
      requires Resolve(Words(), satp, address, Read).Some? && address % 8 == 0
      ensures w == Words()[Resolve(Words(), satp, address, Read).value / 8]
    {
      var pa := Resolve(cells[..], satp, address, Read);
      w := cells[pa.value / 8];
    }

    method StoreWord(address: u64, w: u64)
      requires Resolve(Words(), satp, address, Write).Some? && address % 8 == 0
      modifies cells
      ensures Words() == old(Words())[old(Resolve(Words(), satp, address, Write)).value / 8 := w]
    {
      var pa := Resolve(cells[..], satp, address, Write);
      cells[pa.value / 8] := w;
    }

    method StoreByte(address: u64, b: byte)
      requires Resolve(Words(), satp, address, Write).Some?
      modifies cells
      ensures Words() == StoreByteAt(old(Words()), old(Resolve(Words(), satp, address, Write)).value, b)
    {
      var pa := Resolve(cells[..], satp, address, Write);
      var k := pa.value / 8;
      cells[k] := PutByteWord(cells[k], pa.value % 8, b);
    }
  }

  // ---------- addressing a frame ----------

  /** Where RAM lies (frames `first <= f < last`) and the first frame `lo` the allocator may hand out. */
  datatype Region = Region(first: nat, last: nat, lo: nat)

  /** The kernel's pointer to frame `f`: physical before paging is on, through the direct map afterwards. */
  function PointerTo(satp: Option<nat>, f: nat): u64 {
    if satp.None? then Wrap(f * PAGE_SIZE) else PhysToVirt(Wrap(f * PAGE_SIZE))
  }

  /** Every frame of RAM can be reached through its pointer: RAM is installed and lies below 2^38, and
      once translation is on, the active tables are well formed and direct-map all of RAM. */
  ghost predicate Hosted(mem: Memory, satp: Option<nat>, cur: nat, g: Region) {
    && 1 <= g.first <= g.lo <= cur <= g.last <= DIRECT_PAGE
    && ENTRIES * g.last <= |mem|
    && (satp.Some? ==> Inv(mem, satp.value, g.lo, cur) && DirectMapped(mem, satp.value, g.first, g.last))
  }

  /** An access to a frame of RAM through its pointer does not trap and reaches that frame. */
  lemma PointerReaches(mem: Memory, satp: Option<nat>, cur: nat, g: Region, f: nat, k: nat, access: Access)
    requires Hosted(mem, satp, cur, g) && g.first <= f < g.last && k < PAGE_SIZE && !access.Execute?
    ensures PointerTo(satp, f) != 0 && PointerTo(satp, f) % PAGE_SIZE == 0
    ensures PointerTo(satp, f) + k < TWO64
    ensures Resolve(mem, satp, PointerTo(satp, f) + k, access) == Some(f * PAGE_SIZE + k)
  {
    hide HardwareTranslate, Inv, DirectMapped, PhysToVirt, Wrap;
    PointerAddress(f, k);
    if satp.Some? {
      DirectTranslate(mem, satp.value, g.lo, cur, g.first, g.last, f * PAGE_SIZE + k, access);
    }
  }

  /** The pointers to the bytes of frame `f`, before and after paging is on. */
  lemma PointerAddress(f: nat, k: nat)
    requires 1 <= f < DIRECT_PAGE && k < PAGE_SIZE
    ensures var pa := f * PAGE_SIZE + k;
      && pa < 0x40_0000_0000 && pa / PAGE_SIZE == f && pa / 8 < ENTRIES * (f + 1)
      && Wrap(f * PAGE_SIZE) == f * PAGE_SIZE && f * PAGE_SIZE > 0
      && var p := PhysToVirt(f * PAGE_SIZE);
      && p != 0 && p % PAGE_SIZE == 0 && p + k < TWO64 && p + k == PhysToVirt(pa)
  {
    hide Canonical;
    DirectAddress(f * PAGE_SIZE);
    DirectAddress(f * PAGE_SIZE + k);
  }

  /** Reading back bytes: a store changes exactly one byte of memory. */
  lemma ByteStores(mem: Memory, pa: nat, b: byte, other: nat)
    requires pa / 8 < |mem|
    ensures ByteAt(StoreByteAt(mem, pa, b), other) == if other == pa then b else ByteAt(mem, other)
  {
    if other / 8 == pa / 8 {
      PutByteBytes(mem[pa / 8], pa % 8, b, other % 8);
    }
  }
}
