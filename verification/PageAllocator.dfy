/** The bump allocator of physical pages. */
module PageAllocator {
  import opened Words

  /** What the kernel reads from the device tree and the linker about the platform. */
  datatype PlatformInfo = PlatformInfo(
    ramBase: u64, ramSize: u64, uartBase: u64, dtbAddr: u64, dtbSize: u64, kernelEnd: u64)

  /** One `physical_alloc_page` on the allocator's two fields: the address returned (0 is failure) and the new
      `current`. */
  function AllocStep(current: u64, end: u64): (u64, u64) {
    var addr := AlignUp(current);
    if Wrap(addr + PAGE_SIZE) > end then (0, current) else (addr, Wrap(addr + PAGE_SIZE))
  }

  /** The states reached from a successful initialisation on RAM below 2^38. */
  predicate Sound(current: u64, end: u64) {
    0 < current <= end <= 0x40_0000_0000 && PageAligned(current)
  }

  /** From a sound state: page `current` is handed out exactly when a whole page is left, and never twice. */
  lemma AllocStepSound(current: u64, end: u64)
    requires Sound(current, end)
    ensures var (addr, next) := AllocStep(current, end);
      && Sound(next, end)
      && (addr != 0 <==> current / PAGE_SIZE + 1 <= end / PAGE_SIZE)
      && (addr != 0 ==> addr == current && next == current + PAGE_SIZE)
      && (addr == 0 ==> next == current)
  {
    assert AlignUp(current) == current;
    if current + PAGE_SIZE > end {
      assert current / PAGE_SIZE + 1 > end / PAGE_SIZE;
    }
  }

  /** Some page boundary lies between the two addresses exactly when the first one rounds up to less than the second. */
  lemma BoundaryLeft(from: nat, end: nat)
    requires from <= TWO64 - PAGE_SIZE
    ensures AlignUp(from) < end <==> exists page: nat :: from <= page * PAGE_SIZE && page * PAGE_SIZE < end
  {
    var first := AlignUp(from) / PAGE_SIZE;
    assert AlignUp(from) == first * PAGE_SIZE;
    forall page: nat | from <= page * PAGE_SIZE ensures first <= page {
      if page < first {
        assert page * PAGE_SIZE + PAGE_SIZE <= first * PAGE_SIZE;
      }
    }
  }

  /** The addresses that `n` calls return. */
  function AllocRun(current: u64, end: u64, n: nat): seq<u64>
    decreases n
  {
    if n == 0 then [] else [AllocStep(current, end).0] + AllocRun(AllocStep(current, end).1, end, n - 1)
  }

  /** Over any run of calls, the successful ones return consecutive pages starting at `current`, the
      first failure comes when no whole page is left, and every later call fails too. */
  lemma {:induction false} AllocRunPages(current: u64, end: u64, n: nat, k: nat)
    requires Sound(current, end) && k < n
    ensures |AllocRun(current, end, n)| == n
    ensures AllocRun(current, end, n)[k] ==
      if current / PAGE_SIZE + k + 1 <= end / PAGE_SIZE then current + k * PAGE_SIZE else 0
    decreases n
  {
    AllocStepSound(current, end);
    var next := AllocStep(current, end).1;
    if n > 1 {
      AllocRunPages(next, end, n - 1, if k > 0 then k - 1 else 0);
    }
  }

  class PhysicalPageAllocator {
    var current: u64
    var end: u64

    constructor ()
      ensures current == 0 && end == 0
    {
      current, end := 0, 0;
    }

    /** `physical_page_allocator_init`: free memory starts after the kernel and the device tree. On RAM that
        lies below 2^38 success leaves a sound allocator whose pages are RAM above both. */
    method Init(platform: PlatformInfo) returns (ok: bool)
      modifies this
      ensures ok <==> current < end
      ensures
        && platform.dtbAddr + platform.dtbSize <= TWO64 - PAGE_SIZE && platform.kernelEnd <= TWO64 - PAGE_SIZE
        && platform.ramBase + platform.ramSize < TWO64
        ==> (ok <==> exists page: nat ::
              && platform.kernelEnd <= page * PAGE_SIZE && platform.dtbAddr + platform.dtbSize <= page * PAGE_SIZE
              && page * PAGE_SIZE < platform.ramBase + platform.ramSize)
      ensures
        && platform.dtbAddr + platform.dtbSize < TWO64
        && platform.ramBase + platform.ramSize <= 0x40_0000_0000
        && 0 < platform.kernelEnd <= TWO64 - PAGE_SIZE
        && platform.dtbAddr + platform.dtbSize <= TWO64 - PAGE_SIZE
        && ok ==>
          && Sound(current, end)
          && end == platform.ramBase + platform.ramSize
          && platform.kernelEnd <= current && platform.dtbAddr + platform.dtbSize <= current
          && (current < platform.kernelEnd + PAGE_SIZE || current < platform.dtbAddr + platform.dtbSize + PAGE_SIZE)
    {
      var dtbEnd := Wrap(platform.dtbAddr + platform.dtbSize);
      var reservedEnd := if platform.kernelEnd > dtbEnd then platform.kernelEnd else dtbEnd;
      if reservedEnd <= TWO64 - PAGE_SIZE {
        BoundaryLeft(reservedEnd, Wrap(platform.ramBase + platform.ramSize));
      }
      current := AlignUp(reservedEnd);
      end := Wrap(platform.ramBase + platform.ramSize);
      ok := !(current >= end);
    }

    method AllocPage() returns (addr: u64)
      modifies this
      ensures (addr, current) == AllocStep(old(current), old(end)) && end == old(end)
    {
      var a := AlignUp(current);
      if Wrap(a + PAGE_SIZE) > end {
        return 0;
      }
      current := Wrap(a + PAGE_SIZE);
      return a;
    }
  }
}
