/** Mapping a run of pages: what is added, when it succeeds, and how many tables it can cost. */
module PageRanges {
  import opened Words
  import opened PageTables
  import opened PageTableProofs

  datatype RangeOutcome = RangeOutcome(ok: bool, mem: Memory, cur: nat, mapped: nat)

  /** `n` calls of `paging_map` on consecutive pages, up to the first failure; `mapped` counts the successes. */
  function MapPages(mem: Memory, root: nat, cur: nat, end: nat, va: u64, pa: u64, flags: nat, n: nat): RangeOutcome
    requires flags < 1024
    decreases n
  {
    if n == 0 then RangeOutcome(true, mem, cur, 0) else
    var one := MapPage(mem, root, cur, end, va, pa, flags);
    if !one.ok then RangeOutcome(false, one.mem, one.cur, 0) else
    var rest := MapPages(one.mem, root, one.cur, end, Wrap(va + PAGE_SIZE), Wrap(pa + PAGE_SIZE), flags, n - 1);
    rest.(mapped := rest.mapped + 1)
  }

  /** How far `page` lies above `first` when page numbers wrap around at 2^27. */
  function Distance(first: nat, page: nat): nat {
    (page - first) % PAGES
  }

  /** The linear map of `k` pages from `va` to `pa`, added to the entries of `mem`. */
  ghost predicate AddsLinearMap(mem: Memory, mem': Memory, root: nat, va: u64, pa: u64, flags: nat, k: nat)
    requires flags < 1024
  {
    forall page: nat :: page < PAGES ==>
      Entry(mem', root, page) ==
      var d := Distance(Vpn(va), page);
      if d < k then LeafPte(Wrap(pa + d * PAGE_SIZE), flags) else Entry(mem, root, page)
  }

  ghost predicate Unmapped(mem: Memory, root: nat, first: nat, k: nat) {
    forall page: nat :: page < PAGES && Distance(first, page) < k ==> !IsValid(Entry(mem, root, page))
  }

  lemma NextPage(va: u64)
    requires PageAligned(va)
    ensures PageAligned(Wrap(va + PAGE_SIZE))
    ensures Vpn(Wrap(va + PAGE_SIZE)) == (Vpn(va) + 1) % PAGES
  {
    var q := va / PAGE_SIZE;
    var k, r := q / PAGES, q % PAGES;
    if va + PAGE_SIZE < TWO64 {
      assert (va + PAGE_SIZE) / PAGE_SIZE == q + 1 == PAGES * k + (r + 1);
    } else {
      assert q == PAGES * 0x1FF_FFFF + (PAGES - 1);
    }
  }

  lemma NextDistance(first: nat, next: nat, page: nat)
    requires first < PAGES && page < PAGES && next == (first + 1) % PAGES
    ensures Distance(first, page) == if page == first then 0 else Distance(next, page) + 1
    ensures Distance(next, first) == PAGES - 1
    ensures Distance(first, page) < PAGES
  {
  }

  lemma NextTarget(pa: u64, d: nat)
    ensures Wrap(Wrap(pa + PAGE_SIZE) + d * PAGE_SIZE) == Wrap(pa + (d + 1) * PAGE_SIZE)
  {
    var x := pa + PAGE_SIZE;
    var y := x + d * PAGE_SIZE;
    assert y == TWO64 * (x / TWO64) + (x % TWO64 + d * PAGE_SIZE);
    WrapShift(x % TWO64 + d * PAGE_SIZE, x / TWO64);
  }

  lemma WrapShift(x: int, k: nat)
    ensures Wrap(TWO64 * k + x) == Wrap(x)
  {
  }

  /** One iteration of a loop that advances by pages, in wrapping addresses and in remaining pages. */
  lemma RangeStep(start: u64, mapped: nat, size: nat)
    requires mapped % PAGE_SIZE == 0 && size % PAGE_SIZE == 0 && mapped < size
    ensures Wrap(Wrap(start + mapped) + PAGE_SIZE) == Wrap(start + (mapped + PAGE_SIZE))
    ensures (size - mapped) / PAGE_SIZE >= 1
    ensures (size - (mapped + PAGE_SIZE)) / PAGE_SIZE == (size - mapped) / PAGE_SIZE - 1
    ensures (mapped + PAGE_SIZE) % PAGE_SIZE == 0 && mapped + PAGE_SIZE <= size
  {
    WrapShift(Wrap(start + mapped) + PAGE_SIZE, (start + mapped) / TWO64);
  }

  /** Whatever happens, exactly a prefix of `mapped` pages has been added; all of them were unmapped
      before; and the call succeeds exactly when the prefix is the whole range. */
  lemma {:induction false} MapPagesCorrect(mem: Memory, root: nat, lo: nat, cur: nat, end: nat, va: u64, pa: u64,
      flags: nat, n: nat)
    requires Inv(mem, root, lo, cur) && lo <= cur <= end <= FRAMES && ENTRIES * end <= |mem| && flags < 1024
    ensures var out := MapPages(mem, root, cur, end, va, pa, flags, n);
      && StepKeeps(mem, out.mem, root, lo, cur, out.cur)
      && out.cur <= end
      && out.mapped <= n && out.mapped <= PAGES
      && (out.ok <==> out.mapped == n)
      && AddsLinearMap(mem, out.mem, root, va, pa, flags, out.mapped)
      && Unmapped(mem, root, Vpn(va), out.mapped)
    decreases n
  {
    hide MapPage, Inv, Entry, StepKeeps, MissingTables, LeafPte, Unmapped, AddsLinearMap, Wrap, Vpn;
    StepKeepsRefl(mem, root, lo, cur);
    if n > 0 {
      var one := MapPage(mem, root, cur, end, va, pa, flags);
      MapPageCorrect(mem, root, lo, cur, end, va, pa, flags);
      StepKeepsBounds(mem, one.mem, root, lo, cur, one.cur);
      if one.ok {
        var va', pa' := Wrap(va + PAGE_SIZE), Wrap(pa + PAGE_SIZE);
        MapPagesCorrect(one.mem, root, lo, one.cur, end, va', pa', flags, n - 1);
        var rest := MapPages(one.mem, root, one.cur, end, va', pa', flags, n - 1);
        PrependPage(mem, one.mem, rest.mem, root, va, pa, flags, rest.mapped);
        StepKeepsTrans(mem, one.mem, rest.mem, root, lo, cur, one.cur, rest.cur);
      } else {
        NothingAdded(mem, one.mem, root, va, pa, flags);
      }
    } else {
      NothingAdded(mem, mem, root, va, pa, flags);
    }
  }

  lemma StepKeepsBounds(mem: Memory, mem': Memory, root: nat, lo: nat, cur: nat, cur': nat)
    requires StepKeeps(mem, mem', root, lo, cur, cur')
    ensures Inv(mem', root, lo, cur') && |mem'| == |mem| && cur <= cur'
  {
  }

  lemma NothingAdded(mem: Memory, mem': Memory, root: nat, va: u64, pa: u64, flags: nat)
    requires flags < 1024 && EntriesKept(mem, mem', root)
    ensures AddsLinearMap(mem, mem', root, va, pa, flags, 0) && Unmapped(mem, root, Vpn(va), 0)
  {
  }

  /** One page in front of a linear map of `k` pages makes a linear map of `k + 1` pages. */
  lemma PrependPage(mem: Memory, one: Memory, out: Memory, root: nat, va: u64, pa: u64, flags: nat, k: nat)
    requires flags < 1024 && PageAligned(va)
    requires forall page: nat :: page < PAGES ==>
      Entry(one, root, page) == if page == Vpn(va) then LeafPte(pa, flags) else Entry(mem, root, page)
    requires !IsValid(Entry(mem, root, Vpn(va)))
    requires AddsLinearMap(one, out, root, Wrap(va + PAGE_SIZE), Wrap(pa + PAGE_SIZE), flags, k)
    requires Unmapped(one, root, Vpn(Wrap(va + PAGE_SIZE)), k)
    ensures k < PAGES
    ensures AddsLinearMap(mem, out, root, va, pa, flags, k + 1)
    ensures Unmapped(mem, root, Vpn(va), k + 1)
  {
    hide Entry, LeafPte, IsValid, Distance, Wrap, Vpn;
    NextPage(va);
    VpnDigits(va);
    LeafPteValid(pa, flags);
    var v, v' := Vpn(va), Vpn(Wrap(va + PAGE_SIZE));
    NextDistance(v, v', v);
    forall page: nat | page < PAGES
      ensures Entry(out, root, page) ==
        var d := Distance(v, page);
        if d < k + 1 then LeafPte(Wrap(pa + d * PAGE_SIZE), flags) else Entry(mem, root, page)
      ensures Distance(v, page) < k + 1 ==> !IsValid(Entry(mem, root, page))
    {
      NextDistance(v, v', page);
      if page != v { NextTarget(pa, Distance(v', page)); }
    }
  }

  lemma LeafPteValid(pa: u64, flags: nat)
    requires flags < 1024
    ensures IsValid(LeafPte(pa, flags)) && IsLeaf(LeafPte(pa, flags)) == IsLeaf(flags)
    ensures FrameOf(LeafPte(pa, flags)) == (pa / PAGE_SIZE) % FRAMES
    ensures FlagsOf(LeafPte(pa, flags)) == LeafFlags(flags)
    ensures LeafPte(Wrap(pa + 0 * PAGE_SIZE), flags) == LeafPte(pa, flags)
  {
    LeafFlagsFit(flags);
    PteRoundTrip(pa, LeafFlags(flags));
  }

  // ---------- the cost of a range in tables ----------

  /** How many aligned groups of `w` pages the pages `v .. v + n` touch. */
  function Groups(v: nat, n: nat, w: nat): nat
    requires n >= 1 && (w == ENTRIES || w == 0x4_0000)
  {
    (v + n - 1) / w - v / w + 1
  }

  lemma GroupsBound(v: nat, n: nat, w: nat)
    requires n >= 1 && (w == ENTRIES || w == 0x4_0000)
    ensures Groups(v, n, w) <= (n + w - 2) / w + 1
  {
    var q, r := v / w, v % w;
    assert v + n - 1 == w * q + (r + n - 1);
    assert (v + n - 1) / w == q + (r + n - 1) / w;
    assert r + n - 1 <= n + w - 2;
  }

  lemma GroupsStep(v: nat, n: nat, w: nat)
    requires n >= 2 && (w == ENTRIES || w == 0x4_0000)
    ensures Groups(v, n, w) == Groups(v + 1, n - 1, w) + (v + 1) / w - v / w
    ensures 0 <= (v + 1) / w - v / w <= 1
  {
  }

  /** The group after the last one is the first one again. */
  lemma GroupsWrap(n: nat, w: nat)
    requires n >= 1 && (w == ENTRIES || w == 0x4_0000)
    ensures Groups(PAGES, n, w) == Groups(0, n, w)
  {
  }

  /** The places in the tree where a table is missing on the way to `page`. */
  function MissingPaths(mem: Memory, root: nat, page: nat): set<Path> {
    (if Table(mem, root, MidOf(page)).None? then {MidOf(page)} else {})
    + (if Table(mem, root, LowOf(page)).None? then {LowOf(page)} else {})
  }

  /** The page behind `v`; behind the last one comes the first. */
  function Next(v: nat): nat { (v + 1) % PAGES }

  /** The places where a table is missing on the way to any of `n` pages from `v`, wrapping around at 2^27. */
  function RangeMissing(mem: Memory, root: nat, v: nat, n: nat): set<Path>
    decreases n
  {
    if n == 0 then {} else MissingPaths(mem, root, v) + RangeMissing(mem, root, Next(v), n - 1)
  }

  lemma RangeMissingUnfold(mem: Memory, root: nat, v: nat, n: nat)
    requires n > 0
    ensures RangeMissing(mem, root, v, n) == MissingPaths(mem, root, v) + RangeMissing(mem, root, Next(v), n - 1)
  {
    hide MissingPaths, Next;
  }

  lemma MissingPathsCount(mem: Memory, root: nat, page: nat)
    ensures |MissingPaths(mem, root, page)| == MissingTables(mem, root, page)
    ensures MissingPaths(mem, root, page) <= {MidOf(page), LowOf(page)}
    ensures forall q :: q in MissingPaths(mem, root, page) <==>
      (q == MidOf(page) || q == LowOf(page)) && Table(mem, root, q).None?
  {
    var m, l := MidOf(page), LowOf(page);
    if Table(mem, root, m).None? {
      assert Table(mem, root, l).None?;
      assert MissingPaths(mem, root, page) == {m, l};
    } else if Table(mem, root, l).None? {
      assert MissingPaths(mem, root, page) == {l};
    } else {
      assert MissingPaths(mem, root, page) == {};
    }
  }

  lemma SubsetOfSameSize<T>(a: set<T>, b: set<T>)
    requires a <= b && |b| <= |a|
    ensures a == b
  {
    assert b == a + (b - a);
  }

  /** A page that has been mapped has got exactly the tables that were missing for it. */
  lemma LinksTheMissing(mem: Memory, one: Memory, root: nat, lo: nat, cur: nat, cur': nat, v: nat)
    requires v < PAGES && StepKeeps(mem, one, root, lo, cur, cur')
    requires MissingTables(one, root, v) == 0 && cur' == cur + MissingTables(mem, root, v)
    ensures Links(mem, one, root, MissingPaths(mem, root, v))
  {
    hide Inv, Table, Word, IsTable, Tables, MissingPaths, MissingTables, MidOf, LowOf, IsPath;
    var before, after, new_ := Tables(mem, root), Tables(one, root), MissingPaths(mem, root, v);
    MissingPathsCount(mem, root, v);
    MissingPathsCount(one, root, v);
    PathsOfPage(v);
    TablesMembers(mem, root);
    TablesMembers(one, root);
    forall q | q in before + new_ ensures q in after {
      assert TableKept(mem, one, root, cur, cur', q);
    }
    DisjointSize(before, new_);
    SubsetOfSameSize(before + new_, after);
    forall q | IsPath(q)
      ensures Table(one, root, q).None? <==> Table(mem, root, q).None? && q !in new_
    {
      assert q in after <==> q in before + new_;
    }
  }

  lemma PathsOfPage(v: nat)
    requires v < PAGES
    ensures IsPath(MidOf(v)) && IsPath(LowOf(v))
  {
  }

  lemma TablesMembers(mem: Memory, root: nat)
    ensures forall q :: q in Tables(mem, root) <==> IsPath(q) && Table(mem, root, q).Some?
  {
    hide Table, AllPaths, IsPath;
    forall q ensures q in AllPaths() <==> IsPath(q) { AllPathsAreAll(q); }
  }

  lemma DisjointSize<T>(a: set<T>, b: set<T>)
    requires a !! b
    ensures |a + b| == |a| + |b|
  {
  }

  /** The tables at the places `gone` have been linked, and no others. */
  ghost predicate Links(mem: Memory, one: Memory, root: nat, gone: set<Path>) {
    forall q :: IsPath(q) ==> (Table(one, root, q).None? <==> Table(mem, root, q).None? && q !in gone)
  }

  /** What is then still missing for another page, and for others. */
  lemma StillMissingHere(mem: Memory, one: Memory, root: nat, gone: set<Path>, w: nat)
    requires w < PAGES && Links(mem, one, root, gone)
    ensures MissingPaths(one, root, w) == MissingPaths(mem, root, w) - gone
  {
    hide Table, MissingTables, MissingPaths;
    assert IsPath(MidOf(w)) && IsPath(LowOf(w));
    MissingPathsCount(mem, root, w);
    MissingPathsCount(one, root, w);
  }

  lemma {:induction false} StillMissing(mem: Memory, one: Memory, root: nat, gone: set<Path>, w: nat, n: nat)
    requires w < PAGES && Links(mem, one, root, gone)
    ensures RangeMissing(one, root, w, n) == RangeMissing(mem, root, w, n) - gone
    decreases n
  {
    hide Links, MissingPaths, RangeMissing;
    if n > 0 {
      NextBound(w);
      StillMissing(mem, one, root, gone, Next(w), n - 1);
      StillMissingHere(mem, one, root, gone, w);
      RangeMissingUnfold(mem, root, w, n);
      RangeMissingUnfold(one, root, w, n);
      MinusUnion(MissingPaths(mem, root, w), RangeMissing(mem, root, Next(w), n - 1), gone);
    } else {
      NothingMissing(mem, root, w);
      NothingMissing(one, root, w);
    }
  }

  lemma NextBound(w: nat)
    ensures Next(w) < PAGES
  {
  }

  lemma NothingMissing(mem: Memory, root: nat, v: nat)
    ensures RangeMissing(mem, root, v, 0) == {}
  {
  }

  lemma MinusUnion<T>(a: set<T>, b: set<T>, c: set<T>)
    ensures (a + b) - c == (a - c) + (b - c)
  {
  }

  /** Mapping one page more. */
  lemma UnmappedStep(mem: Memory, one: Memory, root: nat, v: nat, n: nat)
    requires v < PAGES && n >= 1 && !IsValid(Entry(mem, root, v)) && IsValid(Entry(one, root, v))
    requires forall page: nat :: page < PAGES && page != v ==> Entry(one, root, page) == Entry(mem, root, page)
    ensures n <= PAGES && Unmapped(mem, root, v, n) <==> n - 1 <= PAGES && Unmapped(one, root, Next(v), n - 1)
  {
    hide Entry, IsValid, Distance;
    var v' := Next(v);
    NextDistance(v, v', v);
    if n <= PAGES && Unmapped(mem, root, v, n) {
      forall page: nat | page < PAGES && Distance(v', page) < n - 1 ensures !IsValid(Entry(one, root, page)) {
        NextDistance(v, v', page);
      }
    }
    if n - 1 <= PAGES && Unmapped(one, root, v', n - 1) {
      forall page: nat | page < PAGES && Distance(v, page) < n ensures !IsValid(Entry(mem, root, page)) {
        NextDistance(v, v', page);
      }
    }
  }

  /** `paging_map_range` succeeds exactly when the addresses are aligned, the range has at most 2^27 pages, none of them
      is mapped, and as many frames are left as tables are missing for it; then it uses exactly these, and it never
      uses more. The range may wrap around. */
  lemma {:induction false} RangeWithinCost(mem: Memory, root: nat, lo: nat, cur: nat, end: nat, va: u64, pa: u64,
      flags: nat, n: nat)
    requires Inv(mem, root, lo, cur) && lo <= cur <= end <= FRAMES && ENTRIES * end <= |mem| && flags < 1024
    ensures var out := MapPages(mem, root, cur, end, va, pa, flags, n);
      var cost := |RangeMissing(mem, root, Vpn(va), n)|;
      && (out.ok <==>
          && (n == 0 || (PageAligned(va) && PageAligned(pa)))
          && n <= PAGES && Unmapped(mem, root, Vpn(va), n) && cur + cost <= end)
      && (out.ok ==> out.cur == cur + cost)
      && out.cur <= cur + cost
    decreases n
  {
    hide MapPage, Inv, Entry, StepKeeps, LeafPte, Unmapped, Wrap, Vpn, IsValid, MissingPaths, MissingTables, Table,
      RangeMissing, IsPath, Next, PageAligned, Links;
    if n == 0 {
      NothingAsked(mem, root, Vpn(va));
      NothingMissing(mem, root, Vpn(va));
    } else {
      var v := Vpn(va);
      var one := MapPage(mem, root, cur, end, va, pa, flags);
      MapPageCorrect(mem, root, lo, cur, end, va, pa, flags);
      StepKeepsBounds(mem, one.mem, root, lo, cur, one.cur);
      VpnDigits(va);
      MissingPathsCount(mem, root, v);
      var first, rest := MissingPaths(mem, root, v), RangeMissing(mem, root, Next(v), n - 1);
      RangeMissingUnfold(mem, root, v, n);
      SubsetSize(first, first + rest);
      if one.ok {
        var va', pa' := Wrap(va + PAGE_SIZE), Wrap(pa + PAGE_SIZE);
        NextPages(va, pa);
        RangeWithinCost(one.mem, root, lo, one.cur, end, va', pa', flags, n - 1);
        LinksTheMissing(mem, one.mem, root, lo, cur, one.cur, v);
        StillMissing(mem, one.mem, root, first, Next(v), n - 1);
        LeafPteValid(pa, flags);
        UnmappedStep(mem, one.mem, root, v, n);
        SplitSize(first, rest);
      } else if Unmapped(mem, root, v, n) {
        UnmappedFirst(mem, root, v, n);
      }
    }
  }

  lemma NextPages(va: u64, pa: u64)
    requires PageAligned(va) && PageAligned(pa)
    ensures PageAligned(Wrap(va + PAGE_SIZE)) && PageAligned(Wrap(pa + PAGE_SIZE))
    ensures Vpn(Wrap(va + PAGE_SIZE)) == Next(Vpn(va)) && Next(Vpn(va)) < PAGES
  {
    hide Vpn;
    NextPage(va);
    NextPage(pa);
  }

  /** A range that has been mapped has got exactly the tables that were missing for it. */
  lemma {:induction false} RangeLinks(mem: Memory, root: nat, lo: nat, cur: nat, end: nat, va: u64, pa: u64, flags: nat,
      n: nat)
    requires Inv(mem, root, lo, cur) && lo <= cur <= end <= FRAMES && ENTRIES * end <= |mem| && flags < 1024
    requires MapPages(mem, root, cur, end, va, pa, flags, n).ok
    ensures Links(mem, MapPages(mem, root, cur, end, va, pa, flags, n).mem, root, RangeMissing(mem, root, Vpn(va), n))
    decreases n
  {
    hide MapPage, Inv, Entry, StepKeeps, LeafPte, Wrap, Vpn, IsValid, MissingPaths, MissingTables, Table, RangeMissing,
      IsPath, Next, PageAligned, Links;
    if n == 0 {
      NothingMissing(mem, root, Vpn(va));
      NothingLinked(mem, root);
    } else {
      var v := Vpn(va);
      var one := MapPage(mem, root, cur, end, va, pa, flags);
      MapPageCorrect(mem, root, lo, cur, end, va, pa, flags);
      StepKeepsBounds(mem, one.mem, root, lo, cur, one.cur);
      VpnDigits(va);
      var va', pa' := Wrap(va + PAGE_SIZE), Wrap(pa + PAGE_SIZE);
      NextPages(va, pa);
      RangeLinks(one.mem, root, lo, one.cur, end, va', pa', flags, n - 1);
      LinksTheMissing(mem, one.mem, root, lo, cur, one.cur, v);
      StillMissing(mem, one.mem, root, MissingPaths(mem, root, v), Next(v), n - 1);
      RangeMissingUnfold(mem, root, v, n);
      var out := MapPages(one.mem, root, one.cur, end, va', pa', flags, n - 1).mem;
      LinksTwice(mem, one.mem, out, root, MissingPaths(mem, root, v), RangeMissing(mem, root, Next(v), n - 1));
    }
  }

  lemma NothingLinked(mem: Memory, root: nat)
    ensures Links(mem, mem, root, {})
  {
  }

  lemma LinksTwice(mem: Memory, one: Memory, out: Memory, root: nat, first: set<Path>, rest: set<Path>)
    requires Links(mem, one, root, first) && Links(one, out, root, rest - first)
    ensures Links(mem, out, root, first + rest)
  {
    hide Table;
  }

  lemma NothingAsked(mem: Memory, root: nat, v: nat)
    ensures Unmapped(mem, root, v, 0)
  {
  }

  lemma SubsetSize<T>(a: set<T>, b: set<T>)
    requires a <= b
    ensures |a| <= |b|
  {
    assert b == a + (b - a);
  }

  lemma SplitSize<T>(a: set<T>, b: set<T>)
    ensures |a + b| == |a| + |b - a|
  {
    assert a + b == a + (b - a);
  }

  lemma UnmappedFirst(mem: Memory, root: nat, v: nat, n: nat)
    requires Unmapped(mem, root, v, n) && n >= 1 && v < PAGES
    ensures !IsValid(Entry(mem, root, v))
  {
    assert Distance(v, v) == 0;
  }

  /** At most one table for every group of 512 pages and one for every group of 2^18 pages that the range touches. */
  lemma {:induction false} RangeMissingBound(mem: Memory, root: nat, v: nat, n: nat)
    requires v < PAGES && n >= 1
    ensures |RangeMissing(mem, root, v, n)| <= Groups(v, n, ENTRIES) + Groups(v, n, 0x4_0000)
    decreases n
  {
    hide Table, MissingTables, Groups, MissingPaths, RangeMissing, Next;
    var first := MissingPaths(mem, root, v);
    var rest := RangeMissing(mem, root, Next(v), n - 1);
    RangeMissingUnfold(mem, root, v, n);
    SplitSize(rest, first);
    assert first + rest == rest + first;
    if n == 1 {
      NothingMissing(mem, root, Next(v));
      MissingPathsCount(mem, root, v);
      SubsetSize(first, {MidOf(v), LowOf(v)});
      OneGroup(v);
    } else {
      NextBound(v);
      RangeMissingBound(mem, root, Next(v), n - 1);
      GroupsNext(v, n);
      RangeMissingUnfold(mem, root, Next(v), n - 1);
      CrossedTables(mem, root, v);
      SubsetSize(first - rest, Crossed(v));
    }
  }

  /** The tables of the page `v` that the page behind it does not need. */
  function Crossed(v: nat): set<Path> {
    (if v / ENTRIES != (v + 1) / ENTRIES then {LowOf(v)} else {})
    + (if v / 0x4_0000 != (v + 1) / 0x4_0000 then {MidOf(v)} else {})
  }

  lemma CrossedTables(mem: Memory, root: nat, v: nat)
    requires v < PAGES
    ensures MissingPaths(mem, root, v) - MissingPaths(mem, root, Next(v)) <= Crossed(v)
    ensures |Crossed(v)| == ((v + 1) / ENTRIES - v / ENTRIES) + ((v + 1) / 0x4_0000 - v / 0x4_0000)
  {
    hide Table, MissingTables, MissingPaths, LowOf, MidOf;
    SameGroups(v);
    DistinctPaths(v);
    MissingPathsCount(mem, root, v);
    MissingPathsCount(mem, root, Next(v));
  }

  lemma DistinctPaths(v: nat)
    ensures LowOf(v) != MidOf(v)
  {
  }

  lemma GroupsNext(v: nat, n: nat)
    requires v < PAGES && n >= 2
    ensures Groups(v, n, ENTRIES) == Groups(Next(v), n - 1, ENTRIES) + ((v + 1) / ENTRIES - v / ENTRIES)
    ensures Groups(v, n, 0x4_0000) == Groups(Next(v), n - 1, 0x4_0000) + ((v + 1) / 0x4_0000 - v / 0x4_0000)
  {
    hide Groups;
    GroupsStep(v, n, ENTRIES);
    GroupsStep(v, n, 0x4_0000);
    if v + 1 == PAGES {
      GroupsWrap(n - 1, ENTRIES);
      GroupsWrap(n - 1, 0x4_0000);
    }
  }

  lemma OneGroup(v: nat)
    ensures Groups(v, 1, ENTRIES) == 1 && Groups(v, 1, 0x4_0000) == 1
  {
  }

  /** Neighbouring pages share their tables unless a group ends between them. */
  lemma SameGroups(v: nat)
    requires v < PAGES
    ensures var v' := Next(v);
      && (v / ENTRIES == (v + 1) / ENTRIES ==> LowOf(v') == LowOf(v) && v + 1 < PAGES)
      && (v / 0x4_0000 == (v + 1) / 0x4_0000 ==> MidOf(v') == MidOf(v) && v + 1 < PAGES)
  {
    if v + 1 < PAGES && v / ENTRIES == (v + 1) / ENTRIES {
      assert v / 0x4_0000 == (v / ENTRIES) / ENTRIES && (v + 1) / 0x4_0000 == ((v + 1) / ENTRIES) / ENTRIES;
    }
  }

  /** Frames used equal tables linked, in every outcome, and mapping `n` contiguous pages links at most floor((n + 510)
      / 512) + 1 level-0 and floor((n + 2^18 - 2) / 2^18) + 1 level-1 tables. With that many frames left, an unmapped
      aligned range of at most 2^27 pages is mapped completely. */
  lemma RangeFrames(mem: Memory, root: nat, lo: nat, cur: nat, end: nat, va: u64, pa: u64, flags: nat, n: nat)
    requires Inv(mem, root, lo, cur) && lo <= cur <= end <= FRAMES && ENTRIES * end <= |mem| && flags < 1024 && n >= 1
    ensures var out := MapPages(mem, root, cur, end, va, pa, flags, n);
      var bound := ((n + 510) / 512 + 1) + ((n + 0x3_FFFE) / 0x4_0000 + 1);
      && out.cur - cur == |Tables(out.mem, root)| - |Tables(mem, root)|
      && out.cur - cur <= bound
      && (PageAligned(va) && PageAligned(pa) && n <= PAGES && Unmapped(mem, root, Vpn(va), n) && cur + bound <= end ==>
        out.ok)
  {
    hide MapPage, MapPages, Inv, Entry, Unmapped, AddsLinearMap, Groups, Table, RangeMissing;
    MapPagesCorrect(mem, root, lo, cur, end, va, pa, flags, n);
    RangeWithinCost(mem, root, lo, cur, end, va, pa, flags, n);
    VpnDigits(va);
    RangeMissingBound(mem, root, Vpn(va), n);
    GroupsBound(Vpn(va), n, ENTRIES);
    GroupsBound(Vpn(va), n, 0x4_0000);
  }

  // ---------- several ranges ----------

  /** A request to map `size` bytes, rounded up to pages. */
  datatype Mapping = Mapping(va: u64, pa: u64, size: u64, flags: nat)

  predicate WellFlagged(ms: seq<Mapping>) {
    forall i :: 0 <= i < |ms| ==> ms[i].flags < 1024
  }

  function Pages(x: Mapping): nat { AlignUp(x.size) / PAGE_SIZE }

  /** `paging_map_range` for each request in turn, up to the first failure. */
  function MapAll(mem: Memory, root: nat, cur: nat, end: nat, ms: seq<Mapping>): Outcome
    requires WellFlagged(ms)
    decreases |ms|
  {
    if ms == [] then Outcome(true, mem, cur) else
    var one := MapPages(mem, root, cur, end, ms[0].va, ms[0].pa, ms[0].flags, Pages(ms[0]));
    if one.ok then MapAll(one.mem, root, one.cur, end, ms[1..]) else Outcome(false, one.mem, one.cur)
  }

  predicate InMapping(x: Mapping, page: nat) {
    Distance(Vpn(x.va), page) < Pages(x)
  }

  /** All pages of the request are mapped as requested. */
  ghost predicate HasMapping(mem: Memory, root: nat, x: Mapping)
    requires x.flags < 1024
  {
    forall page: nat :: page < PAGES && InMapping(x, page) ==>
      Entry(mem, root, page) == LeafPte(Wrap(x.pa + Distance(Vpn(x.va), page) * PAGE_SIZE), x.flags)
  }

  ghost predicate KeepsValid(mem: Memory, mem': Memory, root: nat) {
    forall page: nat :: page < PAGES && IsValid(Entry(mem, root, page)) ==>
      Entry(mem', root, page) == Entry(mem, root, page)
  }

  ghost predicate NothingElse(mem: Memory, mem': Memory, root: nat, ms: seq<Mapping>) {
    forall page: nat :: page < PAGES && Entry(mem', root, page) != Entry(mem, root, page) ==>
      exists i :: 0 <= i < |ms| && InMapping(ms[i], page)
  }

  lemma OneRange(mem: Memory, root: nat, lo: nat, cur: nat, end: nat, x: Mapping)
    requires Inv(mem, root, lo, cur) && lo <= cur <= end <= FRAMES && ENTRIES * end <= |mem| && x.flags < 1024
    ensures var out := MapPages(mem, root, cur, end, x.va, x.pa, x.flags, Pages(x));
      && StepKeeps(mem, out.mem, root, lo, cur, out.cur) && Inv(out.mem, root, lo, out.cur) && |out.mem| == |mem|
      && cur <= out.cur <= end
      && KeepsValid(mem, out.mem, root)
      && NothingElse(mem, out.mem, root, [x])
      && (out.ok ==> HasMapping(out.mem, root, x))
      && (out.ok && Pages(x) > 0 ==> PageAligned(x.va) && PageAligned(x.pa))
  {
    hide Inv, Entry, StepKeeps, LeafPte, Wrap, Vpn, Distance, IsValid, MapPage;
    var n := Pages(x);
    MapPagesCorrect(mem, root, lo, cur, end, x.va, x.pa, x.flags, n);
    var out := MapPages(mem, root, cur, end, x.va, x.pa, x.flags, n);
    StepKeepsBounds(mem, out.mem, root, lo, cur, out.cur);
    forall page: nat | page < PAGES && Entry(out.mem, root, page) != Entry(mem, root, page)
      ensures exists i :: 0 <= i < |[x]| && InMapping([x][i], page)
    {
      assert InMapping([x][0], page);
    }
    if out.ok && n > 0 { FirstAligned(mem, root, lo, cur, end, x.va, x.pa, x.flags, n); }
  }

  lemma FirstAligned(mem: Memory, root: nat, lo: nat, cur: nat, end: nat, va: u64, pa: u64, flags: nat, n: nat)
    requires Inv(mem, root, lo, cur) && lo <= cur <= end <= FRAMES && ENTRIES * end <= |mem| && flags < 1024 && n > 0
    requires MapPages(mem, root, cur, end, va, pa, flags, n).ok
    ensures PageAligned(va) && PageAligned(pa)
  {
    hide Inv, Entry, StepKeeps, LeafPte, Wrap, Vpn;
    MapPageCorrect(mem, root, lo, cur, end, va, pa, flags);
  }

  /** If all requests succeed, every one of them is in force at the end, and nothing else has changed. */
  lemma {:induction false} MapAllCorrect(mem: Memory, root: nat, lo: nat, cur: nat, end: nat, ms: seq<Mapping>)
    requires Inv(mem, root, lo, cur) && lo <= cur <= end <= FRAMES && ENTRIES * end <= |mem| && WellFlagged(ms)
    ensures var out := MapAll(mem, root, cur, end, ms);
      && Inv(out.mem, root, lo, out.cur) && |out.mem| == |mem| && cur <= out.cur <= end
      && KeepsValid(mem, out.mem, root)
      && NothingElse(mem, out.mem, root, ms)
      && (out.ok ==> forall i :: 0 <= i < |ms| ==>
            HasMapping(out.mem, root, ms[i]) && (Pages(ms[i]) > 0 ==> PageAligned(ms[i].va) && PageAligned(ms[i].pa)))
    decreases |ms|
  {
    hide Inv, Entry, StepKeeps, LeafPte, Wrap, Vpn, Distance, MapPages, InMapping, HasMapping, IsValid, Pages;
    if ms != [] {
      var x := ms[0];
      OneRange(mem, root, lo, cur, end, x);
      var one := MapPages(mem, root, cur, end, x.va, x.pa, x.flags, Pages(x));
      if one.ok {
        MapAllCorrect(one.mem, root, lo, one.cur, end, ms[1..]);
        var out := MapAll(one.mem, root, one.cur, end, ms[1..]);
        if out.ok { MappingSurvives(one.mem, out.mem, root, x); }
        forall page: nat | page < PAGES && Entry(out.mem, root, page) != Entry(mem, root, page)
          ensures exists i :: 0 <= i < |ms| && InMapping(ms[i], page)
        {
          if Entry(out.mem, root, page) != Entry(one.mem, root, page) {
            var i :| 0 <= i < |ms[1..]| && InMapping(ms[1..][i], page);
            assert InMapping(ms[i + 1], page);
          } else {
            var i :| 0 <= i < |[x]| && InMapping([x][i], page);
            assert InMapping(ms[0], page);
          }
        }
      } else {
        forall page: nat | page < PAGES && Entry(one.mem, root, page) != Entry(mem, root, page)
          ensures exists i :: 0 <= i < |ms| && InMapping(ms[i], page)
        {
          var i :| 0 <= i < |[x]| && InMapping([x][i], page);
          assert InMapping(ms[0], page);
        }
      }
    }
  }

  /** How many of the requests succeed. */
  function Done(mem: Memory, root: nat, cur: nat, end: nat, ms: seq<Mapping>): nat
    requires WellFlagged(ms)
    decreases |ms|
  {
    if ms == [] then 0 else
    var one := MapPages(mem, root, cur, end, ms[0].va, ms[0].pa, ms[0].flags, Pages(ms[0]));
    if one.ok then 1 + Done(one.mem, root, one.cur, end, ms[1..]) else 0
  }

  /** Also after a failure: the requests before the failed one are in force, and no page outside them and the failed one
      has changed. */
  lemma {:induction false} MapAllProgress(mem: Memory, root: nat, lo: nat, cur: nat, end: nat, ms: seq<Mapping>)
    requires Inv(mem, root, lo, cur) && lo <= cur <= end <= FRAMES && ENTRIES * end <= |mem| && WellFlagged(ms)
    ensures var out, done := MapAll(mem, root, cur, end, ms), Done(mem, root, cur, end, ms);
      && done <= |ms| && (out.ok <==> done == |ms|)
      && (forall i :: 0 <= i < done ==> HasMapping(out.mem, root, ms[i]))
      && NothingElse(mem, out.mem, root, ms[..if out.ok then done else done + 1])
    decreases |ms|
  {
    hide Inv, Entry, StepKeeps, LeafPte, Wrap, Vpn, Distance, MapPages, InMapping, HasMapping, IsValid, Pages;
    if ms != [] {
      var x := ms[0];
      OneRange(mem, root, lo, cur, end, x);
      var one := MapPages(mem, root, cur, end, x.va, x.pa, x.flags, Pages(x));
      if one.ok {
        MapAllProgress(one.mem, root, lo, one.cur, end, ms[1..]);
        MapAllCorrect(one.mem, root, lo, one.cur, end, ms[1..]);
        var out, rest := MapAll(one.mem, root, one.cur, end, ms[1..]), Done(one.mem, root, one.cur, end, ms[1..]);
        MappingSurvives(one.mem, out.mem, root, x);
        var k := if out.ok then rest else rest + 1;
        OneMoreRange(mem, one.mem, out.mem, root, x, ms[1..][..k]);
        assert ms[..k + 1] == [x] + ms[1..][..k];
      } else {
        assert ms[..1] == [x];
      }
    }
  }

  lemma OneMoreRange(mem: Memory, one: Memory, out: Memory, root: nat, x: Mapping, ms: seq<Mapping>)
    requires NothingElse(mem, one, root, [x]) && NothingElse(one, out, root, ms)
    ensures NothingElse(mem, out, root, [x] + ms)
  {
    hide Entry, InMapping;
    var all := [x] + ms;
    forall page: nat | page < PAGES && Entry(out, root, page) != Entry(mem, root, page)
      ensures exists i :: 0 <= i < |all| && InMapping(all[i], page)
    {
      if Entry(out, root, page) != Entry(one, root, page) {
        var i :| 0 <= i < |ms| && InMapping(ms[i], page);
        assert InMapping(all[i + 1], page);
      } else {
        var i :| 0 <= i < |[x]| && InMapping([x][i], page);
        assert InMapping(all[0], page);
      }
    }
  }

  // ---------- when a list of requests succeeds ----------

  /** The request by itself can be granted: aligned, at most 2^27 pages, and none of them is mapped. */
  ghost predicate RangeFits(mem: Memory, root: nat, x: Mapping) {
    && (Pages(x) == 0 || (PageAligned(x.va) && PageAligned(x.pa)))
    && Pages(x) <= PAGES && Unmapped(mem, root, Vpn(x.va), Pages(x))
  }

  /** No page is asked for in both. */
  ghost predicate Disjoint(x: Mapping, y: Mapping) {
    forall page: nat :: page < PAGES ==> !(InMapping(x, page) && InMapping(y, page))
  }

  ghost predicate AllFit(mem: Memory, root: nat, ms: seq<Mapping>) {
    && (forall i :: 0 <= i < |ms| ==> RangeFits(mem, root, ms[i]))
    && (forall i, j :: 0 <= i < j < |ms| ==> Disjoint(ms[i], ms[j]))
  }

  /** The places where a table is missing on the way to any page of the requests. */
  function ListMissing(mem: Memory, root: nat, ms: seq<Mapping>): set<Path> {
    if ms == [] then {}
    else RangeMissing(mem, root, Vpn(ms[0].va), Pages(ms[0])) + ListMissing(mem, root, ms[1..])
  }

  lemma {:induction false} StillMissingList(mem: Memory, one: Memory, root: nat, gone: set<Path>, ms: seq<Mapping>)
    requires Links(mem, one, root, gone)
    ensures ListMissing(one, root, ms) == ListMissing(mem, root, ms) - gone
  {
    hide Links, RangeMissing, Pages;
    if ms != [] {
      VpnDigits(ms[0].va);
      StillMissing(mem, one, root, gone, Vpn(ms[0].va), Pages(ms[0]));
      StillMissingList(mem, one, root, gone, ms[1..]);
      MinusUnion(RangeMissing(mem, root, Vpn(ms[0].va), Pages(ms[0])), ListMissing(mem, root, ms[1..]), gone);
    }
  }

  /** A request fits after another one has been granted exactly when it fitted before and the two are disjoint. */
  lemma FitsLater(mem: Memory, one: Memory, root: nat, x: Mapping, y: Mapping)
    requires x.flags < 1024 && AddsLinearMap(mem, one, root, x.va, x.pa, x.flags, Pages(x)) && RangeFits(mem, root, x)
    ensures RangeFits(one, root, y) <==> RangeFits(mem, root, y) && Disjoint(x, y)
  {
    hide Entry, IsValid, Wrap, Vpn, Distance, LeafPte, Pages, PageAligned;
    forall page: nat | page < PAGES
      ensures IsValid(Entry(one, root, page)) <==> IsValid(Entry(mem, root, page)) || InMapping(x, page)
    {
      var d := Distance(Vpn(x.va), page);
      LeafPteValid(Wrap(x.pa + d * PAGE_SIZE), x.flags);
      assert Entry(one, root, page) ==
        if d < Pages(x) then LeafPte(Wrap(x.pa + d * PAGE_SIZE), x.flags) else Entry(mem, root, page);
    }
    FitsByPage(one, root, y);
    FitsByPage(mem, root, y);
  }

  lemma FitsByPage(mem: Memory, root: nat, y: Mapping)
    ensures RangeFits(mem, root, y) <==>
      && (Pages(y) == 0 || (PageAligned(y.va) && PageAligned(y.pa))) && Pages(y) <= PAGES
      && forall page: nat :: page < PAGES && InMapping(y, page) ==> !IsValid(Entry(mem, root, page))
  {
    hide Entry, IsValid, Vpn, Distance, Pages, PageAligned;
  }

  lemma AllFitFirst(mem: Memory, one: Memory, root: nat, ms: seq<Mapping>)
    requires ms != [] && RangeFits(mem, root, ms[0])
    requires forall y :: RangeFits(one, root, y) <==> RangeFits(mem, root, y) && Disjoint(ms[0], y)
    ensures AllFit(mem, root, ms) <==> AllFit(one, root, ms[1..])
  {
    hide RangeFits, Disjoint;
    var rest := ms[1..];
    if AllFit(one, root, rest) {
      forall i | 0 <= i < |ms| ensures RangeFits(mem, root, ms[i]) {
        if i > 0 { assert ms[i] == rest[i - 1] && RangeFits(one, root, rest[i - 1]); }
      }
      forall i, j | 0 <= i < j < |ms| ensures Disjoint(ms[i], ms[j]) {
        assert ms[j] == rest[j - 1] && RangeFits(one, root, rest[j - 1]);
        if i > 0 { assert ms[i] == rest[i - 1] && Disjoint(rest[i - 1], rest[j - 1]); }
      }
    }
    if AllFit(mem, root, ms) {
      forall i | 0 <= i < |rest| ensures RangeFits(one, root, rest[i]) { assert rest[i] == ms[i + 1]; }
      forall i, j | 0 <= i < j < |rest| ensures Disjoint(rest[i], rest[j]) {
        assert rest[i] == ms[i + 1] && rest[j] == ms[j + 1];
      }
    }
  }

  /** A list of requests succeeds exactly when each of them fits, no two of them meet, and as many frames are left as
      tables are missing for all of them together; then exactly these frames are used. */
  lemma {:induction false} MapAllWithinCost(mem: Memory, root: nat, lo: nat, cur: nat, end: nat, ms: seq<Mapping>)
    requires Inv(mem, root, lo, cur) && lo <= cur <= end <= FRAMES && ENTRIES * end <= |mem| && WellFlagged(ms)
    ensures var out := MapAll(mem, root, cur, end, ms);
      var cost := |ListMissing(mem, root, ms)|;
      && (out.ok <==> AllFit(mem, root, ms) && cur + cost <= end)
      && (out.ok ==> out.cur == cur + cost)
    decreases |ms|
  {
    hide Inv, Entry, StepKeeps, LeafPte, Wrap, Vpn, Distance, MapPages, IsValid, Pages, RangeMissing, RangeFits,
      Disjoint, AddsLinearMap, Links, AllFit, PageAligned, Unmapped;
    if ms == [] {
      NoneFit(mem, root);
    } else {
      var x := ms[0];
      var n, v := Pages(x), Vpn(x.va);
      var one := MapPages(mem, root, cur, end, x.va, x.pa, x.flags, n);
      MapPagesCorrect(mem, root, lo, cur, end, x.va, x.pa, x.flags, n);
      RangeWithinCost(mem, root, lo, cur, end, x.va, x.pa, x.flags, n);
      StepKeepsBounds(mem, one.mem, root, lo, cur, one.cur);
      FitsMeans(mem, root, x);
      var first, rest := RangeMissing(mem, root, v, n), ListMissing(mem, root, ms[1..]);
      SubsetSize(first, first + rest);
      SplitSize(first, rest);
      if one.ok {
        RangeLinks(mem, root, lo, cur, end, x.va, x.pa, x.flags, n);
        MapAllWithinCost(one.mem, root, lo, one.cur, end, ms[1..]);
        StillMissingList(mem, one.mem, root, first, ms[1..]);
        forall y ensures RangeFits(one.mem, root, y) <==> RangeFits(mem, root, y) && Disjoint(x, y) {
          FitsLater(mem, one.mem, root, x, y);
        }
        AllFitFirst(mem, one.mem, root, ms);
      } else {
        FirstFits(mem, root, ms);
      }
    }
  }

  lemma NoneFit(mem: Memory, root: nat)
    ensures AllFit(mem, root, [])
  {
  }

  lemma FirstFits(mem: Memory, root: nat, ms: seq<Mapping>)
    requires ms != []
    ensures AllFit(mem, root, ms) ==> RangeFits(mem, root, ms[0])
  {
  }

  lemma FitsMeans(mem: Memory, root: nat, x: Mapping)
    ensures RangeFits(mem, root, x) <==>
      && (Pages(x) == 0 || (PageAligned(x.va) && PageAligned(x.pa)))
      && Pages(x) <= PAGES && Unmapped(mem, root, Vpn(x.va), Pages(x))
  {
  }

  /** The tables below the root that the pages of the requests need, whatever the memory. */
  function RangeTables(v: nat, n: nat): set<Path>
    decreases n
  {
    if n == 0 then {} else {MidOf(v), LowOf(v)} + RangeTables(Next(v), n - 1)
  }

  function ListTables(ms: seq<Mapping>): set<Path> {
    if ms == [] then {} else RangeTables(Vpn(ms[0].va), Pages(ms[0])) + ListTables(ms[1..])
  }

  /** Only the root is there, and it has no entry. */
  ghost predicate EmptyTree(mem: Memory, root: nat) {
    && (forall q :: IsPath(q) && q != Top ==> Table(mem, root, q).None?)
    && (forall page: nat :: page < PAGES ==> Entry(mem, root, page) == 0)
  }

  /** In an empty tree all of them are missing. */
  lemma {:induction false} EmptyMissing(mem: Memory, root: nat, v: nat, n: nat)
    requires EmptyTree(mem, root) && v < PAGES
    ensures RangeMissing(mem, root, v, n) == RangeTables(v, n)
    decreases n
  {
    hide Table, Entry;
    if n > 0 {
      NextBound(v);
      EmptyMissing(mem, root, Next(v), n - 1);
      assert IsPath(MidOf(v)) && IsPath(LowOf(v));
    }
  }

  lemma {:induction false} EmptyMissingList(mem: Memory, root: nat, ms: seq<Mapping>)
    requires EmptyTree(mem, root)
    ensures ListMissing(mem, root, ms) == ListTables(ms)
  {
    hide EmptyTree, RangeMissing, RangeTables, Pages;
    if ms != [] {
      VpnDigits(ms[0].va);
      EmptyMissing(mem, root, Vpn(ms[0].va), Pages(ms[0]));
      EmptyMissingList(mem, root, ms[1..]);
    }
  }

  /** The requests can be granted together by an empty tree: each is aligned and has at most 2^27 pages, and no page is
      asked for twice. */
  ghost predicate Compatible(ms: seq<Mapping>) {
    && (forall i :: 0 <= i < |ms| ==>
          (Pages(ms[i]) == 0 || (PageAligned(ms[i].va) && PageAligned(ms[i].pa))) && Pages(ms[i]) <= PAGES)
    && (forall i, j :: 0 <= i < j < |ms| ==> Disjoint(ms[i], ms[j]))
  }

  lemma EmptyFits(mem: Memory, root: nat, ms: seq<Mapping>)
    requires EmptyTree(mem, root)
    ensures AllFit(mem, root, ms) <==> Compatible(ms)
  {
    hide Entry, Table, Disjoint, Pages, PageAligned, Vpn, Distance;
  }

  lemma MappingSurvives(mem: Memory, mem': Memory, root: nat, x: Mapping)
    requires x.flags < 1024 && HasMapping(mem, root, x) && KeepsValid(mem, mem', root)
    ensures HasMapping(mem', root, x)
  {
    hide Entry, IsValid, Wrap, Vpn, Distance, LeafPte, Pages;
    forall page: nat | page < PAGES && InMapping(x, page)
      ensures Entry(mem', root, page) == LeafPte(Wrap(x.pa + Distance(Vpn(x.va), page) * PAGE_SIZE), x.flags)
    {
      LeafPteValid(Wrap(x.pa + Distance(Vpn(x.va), page) * PAGE_SIZE), x.flags);
    }
  }
}
