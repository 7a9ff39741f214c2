/** User pages: fresh zeroed frames behind a run of pages, and copying bytes through a translation. */
module UserMemory {
  import opened Words
  import opened PageTables
  import opened PageTableProofs
  import opened PageRanges
  import opened MachineModel

  // ---------- bytes of a frame ----------

  function ByteIn(mem: Memory, f: nat, k: nat): byte {
    ByteAt(mem, f * PAGE_SIZE + k)
  }

  /** Memory after `n` iterations of the byte loop that clears frame `f`. */
  function ZeroBytes(mem: Memory, f: nat, n: nat): Memory {
    if n == 0 then mem else StoreByteAt(ZeroBytes(mem, f, n - 1), f * PAGE_SIZE + (n - 1), 0)
  }

  /** Only words of frame `f` differ. */
  ghost predicate AgreeOutside(mem: Memory, mem': Memory, f: nat) {
    && |mem'| == |mem|
    && forall g: nat, j: nat :: j < ENTRIES && g != f ==> Word(mem', g, j) == Word(mem, g, j)
  }

  lemma WordOfByte(f: nat, k: nat)
    requires k < PAGE_SIZE
    ensures (f * PAGE_SIZE + k) / 8 == ENTRIES * f + k / 8 && k / 8 < ENTRIES
  {
    assert f * PAGE_SIZE + k == 8 * (ENTRIES * f) + k;
  }

  lemma StoreByteOutside(mem: Memory, f: nat, k: nat, b: byte)
    requires k < PAGE_SIZE
    ensures AgreeOutside(mem, StoreByteAt(mem, f * PAGE_SIZE + k, b), f)
  {
    WordOfByte(f, k);
  }

  lemma {:induction false} ZeroBytesFacts(mem: Memory, f: nat, n: nat)
    requires n <= PAGE_SIZE && ENTRIES * (f + 1) <= |mem|
    ensures AgreeOutside(mem, ZeroBytes(mem, f, n), f)
    ensures forall k: nat :: k < n ==> ByteIn(ZeroBytes(mem, f, n), f, k) == 0
  {
    if n > 0 {
      ZeroBytesFacts(mem, f, n - 1);
      var before := ZeroBytes(mem, f, n - 1);
      StoreByteOutside(before, f, n - 1, 0);
      WordOfByte(f, n - 1);
      forall k: nat | k < n ensures ByteIn(ZeroBytes(mem, f, n), f, k) == 0 {
        ByteStores(before, f * PAGE_SIZE + (n - 1), 0, f * PAGE_SIZE + k);
        assert k < n - 1 ==> ByteIn(before, f, k) == 0;
      }
    }
  }

  /** A change confined to a frame that is not a table leaves the tree and all entries alone. */
  lemma OutsideTables(mem: Memory, mem': Memory, root: nat, lo: nat, cur: nat, f: nat)
    requires Inv(mem, root, lo, cur) && AgreeOutside(mem, mem', f) && !IsTable(mem, root, f)
    ensures forall p :: IsPath(p) ==> Table(mem', root, p) == Table(mem, root, p)
    ensures EntriesKept(mem, mem', root)
    ensures Inv(mem', root, lo, cur)
    ensures Tables(mem', root) == Tables(mem, root)
  {
    assert AgreeOnTables(mem, mem', root);
    TablesUntouched(mem, mem', root, lo, cur);
    forall q ensures q in AllPaths() ==> IsPath(q) { AllPathsAreAll(q); }
  }

  // ---------- what loading keeps ----------

  /** Tables stay in place, new ones are frames handed out in between, valid entries stay, and a frame
      handed out before that is not a table keeps its contents. */
  ghost predicate LoadKeeps(mem: Memory, mem': Memory, root: nat, lo: nat, cur: nat, cur': nat) {
    && |mem'| == |mem| && cur <= cur'
    && Inv(mem', root, lo, cur')
    && (forall q :: IsPath(q) ==> TableKept(mem, mem', root, cur, cur', q))
    && (forall g: nat, j: nat :: j < ENTRIES && g < cur && !IsTable(mem, root, g) ==>
      Word(mem', g, j) == Word(mem, g, j))
    && KeepsValid(mem, mem', root)
  }

  lemma LoadKeepsTrans(a: Memory, b: Memory, c: Memory, root: nat, lo: nat, i: nat, j: nat, k: nat)
    requires LoadKeeps(a, b, root, lo, i, j) && LoadKeeps(b, c, root, lo, j, k)
    ensures LoadKeeps(a, c, root, lo, i, k)
  {
    hide Inv, Table, Entry, Word;
    forall q | IsPath(q) ensures TableKept(a, c, root, i, k, q) {
      assert TableKept(a, b, root, i, j, q) && TableKept(b, c, root, j, k, q);
    }
    forall g: nat, n: nat | n < ENTRIES && g < i && !IsTable(a, root, g)
      ensures Word(c, g, n) == Word(a, g, n)
    {
      NotTableLater(a, b, root, lo, i, j, g);
    }
  }

  /** A frame handed out before, not a table, never becomes one. */
  lemma NotTableLater(mem: Memory, mem': Memory, root: nat, lo: nat, cur: nat, cur': nat, f: nat)
    requires LoadKeeps(mem, mem', root, lo, cur, cur') && f < cur && !IsTable(mem, root, f)
    ensures !IsTable(mem', root, f)
  {
    hide Inv, Entry, Word;
    forall q | IsPath(q) ensures Table(mem', root, q) != Some(f) {
      assert TableKept(mem, mem', root, cur, cur', q);
    }
  }

  // ---------- fresh pages ----------

  /** Page `page` is backed by a frame in `from .. to` of its own that is not a table. */
  ghost predicate UserPage(mem: Memory, root: nat, page: nat, flags: nat, from: nat, to: nat)
    requires flags < 1024
  {
    var f := FrameOf(Entry(mem, root, page));
    && from <= f < to
    && Entry(mem, root, page) == LeafPte(Wrap(f * PAGE_SIZE), flags)
    && !IsTable(mem, root, f)
  }

  function FrameAt(mem: Memory, root: nat, page: nat): nat {
    FrameOf(Entry(mem, root, page))
  }

  /** The pages `first .. first + n` are user pages, with different frames. */
  ghost predicate UserPages(mem: Memory, root: nat, first: nat, n: nat, flags: nat, from: nat, to: nat)
    requires flags < 1024
  {
    && (forall page: nat :: page < PAGES && Distance(first, page) < n ==> UserPage(mem, root, page, flags, from, to))
    && (forall p: nat, q: nat ::
          p < PAGES && q < PAGES && Distance(first, p) < n && Distance(first, q) < n
          && FrameAt(mem, root, p) == FrameAt(mem, root, q)
          ==> p == q)
  }

  ghost predicate ZeroedPages(mem: Memory, root: nat, first: nat, n: nat) {
    forall page: nat, k: nat :: page < PAGES && Distance(first, page) < n && k < PAGE_SIZE ==>
      ByteIn(mem, FrameAt(mem, root, page), k) == 0
  }

  /** `map_region` on memory: each page gets the next free frame, cleared. */
  function MapFresh(mem: Memory, root: nat, cur: nat, end: nat, va: u64, flags: nat, n: nat): RangeOutcome
    requires flags < 1024
    decreases n
  {
    if n == 0 then RangeOutcome(true, mem, cur, 0)
    else if cur + 1 > end then RangeOutcome(false, mem, cur, 0)
    else
      var one := MapPage(ZeroBytes(mem, cur, PAGE_SIZE), root, cur + 1, end, va, Wrap(cur * PAGE_SIZE), flags);
      if !one.ok then RangeOutcome(false, one.mem, one.cur, 0)
      else
        var rest := MapFresh(one.mem, root, one.cur, end, Wrap(va + PAGE_SIZE), flags, n - 1);
        rest.(mapped := rest.mapped + 1)
  }

  lemma InvWiden(mem: Memory, root: nat, lo: nat, cur: nat)
    requires Inv(mem, root, lo, cur) && cur < FRAMES && ENTRIES * (cur + 1) <= |mem|
    ensures Inv(mem, root, lo, cur + 1) && !IsTable(mem, root, cur)
  {
  }

  /** Clearing the unused frame `cur` and then a step of `paging_map`. */
  lemma ClearThenStep(mem: Memory, z: Memory, mem': Memory, root: nat, lo: nat, cur: nat, cur': nat)
    requires Inv(mem, root, lo, cur) && AgreeOutside(mem, z, cur) && !IsTable(mem, root, cur)
    requires StepKeeps(z, mem', root, lo, cur + 1, cur')
    ensures Tables(z, root) == Tables(mem, root) && EntriesKept(mem, z, root) && Inv(mem', root, lo, cur')
    ensures |mem'| == |mem| && cur <= cur'
    ensures forall q :: IsPath(q) ==> TableKept(mem, mem', root, cur, cur', q)
    ensures forall g: nat, j: nat :: j < ENTRIES && g < cur && !IsTable(mem, root, g) ==>
      Word(mem', g, j) == Word(mem, g, j)
    ensures !IsTable(mem', root, cur)
    ensures forall j: nat :: j < ENTRIES ==> Word(mem', cur, j) == Word(z, cur, j)
  {
    OutsideTables(mem, z, root, lo, cur, cur);
    forall q | IsPath(q)
      ensures TableKept(mem, mem', root, cur, cur', q) && Table(mem', root, q) != Some(cur)
    {
      assert TableKept(z, mem', root, cur + 1, cur', q);
    }
    forall g | !IsTable(mem, root, g) ensures !IsTable(z, root, g) { }
  }

  lemma FrameBytes(mem: Memory, z: Memory, f: nat)
    requires |mem| == |z| && forall j: nat :: j < ENTRIES ==> Word(mem, f, j) == Word(z, f, j)
    ensures forall k: nat :: k < PAGE_SIZE ==> ByteIn(mem, f, k) == ByteIn(z, f, k)
  {
    forall k: nat | k < PAGE_SIZE ensures ByteIn(mem, f, k) == ByteIn(z, f, k) {
      WordOfByte(f, k);
      assert Word(mem, f, k / 8) == Word(z, f, k / 8);
    }
  }

  /** One page of `map_region`. */
  lemma FreshPage(mem: Memory, root: nat, lo: nat, cur: nat, end: nat, va: u64, flags: nat)
    requires Inv(mem, root, lo, cur) && lo <= cur < end <= FRAMES && ENTRIES * end <= |mem| && flags < 1024
    ensures var one := MapPage(ZeroBytes(mem, cur, PAGE_SIZE), root, cur + 1, end, va, Wrap(cur * PAGE_SIZE), flags);
      && LoadKeeps(mem, one.mem, root, lo, cur, one.cur) && cur < one.cur <= end
      && |Tables(one.mem, root)| - |Tables(mem, root)| == one.cur - cur - 1
      && (one.ok ==>
            && PageAligned(va) && !IsValid(Entry(mem, root, Vpn(va)))
            && UserPage(one.mem, root, Vpn(va), flags, cur, cur + 1)
            && (forall k: nat :: k < PAGE_SIZE ==> ByteIn(one.mem, cur, k) == 0))
      && (forall page: nat :: page < PAGES && !(one.ok && page == Vpn(va)) ==>
            Entry(one.mem, root, page) == Entry(mem, root, page))
  {
    hide MapPage, ZeroBytes, Inv, Entry, Word, Table, ByteIn, IsValid, LeafPte, MissingTables, Tables;
    var z := ZeroBytes(mem, cur, PAGE_SIZE);
    FreshFrame(mem, root, lo, cur);
    MapPageCorrect(z, root, lo, cur + 1, end, va, Wrap(cur * PAGE_SIZE), flags);
    var one := MapPage(z, root, cur + 1, end, va, Wrap(cur * PAGE_SIZE), flags);
    ClearThenStep(mem, z, one.mem, root, lo, cur, one.cur);
    FrameBytes(one.mem, z, cur);
    VpnDigits(va);
    LeafPteValid(Wrap(cur * PAGE_SIZE), flags);
    FrameFits(cur);
  }

  lemma FrameFits(f: nat)
    requires f < FRAMES
    ensures Wrap(f * PAGE_SIZE) == f * PAGE_SIZE && (Wrap(f * PAGE_SIZE) / PAGE_SIZE) % FRAMES == f
  {
  }

  lemma FreshFrame(mem: Memory, root: nat, lo: nat, cur: nat)
    requires Inv(mem, root, lo, cur) && cur < FRAMES && ENTRIES * (cur + 1) <= |mem|
    ensures var z := ZeroBytes(mem, cur, PAGE_SIZE);
      && AgreeOutside(mem, z, cur) && !IsTable(mem, root, cur)
      && Inv(z, root, lo, cur + 1)
      && (forall k: nat :: k < PAGE_SIZE ==> ByteIn(z, cur, k) == 0)
  {
    hide ZeroBytes, ByteIn;
    ZeroBytesFacts(mem, cur, PAGE_SIZE);
    InvWiden(mem, root, lo, cur);
    OutsideTables(mem, ZeroBytes(mem, cur, PAGE_SIZE), root, lo, cur, cur);
  }

  /** A user page stays as it is while more pages are mapped. */
  lemma UserPageSurvives(mem: Memory, mem': Memory, root: nat, lo: nat, cur: nat, cur': nat, page: nat, flags: nat,
      from: nat, to: nat)
    requires LoadKeeps(mem, mem', root, lo, cur, cur') && to <= cur && page < PAGES && flags < 1024
    requires UserPage(mem, root, page, flags, from, to)
    ensures UserPage(mem', root, page, flags, from, to)
    ensures Entry(mem', root, page) == Entry(mem, root, page)
    ensures forall k: nat :: k < PAGE_SIZE ==>
      ByteIn(mem', FrameAt(mem, root, page), k) == ByteIn(mem, FrameAt(mem, root, page), k)
  {
    hide Entry, LeafPte, Table, Word, Inv, ByteIn, IsValid, FrameOf;
    var f := FrameAt(mem, root, page);
    LeafPteValid(Wrap(f * PAGE_SIZE), flags);
    NotTableLater(mem, mem', root, lo, cur, cur', f);
    FrameBytes(mem', mem, f);
  }

  /** `map_region`: on success every page of the region is a cleared user page with a frame of its own;
      a failure leaves such a prefix; the frames used are the tables linked plus the pages. */
  lemma {:induction false} MapFreshCorrect(mem: Memory, root: nat, lo: nat, cur: nat, end: nat, va: u64, flags: nat,
      n: nat)
    requires Inv(mem, root, lo, cur) && lo <= cur <= end <= FRAMES && ENTRIES * end <= |mem| && flags < 1024
    ensures var out := MapFresh(mem, root, cur, end, va, flags, n);
      && LoadKeeps(mem, out.mem, root, lo, cur, out.cur) && out.cur <= end
      && out.mapped <= n && (out.ok <==> out.mapped == n)
      && UserPages(out.mem, root, Vpn(va), out.mapped, flags, cur, out.cur)
      && ZeroedPages(out.mem, root, Vpn(va), out.mapped)
      && Unmapped(mem, root, Vpn(va), out.mapped)
      && (forall page: nat :: page < PAGES && Distance(Vpn(va), page) >= out.mapped ==>
            Entry(out.mem, root, page) == Entry(mem, root, page))
      && (out.ok ==> |Tables(out.mem, root)| - |Tables(mem, root)| == out.cur - cur - n)
      && (out.ok && n > 0 ==> PageAligned(va))
    decreases n
  {
    hide MapPage, ZeroBytes, Inv, Entry, IsValid, LoadKeeps, UserPages, ZeroedPages, Unmapped, Wrap, Vpn, UserPage,
      ByteIn, Tables, Distance, FrameAt;
    LoadKeepsRefl(mem, root, lo, cur);
    NoPages(mem, root, Vpn(va), flags, cur, cur);
    if n > 0 && cur < end {
      FreshPage(mem, root, lo, cur, end, va, flags);
      var one := MapPage(ZeroBytes(mem, cur, PAGE_SIZE), root, cur + 1, end, va, Wrap(cur * PAGE_SIZE), flags);
      LoadKeepsBounds(mem, one.mem, root, lo, cur, one.cur);
      if one.ok {
        var va' := Wrap(va + PAGE_SIZE);
        MapFreshCorrect(one.mem, root, lo, one.cur, end, va', flags, n - 1);
        var rest := MapFresh(one.mem, root, one.cur, end, va', flags, n - 1);
        LoadKeepsTrans(mem, one.mem, rest.mem, root, lo, cur, one.cur, rest.cur);
        PrependUserPage(mem, one.mem, rest.mem, root, lo, cur, one.cur, rest.cur, va, flags, rest.mapped);
        OtherEntries(mem, one.mem, rest.mem, root, va, rest.mapped);
      } else {
        NoPages(mem, root, Vpn(va), flags, cur, one.cur);
        NoPages(one.mem, root, Vpn(va), flags, cur, one.cur);
      }
    }
  }

  lemma OtherEntries(mem: Memory, one: Memory, out: Memory, root: nat, va: u64, k: nat)
    requires PageAligned(va)
    requires forall page: nat :: page < PAGES && page != Vpn(va) ==> Entry(one, root, page) == Entry(mem, root, page)
    requires forall page: nat :: page < PAGES && Distance(Vpn(Wrap(va + PAGE_SIZE)), page) >= k ==>
      Entry(out, root, page) == Entry(one, root, page)
    ensures forall page: nat :: page < PAGES && Distance(Vpn(va), page) >= k + 1 ==>
      Entry(out, root, page) == Entry(mem, root, page)
  {
    hide Entry, Distance, Wrap, Vpn;
    NextPage(va);
    VpnDigits(va);
    forall page: nat | page < PAGES && Distance(Vpn(va), page) >= k + 1
      ensures Entry(out, root, page) == Entry(mem, root, page)
    {
      NextDistance(Vpn(va), Vpn(Wrap(va + PAGE_SIZE)), page);
    }
  }

  lemma LoadKeepsBounds(mem: Memory, mem': Memory, root: nat, lo: nat, cur: nat, cur': nat)
    requires LoadKeeps(mem, mem', root, lo, cur, cur')
    ensures Inv(mem', root, lo, cur') && |mem'| == |mem| && cur <= cur'
  {
  }

  lemma LoadKeepsRefl(mem: Memory, root: nat, lo: nat, cur: nat)
    requires Inv(mem, root, lo, cur)
    ensures LoadKeeps(mem, mem, root, lo, cur, cur)
  {
  }

  lemma NoPages(mem: Memory, root: nat, first: nat, flags: nat, from: nat, to: nat)
    requires flags < 1024
    ensures UserPages(mem, root, first, 0, flags, from, to) && ZeroedPages(mem, root, first, 0) &&
      Unmapped(mem, root, first, 0)
  {
  }

  lemma PrependUserPage(mem: Memory, one: Memory, out: Memory, root: nat, lo: nat, cur: nat, mid: nat, cur': nat,
      va: u64, flags: nat, k: nat)
    requires flags < 1024 && PageAligned(va) && cur < mid && LoadKeeps(one, out, root, lo, mid, cur')
    requires UserPage(one, root, Vpn(va), flags, cur, cur + 1)
    requires forall k: nat :: k < PAGE_SIZE ==> ByteIn(one, cur, k) == 0
    requires !IsValid(Entry(mem, root, Vpn(va)))
    requires forall page: nat :: page < PAGES && page != Vpn(va) ==> Entry(one, root, page) == Entry(mem, root, page)
    requires var v' := Vpn(Wrap(va + PAGE_SIZE));
      UserPages(out, root, v', k, flags, mid, cur') && ZeroedPages(out, root, v', k) && Unmapped(one, root, v', k)
    ensures UserPages(out, root, Vpn(va), k + 1, flags, cur, cur')
    ensures ZeroedPages(out, root, Vpn(va), k + 1)
    ensures Unmapped(mem, root, Vpn(va), k + 1)
  {
    hide Inv, Entry, IsValid, LoadKeeps, Wrap, Vpn, ByteIn, Distance, Table, LeafPte, IsTable, FrameOf;
    var v, v' := Vpn(va), Vpn(Wrap(va + PAGE_SIZE));
    NextPage(va);
    VpnDigits(va);
    LoadKeepsBounds(one, out, root, lo, mid, cur');
    UserPageSurvives(one, out, root, lo, mid, cur', v, flags, cur, cur + 1);
    UserPageValid(one, root, v, flags, cur, cur + 1);
    NextDistance(v, v', v);
    assert k < PAGES;
    forall page: nat | page < PAGES
      ensures Distance(v, page) < k + 1 <==> page == v || Distance(v', page) < k
    {
      NextDistance(v, v', page);
    }
    assert FrameAt(one, root, v) == FrameAt(out, root, v) == cur;
    forall page: nat, i: nat | page < PAGES && Distance(v, page) < k + 1 && i < PAGE_SIZE
      ensures ByteIn(out, FrameAt(out, root, page), i) == 0
    {
      if page == v { assert ByteIn(out, cur, i) == ByteIn(one, cur, i); }
    }
  }

  lemma UserPageValid(mem: Memory, root: nat, page: nat, flags: nat, from: nat, to: nat)
    requires flags < 1024 && UserPage(mem, root, page, flags, from, to)
    ensures IsValid(Entry(mem, root, page)) && IsLeaf(Entry(mem, root, page)) == IsLeaf(flags)
  {
    LeafPteValid(Wrap(FrameAt(mem, root, page) * PAGE_SIZE), flags);
  }

  // ---------- when a region is mapped ----------

  /** One page of `map_region`: it takes a frame for itself and one for every table that is missing. */
  lemma FreshPageCost(mem: Memory, root: nat, lo: nat, cur: nat, end: nat, va: u64, flags: nat)
    requires Inv(mem, root, lo, cur) && lo <= cur < end <= FRAMES && ENTRIES * end <= |mem| && flags < 1024
    ensures var one := MapPage(ZeroBytes(mem, cur, PAGE_SIZE), root, cur + 1, end, va, Wrap(cur * PAGE_SIZE), flags);
      var missing := MissingPaths(mem, root, Vpn(va));
      && (one.ok <==> PageAligned(va) && !IsValid(Entry(mem, root, Vpn(va))) && cur + 1 + |missing| <= end)
      && (one.ok ==> one.cur == cur + 1 + |missing| && Links(mem, one.mem, root, missing))
      && (one.ok ==> IsValid(Entry(one.mem, root, Vpn(va))))
  {
    hide MapPage, ZeroBytes, Inv, Entry, Table, IsValid, LeafPte, MissingTables, MissingPaths, Tables, StepKeeps, Vpn,
      Links, IsPath, PageAligned;
    var z, v := ZeroBytes(mem, cur, PAGE_SIZE), Vpn(va);
    FreshFrame(mem, root, lo, cur);
    FrameAligned(cur);
    MapPageCorrect(z, root, lo, cur + 1, end, va, Wrap(cur * PAGE_SIZE), flags);
    var one := MapPage(z, root, cur + 1, end, va, Wrap(cur * PAGE_SIZE), flags);
    ZeroedSame(mem, root, lo, cur);
    VpnDigits(va);
    SameMissing(mem, z, root, v);
    if one.ok {
      LinksTheMissing(z, one.mem, root, lo, cur + 1, one.cur, v);
      var missing := MissingPaths(mem, root, v);
      assert missing - {} == missing == {} + missing;
      LinksTwice(mem, z, one.mem, root, {}, missing);
      LeafPteValid(Wrap(cur * PAGE_SIZE), flags);
    }
  }

  lemma FrameAligned(f: nat)
    requires f < FRAMES
    ensures PageAligned(Wrap(f * PAGE_SIZE))
  {
  }

  /** Clearing an unused frame changes no table and no entry. */
  lemma ZeroedSame(mem: Memory, root: nat, lo: nat, cur: nat)
    requires Inv(mem, root, lo, cur) && cur < FRAMES && ENTRIES * (cur + 1) <= |mem|
    ensures EntriesKept(mem, ZeroBytes(mem, cur, PAGE_SIZE), root)
    ensures Links(mem, ZeroBytes(mem, cur, PAGE_SIZE), root, {})
  {
    hide ZeroBytes, Inv, Entry, Table, IsTable;
    FreshFrame(mem, root, lo, cur);
    OutsideTables(mem, ZeroBytes(mem, cur, PAGE_SIZE), root, lo, cur, cur);
  }

  lemma SameMissing(mem: Memory, z: Memory, root: nat, v: nat)
    requires Links(mem, z, root, {}) && v < PAGES
    ensures MissingPaths(z, root, v) == MissingPaths(mem, root, v)
    ensures MissingTables(z, root, v) == |MissingPaths(mem, root, v)|
  {
    hide Links, MissingPaths, MissingTables;
    StillMissingHere(mem, z, root, {}, v);
    MissingPathsCount(z, root, v);
  }

  /** `map_region` succeeds exactly when the region is aligned, has at most 2^27 pages, none of them is mapped, and a
      frame is left for every page and for every table that is missing; then it uses exactly these. */
  lemma {:induction false} MapFreshWithinCost(mem: Memory, root: nat, lo: nat, cur: nat, end: nat, va: u64, flags: nat,
      n: nat)
    requires Inv(mem, root, lo, cur) && lo <= cur <= end <= FRAMES && ENTRIES * end <= |mem| && flags < 1024
    ensures var out := MapFresh(mem, root, cur, end, va, flags, n);
      var missing := RangeMissing(mem, root, Vpn(va), n);
      && (out.ok <==>
          && (n == 0 || PageAligned(va)) && n <= PAGES && Unmapped(mem, root, Vpn(va), n)
          && cur + n + |missing| <= end)
      && (out.ok ==> out.cur == cur + n + |missing| && Links(mem, out.mem, root, missing))
    decreases n
  {
    hide MapPage, ZeroBytes, Inv, Entry, LoadKeeps, LeafPte, Unmapped, Wrap, Vpn, IsValid, MissingPaths, RangeMissing,
      Links, Next, PageAligned;
    var v := Vpn(va);
    if n == 0 {
      NothingAsked(mem, root, v);
      NothingMissing(mem, root, v);
      NothingLinked(mem, root);
    } else {
      VpnDigits(va);
      var first, rest := MissingPaths(mem, root, v), RangeMissing(mem, root, Next(v), n - 1);
      RangeMissingUnfold(mem, root, v, n);
      SubsetSize(first, first + rest);
      SplitSize(first, rest);
      if cur < end {
        var one := MapPage(ZeroBytes(mem, cur, PAGE_SIZE), root, cur + 1, end, va, Wrap(cur * PAGE_SIZE), flags);
        FreshPage(mem, root, lo, cur, end, va, flags);
        FreshPageCost(mem, root, lo, cur, end, va, flags);
        LoadKeepsBounds(mem, one.mem, root, lo, cur, one.cur);
        if one.ok {
          var va' := Wrap(va + PAGE_SIZE);
          NextPages(va, va);
          MapFreshWithinCost(one.mem, root, lo, one.cur, end, va', flags, n - 1);
          StillMissing(mem, one.mem, root, first, Next(v), n - 1);
          UnmappedStep(mem, one.mem, root, v, n);
          var out := MapFresh(one.mem, root, one.cur, end, va', flags, n - 1);
          if out.ok { LinksTwice(mem, one.mem, out.mem, root, first, rest); }
        } else if Unmapped(mem, root, v, n) {
          UnmappedFirst(mem, root, v, n);
        }
      }
    }
  }
}
