/** What the page-table operations of `PageTables` do to the address space the tables describe. */
module PageTableProofs {
  import opened Words
  import opened PageTables

  // ---------- entries ----------

  lemma PointerFacts(f: nat)
    requires f < FRAMES
    ensures PointerPte(f) < TWO64 && Wrap(PointerPte(f)) == PointerPte(f)
    ensures IsValid(PointerPte(f)) && !IsLeaf(PointerPte(f)) && FrameOf(PointerPte(f)) == f
  {
    assert PointerPte(f) / 2 == 8 * (64 * f);
  }

  /** Encoding and decoding an entry: the frame number keeps 44 bits, the flags come back unchanged. */
  lemma PteRoundTrip(pa: u64, flags: nat)
    requires flags < 1024
    ensures var e := PteFromPhys(pa, flags);
      && FrameOf(e) == (pa / PAGE_SIZE) % FRAMES
      && FlagsOf(e) == flags
      && IsValid(e) == IsValid(flags)
      && IsLeaf(e) == IsLeaf(flags)
  {
    var e := PteFromPhys(pa, flags);
    var q := pa / PAGE_SIZE;
    assert e / 1024 == q;
    ModShift(flags, 512 * q, 2);
    assert e / 2 == 8 * (64 * q) + flags / 2;
    ModShift(flags / 2, 64 * q, 8);
  }

  // ---------- addresses ----------

  /** The three 9-bit indices are the digits of the virtual page number. */
  lemma VpnDigits(va: u64)
    ensures Vpn2(va) == Vpn(va) / 0x4_0000
    ensures Vpn1(va) == (Vpn(va) / ENTRIES) % ENTRIES
    ensures Vpn0(va) == Vpn(va) % ENTRIES
    ensures Vpn(va) < PAGES
  {
    var q := va / PAGE_SIZE;
    var k, r := q / PAGES, q % PAGES;
    assert va / 0x20_0000 == q / ENTRIES && va / 0x4000_0000 == q / 0x4_0000;
    DigitsOfSum(k, r);
  }

  /** Two addresses have the same indices exactly when they lie in the same page, modulo 2^39. */
  lemma SameIndicesSamePage(va: u64, other: u64)
    ensures Vpn2(va) == Vpn2(other) && Vpn1(va) == Vpn1(other) && Vpn0(va) == Vpn0(other) <==> Vpn(va) == Vpn(other)
  {
    VpnDigits(va);
    VpnDigits(other);
    ThreeDigits(Vpn(va));
    ThreeDigits(Vpn(other));
  }

  lemma ThreeDigits(r: nat)
    ensures r == (r / 0x4_0000) * 0x4_0000 + ((r / ENTRIES) % ENTRIES) * ENTRIES + r % ENTRIES
  {
    var q := r / ENTRIES;
    assert r / 0x4_0000 == q / ENTRIES;
  }

  lemma DigitsOfSum(k: nat, r: nat)
    requires r < PAGES
    ensures var q := PAGES * k + r;
      && (q / 0x4_0000) % ENTRIES == r / 0x4_0000
      && (q / ENTRIES) % ENTRIES == (r / ENTRIES) % ENTRIES
      && q % ENTRIES == r % ENTRIES
  {
    var q := PAGES * k + r;
    assert q / 0x4_0000 == 512 * k + r / 0x4_0000;
    assert q / ENTRIES == 512 * (512 * k) + r / ENTRIES;
    Mod512(k, r / 0x4_0000);
    Mod512(512 * k, r / ENTRIES);
    Mod512(512 * 512 * k, r);
  }

  lemma Mod512(k: nat, r: nat)
    ensures (ENTRIES * k + r) % ENTRIES == r % ENTRIES
  {
  }

  // ---------- frames of words ----------

  lemma StoreWord(mem: Memory, f: nat, i: nat, w: u64, g: nat, j: nat)
    requires i < ENTRIES && j < ENTRIES
    ensures Word(Store(mem, f, i, w), g, j) ==
            if f == g && i == j && ENTRIES * f + i < |mem| then w else Word(mem, g, j)
  {
  }

  lemma {:induction false} ZeroPrefixWord(mem: Memory, f: nat, n: nat, g: nat, j: nat)
    requires n <= ENTRIES && j < ENTRIES
    ensures |ZeroPrefix(mem, f, n)| == |mem|
    ensures Word(ZeroPrefix(mem, f, n), g, j) == if f == g && j < n then 0 else Word(mem, g, j)
  {
    if n > 0 {
      ZeroPrefixWord(mem, f, n - 1, g, j);
      StoreWord(ZeroPrefix(mem, f, n - 1), f, n - 1, 0, g, j);
    }
  }

  /** `mem'` agrees with `mem` on every word of every table of `mem`. */
  ghost predicate AgreeOnTables(mem: Memory, mem': Memory, root: nat) {
    forall p, i: nat :: IsPath(p) && i < ENTRIES && Table(mem, root, p).Some? ==>
      Word(mem', Table(mem, root, p).value, i) == Word(mem, Table(mem, root, p).value, i)
  }

  /** Writing outside the tables changes neither the tree nor any entry. */
  lemma TablesUntouched(mem: Memory, mem': Memory, root: nat, lo: nat, cur: nat)
    requires AgreeOnTables(mem, mem', root) && |mem'| == |mem|
    ensures forall p :: IsPath(p) ==> Table(mem', root, p) == Table(mem, root, p)
    ensures forall page: nat :: page < PAGES ==> Entry(mem', root, page) == Entry(mem, root, page)
    ensures Inv(mem, root, lo, cur) ==> Inv(mem', root, lo, cur)
  {
    forall p | IsPath(p) ensures Table(mem', root, p) == Table(mem, root, p) {
      SameTable(mem, mem', root, p);
    }
    forall page: nat | page < PAGES ensures Entry(mem', root, page) == Entry(mem, root, page) {
      assert IsPath(LowOf(page));
    }
  }

  lemma SameTable(mem: Memory, mem': Memory, root: nat, p: Path)
    requires AgreeOnTables(mem, mem', root) && IsPath(p)
    ensures Table(mem', root, p) == Table(mem, root, p)
  {
    assert IsPath(Top) && Table(mem, root, Top) == Some(root);
    if p.Low? {
      assert IsPath(Mid(p.i2));
      assert Table(mem, root, Mid(p.i2)) == Child(mem, root, p.i2);
    }
  }

  // ---------- linking a table ----------

  function Extend(p: Path, i: nat): Path
    requires !p.Low?
  {
    if p.Top? then Mid(i) else Low(p.i2, i)
  }

  /** `mem'` is `mem` with frame `cur` zeroed and linked from entry `i` of table `f`. */
  ghost predicate Linked(mem: Memory, mem': Memory, f: nat, i: nat, cur: nat) {
    && |mem'| == |mem|
    && Word(mem', f, i) == PointerPte(cur)
    && (forall j: nat :: j < ENTRIES ==> Word(mem', cur, j) == 0)
    && (forall g: nat, j: nat :: j < ENTRIES && g != cur && !(g == f && j == i) ==> Word(mem', g, j) == Word(mem, g, j))
  }

  ghost predicate CanLink(mem: Memory, root: nat, lo: nat, cur: nat, p: Path, f: nat, i: nat) {
    && Inv(mem, root, lo, cur) && cur < FRAMES && ENTRIES * (cur + 1) <= |mem|
    && IsPath(p) && !p.Low? && Table(mem, root, p) == Some(f)
    && i < ENTRIES && !IsValid(Word(mem, f, i)) && lo <= cur
  }

  lemma LinkTables(mem: Memory, mem': Memory, root: nat, lo: nat, cur: nat, p: Path, f: nat, i: nat, q: Path)
    requires CanLink(mem, root, lo, cur, p, f, i) && Linked(mem, mem', f, i, cur) && IsPath(q)
    ensures Table(mem, root, Extend(p, i)) == None
    ensures Table(mem', root, q) == if q == Extend(p, i) then Some(cur) else Table(mem, root, q)
    decreases q.Low?
  {
    PointerFacts(cur);
    assert IsPath(Top) && Table(mem, root, Top) == Some(root);
    if q.Low? {
      LinkTables(mem, mem', root, lo, cur, p, f, i, Mid(q.i2));
      assert IsPath(Mid(q.i2));
    }
  }

  lemma LinkKeepsInv(mem: Memory, mem': Memory, root: nat, lo: nat, cur: nat, p: Path, f: nat, i: nat)
    requires CanLink(mem, root, lo, cur, p, f, i) && Linked(mem, mem', f, i, cur)
    ensures Inv(mem', root, lo, cur + 1)
    ensures forall q :: IsPath(q) ==>
      Table(mem', root, q) == if q == Extend(p, i) then Some(cur) else Table(mem, root, q)
    ensures forall page: nat :: page < PAGES ==> Entry(mem', root, page) == Entry(mem, root, page)
  {
    PointerFacts(cur);
    forall q | IsPath(q)
      ensures Table(mem', root, q) == if q == Extend(p, i) then Some(cur) else Table(mem, root, q)
    {
      LinkTables(mem, mem', root, lo, cur, p, f, i, q);
    }
    LinkTables(mem, mem', root, lo, cur, p, f, i, Top);
    assert TablesDistinct(mem', root);
    forall page: nat | page < PAGES
      ensures Entry(mem', root, page) == Entry(mem, root, page)
    {
      assert IsPath(LowOf(page));
    }
  }

  lemma DescendLinks(mem: Memory, f: nat, i: nat, cur: nat, end: nat)
    requires i < ENTRIES && cur < FRAMES && ENTRIES * (cur + 1) <= |mem| && ENTRIES * f + i < |mem| && f != cur
    requires !IsValid(Word(mem, f, i)) && cur + 1 <= end
    ensures Linked(mem, Descend(mem, f, i, cur, end).mem, f, i, cur)
  {
    PointerFacts(cur);
    var z := ZeroPrefix(mem, cur, ENTRIES);
    var mem' := Descend(mem, f, i, cur, end).mem;
    forall g: nat, j: nat | j < ENTRIES
      ensures Word(mem', g, j) ==
        if g == f && i == j then PointerPte(cur) else if g == cur then 0 else Word(mem, g, j)
    {
      ZeroPrefixWord(mem, cur, ENTRIES, g, j);
      StoreWord(z, f, i, PointerPte(cur), g, j);
    }
    ZeroPrefixWord(mem, cur, ENTRIES, f, i);
  }

  // ---------- counting tables ----------

  ghost function AllPaths(): set<Path> {
    {Top} + (set i2: nat | i2 < ENTRIES :: Mid(i2))
    + (set i2: nat, i1: nat | i2 < ENTRIES && i1 < ENTRIES :: Low(i2, i1))
  }

  /** The places of the tree that hold a table. */
  ghost function Tables(mem: Memory, root: nat): set<Path> {
    set p | p in AllPaths() && Table(mem, root, p).Some?
  }

  lemma AllPathsAreAll(p: Path)
    ensures p in AllPaths() <==> IsPath(p)
  {
  }

  // ---------- one level of the descent ----------

  /** The step keeps the invariant, every entry and every table; it adds at most the one table it returns. */
  ghost predicate StepKeeps(mem: Memory, mem': Memory, root: nat, lo: nat, cur: nat, cur': nat) {
    && |mem'| == |mem| && cur <= cur'
    && Inv(mem', root, lo, cur')
    && (forall q :: IsPath(q) ==> TableKept(mem, mem', root, cur, cur', q))
    && (forall g: nat, j: nat :: j < ENTRIES && (g < cur || cur' <= g) && !IsTable(mem, root, g) ==>
          Word(mem', g, j) == Word(mem, g, j))
    && |Tables(mem', root)| - |Tables(mem, root)| == cur' - cur
  }

  /** A table stays where it is; a new one sits in a frame handed out in between. */
  ghost predicate TableKept(mem: Memory, mem': Memory, root: nat, cur: nat, cur': nat, q: Path) {
    Table(mem', root, q) == Table(mem, root, q)
    || (Table(mem, root, q).None? && cur <= Table(mem', root, q).value < cur')
  }

  ghost predicate EntriesKept(mem: Memory, mem': Memory, root: nat) {
    forall page: nat :: page < PAGES ==> Entry(mem', root, page) == Entry(mem, root, page)
  }

  lemma StepKeepsRefl(mem: Memory, root: nat, lo: nat, cur: nat)
    requires Inv(mem, root, lo, cur)
    ensures StepKeeps(mem, mem, root, lo, cur, cur)
  {
  }

  lemma StepKeepsTrans(a: Memory, b: Memory, c: Memory, root: nat, lo: nat, i: nat, j: nat, k: nat)
    requires Inv(a, root, lo, i) && StepKeeps(a, b, root, lo, i, j) && StepKeeps(b, c, root, lo, j, k)
    ensures StepKeeps(a, c, root, lo, i, k)
  {
    forall q | IsPath(q) ensures TableKept(a, c, root, i, k, q) {
      assert TableKept(a, b, root, i, j, q) && TableKept(b, c, root, j, k, q);
    }
    forall g: nat, n: nat | n < ENTRIES && (g < i || k <= g) && !IsTable(a, root, g)
      ensures Word(c, g, n) == Word(a, g, n)
    {
      forall q | IsPath(q) ensures Table(b, root, q) != Some(g) {
        assert TableKept(a, b, root, i, j, q);
      }
    }
  }

  lemma DescendCorrect(mem: Memory, root: nat, lo: nat, cur: nat, end: nat, p: Path, f: nat, i: nat)
    requires Inv(mem, root, lo, cur) && lo <= cur && end <= FRAMES && ENTRIES * end <= |mem|
    requires IsPath(p) && !p.Low? && Table(mem, root, p) == Some(f) && i < ENTRIES
    ensures var s := Descend(mem, f, i, cur, end);
      && StepKeeps(mem, s.mem, root, lo, cur, s.cur)
      && EntriesKept(mem, s.mem, root)
      && Table(s.mem, root, p) == Some(f)
      && (s.ok <==> Table(mem, root, Extend(p, i)).Some? || cur + 1 <= end)
      && (s.ok ==> Table(s.mem, root, Extend(p, i)) == Some(s.table))
      && s.cur == cur + (if s.ok && Table(mem, root, Extend(p, i)).None? then 1 else 0)
      && (forall q :: IsPath(q) && q != Extend(p, i) ==> Table(s.mem, root, q) == Table(mem, root, q))
      && (!s.ok ==> s.mem == mem)
  {
    var s := Descend(mem, f, i, cur, end);
    var e := Word(mem, f, i);
    assert IsPath(Top);
    assert Table(mem, root, Extend(p, i)) == Child(mem, f, i);
    if IsValid(e) {
      PointerFactsOf(e);
    } else if cur + 1 <= end {
      assert lo <= f < cur;
      DescendLinks(mem, f, i, cur, end);
      LinkStep(mem, s.mem, root, lo, cur, p, f, i);
    }
  }

  lemma LinkStep(mem: Memory, mem': Memory, root: nat, lo: nat, cur: nat, p: Path, f: nat, i: nat)
    requires CanLink(mem, root, lo, cur, p, f, i) && Linked(mem, mem', f, i, cur)
    ensures StepKeeps(mem, mem', root, lo, cur, cur + 1)
    ensures EntriesKept(mem, mem', root)
    ensures forall q :: IsPath(q) ==>
      Table(mem', root, q) == if q == Extend(p, i) then Some(cur) else Table(mem, root, q)
    ensures Table(mem', root, p) == Some(f)
  {
    hide Inv, Table, Word, Entry, Tables, CanLink, Extend;
    LinkKeepsInv(mem, mem', root, lo, cur, p, f, i);
    LinkPlaces(mem, mem', root, lo, cur, p, f, i);
    OneTableMore(mem, mem', root, Extend(p, i), cur);
    assert IsTable(mem, root, f);
  }

  lemma LinkPlaces(mem: Memory, mem': Memory, root: nat, lo: nat, cur: nat, p: Path, f: nat, i: nat)
    requires CanLink(mem, root, lo, cur, p, f, i) && Linked(mem, mem', f, i, cur)
    ensures IsPath(p) && !p.Low? && i < ENTRIES && Table(mem, root, p) == Table(mem', root, p) == Some(f)
    ensures IsPath(Extend(p, i)) && Extend(p, i) != p && Table(mem, root, Extend(p, i)) == None
  {
    LinkTables(mem, mem', root, lo, cur, p, f, i, p);
  }

  lemma OneTableMore(mem: Memory, mem': Memory, root: nat, added: Path, cur: nat)
    requires IsPath(added) && Table(mem, root, added) == None
    requires forall q :: IsPath(q) ==> Table(mem', root, q) == if q == added then Some(cur) else Table(mem, root, q)
    ensures |Tables(mem', root)| == |Tables(mem, root)| + 1
  {
    hide Table, AllPaths;
    forall q ensures q in AllPaths() <==> IsPath(q) { AllPathsAreAll(q); }
    assert Tables(mem', root) == Tables(mem, root) + {added};
  }

  lemma PointerFactsOf(e: u64)
    requires e == PointerPte(FrameOf(e))
    ensures IsValid(e) && !IsLeaf(e)
  {
    PointerFacts(FrameOf(e));
  }

  // ---------- writing a level-0 entry ----------

  lemma StoreEntry(mem: Memory, root: nat, lo: nat, cur: nat, page: nat, f: nat, w: u64)
    requires Inv(mem, root, lo, cur) && page < PAGES && Table(mem, root, LowOf(page)) == Some(f)
    ensures var mem' := Store(mem, f, page % ENTRIES, w);
      && StepKeeps(mem, mem', root, lo, cur, cur)
      && (forall other: nat :: other < PAGES ==>
            Entry(mem', root, other) == if other == page then w else Entry(mem, root, other))
  {
    hide Inv, Table, Word, Entry, Store, Tables, IsPath;
    var mem' := Store(mem, f, page % ENTRIES, w);
    forall p | IsPath(p) ensures Table(mem', root, p) == Table(mem, root, p) {
      StoreEntryTable(mem, root, lo, cur, page, f, w, p);
    }
    StoreEntryInv(mem, root, lo, cur, page, f, w);
    SameTables(mem, mem', root);
    forall other: nat | other < PAGES
      ensures Entry(mem', root, other) == if other == page then w else Entry(mem, root, other)
    {
      StoreEntryEntry(mem, root, lo, cur, page, f, w, other);
    }
    StoreOutside(mem, root, page, f, w);
  }

  lemma SameTables(mem: Memory, mem': Memory, root: nat)
    requires forall q :: IsPath(q) ==> Table(mem', root, q) == Table(mem, root, q)
    ensures Tables(mem', root) == Tables(mem, root)
  {
    hide Table, AllPaths;
    forall q ensures q in AllPaths() <==> IsPath(q) { AllPathsAreAll(q); }
  }

  lemma StoreOutside(mem: Memory, root: nat, page: nat, f: nat, w: u64)
    requires page < PAGES && Table(mem, root, LowOf(page)) == Some(f)
    ensures IsTable(mem, root, f)
    ensures var mem' := Store(mem, f, page % ENTRIES, w);
      |mem'| == |mem| && forall g: nat, j: nat :: j < ENTRIES && g != f ==> Word(mem', g, j) == Word(mem, g, j)
  {
    hide Table, Word, Store;
    assert IsPath(LowOf(page));
    StoreLength(mem, f, page % ENTRIES, w);
    forall g: nat, j: nat | j < ENTRIES && g != f
      ensures Word(Store(mem, f, page % ENTRIES, w), g, j) == Word(mem, g, j)
    {
      StoreWord(mem, f, page % ENTRIES, w, g, j);
    }
  }

  lemma StoreLength(mem: Memory, f: nat, i: nat, w: u64)
    ensures |Store(mem, f, i, w)| == |mem|
  {
  }

  lemma StoreEntryEntry(mem: Memory, root: nat, lo: nat, cur: nat, page: nat, f: nat, w: u64, other: nat)
    requires Inv(mem, root, lo, cur) && page < PAGES && Table(mem, root, LowOf(page)) == Some(f) && other < PAGES
    ensures Entry(Store(mem, f, page % ENTRIES, w), root, other) == if other == page then w else Entry(mem, root, other)
  {
    StoreEntryTable(mem, root, lo, cur, page, f, w, LowOf(other));
    assert IsPath(LowOf(other)) && IsPath(LowOf(page));
    if Table(mem, root, LowOf(other)).Some? {
      StoreWord(mem, f, page % ENTRIES, w, Table(mem, root, LowOf(other)).value, other % ENTRIES);
      if LowOf(other) == LowOf(page) && other % ENTRIES == page % ENTRIES { SamePage(other, page); }
    }
  }

  lemma StoreEntryInv(mem: Memory, root: nat, lo: nat, cur: nat, page: nat, f: nat, w: u64)
    requires Inv(mem, root, lo, cur) && page < PAGES && Table(mem, root, LowOf(page)) == Some(f)
    requires forall p :: IsPath(p) ==> Table(Store(mem, f, page % ENTRIES, w), root, p) == Table(mem, root, p)
    ensures Inv(Store(mem, f, page % ENTRIES, w), root, lo, cur)
  {
    var mem' := Store(mem, f, page % ENTRIES, w);
    assert IsPath(LowOf(page));
    forall p, i: nat | IsPath(p) && !p.Low? && i < ENTRIES && Table(mem', root, p).Some?
      ensures Word(mem', Table(mem', root, p).value, i) == Word(mem, Table(mem, root, p).value, i)
    {
      StoreWord(mem, f, page % ENTRIES, w, Table(mem, root, p).value, i);
    }
  }

  lemma SamePage(a: nat, b: nat)
    requires LowOf(a) == LowOf(b) && a % ENTRIES == b % ENTRIES && a < PAGES && b < PAGES
    ensures a == b
  {
    assert a / 0x4_0000 == (a / ENTRIES) / ENTRIES;
    assert b / 0x4_0000 == (b / ENTRIES) / ENTRIES;
  }

  lemma StoreEntryTable(mem: Memory, root: nat, lo: nat, cur: nat, page: nat, f: nat, w: u64, p: Path)
    requires Inv(mem, root, lo, cur) && page < PAGES && Table(mem, root, LowOf(page)) == Some(f) && IsPath(p)
    ensures Table(Store(mem, f, page % ENTRIES, w), root, p) == Table(mem, root, p)
  {
    var low := LowOf(page);
    assert IsPath(low) && IsPath(Top);
    assert root != f by { assert Table(mem, root, Top) == Some(root); }
    if !p.Top? {
      StoreWord(mem, f, page % ENTRIES, w, root, p.i2);
      var mid := Mid(p.i2);
      assert IsPath(mid) && Table(mem, root, mid) == Child(mem, root, p.i2);
      if p.Low? && Table(mem, root, mid).Some? {
        assert Table(mem, root, mid) != Some(f);
        StoreWord(mem, f, page % ENTRIES, w, Table(mem, root, mid).value, p.i1);
      }
    }
  }

  // ---------- mapping one page ----------

  /** How many tables have to be added before `page` has a level-0 table. */
  function MissingTables(mem: Memory, root: nat, page: nat): nat {
    if Table(mem, root, MidOf(page)).None? then 2
    else if Table(mem, root, LowOf(page)).None? then 1
    else 0
  }

  /** Both levels of the descent towards `page`. */
  function DescendBoth(mem: Memory, root: nat, cur: nat, end: nat, page: nat): Step {
    var s1 := Descend(mem, root, page / 0x4_0000, cur, end);
    if s1.ok then Descend(s1.mem, s1.table, (page / ENTRIES) % ENTRIES, s1.cur, end) else s1
  }

  lemma DescendBothCorrect(mem: Memory, root: nat, lo: nat, cur: nat, end: nat, page: nat)
    requires Inv(mem, root, lo, cur) && lo <= cur <= end <= FRAMES && ENTRIES * end <= |mem| && page < PAGES
    ensures var s := DescendBoth(mem, root, cur, end, page);
      && StepKeeps(mem, s.mem, root, lo, cur, s.cur)
      && EntriesKept(mem, s.mem, root)
      && (s.ok <==> cur + MissingTables(mem, root, page) <= end)
      && (s.ok ==> s.cur == cur + MissingTables(mem, root, page))
      && s.cur <= end && s.cur <= cur + MissingTables(mem, root, page)
      && (s.ok ==> Table(s.mem, root, LowOf(page)) == Some(s.table))
  {
    var mid, low := MidOf(page), LowOf(page);
    DescendCorrect(mem, root, lo, cur, end, Top, root, page / 0x4_0000);
    var s1 := Descend(mem, root, page / 0x4_0000, cur, end);
    assert Extend(Top, page / 0x4_0000) == mid && IsPath(mid) && IsPath(low);
    if s1.ok {
      DescendCorrect(s1.mem, root, lo, s1.cur, end, mid, s1.table, (page / ENTRIES) % ENTRIES);
      var s0 := Descend(s1.mem, s1.table, (page / ENTRIES) % ENTRIES, s1.cur, end);
      assert Extend(mid, (page / ENTRIES) % ENTRIES) == low;
      StepKeepsTrans(mem, s1.mem, s0.mem, root, lo, cur, s1.cur, s0.cur);
    }
  }

  /** One call of `paging_map_early`: it succeeds exactly when both addresses are page-aligned, the page
      is unmapped and the missing tables fit; then exactly this page's entry changes, and a failing call
      changes no entry at all, even when it has linked a table before running out of frames. */
  lemma MapPageCorrect(mem: Memory, root: nat, lo: nat, cur: nat, end: nat, va: u64, pa: u64, flags: nat)
    requires Inv(mem, root, lo, cur) && lo <= cur <= end <= FRAMES && ENTRIES * end <= |mem| && flags < 1024
    ensures var out := MapPage(mem, root, cur, end, va, pa, flags);
      && StepKeeps(mem, out.mem, root, lo, cur, out.cur)
      && (out.ok <==> PageAligned(va) && PageAligned(pa) && !IsValid(Entry(mem, root, Vpn(va)))
                      && cur + MissingTables(mem, root, Vpn(va)) <= end)
      && (out.ok ==> out.cur == cur + MissingTables(mem, root, Vpn(va)))
      && out.cur <= end && out.cur <= cur + MissingTables(mem, root, Vpn(va))
      && (out.ok ==> MissingTables(out.mem, root, Vpn(va)) == 0)
      && (forall page: nat :: page < PAGES ==>
            Entry(out.mem, root, page) ==
            if out.ok && page == Vpn(va) then LeafPte(pa, flags) else Entry(mem, root, page))
  {
    var out := MapPage(mem, root, cur, end, va, pa, flags);
    StepKeepsRefl(mem, root, lo, cur);
    if PageAligned(va) && PageAligned(pa) {
      VpnDigits(va);
      var page := Vpn(va);
      DescendBothCorrect(mem, root, lo, cur, end, page);
      var s := DescendBoth(mem, root, cur, end, page);
      assert out.ok ==> s.ok && out.cur == s.cur;
      if s.ok {
        assert Entry(s.mem, root, page) == Word(s.mem, s.table, page % ENTRIES) == Entry(mem, root, page);
        if out.ok {
          assert out.mem == Store(s.mem, s.table, page % ENTRIES, LeafPte(pa, flags));
          StoreEntry(s.mem, root, lo, s.cur, page, s.table, LeafPte(pa, flags));
          StepKeepsTrans(mem, s.mem, out.mem, root, lo, cur, s.cur, s.cur);
          TablesStay(s.mem, out.mem, root, lo, s.cur, page);
        } else {
          assert out.mem == s.mem;
        }
      }
    }
  }

  /** Tables on the way to a page never go away. */
  lemma TablesStay(mem: Memory, mem': Memory, root: nat, lo: nat, cur: nat, page: nat)
    requires page < PAGES && Table(mem, root, LowOf(page)).Some? && StepKeeps(mem, mem', root, lo, cur, cur)
    ensures MissingTables(mem', root, page) == 0
  {
    assert IsPath(LowOf(page)) && IsPath(MidOf(page));
    assert TableKept(mem, mem', root, cur, cur, LowOf(page)) && TableKept(mem, mem', root, cur, cur, MidOf(page));
  }

  function LeafPte(pa: u64, flags: nat): u64
    requires flags < 1024
  {
    LeafFlagsFit(flags);
    PteFromPhys(pa, LeafFlags(flags))
  }
}
