/**
 Demand paging with swap: the three-level page table, page insertion and removal, eviction to
 the swap disk and the page fault handler, on frames and counters updated in place.
 */
module Paging {
  import opened Sv39
  import opened PageState
  import opened PageOps
  import opened PageGrowth
  import opened PageMapping
  import opened PageWalk
  import opened LinkedList
  import opened Vma
  import opened Wrappers

  const E_INVAL := 3
  const E_NO_MEM := 4

  /** boot_page_table_sv39: only the kernel's gigapage entry is set. */
  function BootTable(): (t: Frame)
    ensures |t| == NPTEENTRY && t[KERNEL_SLOT] == 0x80000 * 1024 + 0xcf
    ensures forall k | 0 <= k < KERNEL_SLOT :: t[k] == 0
  {
    ZeroPage()[KERNEL_SLOT := 0x80000 * 1024 + 0xcf]
  }

  lemma BootSound(s: State, root: nat, first: nat)
    requires ShapeOk(s) && (forall f | 0 <= f < |s.frames| :: |s.frames[f]| == NPTEENTRY && s.ref[f] == 0)
    requires root < first <= |s.frames| && s.frames[root] == BootTable() && s.tables == map[TopKey := root]
    requires s.free == PagesFrom(first, |s.frames|) && s.swappable == {}
    ensures Sound(s) && forall v | InRange(v) :: Entry(s, v) == 0
  {
    BootTree(s, root);
    hide TreeOk, EntryIn;
    forall f | 0 <= f < |s.frames| ensures RefOk(s, f) {
      assert Mappings(s, f) == {};
    }
  }

  lemma BootTree(s: State, root: nat)
    requires forall f | 0 <= f < |s.frames| :: |s.frames[f]| == NPTEENTRY
    requires root < |s.frames| && s.frames[root] == BootTable() && s.tables == map[TopKey := root]
    ensures Tree(s) && forall v | InRange(v) :: Entry(s, v) == 0
  {
  }

  function PagesFrom(lo: nat, hi: nat): (r: set<nat>)
    requires lo <= hi
    ensures |r| == hi - lo && forall f :: f in r <==> lo <= f < hi
    decreases hi - lo
  {
    if lo == hi then {} else {lo} + PagesFrom(lo + 1, hi)
  }

  /** (v / PGSIZE + 1) << 8, the entry swap_out leaves for the page at v. */
  function VictimEntry(v: nat): (entry: nat)
    ensures v < VA_LIMIT ==> InRange(IndexOf(v)) && entry == SwapEntry(IndexOf(v))
  {
    IndexNumberBelow(v);
    (v / PGSIZE + 1) * 256
  }

  lemma IndexNumberBelow(v: nat)
    ensures v < VA_LIMIT ==> InRange(IndexOf(v)) && Number(IndexOf(v)) == v / PGSIZE
  {
    if v < VA_LIMIT {
      IndexNumber(v);
    }
  }

  /** The writes of swap_out, one after the other, make up Evict. */
  lemma EvictSteps(s: State, page: nat, f: nat, k: nat, entry: nat)
    requires Evictable(s, page)
    requires var v := IndexOf(s.pra[page]);
             LeafKey(v.i, v.j) in s.tables && f == s.tables[LeafKey(v.i, v.j)] && k == v.k && entry == SwapEntry(v)
    ensures SwapOffsetOk(entry) && f < |s.frames| && k < |s.frames[f]|
    ensures Evict(s, page) == Release(s.(swappable := s.swappable - {page},
                                         disk := WriteSlot(s.disk, SwapOffset(entry), s.frames[page]),
                                         frames := Poke(s.frames, f, k, entry)), page)
  {
    SwapEntryFacts(IndexOf(s.pra[page]));
  }

  class Kernel {
    const frames: array<Frame>
    const ref: array<int>
    const pra: array<nat>            // page->pra_vaddr
    const disk: array<nat>           // the swap disk, in 64-bit words
    const root: nat                  // the page of the top-level table
    var free: set<nat>               // the physical memory manager's free pages
    var swappable: set<nat>          // the swap manager's list, in no particular order
    var swapInitOk: bool
    ghost var tables: map<Key, nat>

    ghost function View(): State
      reads this, frames, ref, pra, disk
    {
      State(frames[..], ref[..], pra[..], free, swappable, disk[..], tables)
    }

    /** Counts, tables, entries and free pages are in order, though a table may be mapped. */
    ghost predicate Counts()
      reads this, frames, ref, pra, disk
    {
      && CountedInv(View())
      && ref.Length == pra.Length == frames.Length && disk.Length == DISK_WORDS && pra != disk
      && TopKey in tables && tables[TopKey] == root
    }

    /** No table is mapped. */
    ghost predicate Usable()
      reads this, frames, ref, pra, disk
    {
      Counts() && ExactInv(View())
    }

    /** The swap manager's list is in order, too. */
    ghost predicate Valid()
      reads this, frames, ref, pra, disk
    {
      Usable() && Inv(View())
    }

    /**
     The state when paging starts: the boot page table in page `at` of the kernel image, the
     pages from `first` on free, nothing mapped.
     */
    constructor (memory: seq<Frame>, at: nat, first: nat, pras: seq<nat>, contents: seq<nat>)
      requires (forall f | 0 <= f < |memory| :: |memory[f]| == NPTEENTRY)
      requires at < first <= |memory| && memory[at] == BootTable()
      requires |pras| == |memory| && |contents| == DISK_WORDS
      ensures Valid() && fresh(frames) && fresh(ref) && fresh(pra) && fresh(disk)
      ensures frames[..] == memory && |free| == |memory| - first && swappable == {} && !swapInitOk
      ensures tables == map[TopKey := at]
      ensures Sound(View()) && forall v | InRange(v) :: Entry(View(), v) == 0
    {
      frames := new Frame[|memory|](i requires 0 <= i < |memory| => memory[i]);
      ref := new int[|memory|](_ => 0);
      pra := new nat[|memory|](i requires 0 <= i < |pras| => pras[i]);
      disk := new nat[DISK_WORDS](i requires 0 <= i < |contents| => contents[i]);
      root := at;
      free := PagesFrom(first, |memory|);
      swappable := {};
      swapInitOk := false;
      tables := map[TopKey := at];
      new;
      assert frames[..] == memory;
      BootSound(View(), at, first);
    }

    // ----- physical pages -----

    /** pmm_manager->alloc_pages(1), with the choice among the free pages left open. */
    method PmmAlloc() returns (page: Option<nat>)
      modifies this`free
      ensures page.None? <==> old(free) == {}
      ensures page.None? ==> View() == old(View())
      ensures page.Some? ==> Allocated(old(View()), View(), page.value)
    {
      if free == {} {
        return None;
      }
      var f :| f in free;
      free := free - {f};
      page := Some(f);
    }

    /** pmm_manager->free_pages(page, 1), which clears the reference count. */
    method FreePage(page: nat)
      requires page < ref.Length
      modifies this`free, ref
      ensures View() == Release(old(View()), page)
    {
      ref[page] := 0;
      free := free + {page};
    }

    // ----- the swap disk -----

    method IdeWriteSecs(secno: nat, src: Frame, nsecs: nat)
      requires nsecs * SECT_WORDS <= |src| && (secno + nsecs) * SECT_WORDS <= disk.Length
      modifies disk
      ensures disk[..] == old(disk[..])[..secno * SECT_WORDS] + src[..nsecs * SECT_WORDS]
                          + old(disk[..])[(secno + nsecs) * SECT_WORDS..]
    {
      var iobase := secno * SECT_WORDS;
      var n := nsecs * SECT_WORDS;
      for k := 0 to n
        invariant disk[..] == old(disk[..])[..iobase] + src[..k] + old(disk[..])[iobase + k..]
      {
        disk[iobase + k] := src[k];
      }
    }

    method IdeReadSecs(secno: nat, nsecs: nat) returns (dst: Frame)
      requires (secno + nsecs) * SECT_WORDS <= disk.Length
      ensures dst == disk[secno * SECT_WORDS..(secno + nsecs) * SECT_WORDS]
    {
      var iobase := secno * SECT_WORDS;
      dst := [];
      for k := 0 to nsecs * SECT_WORDS
        invariant dst == disk[iobase..iobase + k]
      {
        dst := dst + [disk[iobase + k]];
      }
    }

    /** swapfs_write: the entry names the slot; a bad slot number would be a panic. */
    method SwapfsWrite(entry: nat, page: nat)
      requires SwapOffsetOk(entry) && page < frames.Length && |frames[page]| == NPTEENTRY && disk.Length == DISK_WORDS
      requires pra != disk
      modifies disk
      ensures View() == old(View()).(disk := WriteSlot(old(disk[..]), SwapOffset(entry), frames[page]))
      ensures var at := entry / 256 * 512;
              disk[..] == old(disk[..])[..at] + frames[page] + old(disk[..])[at + 512..]
    {
      IdeWriteSecs(SwapOffset(entry) * PAGE_NSECT, frames[page], PAGE_NSECT);
      assert frames[page][..512] == frames[page];
      assert disk[..] == WriteSlot(old(disk[..]), SwapOffset(entry), frames[page]);
    }

    method SwapfsRead(entry: nat, page: nat)
      requires SwapOffsetOk(entry) && page < frames.Length && disk.Length == DISK_WORDS
      modifies frames
      ensures View() == LoadSlot(old(View()), page, SwapOffset(entry))
      ensures frames[page] == disk[entry / 256 * 512..entry / 256 * 512 + 512]
    {
      var data := IdeReadSecs(SwapOffset(entry) * PAGE_NSECT, PAGE_NSECT);
      frames[page] := data;
    }

    // ----- walking without creating -----

    /** get_pte with create = 0: the page and index of the leaf entry of la, if its table exists. */
    method FindPte(la: nat) returns (pte: Option<(nat, nat)>)
      requires Counts() && la < VA_LIMIT
      ensures var v := IndexOf(la);
              pte == if LeafKey(v.i, v.j) in tables then Some((tables[LeafKey(v.i, v.j)], v.k)) else None
    {
      CountedOpen(View());
      IndexNumber(la);
      ghost var v := IndexOf(la);
      assert Points(frames[..][root][v.i], tables, MidKey(v.i));
      assert LeafKey(v.i, v.j) in tables ==> KeyOk(tables, LeafKey(v.i, v.j));
      var w1 := frames[root][Pdx1(la)];
      if !IsValid(w1) {
        return None;
      }
      assert Points(frames[..][tables[MidKey(v.i)]][v.j], tables, LeafKey(v.i, v.j));
      var w0 := frames[PageOf(w1)][Pdx0(la)];
      if !IsValid(w0) {
        return None;
      }
      return Some((PageOf(w0), Ptx(la)));
    }

    /** get_page: the page mapped at la, if any. */
    method GetPage(la: nat) returns (page: Option<nat>)
      requires Counts() && la < VA_LIMIT
      ensures Counted(View()) && InRange(IndexOf(la))
      ensures var e := Entry(View(), IndexOf(la));
              page == if IsValid(e) then Some(PageOf(e)) else None
    {
      CountedOpen(View());
      IndexNumber(la);
      var pte := FindPte(la);
      if pte.Some? {
        var (f, k) := pte.value;
        if IsValid(frames[f][k]) {
          MappedCount(View(), IndexOf(la));
          return Some(PageOf(frames[f][k]));
        }
      }
      page := None;
    }

    // ----- eviction and allocation -----

    /**
     The body of swap_out once the victim is chosen.  Counts and free pages stay in order iff the
     victim is mapped at its recorded address and nowhere else, which the code does not check.
     */
    method SwapOutPage(page: nat)
      requires Counts() && Evictable(View(), page)
      modifies this`swappable, this`free, ref, frames, disk
      ensures View() == Evict(old(View()), page)
      ensures Counts() <==> GoodVictim(old(View()), page)
      ensures old(Usable()) ==> (Usable() <==> GoodVictim(old(View()), page))
      ensures old(Valid()) && page in old(swappable) ==> Valid()
    {
      EvictOutcome(View(), page);
      var f, k := VictimPte(page);
      var entry := VictimEntry(pra[page]);
      EvictSteps(View(), page, f, k, entry);
      swappable := swappable - {page};
      SwapfsWrite(entry, page);
      WritePte(f, k, entry);
      FreePage(page);
    }

    /** The leaf entry that maps the victim, found from its recorded address. */
    method VictimPte(page: nat) returns (f: nat, k: nat)
      requires Counts() && Evictable(View(), page)
      ensures var u := IndexOf(pra[page]);
              && LeafKey(u.i, u.j) in tables && f == tables[LeafKey(u.i, u.j)] && k == u.k
              && f < frames.Length && |frames[f]| == NPTEENTRY && IsValid(frames[f][k])
    {
      NonZeroHasTable(View(), IndexOf(pra[page]));
      var pte := FindPte(pra[page]);
      f, k := pte.value.0, pte.value.1;
    }

    /** *ptep = w */
    method WritePte(f: nat, k: nat, w: nat)
      requires f < frames.Length && k < |frames[f]|
      modifies frames
      ensures View() == old(View()).(frames := Poke(old(frames[..]), f, k, w))
    {
      var table: Frame := frames[f][k := w];
      frames[f] := table;
    }

    /** One round of swap_out: any page of the swap manager's list may be the victim. */
    method SwapOutOne(ghost s0: State) returns (ghost victim: nat)
      requires Valid() && swappable != {} && Grown(s0, View(), 0)
      modifies this`swappable, this`free, ref, frames, disk
      ensures Valid() && Grown(s0, View(), 0)
      ensures victim in old(swappable) && Evictable(old(View()), victim) && View() == Evict(old(View()), victim)
      ensures |free| == |old(free)| + 1 && |swappable| == |old(swappable)| - 1
      ensures old(free) == {} ==> free == {victim}
    {
      var page :| page in swappable;
      victim := page;
      EvictStep(s0, View(), page);
      SwapOutPage(page);
    }

    /** swap_out: n rounds.  Evicting pages is invisible in the plain memory. */
    method SwapOut(n: nat) returns (rounds: nat, ghost victim: nat)
      requires Valid() && n <= |swappable|
      modifies this`swappable, this`free, ref, frames, disk
      ensures Valid() && Grown(old(View()), View(), 0) && |free| == |old(free)| + n && rounds == n
      ensures n == 1 ==> victim in old(swappable) && Evictable(old(View()), victim) &&
                         View() == Evict(old(View()), victim)
      ensures n == 1 && old(free) == {} ==> free == {victim}
    {
      ghost var s0 := View();
      GrownRefl(s0);
      victim := 0;
      var i := 0;
      while i != n
        invariant i <= n && Valid()
        invariant Grown(s0, View(), 0) && |free| == |s0.free| + i && |swappable| == |s0.swappable| - i
        invariant i == 0 ==> View() == s0
        invariant i == 1 ==> victim in s0.swappable && Evictable(s0, victim) && View() == Evict(s0, victim)
        invariant i == 1 && s0.free == {} ==> free == {victim}
      {
        victim := SwapOutOne(s0);
        i := i + 1;
      }
      rounds := i;
    }

    /**
     alloc_page: a free page, or when there is none and swapping is on, the page of an evicted
     victim.  Fails only when there is none and swapping is off.
     */
    method AllocPage() returns (page: Option<nat>)
      requires Usable() && (swapInitOk && free == {} ==> Valid() && swappable != {})
      modifies this`swappable, this`free, ref, frames, disk
      ensures Usable() && (Valid() <==> old(Valid()))
      ensures page.None? <==> old(free) == {} && !swapInitOk
      ensures page.None? ==> View() == old(View())
      ensures page.Some? ==> Allocated(old(View()), View(), page.value)
      ensures page.Some? ==> Grown(old(View()), View(), 1) && Owned(View(), page.value) && tables == old(tables)
      ensures page.Some? ==> page.value in old(free) || (old(Valid()) && page.value in old(swappable))
      ensures !swapInitOk || old(free) != {} ==> OnlyFree(old(View()), View())
    {
      ghost var s, victim, round := View(), 0, 0;
      while true
        invariant 0 <= round <= 1 && Usable() && (Valid() <==> old(Valid()))
        invariant round == 0 ==> View() == s
        invariant round == 1 ==> swapInitOk && s.free == {} && victim in s.swappable && Evictable(s, victim)
                                 && View() == Evict(s, victim) && free == {victim} && Valid()
        decreases 1 - round
      {
        ghost var t := View();
        page := PmmAlloc();
        if page.Some? {
          AllocStep(t, View(), page.value);
          AllocStep(s, View(), page.value);
          break;
        }
        if !swapInitOk {
          break;
        }
        var rounds;
        rounds, victim := SwapOut(1);
        round := round + 1;
      }
    }

    // ----- walking with creation -----

    /**
     One level of get_pte: follows the slot to the next table, or with `create` allocates a
     page, clears it and hangs it in.
     */
    method NextTable(parent: nat, slot: nat, create: bool, ghost key: Key) returns (table: Option<nat>)
      requires Usable() && TablePlace(tables, key)
      requires parent == tables[ParentKey(key)] && slot == ParentSlot(key)
      requires create && swapInitOk && key !in tables ==> free != {} || (Valid() && swappable != {})
      modifies this`swappable, this`free, this`tables, ref, frames, disk
      ensures Usable() && (Valid() <==> old(Valid())) && Grown(old(View()), View(), 0)
      ensures table == if key in tables then Some(tables[key]) else None
      ensures create && table.Some? ==> TableMade(old(View()), View(), key)
      ensures tables == old(tables) || (key !in old(tables) && key in tables && tables == old(tables)[key := tables[key]])
      ensures !create || key in old(tables) ==> View() == old(View())
      ensures create ==> (key !in tables <==> key !in old(tables) && old(free) == {} && !swapInitOk)
      ensures !swapInitOk || old(free) != {} || key in old(tables) ==> OnlyFree(old(View()), View())
      ensures |tables| <= |old(tables)| + (if key in old(tables) then 0 else 1)
    {
      hide Grown, Inv, TableMade, Allocated, Owned;
      ghost var s := View();
      TableSlot(s, key);
      GrownRefl(s);
      if !IsValid(frames[parent][slot]) {
        if !create {
          return None;
        }
        var page := AllocPage();
        if page.None? {
          return None;
        }
        ghost var s1 := View();
        TableStep(s, s1, key, page.value);
        MadeBy(s, s1, key, page.value);
        HangTable(page.value, parent, slot, key);
        return Some(page.value);
      }
      MadeAlready(s, key);
      table := Some(PageOf(frames[parent][slot]));
    }

    method HangTable(page: nat, parent: nat, slot: nat, ghost key: Key)
      requires Tree(View()) && ShapeOk(View()) && IsFrame(View(), page)
      requires TablePlace(tables, key) && key !in tables && page != parent
      requires parent == tables[ParentKey(key)] && slot == ParentSlot(key)
      modifies this`tables, ref, frames
      ensures View() == AddTable(old(View()), key, page)
    {
      ref[page] := 1;
      frames[page] := ZeroPage();
      WritePte(parent, slot, PteCreate(page, PTE_U + PTE_V));
      tables := tables[key := page];
    }

    /**
     get_pte: the page and index of the leaf entry of la.  With `create`, missing tables are
     added; that fails only when pages run out with swapping off, and changes no mapping.
     */
    method GetPte(la: nat, create: bool) returns (pte: Option<(nat, nat)>)
      requires Usable() && la < VA_LIMIT
      requires create && swapInitOk ==> CanWalk(View(), IndexOf(la))
      modifies this`swappable, this`free, this`tables, ref, frames, disk
      ensures Usable() && (Valid() <==> old(Valid())) && Grown(old(View()), View(), 0)
      ensures var v := IndexOf(la);
              pte == if LeafKey(v.i, v.j) in tables then Some((tables[LeafKey(v.i, v.j)], v.k)) else None
      ensures !create || MissingTables(old(View()), IndexOf(la)) == 0 ==> View() == old(View())
      ensures create && swapInitOk ==> pte.Some?
      ensures |tables| <= |old(tables)| + old(MissingTables(View(), IndexOf(la)))
      ensures pte.Some? ==> |tables| == |old(tables)| + old(MissingTables(View(), IndexOf(la)))
      ensures create && pte.Some? ==> Walked(old(View()), View(), IndexOf(la))
      ensures create && !swapInitOk ==> (pte.Some? <==> |old(free)| >= old(MissingTables(View(), IndexOf(la))))
      ensures !swapInitOk || |old(free)| >= old(MissingTables(View(), IndexOf(la))) ==> OnlyFree(old(View()), View())
    {
      hide Grown, Inv, CountedInv, TableMade, Walked, TablePlace;
      ghost var s, v := View(), IndexOf(la);
      IndexNumber(la);
      KeysOk(s, v);
      var mid := NextTable(root, Pdx1(la), create, MidKey(v.i));
      ghost var s1 := View();
      SupplyStep(s, s1, 0);
      KeysOk(s1, v);
      if mid.None? {
        return None;
      }
      var leaf := NextTable(mid.value, Pdx0(la), create, LeafKey(v.i, v.j));
      SupplyStep(s1, View(), 0);
      GrownTrans(s, s1, View(), 0, 0);
      if leaf.None? {
        return None;
      }
      if create {
        WalkedBy(s, s1, View(), v);
      }
      pte := Some((leaf.value, Ptx(la)));
    }

    // ----- removing and inserting -----

    /** page_remove_pte on the entry (f, k) of v. */
    method PageRemovePte(f: nat, k: nat, ghost v: Vpn)
      requires Tree(View()) && ShapeOk(View()) && MappedOk(View()) && InRange(v)
      requires LeafKey(v.i, v.j) in tables && f == tables[LeafKey(v.i, v.j)] && k == v.k
      modifies this`free, ref, frames
      ensures View() == Unmap(old(View()), v)
    {
      if IsValid(frames[f][k]) {
        var page := PageOf(frames[f][k]);
        assert IsFrame(View(), PageOf(Entry(View(), v)));
        ref[page] := ref[page] - 1;
        if ref[page] == 0 {
          FreePage(page);
        }
        WritePte(f, k, 0);
      }
    }

    /**
     page_remove: takes away the mapping at la; its page is freed when that was the last one.  The
     counts stay exact.  A page on the swap manager's list stays there, and then the list is no
     longer in order.
     */
    method PageRemove(la: nat)
      requires Counts() && la < VA_LIMIT
      modifies this`free, ref, frames
      ensures Counts() && (old(Usable()) ==> Usable()) && Counted(old(View())) && InRange(IndexOf(la))
      ensures var e := Entry(old(View()), IndexOf(la));
              && (if IsValid(e) then Unmapped(old(View()), View(), IndexOf(la), 0) else View() == old(View()))
              && (old(Valid()) ==> (Valid() <==> !(IsValid(e) && PageOf(e) in swappable)))
    {
      ghost var s, v := View(), IndexOf(la);
      CountedOpen(s);
      IndexNumber(la);
      var pte := FindPte(la);
      if pte.Some? {
        UnmapStep(s, v);
        PageRemovePte(pte.value.0, pte.value.1, v);
      }
    }

    /**
     page_insert: maps `page` at la, first dropping what was mapped there.  Returns -E_NO_MEM when
     a table page could not be had; then no mapping changed.  `mid` is the state after the walk.
     The counts stay exact in any case.  But the walk may have evicted `page` itself; then the
     page has become a table, and this table ends up mapped.  PageWalk.InsertSafe says when.
     The swap manager's list stays in order iff no page on it gains or loses a mapping.
     */
    method PageInsert(page: nat, la: nat, perm: nat) returns (r: int, ghost mid: State)
      requires Usable() && la < VA_LIMIT && perm < 1024 && Mappable(View(), page)
      requires swapInitOk ==> CanWalk(View(), IndexOf(la))
      modifies this`swappable, this`free, this`tables, ref, frames, disk
      ensures Grown(old(View()), mid, 0) && (MissingTables(old(View()), IndexOf(la)) == 0 ==> mid == old(View()))
      ensures |mid.tables| <= |old(tables)| + old(MissingTables(View(), IndexOf(la)))
      ensures r == 0 || r == -E_NO_MEM
      ensures r == 0 ==> Walked(old(View()), mid, IndexOf(la))
      ensures r == 0 ==> InsertedAt(mid, View(), IndexOf(la), page, perm) && tables == mid.tables
      ensures Counts() && (r == 0 ==> (Usable() <==> !IsTable(mid.tables, page)))
      ensures IsTable(mid.tables, page) ==>
                swapInitOk && page in old(swappable) && |old(free)| < old(MissingTables(View(), IndexOf(la)))
      ensures r == 0 && old(Valid()) && Usable() ==> (Valid() <==> KeepsList(mid, IndexOf(la), page))
      ensures r != 0 ==> Usable() && View() == mid && !swapInitOk
      ensures !swapInitOk ==> (r != 0 <==> |old(free)| < MissingTables(old(View()), IndexOf(la)))
    {
      hide Inv, ExactInv, Grown, OnlyFree, Walked, InsertedAt, KeepsList, IsTable;
      ghost var v := IndexOf(la);
      IndexNumber(la);
      var pte := GetPte(la, true);
      mid := View();
      WalkedTo(old(View()), mid, page);
      if pte.None? {
        return -E_NO_MEM, mid;
      }
      AfterWalk(old(View()), mid, v, page);
      InsertStep(mid, v, page, perm);
      InsertAt(page, perm, pte.value.0, pte.value.1, v);
      r := 0;
    }

    /** The rest of page_insert, once the entry (f, k) of v is at hand. */
    method InsertAt(page: nat, perm: nat, f: nat, k: nat, ghost v: Vpn)
      requires Tree(View()) && ShapeOk(View()) && MappedOk(View()) && InRange(v)
      requires LeafKey(v.i, v.j) in tables && f == tables[LeafKey(v.i, v.j)] && k == v.k
      requires IsFrame(View(), page) && perm < 1024
      modifies this`free, ref, frames
      ensures View() == InsertPage(old(View()), v, page, perm)
    {
      ref[page] := ref[page] + 1;
      if IsValid(frames[f][k]) {
        if PageOf(frames[f][k]) == page {
          ref[page] := ref[page] - 1;
        } else {
          PageRemovePte(f, k, v);
        }
      }
      WritePte(f, k, PteCreate(page, perm));
    }

    // ----- page faults -----

    /** swap_map_swappable and page->pra_vaddr = la */
    method MapSwappable(page: nat, la: nat)
      requires page < pra.Length && pra != disk
      modifies this`swappable, pra
      ensures View() == MakeSwappable(old(View()), page, la)
    {
      swappable := swappable + {page};
      pra[page] := la;
    }

    /**
     pgdir_alloc_page: an allocated page inserted at la, and with swapping on handed to the swap
     manager.  s1, mid and s2 are the states after the allocation, the walk and the insertion.
     Fails only when pages run out with swapping off; then nothing but tables was added.
     */
    method PgdirAllocPage(la: nat, perm: nat)
      returns (page: Option<nat>, ghost s1: State, ghost mid: State, ghost s2: State)
      requires Usable() && la < VA_LIMIT && perm < 1024
      requires swapInitOk ==> CanAlloc(View(), IndexOf(la))
      modifies this`swappable, this`free, this`tables, ref, frames, disk, pra
      ensures Usable()
      ensures page.Some? ==>
                Placed(old(View()), s1, mid, s2, IndexOf(la), page.value, perm) &&
                View() == if swapInitOk then MakeSwappable(s2, page.value, la) else s2
      ensures |tables| <= |old(tables)| + old(MissingTables(View(), IndexOf(la)))
      ensures page.None? ==> Grown(old(View()), View(), 0)
      ensures page.None? <==> !swapInitOk && |old(free)| <= MissingTables(old(View()), IndexOf(la))
    {
      hide Inv, Grown, Owned, InsertedAt, OnlyFree;
      ghost var s, v := View(), IndexOf(la);
      s1, mid, s2 := s, s, s;
      page := AllocPage();
      if page.Some? {
        var f := page.value;
        s1 := View();
        AllocLeft(s, s1, v, f, swapInitOk);
        var r;
        r, mid := PageInsert(f, la, perm);
        s2 := View();
        if r != 0 {
          GiveBack(s, s1, mid, f);
          FreePage(f);
          return None, s1, mid, s2;
        }
        FreshRef(s1, mid, s2, v, f, perm);
        if swapInitOk {
          ListStep(s2, f, la);
          MapSwappable(f, la);
          assert ref[f] == 1;
        }
      } else {
        GrownRefl(s);
      }
    }

    /** swap_in: a page filled from v's disk slot. */
    method SwapIn(la: nat) returns (page: nat)
      requires Valid() && la < VA_LIMIT && NotMapped(View(), IndexOf(la)) && !NeverPresent(View(), IndexOf(la))
      requires swapInitOk && (free != {} || swappable != {})
      modifies this`swappable, this`free, ref, frames, disk
      ensures Valid() && tables == old(tables)
      ensures HandedOut(old(View()), View(), page) && Loaded(old(View()), View(), IndexOf(la), page)
    {
      ghost var s, v := View(), IndexOf(la);
      var result := AllocPage();
      assert result.Some?;
      page := result.value;
      ghost var s1 := View();
      LoadReady(s, s1, v, page);
      var pte := FindPte(la);
      var entry := frames[pte.value.0][pte.value.1];
      LoadStep(s, s1, v, page, SwapOffset(entry));
      SwapfsRead(entry, page);
      GrownInv(s, View(), 1);
    }

    /**
     do_pgfault: a page never touched gets a fresh frame, a swapped-out one is read back from its
     disk slot.  With swapping off a page that is mapped or swapped out is an error; with it on,
     a mapped page would be a panic.
     */
    method DoPgfault(mm: MmStruct, addr: nat) returns (ret: int, ghost page: nat, ghost area: Area)
      requires Valid() && mm.Valid() && AreasBelow(mm.ring, VA_LIMIT)
      requires !NoneContains(mm.ring, addr) ==> CanFault(View(), IndexOf(addr), swapInitOk)
      modifies this`swappable, this`free, this`tables, ref, frames, disk, pra, mm`mmapCache
      ensures Valid() && mm.Valid()
      ensures ret == -E_INVAL <==> NoneContains(mm.ring, addr)
      ensures ret == -E_INVAL ==> View() == old(View())
      ensures ret == 0 || ret == -E_INVAL || ret == -E_NO_MEM
      ensures ret == -E_NO_MEM <==> !NoneContains(mm.ring, addr) && FaultFails(old(View()), IndexOf(addr), swapInitOk)
      ensures ret == -E_NO_MEM ==> Grown(old(View()), View(), 0)
      ensures ret != -E_INVAL ==> addr < VA_LIMIT && Contains(area, addr) && AreaIn(mm.ring, area)
      ensures ret == 0 ==> Brought(old(View()), View(), IndexOf(addr), page, PermOf(area), swapInitOk)
      ensures ret == 0 ==> HasEntry(View(), IndexOf(addr), FaultEntry(page, area))
      ensures ret == 0 ==> |tables| <= |old(tables)| + old(MissingTables(View(), IndexOf(addr)))
    {
      hide FaultFails, CanFault, Grown, Brought, Inv, HasEntry, FaultEntry;
      page, area := 0, Area(0, 0, 0);
      var vma := mm.FindVma(addr);
      if vma == null || vma.owner.start > addr {
        return -E_INVAL, page, area;
      }
      area := vma.owner;
      FoundArea(mm.ring, vma, addr);
      var perm := PTE_U;
      if Writable(vma.owner) {
        perm := perm + PTE_R + PTE_W;
      }
      PageBaseIndex(addr);
      ghost var s := View();
      ret, page := BringPage(PageBase(addr), perm);
      if ret == 0 {
        BroughtEntry(s, View(), IndexOf(addr), page, area, swapInitOk);
      }
    }

    /** The rest of do_pgfault, for an address inside an area. */
    method BringPage(la: nat, perm: nat) returns (ret: int, ghost page: nat)
      requires Valid() && la < VA_LIMIT && perm < 1024 && CanFault(View(), IndexOf(la), swapInitOk)
      modifies this`swappable, this`free, this`tables, ref, frames, disk, pra
      ensures Valid()
      ensures ret == if FaultFails(old(View()), IndexOf(la), swapInitOk) then -E_NO_MEM else 0
      ensures ret != 0 ==> Grown(old(View()), View(), 0)
      ensures ret == 0 ==> Brought(old(View()), View(), IndexOf(la), page, perm, swapInitOk)
      ensures ret == 0 ==> |tables| <= |old(tables)| + old(MissingTables(View(), IndexOf(la)))
    {
      hide Grown, Inv, ExactInv, Brought, NotMapped, NeverPresent, FaultFails, MissingTables, CanFault;
      ghost var s := View();
      var entry := FaultPte(la);
      ghost var s1 := View();
      ret, page := FillPage(la, perm, entry);
      if ret == 0 {
        BroughtAfter(s, s1, View(), IndexOf(la), page, perm, swapInitOk);
      } else {
        GrownTrans(s, s1, View(), 0, 0);
      }
    }

    /** The entry do_pgfault looks at, its tables made when they are missing. */
    method FaultPte(la: nat) returns (entry: nat)
      requires Valid() && la < VA_LIMIT && CanFault(View(), IndexOf(la), swapInitOk)
      modifies this`swappable, this`free, this`tables, ref, frames, disk
      ensures Valid() && Grown(old(View()), View(), 0)
      ensures |tables| <= |old(tables)| + old(MissingTables(View(), IndexOf(la)))
      ensures MissingTables(View(), IndexOf(la)) == 0 && (entry == 0 <==> NeverPresent(View(), IndexOf(la)))
      ensures swapInitOk ==> NotMapped(View(), IndexOf(la)) && HasSlot(IndexOf(la))
                             && |free| + |swappable| > 0 && (free != {} || swappable != {})
      ensures FaultFails(old(View()), IndexOf(la), swapInitOk) <==> !swapInitOk && (entry != 0 || |free| <= 0)
    {
      ghost var s, v := View(), IndexOf(la);
      var pte := GetPte(la, true);
      entry := ReadPte(pte.value.0, pte.value.1, v);
      TablesReady(s, View(), v, swapInitOk);
      hide Grown, Inv, ExactInv, NotMapped, NeverPresent, FaultFails, MissingTables, CanFault;
    }

    /** do_pgfault once the tables are there: a fresh page, or the one on disk. */
    method FillPage(la: nat, perm: nat, entry: nat) returns (ret: int, ghost page: nat)
      requires Valid() && la < VA_LIMIT && perm < 1024 && MissingTables(View(), IndexOf(la)) == 0
      requires entry == 0 <==> NeverPresent(View(), IndexOf(la))
      requires swapInitOk ==> NotMapped(View(), IndexOf(la)) && HasSlot(IndexOf(la))
                              && |free| + |swappable| > 0 && (free != {} || swappable != {})
      modifies this`swappable, this`free, this`tables, ref, frames, disk, pra
      ensures Valid() && |tables| <= |old(tables)|
      ensures ret == if !swapInitOk && (entry != 0 || |old(free)| <= 0) then -E_NO_MEM else 0
      ensures ret != 0 ==> Grown(old(View()), View(), 0)
      ensures ret == 0 ==> Brought(old(View()), View(), IndexOf(la), page, perm, swapInitOk)
    {
      hide Inv, ExactInv, Brought, Grown, NotMapped, NeverPresent, MissingTables, Placed;
      page := 0;
      ghost var s := View();
      if entry == 0 {
        var filled;
        ghost var s1, mid, s2;
        filled, s1, mid, s2 := PgdirAllocPage(la, perm);
        if filled.None? {
          GrownInv(s, View(), 0);
          return -E_NO_MEM, page;
        }
        page := filled.value;
        FreshStep(s, s1, mid, s2, View(), IndexOf(la), page, perm, la, swapInitOk);
      } else {
        if !swapInitOk {
          GrownRefl(View());
          return -E_NO_MEM, page;
        }
        page := SwapBackIn(la, perm);
      }
      ret := 0;
    }

    /** The branch of do_pgfault for a page that was swapped out. */
    method SwapBackIn(la: nat, perm: nat) returns (page: nat)
      requires Valid() && la < VA_LIMIT && perm < 1024 && HasSlot(IndexOf(la))
      requires NotMapped(View(), IndexOf(la)) && !NeverPresent(View(), IndexOf(la))
      requires swapInitOk && (free != {} || swappable != {})
      modifies this`swappable, this`free, this`tables, ref, frames, disk, pra
      ensures Valid() && Brought(old(View()), View(), IndexOf(la), page, perm, true) && |tables| == |old(tables)|
    {
      hide Inv, Grown, Brought, InsertedAt, Owned, Loaded;
      ghost var s, v := View(), IndexOf(la);
      EntryZero(s, v);
      page := SwapIn(la);
      ghost var s1 := View();
      OwnedMappable(s1, page);
      var r;
      ghost var mid;
      r, mid := PageInsert(page, la, perm);
      MapStep(s, s1, mid, View(), v, page, perm);
      SwappableStep(s, View(), v, page, perm, la);
      MapSwappable(page, la);
    }

    /** *ptep, where the entry of v lies. */
    method ReadPte(f: nat, k: nat, ghost v: Vpn) returns (w: nat)
      requires Counts() && InRange(v) && LeafKey(v.i, v.j) in tables && f == tables[LeafKey(v.i, v.j)] && k == v.k
      ensures Tree(View()) && w == Entry(View(), v)
    {
      CountedOpen(View());
      w := frames[f][k];
    }
  }

  /** What pgdir_alloc_page did, step by step: page f was handed out, tables made, f inserted at v. */
  ghost predicate Placed(s: State, s1: State, mid: State, s2: State, v: Vpn, f: nat, perm: nat)
  {
    && HandedOut(s, s1, f) && Grown(s1, mid, 0) && InsertedAt(mid, s2, v, f, perm)
    && f < |s2.ref| == |s2.pra| && s2.ref[f] == 1
  }

  /** Pages enough for the missing tables of v and one more; with a list out of order, free ones. */
  ghost predicate CanAlloc(s: State, v: Vpn)
  {
    |s.free| > MissingTables(s, v) || (Inv(s) && |s.free| + |s.swappable| > MissingTables(s, v))
  }

  /** After the allocation the tables can still be had. */
  lemma AllocLeft(s: State, s1: State, v: Vpn, f: nat, swapOn: bool)
    requires Grown(s, s1, 1) && Allocated(s, s1, f) && Owned(s1, f) && s1.tables == s.tables
    requires swapOn ==> CanAlloc(s, v)
    ensures Mappable(s1, f) && (swapOn ==> CanWalk(s1, v)) && MissingTables(s1, v) == MissingTables(s, v)
    ensures s.free != {} ==> |s1.free| == |s.free| - 1
  {
    OwnedMappable(s1, f);
    SupplyStep(s, s1, 1);
    GrownInv(s, s1, 1);
    hide Inv, Grown, Owned;
  }

  /** The assertion of pgdir_alloc_page: the new page has one reference. */
  lemma FreshRef(s1: State, mid: State, s2: State, v: Vpn, f: nat, perm: nat)
    requires Owned(s1, f) && Grown(s1, mid, 0) && InsertedAt(mid, s2, v, f, perm)
    ensures Mappable(mid, f) && ExactInv(s2) && f < |s2.ref| == |s2.pra| && s2.ref[f] == 1
  {
    HeldStays(s1, mid, f);
    assert Open(mid);
    InsertCounted(mid, v, f, perm);
    InsertMappings(mid, v, f, perm, f);
    InsertEntries(mid, v, f, perm);
    hide InsertPage, MappedOk, TablesUnmapped, EntriesOk, FreeOk;
    assert RefOk(s2, f);
  }

  lemma ListStep(s: State, f: nat, la: nat)
    requires ExactInv(s) && f < |s.pra|
    ensures ExactInv(MakeSwappable(s, f, la))
  {
    ExactOpen(s);
    MakeSwappableInv(s, f, la);
  }

  /** At an address where nothing was, pgdir_alloc_page brings a page in, whatever it holds. */
  lemma FreshStep(s: State, s1: State, mid: State, s2: State, s3: State, v: Vpn, f: nat, perm: nat, la: nat, swapOn: bool)
    requires NeverPresent(s, v) && Placed(s, s1, mid, s2, v, f, perm)
    requires s3 == if swapOn then MakeSwappable(s2, f, la) else s2
    requires la < VA_LIMIT && IndexOf(la) == v && (swapOn ==> HasSlot(v))
    ensures Brought(s, s3, v, f, perm, swapOn) && Inv(s3)
  {
    FreshPage(s, s1, v, f);
    hide Inv, Grown, HandedOut, InsertedAt, Brought, NotMapped, NeverPresent, Loaded;
    MapStep(s, s1, mid, s2, v, f, perm);
    if swapOn {
      SwappableStep(s, s2, v, f, perm, la);
    }
  }

  lemma FreshPage(s: State, s1: State, v: Vpn, f: nat)
    requires NeverPresent(s, v)
    ensures Loaded(s, s1, v, f) && NotMapped(s, v)
  {
    assert Open(s);
    assert HoldsContents(s, s1, v, f);
  }

  /** The permissions that do_pgfault gives pages of an area. */
  function PermOf(a: Area): nat
  {
    if Writable(a) then PTE_U + PTE_R + PTE_W else PTE_U
  }

  /** The entry a fault makes, in numbers: the page and U and V, and for writable areas R and W. */
  function FaultEntry(page: nat, a: Area): nat
  {
    (0x80000 + page) * 1024 + (if a.flags / 2 % 2 == 1 then 16 + 4 + 2 + 1 else 16 + 1)
  }

  ghost predicate HasEntry(s: State, v: Vpn, w: nat)
  {
    forall t {:trigger Open(t)} :: t == s ==> Tree(t) && InRange(v) && Entry(t, v) == w
  }

  lemma BroughtEntry(s: State, s': State, v: Vpn, f: nat, a: Area, swapOn: bool)
    requires Brought(s, s', v, f, PermOf(a), swapOn)
    ensures HasEntry(s', v, FaultEntry(f, a))
  {
    FaultValue(f, a);
    hide PteCreate, FaultEntry, Sound, BroughtContents;
    assert OpenBrought(s, s');
    BroughtSound(s, s', v, f, PermOf(a), swapOn);
    ExactCounted(s');
  }

  lemma FaultValue(page: nat, a: Area)
    ensures PteCreate(page, PermOf(a)) == FaultEntry(page, a)
  {
  }

  /** The source means every page to be readable; only those of writable areas are. */
  lemma FaultFlags(a: Area, page: nat)
    ensures HasFlag(PteCreate(page, PermOf(a)), PTE_R) <==> Writable(a)
    ensures HasFlag(PteCreate(page, PermOf(a)), PTE_W) <==> Writable(a)
  {
    PermissionFlags(page);
  }

  ghost predicate AreasBelow(r: seq<ListEntry<Area>>, limit: nat)
  {
    forall i | 1 <= i < |r| :: r[i].owner.end <= limit
  }

  ghost predicate AreaIn(r: seq<ListEntry<Area>>, a: Area)
  {
    exists i :: 1 <= i < |r| && r[i].owner == a
  }

  /**
   The fault at v can be answered: with swapping on the page is not mapped, has a disk slot, and
   there are pages for the missing tables and for itself.  With swapping off the handler assumes
   that at least the tables can be had.
   */
  ghost predicate CanFault(s: State, v: Vpn, swapOn: bool)
  {
    if swapOn then NotMapped(s, v) && HasSlot(v) && |s.free| + |s.swappable| > MissingTables(s, v)
    else |s.free| >= MissingTables(s, v)
  }

  /**
   With swapping off a fault fails exactly when the page is mapped or was swapped out earlier, or
   when the missing tables take the last free page.
   */
  ghost predicate FaultFails(s: State, v: Vpn, swapOn: bool)
  {
    !swapOn && (!NeverPresent(s, v) || |s.free| == MissingTables(s, v))
  }

  /** After get_pte the tables are there, and what is left decides the rest of the fault. */
  lemma TablesReady(s: State, s1: State, v: Vpn, swapOn: bool)
    requires Inv(s) && InRange(v) && CanFault(s, v, swapOn) && Grown(s, s1, 0)
    requires |s1.tables| == |s.tables| + MissingTables(s, v) && LeafKey(v.i, v.j) in s1.tables
    requires (!swapOn ==> s1.swappable == s.swappable) && (MissingTables(s, v) == 0 ==> s1 == s)
    ensures Tree(s1) && MissingTables(s1, v) == 0 && (NeverPresent(s1, v) <==> Entry(s1, v) == 0)
    ensures swapOn ==> NotMapped(s1, v)
    ensures Entry(s1, v) != 0 ==> s1 == s && (FaultFails(s, v, swapOn) <==> !swapOn)
    ensures Entry(s1, v) == 0 ==> (FaultFails(s, v, swapOn) <==> !swapOn && |s1.free| <= 0)
    ensures swapOn ==> HasSlot(v) && |s1.free| + |s1.swappable| > 0 && (s1.free != {} || s1.swappable != {})
  {
    SupplyStep(s, s1, 0);
    GrownInv(s, s1, 0);
    EntryZero(s, v);
    EntryZero(s1, v);
    if NotMapped(s, v) {
      NotMappedGrown(s, s1, v);
    }
    hide Grown, NotMapped, Tree, NeverPresent, Inv;
  }

  lemma FoundArea(r: seq<ListEntry<Area>>, vma: ListEntry<Area>, addr: nat)
    requires IsOnly(r, vma, addr) && AreasBelow(r, VA_LIMIT)
    ensures !NoneContains(r, addr) && AreaIn(r, vma.owner) && addr < VA_LIMIT
  {
  }
}
