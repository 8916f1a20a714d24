/**
 Inserting, removing and bringing back pages, as relations between paging states.
 */
module PageMapping {
  import opened Sv39
  import opened PageState
  import opened PageOps
  import opened PageGrowth

  // ----- insertion -----

  /** Inserting `page` at v leaves a sound list sound: no page on it gains or loses a mapping. */
  ghost predicate InsertKeepsList(s: State, v: Vpn, page: nat)
    requires Tree(s) && InRange(v)
  {
    Maps(s, v, page) ||
    (page !in s.swappable && (IsValid(Entry(s, v)) ==> PageOf(Entry(s, v)) !in s.swappable))
  }

  /** After an insertion v maps the page, and no other page has a different entry. */
  lemma InsertEntries(s: State, v: Vpn, page: nat, perm: nat)
    requires Counted(s) && InRange(v) && LeafKey(v.i, v.j) in s.tables && IsFrame(s, page) && perm < 1024
    ensures var s' := InsertPage(s, v, page, perm);
            && Tree(s') && ShapeOk(s') && |s'.frames| == |s.frames|
            && s'.tables == s.tables && s'.swappable == s.swappable && s'.pra == s.pra
            && (forall u | InRange(u) :: Entry(s', u) == if u == v then PteCreate(page, perm) else Entry(s, u))
            && Maps(s', v, page)
  {
    PteRoundTrip(page, perm);
    InsertCases(s, v, page, perm);
    if Maps(s, v, page) {
      ReflagFacts(s, v, page, perm);
    } else if IsValid(Entry(s, v)) {
      UnmapInv(s, v);
      MapNewFacts(Unmap(s, v), v, page, perm);
    } else {
      MapNewFacts(s, v, page, perm);
    }
    hide MappedOk, TablesUnmapped, FreeOk, EntriesOk, RefsOk, InsertPage;
  }

  lemma UnmapStill(s: State, v: Vpn, page: nat)
    requires Counted(s) && InRange(v) && IsValid(Entry(s, v)) && PageOf(Entry(s, v)) != page
    requires LeafKey(v.i, v.j) in s.tables && Unmapped(s, Unmap(s, v), v, 0)
    ensures !IsValid(Entry(Unmap(s, v), v))
    ensures Insertable(s, page) ==> Insertable(Unmap(s, v), page)
    ensures Mappable(s, page) ==> Mappable(Unmap(s, v), page)
  {
  }

  /** page_insert keeps the counts exact for every page, free pages and tables included. */
  lemma InsertRefs(s: State, v: Vpn, page: nat, perm: nat)
    requires Counted(s) && InRange(v) && LeafKey(v.i, v.j) in s.tables && IsFrame(s, page) && perm < 1024
    ensures Tree(InsertPage(s, v, page, perm)) && ShapeOk(InsertPage(s, v, page, perm))
    ensures RefsOk(InsertPage(s, v, page, perm))
  {
    InsertCases(s, v, page, perm);
    hide InsertPage, EntriesOk;
    if Maps(s, v, page) {
      ReflagInv(s, v, page, perm);
    } else if IsValid(Entry(s, v)) {
      UnmapInv(s, v);
      UnmapStill(s, v, page);
      MapNewRefs(Unmap(s, v), v, page, perm);
    } else {
      MapNewRefs(s, v, page, perm);
    }
  }

  /** Free pages and the tree stay in order too, for every allocated page but the top table. */
  lemma InsertCounted(s: State, v: Vpn, page: nat, perm: nat)
    requires Counted(s) && InRange(v) && LeafKey(v.i, v.j) in s.tables && Insertable(s, page) && perm < 1024
    ensures Counted(InsertPage(s, v, page, perm))
    ensures Exact(s) && Mappable(s, page) ==> Exact(InsertPage(s, v, page, perm))
  {
    InsertCases(s, v, page, perm);
    hide InsertPage, EntriesOk, RefsOk;
    if Maps(s, v, page) {
      ReflagInv(s, v, page, perm);
    } else if IsValid(Entry(s, v)) {
      UnmapInv(s, v);
      UnmapStill(s, v, page);
      MapNewInv(Unmap(s, v), v, page, perm);
    } else {
      MapNewInv(s, v, page, perm);
    }
  }

  /** Everything stays in order iff the page is allocated and no table: else a table, or a free page, is mapped. */
  lemma InsertInv(s: State, v: Vpn, page: nat, perm: nat)
    requires Exact(s) && InRange(v) && LeafKey(v.i, v.j) in s.tables && IsFrame(s, page) && perm < 1024
    ensures Exact(InsertPage(s, v, page, perm)) <==> Mappable(s, page)
  {
    if Mappable(s, page) {
      InsertCounted(s, v, page, perm);
    } else {
      InsertEntries(s, v, page, perm);
      InsertFrees(s, v, page, perm, page);
      hide InsertPage, EntriesOk, RefsOk;
    }
  }

  /** A sound list stays sound exactly when no page on it gains or loses a mapping. */
  lemma InsertSwap(s: State, v: Vpn, page: nat, perm: nat)
    requires Sound(s) && InRange(v) && LeafKey(v.i, v.j) in s.tables && Mappable(s, page) && perm < 1024
    ensures Tree(InsertPage(s, v, page, perm))
    ensures SwapOk(InsertPage(s, v, page, perm)) <==> InsertKeepsList(s, v, page)
  {
    InsertCases(s, v, page, perm);
    hide InsertPage, EntriesOk, RefsOk;
    if Maps(s, v, page) {
      ReflagInv(s, v, page, perm);
    } else if IsValid(Entry(s, v)) {
      UnmapInv(s, v);
      UnmapStill(s, v, page);
      MapNewInv(Unmap(s, v), v, page, perm);
      if PageOf(Entry(s, v)) in s.swappable {
        Orphan(s, v, page, perm);
      }
    } else {
      MapNewInv(s, v, page, perm);
    }
  }

  /** A page on the list whose mapping was replaced has none left. */
  lemma Orphan(s: State, v: Vpn, page: nat, perm: nat)
    requires Sound(s) && InRange(v) && LeafKey(v.i, v.j) in s.tables && Mappable(s, page) && perm < 1024
    requires IsValid(Entry(s, v)) && PageOf(Entry(s, v)) != page && PageOf(Entry(s, v)) in s.swappable
    requires Exact(Unmap(s, v)) && Unmapped(s, Unmap(s, v), v, 0) && Unmap(s, v).swappable == s.swappable
    ensures Tree(MapNew(Unmap(s, v), v, page, perm)) && !SwapOk(MapNew(Unmap(s, v), v, page, perm))
  {
    var p := PageOf(Entry(s, v));
    assert SwappableOk(s, p) && v in Mappings(s, p);
    MapNewFacts(Unmap(s, v), v, page, perm);
    hide Unmap, MapNew, MappedOk, TablesUnmapped, FreeOk, EntriesOk, RefsOk;
    assert !SwappableOk(MapNew(Unmap(s, v), v, page, perm), p);
  }

  /** From s to s' only free pages were handed out, as new tables at most. */
  ghost predicate OnlyFree(s: State, s': State)
  {
    && s'.free <= s.free && s'.swappable == s.swappable
    && forall key <- s'.tables :: (key in s.tables && s'.tables[key] == s.tables[key]) || s'.tables[key] in s.free
  }

  /** The walk of page_insert takes the page away at most if it is on the list and an eviction is needed. */
  lemma WalkedTo(s: State, s': State, page: nat)
    requires Grown(s, s', 0) && Mappable(s, page)
    ensures IsFrame(s', page)
    ensures page !in s.swappable || OnlyFree(s, s') ==> Mappable(s', page)
  {
    GrownOpen(s, s', 0);
    assert FixedStays(s, s', page);
  }

  /** Pages enough for the missing tables of v; with a list out of order they must be free ones. */
  ghost predicate CanWalk(s: State, v: Vpn)
  {
    |s.free| >= MissingTables(s, v) || (Inv(s) && |s.free| + |s.swappable| >= MissingTables(s, v))
  }

  /** What page_remove_pte makes of the state. */
  lemma UnmapStep(s: State, v: Vpn)
    requires Counted(s) && InRange(v) && LeafKey(v.i, v.j) in s.tables
    ensures CountedInv(Unmap(s, v)) && (ExactInv(s) ==> ExactInv(Unmap(s, v)))
    ensures var e := Entry(s, v);
            && (if IsValid(e) then Unmapped(s, Unmap(s, v), v, 0) else Unmap(s, v) == s)
            && (Inv(s) ==> (Inv(Unmap(s, v)) <==> !(IsValid(e) && PageOf(e) in s.swappable)))
  {
    var s' := Unmap(s, v);
    if IsValid(Entry(s, v)) {
      UnmapInv(s, v);
      hide Counted, Exact, Unmap, Unmapped, Entry;
      InvIsSound(s);
      InvIsSound(s');
      SoundParts(s);
      SoundParts(s');
    }
  }

  /** What swap_out of one victim makes of the state. */
  lemma EvictOutcome(s: State, f: nat)
    requires CountedInv(s) && Evictable(s, f)
    ensures CountedInv(Evict(s, f)) <==> GoodVictim(s, f)
    ensures ExactInv(s) ==> (ExactInv(Evict(s, f)) <==> GoodVictim(s, f))
    ensures Inv(s) && f in s.swappable ==> Inv(Evict(s, f))
  {
    CountedOpen(s);
    var s' := Evict(s, f);
    EvictInv(s, f);
    if Inv(s) && f in s.swappable {
      InvOpen(s);
      SwappableEvictable(s, f);
    }
    hide Counted, Exact, Sound, Evict, GoodVictim;
    InvIsSound(s);
    InvIsSound(s');
    SoundParts(s);
    SoundParts(s');
  }

  /** Where the references of a page go on insertion: it gains v, the page it replaces loses v. */
  lemma InsertMappings(s: State, v: Vpn, page: nat, perm: nat, f: int)
    requires Counted(s) && InRange(v) && LeafKey(v.i, v.j) in s.tables && IsFrame(s, page) && perm < 1024
    ensures Tree(InsertPage(s, v, page, perm))
    ensures Mappings(InsertPage(s, v, page, perm), f) == if f == page then Mappings(s, f) + {v} else Mappings(s, f) - {v}
  {
    InsertEntries(s, v, page, perm);
    PteRoundTrip(page, perm);
    hide InsertPage;
    var s' := InsertPage(s, v, page, perm);
    forall u ensures u in Mappings(s', f) <==>
                     u in if f == page then Mappings(s, f) + {v} else Mappings(s, f) - {v}
    {
      assert InRange(u) ==> Entry(s', u) == if u == v then PteCreate(page, perm) else Entry(s, u);
    }
  }

  /**
   An insertion frees a page exactly when it takes away its last mapping; never the inserted page,
   and never a table.
   */
  lemma InsertFrees(s: State, v: Vpn, page: nat, perm: nat, f: nat)
    requires Counted(s) && InRange(v) && LeafKey(v.i, v.j) in s.tables && IsFrame(s, page) && perm < 1024
    ensures f in InsertPage(s, v, page, perm).free <==>
              f in s.free || (f != page && Mappings(s, f) == {v} && !IsTable(s.tables, f))
  {
    assert Mappings(s, f) == {v} ==> v in Mappings(s, f);
    InsertCases(s, v, page, perm);
    if Maps(s, v, page) {
      MappedCount(s, v);
    } else if IsValid(Entry(s, v)) {
      UnmapInv(s, v);
      MappedCount(s, v);
      LastMapping(Mappings(s, PageOf(Entry(s, v))), v);
    }
    hide InsertPage, RefsOk, EntriesOk;
  }

  // ----- the end of a page fault -----

  /** v now has frame f to itself; other entries are as before or evicted. */
  ghost predicate BroughtEntries(s: State, s': State, v: Vpn, f: nat, perm: nat, swapOn: bool)
  {
    && Sound(s) && Sound(s') && InRange(v) && perm < 1024 && |s'.frames| == |s.frames| && IsFrame(s', f)
    && Entry(s', v) == PteCreate(f, perm) && Mappings(s', f) == {v}
    && s'.swappable <= s.swappable + {f} && (swapOn <==> f in s'.swappable)
    && (forall u | InRange(u) && u != v :: Entry(s', u) == Entry(s, u) || EvictedAt(s, s', u))
    && (forall key <- s.tables :: key in s'.tables)
    && Supply(s') == (if swapOn then Supply(s) else Supply(s) - 1)
  }

  /** Bringing in v leaves every page's contents alone; only v may have become present. */
  ghost predicate BroughtContents(s: State, s': State, v: Vpn)
    requires Exact(s) && Exact(s')
  {
    && (forall u | InRange(u) && u != v :: Present(s', u) <==> Present(s, u))
    && (forall u | InRange(u) && Present(s, u) :: Present(s', u) && Contents(s', u) == Contents(s, u))
  }

  /** s' is s after v was given frame f: everything else in the plain memory is as before. */
  ghost predicate BroughtIn(s: State, s': State, v: Vpn, f: nat, perm: nat, swapOn: bool)
  {
    BroughtEntries(s, s', v, f, perm, swapOn) && BroughtContents(s, s', v)
  }

  lemma MapNewContents(s: State, v: Vpn, page: nat, perm: nat, u: Vpn)
    requires Exact(s) && InRange(v) && LeafKey(v.i, v.j) in s.tables && !IsValid(Entry(s, v))
    requires Mappable(s, page) && perm < 1024 && InRange(u)
    requires u == v || Present(s, u)
    ensures Exact(MapNew(s, v, page, perm)) && Present(MapNew(s, v, page, perm), u)
    ensures Contents(MapNew(s, v, page, perm), u) == if u == v then s.frames[page] else Contents(s, u)
  {
    MapNewFacts(s, v, page, perm);
    MapNewInv(s, v, page, perm);
    PteRoundTrip(page, perm);
    hide RefsOk, SwapOk;
  }

  lemma MapOwned(mid: State, v: Vpn, f: nat, perm: nat)
    requires Sound(mid) && Held(mid, f) && InRange(v) && LeafKey(v.i, v.j) in mid.tables
    requires !IsValid(Entry(mid, v)) && perm < 1024
    ensures var s' := MapNew(mid, v, f, perm);
            && Sound(s') && |s'.frames| == |mid.frames| && s'.tables == mid.tables
            && (forall u | InRange(u) :: Entry(s', u) == if u == v then PteCreate(f, perm) else Entry(mid, u))
            && Mappings(s', f) == {v} && s'.ref[f] == 1 && f !in mid.swappable
            && (forall u | InRange(u) && u != v :: Present(s', u) <==> Present(mid, u))
            && (forall u | InRange(u) && u != v && Present(mid, u) :: Contents(s', u) == Contents(mid, u))
            && Present(s', v) && Contents(s', v) == mid.frames[f]
  {
    HeldNotListed(mid, f);
    MapNewFacts(mid, v, f, perm);
    MapNewInv(mid, v, f, perm);
    var s' := MapNew(mid, v, f, perm);
    assert RefOk(s', f);
    PteRoundTrip(f, perm);
    MapNewContents(mid, v, f, perm, v);
    forall u | InRange(u) && u != v && Present(mid, u) ensures Contents(s', u) == Contents(mid, u) {
      MapNewContents(mid, v, f, perm, u);
    }
  }

  ghost predicate ReadyToMap(s: State, mid: State, v: Vpn, f: nat)
  {
    && Sound(s) && Growth(s, mid, 1) && Held(mid, f)
    && InRange(v) && LeafKey(v.i, v.j) in mid.tables && !IsValid(Entry(s, v))
    && (Present(s, v) ==> mid.frames[f] == Contents(s, v))
  }

  lemma BringInEntries(s: State, mid: State, v: Vpn, f: nat, perm: nat)
    requires ReadyToMap(s, mid, v, f) && perm < 1024
    ensures !IsValid(Entry(mid, v)) && BroughtEntries(s, MapNew(mid, v, f, perm), v, f, perm, false)
  {
    InvalidStays(s, mid, v, 1);
    MapOwned(mid, v, f, perm);
    hide MappedOk, TablesUnmapped, FreeOk, SwapOk, EntriesOk, RefsOk, SameMemory, FixedStays, TreeOk, EntryIn;
    var s' := MapNew(mid, v, f, perm);
    forall u | InRange(u) && u != v ensures Entry(s', u) == Entry(s, u) || EvictedAt(s, s', u) {
      assert Entry(mid, u) == Entry(s, u) || EvictedAt(s, mid, u);
    }
  }

  lemma BringInContents(s: State, mid: State, v: Vpn, f: nat, perm: nat)
    requires ReadyToMap(s, mid, v, f) && perm < 1024
    ensures !IsValid(Entry(mid, v)) && Sound(MapNew(mid, v, f, perm))
    ensures BroughtContents(s, MapNew(mid, v, f, perm), v)
  {
    InvalidStays(s, mid, v, 1);
    MapOwned(mid, v, f, perm);
  }

  /** From s a page f was handed out, tables were made, and f was filled; now f is mapped at v. */
  lemma BringIn(s: State, mid: State, v: Vpn, f: nat, perm: nat)
    requires ReadyToMap(s, mid, v, f) && perm < 1024
    ensures !IsValid(Entry(mid, v)) && BroughtIn(s, MapNew(mid, v, f, perm), v, f, perm, false)
    ensures MapNew(mid, v, f, perm).ref[f] == 1
  {
    BringInEntries(s, mid, v, f, perm);
    BringInContents(s, mid, v, f, perm);
    MapOwned(mid, v, f, perm);
  }

  /** With swapping on, the page also goes onto the swap manager's list. */
  lemma BringInSwappable(s: State, s1: State, v: Vpn, f: nat, perm: nat, la: nat)
    requires BroughtIn(s, s1, v, f, perm, false) && la < VA_LIMIT && IndexOf(la) == v && HasSlot(v)
    ensures BroughtIn(s, MakeSwappable(s1, f, la), v, f, perm, true)
  {
    SwappableSound(s1, v, f, perm, la);
    SwappableEntries(s, s1, v, f, perm, la);
    SwappableContents(s, s1, v, f, la);
  }

  lemma SwappableEntries(s: State, s1: State, v: Vpn, f: nat, perm: nat, la: nat)
    requires BroughtEntries(s, s1, v, f, perm, false) && Sound(MakeSwappable(s1, f, la))
    ensures BroughtEntries(s, MakeSwappable(s1, f, la), v, f, perm, true)
  {
    hide MappedOk, TablesUnmapped, FreeOk, SwapOk, EntriesOk, RefsOk, TreeOk, EntryIn, SameMemory, MakeSwappable;
    var s2 := MakeSwappable(s1, f, la);
    MakeSwappableInv(s1, f, la);
    SameMappings(s1, s2);
    SwappableSets(s1, f, la);
    forall u | InRange(u) && u != v ensures Entry(s2, u) == Entry(s, u) || EvictedAt(s, s2, u) {
      assert Entry(s1, u) == Entry(s, u) || EvictedAt(s, s1, u);
    }
  }

  lemma SwappableSets(s: State, f: nat, la: nat)
    requires f < |s.pra| && f !in s.swappable
    ensures var s' := MakeSwappable(s, f, la);
            && s'.swappable == s.swappable + {f} && |s'.swappable| == |s.swappable| + 1
            && s' == s.(swappable := s'.swappable, pra := s'.pra)
  {
    CardAdd(s.swappable, f);
  }

  lemma SwappableContents(s: State, s1: State, v: Vpn, f: nat, la: nat)
    requires Exact(s) && Exact(s1) && IsFrame(s1, f) && BroughtContents(s, s1, v)
    ensures Exact(MakeSwappable(s1, f, la)) && BroughtContents(s, MakeSwappable(s1, f, la), v)
  {
    MakeSwappableInv(s1, f, la);
    hide Exact, Contents, Present;
  }

  lemma SwappableSound(s: State, v: Vpn, f: nat, perm: nat, la: nat)
    requires Sound(s) && IsFrame(s, f) && f !in s.swappable && InRange(v) && Mappings(s, f) == {v}
    requires la < VA_LIMIT && IndexOf(la) == v && HasSlot(v)
    ensures Sound(MakeSwappable(s, f, la))
  {
    MakeSwappableInv(s, f, la);
    SameMappings(s, MakeSwappable(s, f, la));
    hide MappedOk, TablesUnmapped, FreeOk, EntriesOk, RefsOk, TreeOk, EntryIn, SameMemory;
    assert SwappableOk(MakeSwappable(s, f, la), f);
  }

  // ----- closed forms -----

  /** The state is mid with `page` inserted at v. */
  ghost predicate InsertedAt(mid: State, s': State, v: Vpn, page: nat, perm: nat)
  {
    perm < 1024 && forall t {:trigger Open(t)} :: t == mid ==>
      && Exact(t) && InRange(v) && IsFrame(t, page) && LeafKey(v.i, v.j) in t.tables
      && s' == InsertPage(t, v, page, perm)
  }

  /** InsertKeepsList, closed. */
  ghost predicate KeepsList(s: State, v: Vpn, page: nat)
  {
    forall t {:trigger Open(t)} :: t == s ==> Exact(t) && InRange(v) && InsertKeepsList(t, v, page)
  }

  /** What page_insert needs to know about the state its walk left behind, and what it makes of it. */
  lemma InsertStep(s: State, v: Vpn, page: nat, perm: nat)
    requires ExactInv(s) && InRange(v) && IsFrame(s, page) && LeafKey(v.i, v.j) in s.tables && perm < 1024
    ensures Tree(s) && ShapeOk(s) && MappedOk(s)
    ensures InsertedAt(s, InsertPage(s, v, page, perm), v, page, perm)
    ensures Insertable(s, page) ==> CountedInv(InsertPage(s, v, page, perm))
    ensures ExactInv(InsertPage(s, v, page, perm)) <==> Mappable(s, page)
    ensures Inv(s) && Mappable(s, page) ==> (Inv(InsertPage(s, v, page, perm)) <==> KeepsList(s, v, page))
  {
    ExactOpen(s);
    assert Tree(s) && ShapeOk(s) && MappedOk(s);
    if Insertable(s, page) {
      InsertCounted(s, v, page, perm);
    }
    hide Counted, Exact, Sound, InsertPage, InsertKeepsList;
    var s' := InsertPage(s, v, page, perm);
    InvIsSound(s');
    InsertInv(s, v, page, perm);
    if Inv(s) && Mappable(s, page) {
      InvOpen(s);
      InsertSwap(s, v, page, perm);
      SoundParts(s');
      assert KeepsList(s, v, page) <==> InsertKeepsList(s, v, page) by { assert Open(s); }
    }
  }

  lemma ExactCounted(s: State)
    requires Exact(s)
    ensures Counted(s) && Tree(s)
  {
  }

  lemma SoundParts(s: State)
    ensures Sound(s) <==> Exact(s) && SwapOk(s)
  {
  }

  /** After an insertion v maps the page, and no other page has a different entry. */
  lemma InsertedEntries(mid: State, s': State, v: Vpn, page: nat, perm: nat, u: Vpn)
    requires InsertedAt(mid, s', v, page, perm) && InRange(u)
    ensures Tree(mid) && Tree(s')
    ensures if u == v then EntryFor(Entry(s', u), page, perm) else Entry(s', u) == Entry(mid, u)
    ensures u == v ==> Entry(s', u) == (0x80000 + page) * 1024 + perm + (1 - perm % 2)
    ensures Maps(s', v, page)
  {
    assert Open(mid);
    InsertEntries(mid, v, page, perm);
    PteFlags(page, perm);
  }

  /** v has no valid entry. */
  ghost predicate NotMapped(s: State, v: Vpn)
  {
    forall t {:trigger Open(t)} :: t == s ==> Sound(t) && InRange(v) && !IsValid(Entry(t, v))
  }

  ghost predicate NeverPresent(s: State, v: Vpn)
  {
    forall t {:trigger Open(t)} :: t == s ==> Sound(t) && InRange(v) && Entry(t, v) == 0
  }

  ghost predicate OpenBrought(s: State, s': State) { true }

  /** BroughtIn, closed. */
  ghost predicate Brought(s: State, s': State, v: Vpn, f: nat, perm: nat, swapOn: bool)
  {
    forall t, t' {:trigger OpenBrought(t, t')} :: t == s && t' == s' ==> BroughtIn(t, t', v, f, perm, swapOn)
  }

  /** f came out of the pages that were free or swappable in s, and is the caller's in s1. */
  ghost predicate HandedOut(s: State, s1: State, f: nat)
  {
    Grown(s, s1, 1) && Owned(s1, f) && (f in s.free || (Inv(s) && f in s.swappable))
  }

  /** f holds what v should show, if v was there before. */
  ghost predicate HoldsContents(s: State, s1: State, v: Vpn, f: nat)
  {
    Exact(s) && InRange(v) && (Present(s, v) ==> IsFrame(s1, f) && s1.frames[f] == Contents(s, v))
  }

  /** HoldsContents, closed. */
  ghost predicate Loaded(s: State, s1: State, v: Vpn, f: nat)
  {
    forall t, t' {:trigger OpenBrought(t, t')} :: t == s && t' == s1 ==> HoldsContents(t, t', v, f)
  }

  lemma OwnedMappable(s: State, f: nat)
    requires Owned(s, f)
    ensures Mappable(s, f)
  {
    assert Open(s);
  }

  lemma MapStep(s: State, s1: State, mid: State, s2: State, v: Vpn, f: nat, perm: nat)
    requires HandedOut(s, s1, f) && NotMapped(s, v) && Loaded(s, s1, v, f)
    requires Grown(s1, mid, 0) && InsertedAt(mid, s2, v, f, perm)
    ensures Brought(s, s2, v, f, perm, false) && Inv(s2) && |s2.ref| > f && s2.ref[f] == 1
  {
    hide Growth, Sound, Exact, MapNew, InsertPage, BroughtIn;
    assert Open(mid);
    MapReady(s, s1, mid, v, f);
    BringIn(s, mid, v, f, perm);
    ExactCounted(mid);
    InsertCases(mid, v, f, perm);
    BroughtSound(s, s2, v, f, perm, false);
    InvIsSound(s2);
  }

  lemma BroughtSound(s: State, s': State, v: Vpn, f: nat, perm: nat, swapOn: bool)
    requires BroughtIn(s, s', v, f, perm, swapOn)
    ensures Sound(s) && Sound(s') && Exact(s') && f < |s'.ref| && f < |s'.pra|
  {
  }

  lemma MapReady(s: State, s1: State, mid: State, v: Vpn, f: nat)
    requires HandedOut(s, s1, f) && NotMapped(s, v) && Loaded(s, s1, v, f) && Grown(s1, mid, 0)
    requires LeafKey(v.i, v.j) in mid.tables
    ensures ReadyToMap(s, mid, v, f)
  {
    GrownTrans(s, s1, mid, 1, 0);
    GrownOpen(s, mid, 1);
    HeldStays(s1, mid, f);
    assert Open(s) && OpenBrought(s, s1);
    hide Growth, Sound, Exact, Held, FixedStays, Grown, Inv, ExactInv;
  }

  /** A page handed out is still the caller's after walks and evictions, with its contents. */
  lemma HeldStays(s1: State, mid: State, f: nat)
    requires Owned(s1, f) && Grown(s1, mid, 0)
    ensures Tree(mid) && Held(mid, f) && IsFrame(s1, f) && mid.frames[f] == s1.frames[f]
  {
    GrownOpen(s1, mid, 0);
    assert Open(s1);
    hide MappedOk, TablesUnmapped, EntriesOk, RefsOk, SameMemory, TreeOk;
    HeldGrown(s1, mid, f);
  }

  lemma SwappableStep(s: State, s2: State, v: Vpn, f: nat, perm: nat, la: nat)
    requires Brought(s, s2, v, f, perm, false) && la < VA_LIMIT && IndexOf(la) == v && HasSlot(v)
    ensures f < |s2.pra| && Brought(s, MakeSwappable(s2, f, la), v, f, perm, true)
    ensures Inv(MakeSwappable(s2, f, la)) && ExactInv(MakeSwappable(s2, f, la))
  {
    hide BroughtIn, Sound;
    assert OpenBrought(s, s2);
    BroughtSound(s, s2, v, f, perm, false);
    BringInSwappable(s, s2, v, f, perm, la);
    BroughtSound(s, MakeSwappable(s2, f, la), v, f, perm, true);
    InvIsSound(MakeSwappable(s2, f, la));
  }

  /** Returning a handed-out page leaves things as if it had not been asked for. */
  lemma GiveBack(s: State, s1: State, mid: State, f: nat)
    requires HandedOut(s, s1, f) && Grown(s1, mid, 0)
    ensures f < |mid.ref| && Grown(s, Release(mid, f), 0)
    ensures ExactInv(Release(mid, f)) && (Inv(s) <==> Inv(Release(mid, f)))
  {
    hide Growth, Inv, ExactInv, SameMemory;
    GrownTrans(s, s1, mid, 1, 0);
    GrownOpen(s, mid, 1);
    HeldStays(s1, mid, f);
    GrowthExact(s, mid, 1);
    ReleaseHeld(mid, f);
    if Inv(s) {
      InvOpen(s);
    }
    hide Exact, Held;
    ReleaseGrowth(s, mid, f);
    GrownClose(s, Release(mid, f), 0);
  }

  lemma ReleaseHeld(s: State, f: nat)
    requires Counted(s) && Held(s, f)
    ensures Counted(Release(s, f)) && (Exact(s) ==> Exact(Release(s, f)))
    ensures SwapKept(s, Release(s, f)) && SameMemory(s, Release(s, f))
    ensures forall v | InRange(v) :: Entry(Release(s, f), v) == Entry(s, v)
    ensures forall g: int :: Mappings(Release(s, f), g) == Mappings(s, g)
  {
    var s' := Release(s, f);
    SameMappings(s, s');
    assert RefOk(s, f);
    forall v | InRange(v) && IsValid(Entry(s', v)) ensures PageOf(Entry(s', v)) != f {
      assert v in Mappings(s', PageOf(Entry(s', v)));
    }
    assert s'.ref == s.ref;
    SameRefs(s, s');
    SameSwap(s, s');
  }

  lemma ReleaseGrowth(s: State, mid: State, f: nat)
    requires Growth(s, mid, 1) && Held(mid, f) && (f in s.free || (SwapOk(s) && f in s.swappable))
    requires Exact(Release(mid, f)) && SwapKept(mid, Release(mid, f)) && SameMemory(mid, Release(mid, f))
    requires forall v | InRange(v) :: Entry(Release(mid, f), v) == Entry(mid, v)
    requires forall g: int :: Mappings(Release(mid, f), g) == Mappings(mid, g)
    ensures Growth(s, Release(mid, f), 0)
  {
    hide MappedOk, TablesUnmapped, FreeOk, SwapOk, EntriesOk, RefsOk, SameMemory;
    var s' := Release(mid, f);
    SameMemoryTrans(s, mid, s');
    CardAdd(mid.free, f);
    forall v | InRange(v) ensures Entry(s', v) == Entry(s, v) || EvictedAt(s, s', v) {
      assert Entry(mid, v) == Entry(s, v) || EvictedAt(s, mid, v);
    }
    forall g: int ensures FixedStays(s, s', g) {
      assert FixedStays(s, mid, g);
    }
  }

  /** What swap_in finds in the entry of a page that was swapped out. */
  lemma LoadReady(s: State, s1: State, v: Vpn, f: nat)
    requires HandedOut(s, s1, f) && NotMapped(s, v) && !NeverPresent(s, v)
    ensures InRange(v) && Tree(s) && Tree(s1) && IsFrame(s1, f) && |s1.disk| == DISK_WORDS
    ensures Entry(s1, v) == Entry(s, v) != 0
    ensures SwapOffsetOk(Entry(s1, v)) && LeafKey(v.i, v.j) in s1.tables
  {
    GrownOpen(s, s1, 1);
    assert Open(s) && Open(s1);
    InvalidStays(s, s1, v, 1);
    SwapEntryFacts(v);
  }

  /** swapfs_read into a handed-out page. */
  lemma LoadStep(s: State, s1: State, v: Vpn, f: nat, n: nat)
    requires HandedOut(s, s1, f) && NotMapped(s, v) && !NeverPresent(s, v)
    requires InRange(v) && Tree(s1) && n == SwapOffset(Entry(s1, v))
    ensures IsFrame(s1, f) && |s1.disk| == DISK_WORDS && n < MAX_SWAP_OFFSET
    ensures var s2 := LoadSlot(s1, f, n); HandedOut(s, s2, f) && Loaded(s, s2, v, f)
  {
    LoadReady(s, s1, v, f);
    LoadHandedOut(s, s1, f, Slot(s1.disk, n));
    assert HoldsContents(s, LoadSlot(s1, f, n), v, f) by {
      GrownOpen(s, s1, 1);
      assert Open(s);
      LoadedFromSlot(s, s1, v);
    }
  }

  /** Filling a handed-out page keeps it handed out. */
  lemma LoadHandedOut(s: State, s1: State, f: nat, x: Frame)
    requires HandedOut(s, s1, f) && |x| == NPTEENTRY
    ensures IsFrame(s1, f)
    ensures HandedOut(s, s1.(frames := s1.frames[f := x]), f)
  {
    hide Growth, Inv, Exact, SwapKept, SameMemory;
    GrownOpen(s, s1, 1);
    assert Open(s1);
    if Inv(s) {
      InvOpen(s);
    }
    HeldWriteSameMemory(s1, f, x);
    LoadGrowth(s, s1, f, x);
    GrownClose(s, s1.(frames := s1.frames[f := x]), 1);
  }

  lemma LoadGrowth(s: State, s1: State, f: nat, x: Frame)
    requires Growth(s, s1, 1) && Held(s1, f) && (f in s.free || (SwapOk(s) && f in s.swappable))
    requires |x| == NPTEENTRY
    ensures Growth(s, s1.(frames := s1.frames[f := x]), 1)
  {
    var s2 := s1.(frames := s1.frames[f := x]);
    DataWriteInv(s1, f, x);
    HeldWriteSameMemory(s1, f, x);
    SameMemoryTrans(s, s1, s2);
    forall v | InRange(v) ensures Entry(s2, v) == Entry(s, v) || EvictedAt(s, s2, v) {
      assert Entry(s1, v) == Entry(s, v) || EvictedAt(s, s1, v);
    }
    forall g: int ensures FixedStays(s, s2, g) {
      assert FixedStays(s, s1, g);
    }
  }

  /** v's disk slot still holds v's contents after other pages were evicted. */
  lemma LoadedFromSlot(s: State, s1: State, v: Vpn)
    requires Growth(s, s1, 1) && InRange(v) && !IsValid(Entry(s, v)) && Entry(s, v) != 0
    ensures SwapOffsetOk(Entry(s1, v)) && Slot(s1.disk, SwapOffset(Entry(s1, v))) == Contents(s, v)
  {
    InvalidStays(s, s1, v, 1);
    SwapEntryFacts(v);
    assert Present(s, v);
  }

  lemma NotMappedGrown(s: State, s': State, v: Vpn)
    requires NotMapped(s, v) && Grown(s, s', 0)
    ensures NotMapped(s', v) && (NeverPresent(s', v) <==> NeverPresent(s, v))
  {
    GrownOpen(s, s', 0);
    assert Open(s) && Open(s');
    InvalidStays(s, s', v, 0);
  }

  lemma EntryZero(s: State, v: Vpn)
    requires Inv(s) && InRange(v)
    ensures Tree(s) && (NeverPresent(s, v) <==> Entry(s, v) == 0) && (NotMapped(s, v) <==> !IsValid(Entry(s, v)))
    ensures Entry(s, v) != 0 ==> LeafKey(v.i, v.j) in s.tables
  {
    assert Open(s);
  }

  lemma BroughtAfterEntries(s: State, s1: State, s2: State, v: Vpn, f: nat, perm: nat, swapOn: bool)
    requires Sound(s) && Growth(s, s1, 0) && BroughtEntries(s1, s2, v, f, perm, swapOn)
    ensures BroughtEntries(s, s2, v, f, perm, swapOn)
  {
    forall u | InRange(u) && u != v ensures Entry(s2, u) == Entry(s, u) || EvictedAt(s, s2, u) {
      assert Entry(s1, u) == Entry(s, u) || EvictedAt(s, s1, u);
      assert Entry(s2, u) == Entry(s1, u) || EvictedAt(s1, s2, u);
      SwapEntryFacts(u);
    }
  }

  lemma BroughtAfterContents(s: State, s1: State, s2: State, v: Vpn)
    requires Growth(s, s1, 0) && Exact(s2) && BroughtContents(s1, s2, v)
    ensures BroughtContents(s, s2, v)
  {
  }

  /** Tables made before the page was brought in do not matter. */
  lemma BroughtAfter(s: State, s1: State, s2: State, v: Vpn, f: nat, perm: nat, swapOn: bool)
    requires Inv(s) && Grown(s, s1, 0) && Brought(s1, s2, v, f, perm, swapOn)
    ensures Brought(s, s2, v, f, perm, swapOn)
  {
    hide Growth, BroughtEntries, BroughtContents, Sound, Inv;
    InvOpen(s);
    GrownOpen(s, s1, 0);
    assert OpenBrought(s1, s2);
    BroughtSound(s1, s2, v, f, perm, swapOn);
    SoundParts(s2);
    BroughtAfterEntries(s, s1, s2, v, f, perm, swapOn);
    BroughtAfterContents(s, s1, s2, v);
    forall t, t' | t == s && t' == s2 ensures BroughtIn(t, t', v, f, perm, swapOn) {
    }
  }
}
