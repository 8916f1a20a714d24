/**
 What handing out pages may do to the rest of the paging state: pages get evicted and tables are
 added, but no page changes its contents.
 */
module PageGrowth {
  import opened Sv39
  import opened PageState
  import opened PageOps

  lemma SameMemoryTrans(s: State, s1: State, s2: State)
    requires Exact(s) && Exact(s1) && Exact(s2) && SameMemory(s, s1) && SameMemory(s1, s2)
    ensures SameMemory(s, s2)
  {
  }

  /** Pages that could still be handed out, plus the ones that serve as tables. */
  ghost function Supply(s: State): int
  {
    |s.free| + |s.swappable| + |s.tables|
  }

  /** v's page was swapped out between s and s'. */
  ghost predicate EvictedAt(s: State, s': State, v: Vpn)
    requires Tree(s) && Tree(s') && InRange(v)
  {
    && IsValid(Entry(s, v)) && PageOf(Entry(s, v)) in s.swappable
    && Entry(s', v) == SwapEntry(v)
  }

  /** A page in use that cannot be evicted: with a list out of order, nothing is. */
  ghost predicate Fixed(s: State, f: int)
    requires Tree(s)
  {
    IsFrame(s, f) && f !in s.free && !IsTable(s.tables, f) && (f in s.swappable ==> !SwapOk(s))
  }

  ghost predicate FixedStays(s: State, s': State, f: int)
    requires Tree(s) && Tree(s') && |s.frames| == |s'.frames|
  {
    Fixed(s, f) ==> Fixed(s', f) && s'.frames[f] == s.frames[f] && Mappings(s', f) == Mappings(s, f)
  }

  /**
   From s to s', n pages were handed out to the caller; tables may have been added and
   swappable pages evicted on the way.  The swap manager's list is in order iff it was before.
   */
  ghost predicate Growth(s: State, s': State, n: int)
  {
    && Exact(s) && Exact(s') && SwapKept(s, s') && |s'.frames| == |s.frames|
    && (forall key <- s.tables :: key in s'.tables && s'.tables[key] == s.tables[key])
    && s'.swappable <= s.swappable && s'.pra == s.pra
    && (forall v | InRange(v) :: Entry(s', v) == Entry(s, v) || EvictedAt(s, s', v))
    && SameMemory(s, s')
    && (forall f: int :: FixedStays(s, s', f))
    && Supply(s') + n == Supply(s)
  }

  lemma GrowthRefl(s: State)
    requires Exact(s)
    ensures Growth(s, s, 0)
  {
  }

  lemma GrowthTrans(s: State, s1: State, s2: State, m: int, n: int)
    requires Growth(s, s1, m) && Growth(s1, s2, n)
    ensures Growth(s, s2, m + n)
  {
    SameMemoryTrans(s, s1, s2);
    forall v | InRange(v) ensures Entry(s2, v) == Entry(s, v) || EvictedAt(s, s2, v) {
      SwapEntryFacts(v);
      assert Entry(s1, v) == Entry(s, v) || EvictedAt(s, s1, v);
      assert Entry(s2, v) == Entry(s1, v) || EvictedAt(s1, s2, v);
    }
    forall f: int ensures FixedStays(s, s2, f) {
      assert FixedStays(s, s1, f) && FixedStays(s1, s2, f);
    }
  }

  lemma TakeGrowth(s: State, f: nat)
    requires Exact(s) && f in s.free
    ensures Growth(s, TakeFree(s, f), 1) && Held(TakeFree(s, f), f)
  {
    TakeFreeInv(s, f);
    SameMappings(s, TakeFree(s, f));
  }

  lemma CardAdd(s: set<nat>, f: nat)
    requires f !in s
    ensures |s + {f}| == |s| + 1
  {
  }

  lemma CardRemove(s: set<nat>, f: nat)
    requires f in s
    ensures |s - {f}| == |s| - 1
  {
  }

  lemma EvictSets(s: State, f: nat)
    requires Sound(s) && f in s.swappable
    ensures Evictable(s, f) && f !in s.free
    ensures Evict(s, f).free == s.free + {f} && Evict(s, f).swappable == s.swappable - {f}
    ensures Evict(s, f).tables == s.tables && Evict(s, f).pra == s.pra
    ensures |Evict(s, f).free| == |s.free| + 1 && |Evict(s, f).swappable| == |s.swappable| - 1
  {
    SwappableEvictable(s, f);
    CardAdd(s.free, f);
    CardRemove(s.swappable, f);
  }

  lemma EvictFixed(s: State, f: nat)
    requires Sound(s) && f in s.swappable
    ensures Evictable(s, f) && Tree(Evict(s, f)) && |Evict(s, f).frames| == |s.frames|
    ensures forall g: int :: FixedStays(s, Evict(s, f), g)
  {
    SwappableEvictable(s, f);
    EvictEntries(s, f);
    forall g: int ensures FixedStays(s, Evict(s, f), g) {
      assert IndexOf(s.pra[f]) in Mappings(s, g) ==> g == f;
    }
  }

  lemma EvictGrowth(s: State, f: nat)
    requires Sound(s) && f in s.swappable
    ensures Evictable(s, f) && Growth(s, Evict(s, f), 0)
  {
    hide MappedOk, TablesUnmapped, FreeOk, SwapOk, EntriesOk, RefsOk, SameMemory, FixedStays;
    EvictSets(s, f);
    EvictFixed(s, f);
    SwappableEvictable(s, f);
    EvictSameMemory(s, f);
    EvictInv(s, f);
    EvictEntries(s, f);
  }

  /** One more eviction after s0: one page moves from the swap manager's list to the free pages. */
  lemma EvictRound(s0: State, s: State, f: nat)
    requires Sound(s) && Growth(s0, s, 0) && f in s.swappable
    ensures Evictable(s, f) && Growth(s0, Evict(s, f), 0)
    ensures |Evict(s, f).free| == |s.free| + 1 && |Evict(s, f).swappable| == |s.swappable| - 1
    ensures s.free == {} ==> Evict(s, f).free == {f}
  {
    hide Growth, Sound;
    EvictGrowth(s, f);
    EvictSets(s, f);
    GrowthTrans(s0, s, Evict(s, f), 0, 0);
  }

  /** alloc_page handed out f: a free page, or the only free one after an eviction. */
  ghost predicate Allocated(s: State, s': State, f: nat)
  {
    if s.free != {} then f in s.free && s' == TakeFree(s, f)
    else f in s.swappable && Evictable(s, f) && s' == TakeFree(Evict(s, f), f)
  }

  lemma AllocatedGrowth(s: State, s': State, f: nat)
    requires Exact(s) && Allocated(s, s', f) && (s.free == {} ==> Sound(s))
    ensures Growth(s, s', 1) && Held(s', f) && s'.tables == s.tables
    ensures f in s.free || (Sound(s) && f in s.swappable)
  {
    hide Growth, Sound, Exact, Held;
    if s.free != {} {
      TakeGrowth(s, f);
    } else {
      assert Exact(s);
      GrowthRefl(s);
      EvictRound(s, s, f);
      GrowthExact(s, Evict(s, f), 0);
      TakeGrowth(Evict(s, f), f);
      GrowthTrans(s, Evict(s, f), s', 0, 1);
    }
  }

  lemma GrowthExact(s: State, s': State, n: int)
    requires Growth(s, s', n)
    ensures Exact(s) && Exact(s') && (Sound(s) <==> Sound(s'))
  {
  }

  /** Taking a page that was free or evicted a moment ago and hanging it into the tree. */
  lemma TableGrowth(s: State, s1: State, key: Key, f: nat)
    requires Growth(s, s1, 1) && Held(s1, f) && (f in s.free || (SwapOk(s) && f in s.swappable))
    requires key != TopKey && key !in s1.tables && ParentKey(key) in s1.tables && KeyOk(s1.tables, key)
    ensures Growth(s, AddTable(s1, key, f), 0)
  {
    hide Exact, SwapOk, SwapKept, SameMemory, FixedStays, EvictedAt;
    TableSame(s, s1, key, f);
    TableEntries(s, s1, key, f);
    TableFixed(s, s1, key, f);
  }

  lemma TableSame(s: State, s1: State, key: Key, f: nat)
    requires Growth(s, s1, 1) && Held(s1, f)
    requires key != TopKey && key !in s1.tables && ParentKey(key) in s1.tables && KeyOk(s1.tables, key)
    ensures var s2 := AddTable(s1, key, f);
            Exact(s2) && |s2.frames| == |s.frames| && SwapKept(s, s2) && SameMemory(s, s2)
            && Supply(s2) == Supply(s)
  {
    hide MappedOk, TablesUnmapped, FreeOk, SwapOk, EntriesOk, RefsOk, SameMemory, FixedStays, EvictedAt;
    var s2 := AddTable(s1, key, f);
    AddTableInv(s1, key, f);
    SameMemoryTrans(s, s1, s2);
    hide Tree, ShapeOk;
    assert |s2.tables| == |s1.tables| + 1;
  }

  lemma TableEntries(s: State, s1: State, key: Key, f: nat)
    requires Growth(s, s1, 1) && Held(s1, f)
    requires key != TopKey && key !in s1.tables && ParentKey(key) in s1.tables && KeyOk(s1.tables, key)
    ensures var s2 := AddTable(s1, key, f);
            Tree(s2) && forall v | InRange(v) :: Entry(s2, v) == Entry(s, v) || EvictedAt(s, s2, v)
  {
    hide MappedOk, TablesUnmapped, FreeOk, SwapOk, EntriesOk, RefsOk, SameMemory, FixedStays;
    AddTableInv(s1, key, f);
    forall v | InRange(v) ensures Entry(AddTable(s1, key, f), v) == Entry(s, v) || EvictedAt(s, AddTable(s1, key, f), v) {
      assert Entry(s1, v) == Entry(s, v) || EvictedAt(s, s1, v);
    }
  }

  lemma TableFixed(s: State, s1: State, key: Key, f: nat)
    requires Growth(s, s1, 1) && Held(s1, f) && (f in s.free || (SwapOk(s) && f in s.swappable))
    requires key != TopKey && key !in s1.tables && ParentKey(key) in s1.tables && KeyOk(s1.tables, key)
    ensures Tree(AddTable(s1, key, f)) && |AddTable(s1, key, f).frames| == |s.frames|
    ensures forall g: int :: FixedStays(s, AddTable(s1, key, f), g)
  {
    hide MappedOk, TablesUnmapped, FreeOk, SwapOk, EntriesOk, RefsOk, SameMemory;
    AddTableInv(s1, key, f);
    forall g: int ensures FixedStays(s, AddTable(s1, key, f), g) {
      assert FixedStays(s, s1, g);
    }
  }

  lemma HeldGrown(s: State, s': State, f: nat)
    requires Growth(s, s', 0) && Held(s, f)
    ensures Held(s', f) && s'.frames[f] == s.frames[f]
  {
    assert FixedStays(s, s', f);
  }

  /** Tables still to be created before v has a leaf table. */
  ghost function MissingTables(s: State, v: Vpn): nat
  {
    if LeafKey(v.i, v.j) in s.tables then 0 else if MidKey(v.i) in s.tables then 1 else 2
  }

  lemma InvalidStays(s: State, s': State, v: Vpn, n: int)
    requires Growth(s, s', n) && InRange(v) && !IsValid(Entry(s, v))
    ensures Entry(s', v) == Entry(s, v)
  {
    assert !EvictedAt(s, s', v);
  }

  // ----- closed forms -----

  /*
   Exact, Sound, Growth and the like have many quantified parts, which cost too much where they
   are only passed on.  Their closed forms here and in PageMapping (CountedInv, ExactInv, Inv, Grown, Owned,
   CanInsert, Brought, ...) mean the same: each says "for all t equal to s, P(t)", that is P(s),
   and is unfolded only where Open(s), OpenGrowth(s, s', n) or OpenBrought(s, s') is mentioned.
   */

  /** Mentioning Open(s) lets the closed facts about s be unfolded. */
  ghost predicate Open(s: State) { true }

  /** Counted, closed. */
  ghost predicate CountedInv(s: State)
  {
    forall t {:trigger Open(t)} :: t == s ==> Counted(t)
  }

  /** Exact, closed. */
  ghost predicate ExactInv(s: State)
  {
    CountedInv(s) && forall t {:trigger Open(t)} :: t == s ==> Exact(t)
  }

  /** Sound, closed. */
  ghost predicate Inv(s: State)
  {
    ExactInv(s) && forall t {:trigger Open(t)} :: t == s ==> Sound(t)
  }

  lemma InvOpen(s: State)
    requires Inv(s)
    ensures Sound(s)
  {
    assert Open(s);
  }

  lemma InvIsSound(s: State)
    ensures CountedInv(s) <==> Counted(s)
    ensures ExactInv(s) <==> Exact(s)
    ensures Inv(s) <==> Sound(s)
  {
    assert Open(s);
  }

  lemma CountedOpen(s: State)
    requires CountedInv(s)
    ensures Counted(s)
  {
    assert Open(s);
  }

  lemma ExactOpen(s: State)
    requires ExactInv(s)
    ensures Exact(s) && (Inv(s) <==> SwapOk(s))
  {
    assert Open(s);
  }

  ghost predicate OpenGrowth(s: State, s': State, n: int) { true }

  /** Growth, closed. */
  ghost predicate Grown(s: State, s': State, n: int)
  {
    forall t, t', m {:trigger OpenGrowth(t, t', m)} :: t == s && t' == s' && m == n ==> Growth(t, t', m)
  }

  lemma GrownOpen(s: State, s': State, n: int)
    requires Grown(s, s', n)
    ensures Growth(s, s', n)
  {
    assert OpenGrowth(s, s', n);
  }

  lemma GrownClose(s: State, s': State, n: int)
    requires Growth(s, s', n)
    ensures Grown(s, s', n) && ExactInv(s) && ExactInv(s') && (Inv(s) <==> Inv(s'))
  {
    hide Growth, Exact, Sound;
    GrowthExact(s, s', n);
    InvIsSound(s);
    InvIsSound(s');
  }

  lemma GrownInv(s: State, s': State, n: int)
    requires Grown(s, s', n)
    ensures ExactInv(s) && ExactInv(s') && (Inv(s) <==> Inv(s'))
  {
    hide Growth, Inv, ExactInv;
    GrownOpen(s, s', n);
    GrownClose(s, s', n);
  }

  lemma GrownRefl(s: State)
    requires ExactInv(s)
    ensures Grown(s, s, 0)
  {
    ExactOpen(s);
    GrowthRefl(s);
  }

  lemma GrownTrans(s: State, s1: State, s2: State, m: int, n: int)
    requires Grown(s, s1, m) && Grown(s1, s2, n)
    ensures Grown(s, s2, m + n) && ExactInv(s2) && (Inv(s) <==> Inv(s2))
  {
    hide Growth, Grown, Inv, ExactInv;
    GrownOpen(s, s1, m);
    GrownOpen(s1, s2, n);
    GrowthTrans(s, s1, s2, m, n);
    GrownClose(s, s2, m + n);
  }

  /** f was handed out and is neither mapped nor a table. */
  ghost predicate Owned(s: State, f: int)
  {
    forall t {:trigger Open(t)} :: t == s ==> Exact(t) && Held(t, f)
  }

  lemma EvictStep(s0: State, s: State, f: nat)
    requires Inv(s) && Grown(s0, s, 0) && f in s.swappable
    ensures Evictable(s, f) && Inv(Evict(s, f)) && Grown(s0, Evict(s, f), 0)
    ensures |Evict(s, f).free| == |s.free| + 1 && |Evict(s, f).swappable| == |s.swappable| - 1
    ensures s.free == {} ==> Evict(s, f).free == {f}
  {
    hide Growth, Sound, Evictable;
    InvOpen(s);
    GrownOpen(s0, s, 0);
    EvictRound(s0, s, f);
    EvictGrowth(s, f);
    GrownClose(s0, Evict(s, f), 0);
    GrownClose(s, Evict(s, f), 0);
  }

  lemma AllocStep(s: State, s': State, f: nat)
    requires ExactInv(s) && Allocated(s, s', f) && (s.free == {} ==> Inv(s))
    ensures Grown(s, s', 1) && ExactInv(s') && (Inv(s) <==> Inv(s')) && Owned(s', f) && s'.tables == s.tables
    ensures f in s.free || (Inv(s) && f in s.swappable)
  {
    hide Growth, Allocated, Sound;
    ExactOpen(s);
    if s.free == {} {
      InvOpen(s);
    }
    AllocatedGrowth(s, s', f);
    GrowthExact(s, s', 1);
    GrownClose(s, s', 1);
  }

  /** The table above `key` exists and `key` is a proper place for a table. */
  ghost predicate TablePlace(tables: map<Key, nat>, key: Key)
  {
    key != TopKey && ParentKey(key) in tables && KeyOk(tables, key)
  }

  /** What get_pte sees in the slot that leads to the table for `key`. */
  lemma TableSlot(s: State, key: Key)
    requires ExactInv(s) && TablePlace(s.tables, key)
    ensures var p := s.tables[ParentKey(key)];
            && p < |s.frames| && |s.frames[p]| == NPTEENTRY && ParentSlot(key) < NPTEENTRY
            && Points(s.frames[p][ParentSlot(key)], s.tables, key)
  {
    ExactOpen(s);
  }

  lemma TableStep(s: State, s1: State, key: Key, f: nat)
    requires Grown(s, s1, 1) && Owned(s1, f) && (f in s.free || (Inv(s) && f in s.swappable))
    requires TablePlace(s1.tables, key) && key !in s1.tables
    ensures Tree(s1) && ShapeOk(s1) && IsFrame(s1, f)
    ensures var s2 := AddTable(s1, key, f); Grown(s, s2, 0) && ExactInv(s2) && (Inv(s) <==> Inv(s2))
    ensures f != s1.tables[ParentKey(key)]
  {
    hide Growth;
    GrownOpen(s, s1, 1);
    assert Open(s1);
    if Inv(s) {
      InvOpen(s);
    }
    TableGrowth(s, s1, key, f);
    GrownClose(s, AddTable(s1, key, f), 0);
  }

  lemma SupplyStep(s: State, s': State, n: int)
    requires Grown(s, s', n)
    ensures Supply(s') + n == Supply(s)
  {
    GrownOpen(s, s', n);
  }

  lemma KeysOk(s: State, v: Vpn)
    requires ExactInv(s) && InRange(v)
    ensures TopKey in s.tables && TablePlace(s.tables, MidKey(v.i))
    ensures MidKey(v.i) in s.tables ==> TablePlace(s.tables, LeafKey(v.i, v.j))
    ensures LeafKey(v.i, v.j) in s.tables ==> MidKey(v.i) in s.tables
  {
    ExactOpen(s);
    assert LeafKey(v.i, v.j) in s.tables ==> KeyOk(s.tables, LeafKey(v.i, v.j));
  }
}
