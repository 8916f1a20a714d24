/**
 The steps of the paging code as functions on PageState.State, each with what it keeps and what
 it changes.
 */
module PageOps {
  import opened Sv39
  import opened PageState

  // ----- the steps -----

  /** Takes a page off the physical memory manager's free pages. */
  function TakeFree(s: State, f: nat): State
  {
    s.(free := s.free - {f})
  }

  /** free_page: the manager clears the reference count. */
  function Release(s: State, f: nat): State
    requires f < |s.ref|
  {
    s.(ref := s.ref[f := 0], free := s.free + {f})
  }

  /** Writes the leaf entry of v. */
  ghost function SetEntry(s: State, v: Vpn, w: nat): State
    requires Tree(s) && InRange(v) && LeafKey(v.i, v.j) in s.tables
  {
    s.(frames := Poke(s.frames, s.tables[LeafKey(v.i, v.j)], v.k, w))
  }

  /**
   What swap_out asserts of its victim: the recorded address has a disk slot and a valid entry.
   Which page that entry maps is not checked.
   */
  ghost predicate Evictable(s: State, f: nat)
  {
    && ShapeOk(s) && Tree(s) && IsFrame(s, f)
    && s.pra[f] < VA_LIMIT && HasSlot(IndexOf(s.pra[f]))
    && InRange(IndexOf(s.pra[f])) && IsValid(Entry(s, IndexOf(s.pra[f])))
  }

  /** The victim is mapped at its recorded address and nowhere else. */
  ghost predicate GoodVictim(s: State, f: nat)
    requires Evictable(s, f)
  {
    PageOf(Entry(s, IndexOf(s.pra[f]))) == f && s.ref[f] == 1
  }

  lemma SwappableEvictable(s: State, f: nat)
    requires Sound(s) && f in s.swappable
    ensures Evictable(s, f) && Mappings(s, f) == {IndexOf(s.pra[f])} && GoodVictim(s, f) && !IsTable(s.tables, f)
  {
    assert SwappableOk(s, f);
    assert IndexOf(s.pra[f]) in Mappings(s, f);
    MappedRef(s, IndexOf(s.pra[f]));
  }

  /** swap_out of one victim: contents to the page's disk slot, slot number to the entry, page freed. */
  ghost function Evict(s: State, f: nat): State
    requires Evictable(s, f)
  {
    var v := IndexOf(s.pra[f]);
    var s1 := s.(swappable := s.swappable - {f}, disk := WriteSlot(s.disk, Number(v) + 1, s.frames[f]));
    Release(SetEntry(s1, v, SwapEntry(v)), f)
  }

  /** get_pte hanging a fresh page into the tree. */
  ghost function AddTable(s: State, key: Key, f: nat): State
    requires Tree(s) && ShapeOk(s) && IsFrame(s, f)
    requires key != TopKey && key !in s.tables && ParentKey(key) in s.tables && KeyOk(s.tables, key)
  {
    s.(frames := Hung(s.frames, s.tables, key, f), ref := s.ref[f := 1], tables := s.tables[key := f])
  }

  /** page_ref_dec, and free_page when that was the last reference. */
  function DropRef(s: State, p: nat): State
    requires p < |s.ref|
  {
    var s1 := s.(ref := s.ref[p := s.ref[p] - 1]);
    if s1.ref[p] == 0 then Release(s1, p) else s1
  }

  /** page_remove_pte on the entry of v. */
  ghost function Unmap(s: State, v: Vpn): State
    requires Tree(s) && ShapeOk(s) && MappedOk(s) && InRange(v) && LeafKey(v.i, v.j) in s.tables
  {
    if !IsValid(Entry(s, v)) then s
    else SetEntry(DropRef(s, PageOf(Entry(s, v))), v, 0)
  }

  /** page_insert once the leaf table exists. */
  ghost function InsertPage(s: State, v: Vpn, page: nat, perm: nat): State
    requires Tree(s) && ShapeOk(s) && MappedOk(s) && InRange(v) && LeafKey(v.i, v.j) in s.tables
    requires IsFrame(s, page) && perm < 1024
  {
    var e := Entry(s, v);
    var s1 := s.(ref := s.ref[page := s.ref[page] + 1]);
    var s2 := if !IsValid(e) then s1
              else if PageOf(e) == page then s1.(ref := s1.ref[page := s1.ref[page] - 1])
              else Unmap(s1, v);
    SetEntry(s2, v, PteCreate(page, perm))
  }

  /** swap_map_swappable and the write of pra_vaddr. */
  function MakeSwappable(s: State, f: nat, la: nat): State
    requires f < |s.pra|
  {
    s.(swappable := s.swappable + {f}, pra := s.pra[f := la])
  }

  /** swapfs_read of slot n into page f. */
  function LoadSlot(s: State, f: nat, n: nat): State
    requires f < |s.frames| && |s.disk| == DISK_WORDS && n < MAX_SWAP_OFFSET
  {
    s.(frames := s.frames[f := Slot(s.disk, n)])
  }

  // ----- general lemmas -----

  /** States with the same entries have the same mappings. */
  lemma SameMappings(s: State, s': State)
    requires Tree(s) && Tree(s') && forall v | InRange(v) :: Entry(s', v) == Entry(s, v)
    ensures forall f: int :: Mappings(s', f) == Mappings(s, f)
  {
    forall f: int ensures Mappings(s', f) == Mappings(s, f) {
      assert forall v :: Maps(s', v, f) <==> Maps(s, v, f);
    }
  }

  /** Writing one leaf entry: the tree stays, one entry changes, and with it the mappings of v. */
  lemma SetEntryFacts(s: State, v: Vpn, w: nat)
    requires Tree(s) && InRange(v) && LeafKey(v.i, v.j) in s.tables
    ensures var s' := SetEntry(s, v, w);
            && Tree(s') && |s'.frames| == |s.frames|
            && (forall u | InRange(u) :: Entry(s', u) == if u == v then w else Entry(s, u))
            && (forall f | 0 <= f < |s.frames| && !IsTable(s.tables, f) :: s'.frames[f] == s.frames[f])
    ensures forall f: int :: Mappings(SetEntry(s, v, w), f)
                          == Mappings(s, f) - {v} + (if IsValid(w) && PageOf(w) == f then {v} else {})
  {
    LeafWrite(s.frames, s.tables, v, w);
    var s' := SetEntry(s, v, w);
    forall f: int
      ensures Mappings(s', f) == Mappings(s, f) - {v} + (if IsValid(w) && PageOf(w) == f then {v} else {})
    {
      assert forall u :: Maps(s', u, f) <==> if u == v then IsValid(w) && PageOf(w) == f else Maps(s, u, f);
    }
  }

  /** An entry that is not zero lies in an existing leaf table. */
  lemma NonZeroHasTable(s: State, v: Vpn)
    requires Tree(s) && InRange(v) && Entry(s, v) != 0
    ensures LeafKey(v.i, v.j) in s.tables
  {
  }

  lemma MappedCount(s: State, v: Vpn)
    requires Counted(s) && InRange(v) && IsValid(Entry(s, v))
    ensures var f := PageOf(Entry(s, v));
            && IsFrame(s, f) && f !in s.free && v in Mappings(s, f) && |Mappings(s, f)| >= 1
            && s.ref[f] == |Mappings(s, f)| + (if IsTable(s.tables, f) then 1 else 0)
            && TableRef(s, f) == (if IsTable(s.tables, f) then 1 else 0)
  {
    var f := PageOf(Entry(s, v));
    assert RefOk(s, f) && Maps(s, v, f);
  }

  lemma MappedRef(s: State, v: Vpn)
    requires Exact(s) && InRange(v) && IsValid(Entry(s, v))
    ensures var f := PageOf(Entry(s, v));
            IsFrame(s, f) && s.ref[f] == |Mappings(s, f)| >= 1 && v in Mappings(s, f)
  {
    var f := PageOf(Entry(s, v));
    assert RefOk(s, f) && Maps(s, v, f);
  }

  // ----- taking a free page -----

  lemma TakeFreeInv(s: State, f: nat)
    requires Counted(s) && f in s.free
    ensures Counted(TakeFree(s, f)) && (Exact(s) ==> Exact(TakeFree(s, f)))
    ensures Held(TakeFree(s, f), f) && SameMemory(s, TakeFree(s, f))
    ensures SwapKept(s, TakeFree(s, f))
    ensures s.ref[f] == 0
  {
    var s' := TakeFree(s, f);
    SameMappings(s, s');
    assert forall v :: !Maps(s, v, f);
    assert RefOk(s, f);
    SameRefs(s, s');
    SameSwap(s, s');
  }

  /** Counts stay exact where neither counts nor mappings nor tables change. */
  lemma SameRefs(s: State, s': State)
    requires Tree(s) && Tree(s') && ShapeOk(s) && ShapeOk(s') && RefsOk(s)
    requires s'.ref == s.ref && s'.tables == s.tables && |s'.frames| == |s.frames|
    requires forall f: int :: Mappings(s', f) == Mappings(s, f)
    ensures RefsOk(s')
  {
    forall g | 0 <= g < |s'.frames| ensures RefOk(s', g) {
      assert RefOk(s, g);
    }
  }

  lemma SameSwap(s: State, s': State)
    requires Tree(s) && Tree(s') && s'.swappable == s.swappable && s'.pra == s.pra && |s'.frames| == |s.frames|
    requires forall f: int :: Mappings(s', f) == Mappings(s, f)
    ensures SwapKept(s, s')
  {
    assert forall g: nat :: SwappableOk(s', g) <==> SwappableOk(s, g);
  }

  /** A page on the list of a sound state is mapped. */
  lemma HeldNotListed(s: State, f: nat)
    requires Tree(s) && SwapOk(s) && Held(s, f)
    ensures f !in s.swappable
  {
  }

  // ----- losing one mapping -----

  /** s' is s after the mapping v of its frame went, its entry now being w. */
  ghost predicate Unmapped(s: State, s': State, v: Vpn, w: nat)
    requires Counted(s)
  {
    && InRange(v) && IsValid(Entry(s, v))
    && Tree(s') && ShapeOk(s') && |s'.frames| == |s.frames| && s'.tables == s.tables && s'.pra == s.pra
    && (forall u | InRange(u) :: Entry(s', u) == if u == v then w else Entry(s, u))
    && (forall g | 0 <= g < |s.frames| && !IsTable(s.tables, g) :: s'.frames[g] == s.frames[g])
    && (forall g: int :: Mappings(s', g) == Mappings(s, g) - {v})
    && var p := PageOf(Entry(s, v));
       && IsFrame(s, p)
       && s'.ref == s.ref[p := s.ref[p] - 1]
       && s'.free == (if |Mappings(s, p)| == 1 && !IsTable(s.tables, p) then s.free + {p} else s.free)
  }

  lemma UnmappedRefs(s: State, s': State, v: Vpn, w: nat)
    requires Counted(s) && Unmapped(s, s', v, w)
    ensures RefsOk(s')
  {
    forall g | 0 <= g < |s'.frames| ensures RefOk(s', g) {
      UnmappedRef(s, s', v, w, g);
    }
  }

  lemma UnmappedRef(s: State, s': State, v: Vpn, w: nat, g: int)
    requires Counted(s) && Unmapped(s, s', v, w) && IsFrame(s, g)
    ensures RefOk(s', g)
  {
    assert RefOk(s, g);
    var p := PageOf(Entry(s, v));
    assert v in Mappings(s, g) <==> g == p;
    if g == p {
      LastMapping(Mappings(s, p), v);
    } else {
      assert Mappings(s', g) == Mappings(s, g);
    }
    assert TableRef(s', g) == TableRef(s, g);
  }

  /** The list stays in order iff the page that lost a mapping is not on it (any more). */
  lemma UnmappedSwap(s: State, s': State, v: Vpn, w: nat)
    requires Counted(s) && SwapOk(s) && Unmapped(s, s', v, w) && s'.swappable <= s.swappable
    ensures SwapOk(s') <==> PageOf(Entry(s, v)) !in s'.swappable
  {
    var p := PageOf(Entry(s, v));
    assert v in Mappings(s, p);
    if p in s'.swappable {
      assert SwappableOk(s, p) && v !in Mappings(s', p);
      assert !SwappableOk(s', p);
    } else {
      forall g <- s'.swappable ensures SwappableOk(s', g) {
        assert SwappableOk(s, g) && v !in Mappings(s, g);
      }
    }
  }

  lemma UnmappedMaps(s: State, s': State, v: Vpn, w: nat)
    requires Counted(s) && Unmapped(s, s', v, w) && !IsValid(w)
    ensures MappedOk(s') && FreeOk(s') && (TablesUnmapped(s) ==> TablesUnmapped(s'))
  {
    var p := PageOf(Entry(s, v));
    LastMapping(Mappings(s, p), v);
    forall u | InRange(u) && IsValid(Entry(s', u)) ensures PageOf(Entry(s', u)) !in s'.free {
      assert u in Mappings(s', PageOf(Entry(s', u)));
    }
  }

  lemma UnmappedInv(s: State, s': State, v: Vpn, w: nat)
    requires Counted(s) && Unmapped(s, s', v, w)
    requires w == 0 || (w == SwapEntry(v) && HasSlot(v))
    ensures Counted(s') && (Exact(s) ==> Exact(s'))
  {
    SwapEntryFacts(v);
    UnmappedRefs(s, s', v, w);
    UnmappedMaps(s, s', v, w);
  }

  /** A frame whose only mapping was v has none left. */
  lemma LastMapping(m: set<Vpn>, v: Vpn)
    requires v in m
    ensures |m - {v}| == |m| - 1 && (|m| == 1 <==> m == {v})
  {
    assert m == (m - {v}) + {v};
  }

  // ----- eviction -----

  /** What swap_out changes: the entry at the recorded address, nothing else in the map. */
  lemma EvictEntries(s: State, f: nat)
    requires Evictable(s, f)
    ensures var v, s' := IndexOf(s.pra[f]), Evict(s, f);
            && Tree(s') && ShapeOk(s') && s'.tables == s.tables && |s'.frames| == |s.frames|
            && (forall u | InRange(u) :: Entry(s', u) == if u == v then SwapEntry(v) else Entry(s, u))
            && (forall g | 0 <= g < |s.frames| && !IsTable(s.tables, g) :: s'.frames[g] == s.frames[g])
            && (forall g: int :: Mappings(s', g) == Mappings(s, g) - {v})
  {
    var v := IndexOf(s.pra[f]);
    var s1 := s.(swappable := s.swappable - {f}, disk := WriteSlot(s.disk, Number(v) + 1, s.frames[f]));
    WriteSlotRead(s.disk, Number(v) + 1, s.frames[f], 0);
    SetEntryFacts(s1, v, SwapEntry(v));
    SwapEntryFacts(v);
    SameMappings(s, s1);
    SameMappings(SetEntry(s1, v, SwapEntry(v)), Evict(s, f));
  }

  /**
   swap_out takes away the mapping at the recorded address and frees the victim whatever that
   entry maps and whatever the victim's count.  The counts stay exact iff the entry maps the
   victim and is its only mapping.
   */
  lemma EvictRefExact(s: State, f: nat)
    requires Evictable(s, f) && MappedOk(s) && RefsOk(s)
    ensures Tree(Evict(s, f)) && ShapeOk(Evict(s, f)) && (RefsOk(Evict(s, f)) <==> GoodVictim(s, f))
  {
    EvictEntries(s, f);
    var v, s' := IndexOf(s.pra[f]), Evict(s, f);
    EvictRef(s, f, PageOf(Entry(s, v)));
    EvictRef(s, f, f);
    if GoodVictim(s, f) {
      forall g | 0 <= g < |s'.frames| ensures RefOk(s', g) {
        EvictRef(s, f, g);
      }
    }
  }

  /** Which counts an eviction leaves exact. */
  lemma EvictRef(s: State, f: nat, g: nat)
    requires Evictable(s, f) && MappedOk(s) && RefsOk(s) && IsFrame(s, g)
    ensures Tree(Evict(s, f)) && ShapeOk(Evict(s, f)) && IsFrame(Evict(s, f), g)
    ensures var p := PageOf(Entry(s, IndexOf(s.pra[f])));
            RefOk(Evict(s, f), g) <==>
              if g == f then (if p == f then s.ref[f] == 1 else s.ref[f] == 0) else g != p
  {
    EvictEntries(s, f);
    hide EntryIn, TreeOk, SwapOk, EntriesOk, FreeOk;
    var v, s' := IndexOf(s.pra[f]), Evict(s, f);
    var p := PageOf(Entry(s, v));
    assert RefOk(s, g);
    assert v in Mappings(s, g) <==> g == p;
    if g == p {
      LastMapping(Mappings(s, g), v);
    } else {
      assert Mappings(s', g) == Mappings(s, g);
    }
    assert TableRef(s', g) == TableRef(s, g);
  }

  /** An eviction keeps everything else in order under the same condition. */
  lemma EvictInv(s: State, f: nat)
    requires Counted(s) && Evictable(s, f)
    ensures Counted(Evict(s, f)) <==> GoodVictim(s, f)
    ensures Exact(s) ==> (Exact(Evict(s, f)) <==> GoodVictim(s, f))
    ensures GoodVictim(s, f) ==> Unmapped(s, Evict(s, f), IndexOf(s.pra[f]), SwapEntry(IndexOf(s.pra[f])))
    ensures GoodVictim(s, f) && SwapOk(s) ==> SwapOk(Evict(s, f))
  {
    EvictEntries(s, f);
    EvictRefExact(s, f);
    var v := IndexOf(s.pra[f]);
    if GoodVictim(s, f) {
      MappedCount(s, v);
      UnmappedInv(s, Evict(s, f), v, SwapEntry(v));
      if SwapOk(s) {
        UnmappedSwap(s, Evict(s, f), v, SwapEntry(v));
      }
    }
  }

  /** After eviction only the victim's own disk slot differs. */
  lemma EvictSlots(s: State, f: nat, n: nat)
    requires Evictable(s, f) && n < MAX_SWAP_OFFSET
    ensures var m := Number(IndexOf(s.pra[f])) + 1;
            Slot(Evict(s, f).disk, n) == if n == m then s.frames[f] else Slot(s.disk, n)
  {
    WriteSlotRead(s.disk, Number(IndexOf(s.pra[f])) + 1, s.frames[f], n);
  }

  /** In numbers: the page goes to the 512 words of slot la / 4096 + 1, and this number, shifted, to the entry. */
  lemma EvictWrites(s: State, f: nat)
    requires Evictable(s, f)
    ensures var la, at, s' := s.pra[f], (s.pra[f] / 4096 + 1) * 512, Evict(s, f);
            && at + 512 <= |s.disk| && s'.disk == s.disk[..at] + s.frames[f] + s.disk[at + 512..]
            && Tree(s') && Entry(s', IndexOf(la)) == (la / 4096 + 1) * 256
  {
    EvictEntries(s, f);
    SwapEntryValue(s.pra[f]);
    IndexNumber(s.pra[f]);
  }

  lemma EvictAt(s: State, f: nat, u: Vpn, g: int)
    requires Evictable(s, f) && InRange(u)
    ensures Tree(Evict(s, f)) && |Evict(s, f).frames| == |s.frames|
    ensures Entry(Evict(s, f), u) == if u == IndexOf(s.pra[f]) then SwapEntry(u) else Entry(s, u)
    ensures IsFrame(s, g) && !IsTable(s.tables, g) ==> Evict(s, f).frames[g] == s.frames[g]
  {
    EvictEntries(s, f);
  }

  /** Eviction of a good victim is invisible in the plain memory. */
  lemma EvictSameMemory(s: State, f: nat)
    requires Exact(s) && Evictable(s, f) && GoodVictim(s, f)
    ensures Exact(Evict(s, f)) && SameMemory(s, Evict(s, f))
  {
    EvictInv(s, f);
    EvictEntries(s, f);
    hide MappedOk, TablesUnmapped, FreeOk, EntriesOk, RefsOk, EntryIn, TreeOk;
    forall u | InRange(u) ensures Present(s, u) <==> Present(Evict(s, f), u) {
      SwapEntryFacts(u);
    }
    forall u | InRange(u) && Present(s, u) ensures Contents(Evict(s, f), u) == Contents(s, u) {
      if u != IndexOf(s.pra[f]) && IsValid(Entry(s, u)) {
        EvictContentsInMemory(s, f, u);
      } else {
        EvictContentsOnDisk(s, f, u);
      }
    }
  }

  /** A page that is mapped and not the victim stays where it is. */
  lemma EvictContentsInMemory(s: State, f: nat, u: Vpn)
    requires Exact(s) && InRange(u) && IsValid(Entry(s, u)) && Present(s, u)
    requires Evictable(s, f) && GoodVictim(s, f) && Exact(Evict(s, f)) && u != IndexOf(s.pra[f])
    ensures Present(Evict(s, f), u) && Contents(Evict(s, f), u) == Contents(s, u)
  {
    EvictAt(s, f, u, PageOf(Entry(s, u)));
  }

  /** The victim's contents are on disk, and those of the pages that were there before stay. */
  lemma EvictContentsOnDisk(s: State, f: nat, u: Vpn)
    requires Exact(s) && InRange(u) && Present(s, u)
    requires Evictable(s, f) && GoodVictim(s, f) && Exact(Evict(s, f))
    requires u == IndexOf(s.pra[f]) || !IsValid(Entry(s, u))
    ensures Present(Evict(s, f), u) && Contents(Evict(s, f), u) == Contents(s, u)
  {
    EvictAt(s, f, u, 0);
    SwapEntryFacts(u);
    assert HasSlot(u);
    hide MappedOk, TablesUnmapped, FreeOk, EntriesOk, RefsOk;
    EvictSlots(s, f, Number(u) + 1);
    OtherNumber(u, IndexOf(s.pra[f]));
    hide Evict, EntryIn, TreeOk, Slot, Number, IndexOf;
  }

  lemma OtherNumber(u: Vpn, v: Vpn)
    requires InRange(u) && InRange(v)
    ensures u == v <==> Number(u) == Number(v)
  {
    if Number(u) == Number(v) {
      NumberInjective(u, v);
    }
  }

  // ----- a new table -----

  lemma AddTableInv(s: State, key: Key, f: nat)
    requires Counted(s) && Held(s, f)
    requires key != TopKey && key !in s.tables && ParentKey(key) in s.tables && KeyOk(s.tables, key)
    ensures var s' := AddTable(s, key, f);
            && Counted(s') && (Exact(s) ==> Exact(s') && SameMemory(s, s')) && SwapKept(s, s') && |s'.frames| == |s.frames|
            && (forall v | InRange(v) :: Entry(s', v) == Entry(s, v))
            && (forall g | 0 <= g < |s.frames| && !IsTable(s'.tables, g) :: s'.frames[g] == s.frames[g])
            && (forall g: int :: Mappings(s', g) == Mappings(s, g))
            && (forall g: int :: IsTable(s'.tables, g) <==> IsTable(s.tables, g) || g == f)
  {
    AddTableEntries(s, key, f);
    AddTableSet(s, key, f);
    AddTableRefs(s, key, f);
    AddTableMaps(s, key, f);
    SameSwap(s, AddTable(s, key, f));
    hide AddTable, MappedOk, TablesUnmapped, FreeOk, RefsOk, SwapOk, TreeOk, EntryIn, SwapKept;
    if Exact(s) {
      SameEntriesMemory(s, AddTable(s, key, f), f);
    }
  }

  lemma AddTableEntries(s: State, key: Key, f: nat)
    requires Tree(s) && ShapeOk(s) && Held(s, f)
    requires key != TopKey && key !in s.tables && ParentKey(key) in s.tables && KeyOk(s.tables, key)
    ensures var s' := AddTable(s, key, f);
            && Tree(s') && ShapeOk(s') && |s'.frames| == |s.frames|
            && s' == s.(frames := s'.frames, ref := s.ref[f := 1], tables := s.tables[key := f])
            && (forall v | InRange(v) :: Entry(s', v) == Entry(s, v))
            && (forall g | 0 <= g < |s.frames| && !IsTable(s.tables, g) && g != f :: s'.frames[g] == s.frames[g])
            && (forall g: int :: Mappings(s', g) == Mappings(s, g))
  {
    TableWrite(s.frames, s.tables, key, f);
    SameMappings(s, AddTable(s, key, f));
  }

  lemma AddTableMaps(s: State, key: Key, f: nat)
    requires Counted(s) && Held(s, f)
    requires key != TopKey && key !in s.tables && ParentKey(key) in s.tables && KeyOk(s.tables, key)
    ensures var s' := AddTable(s, key, f);
            Tree(s') && MappedOk(s') && FreeOk(s') && EntriesOk(s') && (TablesUnmapped(s) ==> TablesUnmapped(s'))
  {
    AddTableEntries(s, key, f);
    AddTableSet(s, key, f);
    var s' := AddTable(s, key, f);
    hide AddTable, RefsOk, TreeOk, EntryIn;
    forall v | InRange(v) && IsValid(Entry(s', v)) ensures PageOf(Entry(s', v)) != f {
      assert v in Mappings(s', PageOf(Entry(s', v)));
    }
  }

  /** Same entries, same disk, and a page that nobody maps rewritten: the plain memory is the same. */
  lemma SameEntriesMemory(s: State, s': State, f: nat)
    requires Counted(s) && Counted(s') && s'.disk == s.disk && |s'.frames| == |s.frames|
    requires forall v | InRange(v) :: Entry(s', v) == Entry(s, v)
    requires forall g | 0 <= g < |s.frames| && !IsTable(s.tables, g) && g != f :: s'.frames[g] == s.frames[g]
    requires Mappings(s, f) == {} && TablesUnmapped(s)
    ensures SameMemory(s, s')
  {
    forall v | InRange(v) && Present(s, v) ensures Contents(s', v) == Contents(s, v) {
      if IsValid(Entry(s, v)) {
        assert v in Mappings(s, PageOf(Entry(s, v)));
      }
    }
  }

  lemma AddTableSet(s: State, key: Key, f: nat)
    requires Tree(s) && ShapeOk(s) && IsFrame(s, f)
    requires key != TopKey && key !in s.tables && ParentKey(key) in s.tables && KeyOk(s.tables, key)
    ensures forall g: int :: IsTable(AddTable(s, key, f).tables, g) <==> IsTable(s.tables, g) || g == f
  {
    var s' := AddTable(s, key, f);
    forall g: int ensures IsTable(s'.tables, g) <==> IsTable(s.tables, g) || g == f {
      assert s'.tables[key] == f;
      assert forall k <- s.tables :: k in s'.tables && s'.tables[k] == s.tables[k];
    }
  }

  lemma AddTableRefs(s: State, key: Key, f: nat)
    requires Counted(s) && Held(s, f)
    requires key != TopKey && key !in s.tables && ParentKey(key) in s.tables && KeyOk(s.tables, key)
    requires Tree(AddTable(s, key, f)) && forall g: int :: Mappings(AddTable(s, key, f), g) == Mappings(s, g)
    ensures RefsOk(AddTable(s, key, f))
  {
    var s' := AddTable(s, key, f);
    assert |s'.frames| == |s.frames| && s'.ref == s.ref[f := 1];
    forall g | 0 <= g < |s'.frames| ensures RefOk(s', g) {
      assert RefOk(s, g);
      AddTableRef(s, key, f, g);
    }
  }

  lemma AddTableRef(s: State, key: Key, f: nat, g: nat)
    requires Tree(s) && ShapeOk(s) && IsFrame(s, f) && IsFrame(s, g) && !IsTable(s.tables, f)
    requires key != TopKey && key !in s.tables && ParentKey(key) in s.tables && KeyOk(s.tables, key)
    ensures TableRef(AddTable(s, key, f), g) == if g == f then 1 else TableRef(s, g)
  {
    var s' := AddTable(s, key, f);
    assert s'.tables[key] == f;
    assert forall k <- s.tables :: k in s'.tables && s'.tables[k] == s.tables[k];
  }

  // ----- unmapping and inserting -----

  lemma UnmapFacts(s: State, v: Vpn)
    requires Counted(s) && InRange(v) && IsValid(Entry(s, v))
    ensures LeafKey(v.i, v.j) in s.tables && Unmapped(s, Unmap(s, v), v, 0) && Unmap(s, v).swappable == s.swappable
  {
    MappedCount(s, v);
    var p := PageOf(Entry(s, v));
    var s2 := DropRef(s, p);
    DropRefFacts(s, p);
    assert Unmap(s, v) == SetEntry(s2, v, 0);
    SameMappings(s, s2);
    SetEntryFacts(s2, v, 0);
    hide MappedOk, TablesUnmapped, FreeOk, EntriesOk, RefsOk, Unmap, DropRef, TreeOk, EntryIn;
  }

  lemma DropRefFacts(s: State, p: nat)
    requires p < |s.ref|
    ensures var s' := DropRef(s, p);
            && s' == s.(ref := s'.ref, free := s'.free) && s'.ref == s.ref[p := s.ref[p] - 1]
            && s'.free == if s.ref[p] == 1 then s.free + {p} else s.free
  {
  }

  /**
   page_remove_pte: the mapping goes, and the page with it exactly when it was the last one.
   Counts stay exact; the swap manager's list stays in order iff the page is not on it.
   */
  lemma UnmapInv(s: State, v: Vpn)
    requires Counted(s) && InRange(v) && IsValid(Entry(s, v))
    ensures LeafKey(v.i, v.j) in s.tables
    ensures Counted(Unmap(s, v)) && (Exact(s) ==> Exact(Unmap(s, v)))
    ensures Unmapped(s, Unmap(s, v), v, 0) && Unmap(s, v).swappable == s.swappable
    ensures SwapOk(s) ==> (SwapOk(Unmap(s, v)) <==> PageOf(Entry(s, v)) !in s.swappable)
  {
    UnmapFacts(s, v);
    UnmappedInv(s, Unmap(s, v), v, 0);
    if SwapOk(s) {
      UnmappedSwap(s, Unmap(s, v), v, 0);
    }
  }

  // ----- gaining one mapping -----

  /** Counts a new mapping of `page` at v, where nothing valid is mapped. */
  ghost function MapNew(s: State, v: Vpn, page: nat, perm: nat): State
    requires Tree(s) && ShapeOk(s) && InRange(v) && LeafKey(v.i, v.j) in s.tables
    requires IsFrame(s, page) && perm < 1024
  {
    SetEntry(s.(ref := s.ref[page := s.ref[page] + 1]), v, PteCreate(page, perm))
  }

  /** An allocated page, a table perhaps but not the top one. */
  ghost predicate Insertable(s: State, page: nat)
    requires Tree(s)
  {
    IsFrame(s, page) && page !in s.free && page != s.tables[TopKey]
  }

  /** A page that may be mapped: allocated and no table. */
  ghost predicate Mappable(s: State, page: nat)
  {
    IsFrame(s, page) && !IsTable(s.tables, page) && page !in s.free
  }

  lemma MapNewFacts(s: State, v: Vpn, page: nat, perm: nat)
    requires Counted(s) && InRange(v) && LeafKey(v.i, v.j) in s.tables && !IsValid(Entry(s, v))
    requires IsFrame(s, page) && perm < 1024
    ensures var s' := MapNew(s, v, page, perm);
            && Tree(s') && ShapeOk(s') && |s'.frames| == |s.frames|
            && (forall u | InRange(u) :: Entry(s', u) == if u == v then PteCreate(page, perm) else Entry(s, u))
            && (forall g | 0 <= g < |s.frames| && !IsTable(s.tables, g) :: s'.frames[g] == s.frames[g])
            && (forall g: int :: Mappings(s', g) == Mappings(s, g) + (if g == page then {v} else {}))
            && (forall g: int :: v !in Mappings(s, g))
  {
    PteRoundTrip(page, perm);
    var s1 := s.(ref := s.ref[page := s.ref[page] + 1]);
    SameMappings(s, s1);
    SetEntryFacts(s1, v, PteCreate(page, perm));
  }

  /** A new mapping spoils the list iff the page is on it, for it is mapped twice then. */
  lemma MapNewInv(s: State, v: Vpn, page: nat, perm: nat)
    requires Counted(s) && InRange(v) && LeafKey(v.i, v.j) in s.tables && !IsValid(Entry(s, v))
    requires Insertable(s, page) && perm < 1024
    ensures Counted(MapNew(s, v, page, perm)) && (Exact(s) && Mappable(s, page) ==> Exact(MapNew(s, v, page, perm)))
    ensures SwapOk(s) ==> (SwapOk(MapNew(s, v, page, perm)) <==> page !in s.swappable)
  {
    MapNewFacts(s, v, page, perm);
    MapNewRefs(s, v, page, perm);
    PteRoundTrip(page, perm);
    hide RefsOk;
    if SwapOk(s) {
      MapNewSwap(s, v, page, perm);
    }
  }

  lemma MapNewRefs(s: State, v: Vpn, page: nat, perm: nat)
    requires Counted(s) && InRange(v) && LeafKey(v.i, v.j) in s.tables && !IsValid(Entry(s, v))
    requires IsFrame(s, page) && perm < 1024
    ensures Tree(MapNew(s, v, page, perm)) && ShapeOk(MapNew(s, v, page, perm)) && RefsOk(MapNew(s, v, page, perm))
  {
    var s' := MapNew(s, v, page, perm);
    MapNewFacts(s, v, page, perm);
    hide MappedOk, TablesUnmapped, FreeOk, EntriesOk, TreeOk, EntryIn;
    forall g | 0 <= g < |s'.frames| ensures RefOk(s', g) {
      assert RefOk(s, g);
      assert TableRef(s', g) == TableRef(s, g);
    }
  }

  lemma MapNewSwap(s: State, v: Vpn, page: nat, perm: nat)
    requires Counted(s) && InRange(v) && LeafKey(v.i, v.j) in s.tables && !IsValid(Entry(s, v))
    requires IsFrame(s, page) && perm < 1024 && SwapOk(s)
    ensures Tree(MapNew(s, v, page, perm))
    ensures SwapOk(MapNew(s, v, page, perm)) <==> page !in s.swappable
  {
    var s' := MapNew(s, v, page, perm);
    MapNewFacts(s, v, page, perm);
    if page in s.swappable {
      assert SwappableOk(s, page) && IndexOf(s.pra[page]) in Mappings(s, page);
      assert !SwappableOk(s', page);
    } else {
      forall g <- s'.swappable ensures SwappableOk(s', g) {
        assert SwappableOk(s, g);
      }
    }
  }

  lemma ReflagFacts(s: State, v: Vpn, page: nat, perm: nat)
    requires Counted(s) && Maps(s, v, page) && perm < 1024
    ensures LeafKey(v.i, v.j) in s.tables && IsFrame(s, page)
    ensures var s' := SetEntry(s, v, PteCreate(page, perm));
            && Tree(s')
            && (forall u | InRange(u) :: Entry(s', u) == if u == v then PteCreate(page, perm) else Entry(s, u))
            && (forall g | 0 <= g < |s.frames| && !IsTable(s.tables, g) :: s'.frames[g] == s.frames[g])
            && (forall g: int :: Mappings(s', g) == Mappings(s, g))
  {
    MappedCount(s, v);
    var s' := SetEntry(s, v, PteCreate(page, perm));
    PteRoundTrip(page, perm);
    SetEntryFacts(s, v, PteCreate(page, perm));
    forall g: int ensures Mappings(s', g) == Mappings(s, g) {
      assert v in Mappings(s, g) <==> g == page;
    }
  }

  /** Rewriting the entry of a mapped page with other permissions keeps everything. */
  lemma ReflagInv(s: State, v: Vpn, page: nat, perm: nat)
    requires Counted(s) && Maps(s, v, page) && perm < 1024
    ensures LeafKey(v.i, v.j) in s.tables && Counted(SetEntry(s, v, PteCreate(page, perm)))
    ensures Exact(s) ==> Exact(SetEntry(s, v, PteCreate(page, perm)))
    ensures SwapKept(s, SetEntry(s, v, PteCreate(page, perm)))
  {
    var s' := SetEntry(s, v, PteCreate(page, perm));
    ReflagFacts(s, v, page, perm);
    PteRoundTrip(page, perm);
    SameRefs(s, s');
    SameSwap(s, s');
  }

  /** page_insert is an unmapping followed by a new mapping, unless the page is there already. */
  lemma InsertCases(s: State, v: Vpn, page: nat, perm: nat)
    requires Counted(s) && InRange(v) && LeafKey(v.i, v.j) in s.tables && IsFrame(s, page) && perm < 1024
    ensures !IsValid(Entry(s, v)) ==> InsertPage(s, v, page, perm) == MapNew(s, v, page, perm)
    ensures IsValid(Entry(s, v)) && PageOf(Entry(s, v)) == page ==>
              InsertPage(s, v, page, perm) == SetEntry(s, v, PteCreate(page, perm))
    ensures IsValid(Entry(s, v)) && PageOf(Entry(s, v)) != page ==>
              Counted(Unmap(s, v)) && InsertPage(s, v, page, perm) == MapNew(Unmap(s, v), v, page, perm)
  {
    var e := Entry(s, v);
    var s1 := s.(ref := s.ref[page := s.ref[page] + 1]);
    if IsValid(e) && PageOf(e) == page {
      assert s1.(ref := s1.ref[page := s1.ref[page] - 1]) == s;
    } else if IsValid(e) {
      UnmapInv(s, v);
      MappedCount(s, v);
      InsertReplaces(s, v, page, perm);
    }
  }

  lemma InsertReplaces(s: State, v: Vpn, page: nat, perm: nat)
    requires Counted(s) && InRange(v) && LeafKey(v.i, v.j) in s.tables && IsFrame(s, page) && perm < 1024
    requires IsValid(Entry(s, v)) && PageOf(Entry(s, v)) != page && Counted(Unmap(s, v))
    ensures InsertPage(s, v, page, perm) == MapNew(Unmap(s, v), v, page, perm)
  {
    MappedCount(s, v);
    UnmapCommutes(s, v, page);
    hide Unmap, SetEntry, MappedOk, TablesUnmapped, EntriesOk, RefsOk, FreeOk;
  }

  /** Raising another page's count and unmapping do not disturb each other. */
  lemma UnmapCommutes(s: State, v: Vpn, page: nat)
    requires Counted(s) && InRange(v) && LeafKey(v.i, v.j) in s.tables && IsFrame(s, page)
    requires IsValid(Entry(s, v)) && PageOf(Entry(s, v)) != page
    ensures var u := Unmap(s, v);
            && |u.ref| == |s.ref| && u.ref[page] == s.ref[page]
            && Unmap(s.(ref := s.ref[page := s.ref[page] + 1]), v) == u.(ref := u.ref[page := s.ref[page] + 1])
  {
    var p := PageOf(Entry(s, v));
    MappedCount(s, v);
    DropRefCommutes(s, p, page);
    hide DropRef, MappedOk, TablesUnmapped, EntriesOk, RefsOk, FreeOk;
  }

  lemma DropRefCommutes(s: State, p: nat, page: nat)
    requires p < |s.ref| && page < |s.ref| && p != page
    ensures var u := DropRef(s, p);
            && u == s.(ref := u.ref, free := u.free) && |u.ref| == |s.ref| && u.ref[page] == s.ref[page]
            && DropRef(s.(ref := s.ref[page := s.ref[page] + 1]), p) == u.(ref := u.ref[page := s.ref[page] + 1])
  {
    var s1 := s.(ref := s.ref[page := s.ref[page] + 1]);
    assert DropRef(s1, p).ref == DropRef(s, p).ref[page := s.ref[page] + 1];
  }

  // ----- making a page swappable, loading, writing -----

  /** Handing a page to the swap manager keeps its list in order iff the page is mapped at la and nowhere else. */
  lemma MakeSwappableInv(s: State, f: nat, la: nat)
    requires Counted(s) && IsFrame(s, f)
    ensures var s' := MakeSwappable(s, f, la);
            && Counted(s') && (Exact(s) ==> Exact(s')) && SameMemory(s, s') && (forall v | InRange(v) :: Entry(s', v) == Entry(s, v))
            && (SwapOk(s) && f !in s.swappable ==> (SwapOk(s') <==> SwappableOk(s', f)))
    ensures MakeSwappable(s, f, la).pra[f] == la
  {
    var s' := MakeSwappable(s, f, la);
    SameMappings(s, s');
    SameRefs(s, s');
    forall g <- s'.swappable | g != f && SwapOk(s) ensures SwappableOk(s', g) {
      assert SwappableOk(s, g);
    }
  }

  /** Overwriting a page that is no table keeps the invariant and all entries. */
  lemma DataWriteInv(s: State, f: nat, x: Frame)
    requires Exact(s) && IsFrame(s, f) && !IsTable(s.tables, f) && |x| == NPTEENTRY
    ensures var s' := s.(frames := s.frames[f := x]);
            && Exact(s') && SwapKept(s, s') && (forall v | InRange(v) :: Entry(s', v) == Entry(s, v))
            && forall g: int :: Mappings(s', g) == Mappings(s, g)
  {
    var s' := s.(frames := s.frames[f := x]);
    DataWrite(s.frames, s.tables, f, x);
    SameMappings(s, s');
    SameRefs(s, s');
    SameSwap(s, s');
  }

  /** A write to a page nobody maps is not visible in the plain memory. */
  lemma HeldWriteSameMemory(s: State, f: nat, x: Frame)
    requires Exact(s) && Held(s, f) && |x| == NPTEENTRY
    ensures var s' := s.(frames := s.frames[f := x]);
            Exact(s') && SwapKept(s, s') && SameMemory(s, s') && Held(s', f)
  {
    var s' := s.(frames := s.frames[f := x]);
    DataWriteInv(s, f, x);
    forall u | InRange(u) && Present(s, u) ensures Contents(s', u) == Contents(s, u) {
      if IsValid(Entry(s, u)) {
        assert u in Mappings(s, PageOf(Entry(s, u)));
      }
    }
  }

  /** A store through v changes the contents of v alone, if v's page has no other mapping. */
  lemma StoreContents(s: State, v: Vpn, f: nat, x: Frame)
    requires Sound(s) && Maps(s, v, f) && Mappings(s, f) == {v} && |x| == NPTEENTRY && IsFrame(s, f)
    ensures var s' := s.(frames := s.frames[f := x]);
            && Sound(s') && (forall u | InRange(u) :: Present(s', u) <==> Present(s, u))
            && (forall u | InRange(u) && Present(s, u) :: Contents(s', u) == if u == v then x else Contents(s, u))
  {
    var s' := s.(frames := s.frames[f := x]);
    DataWriteInv(s, f, x);
    forall u | InRange(u) && Present(s, u) ensures Contents(s', u) == if u == v then x else Contents(s, u) {
      if IsValid(Entry(s, u)) && PageOf(Entry(s, u)) == f {
        assert u in Mappings(s, f);
      }
    }
  }
}
