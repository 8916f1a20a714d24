/**
 What the walk of get_pte may do to the page that page_insert is about to map: every outcome, for
 every choice of free pages and victims.
 */
module PageWalk {
  import opened Sv39
  import opened PageState
  import opened PageOps
  import opened PageGrowth
  import opened PageMapping

  // ----- outcomes -----

  /** alloc_page handed out f, s1 is the state then, and f was hung in as the table for `key`. */
  ghost predicate MadeFrom(s: State, s1: State, s': State, key: Key, f: nat)
  {
    && Allocated(s, s1, f) && Tree(s1) && ShapeOk(s1) && IsFrame(s1, f)
    && TablePlace(s1.tables, key) && key !in s1.tables && s' == AddTable(s1, key, f)
  }

  /** One level of the walk that succeeds: the table is there, or was made from some page. */
  ghost predicate TableMade(s: State, s': State, key: Key)
  {
    if key in s.tables then s' == s else exists s1: State, f: nat :: MadeFrom(s, s1, s', key, f)
  }

  /** get_pte with create = 1 can lead from s to s'. */
  ghost predicate Walked(s: State, s': State, v: Vpn)
  {
    exists t: State :: TableMade(s, t, MidKey(v.i)) && TableMade(t, s', LeafKey(v.i, v.j))
  }

  lemma WalkedBy(s: State, t: State, s': State, v: Vpn)
    requires TableMade(s, t, MidKey(v.i)) && TableMade(t, s', LeafKey(v.i, v.j))
    ensures Walked(s, s', v)
  {
  }

  lemma MadeBy(s: State, s1: State, key: Key, f: nat)
    requires Allocated(s, s1, f) && Tree(s1) && ShapeOk(s1) && IsFrame(s1, f) && s1.tables == s.tables
    requires TablePlace(s1.tables, key) && key !in s1.tables
    ensures TableMade(s, AddTable(s1, key, f), key)
  {
    assert MadeFrom(s, s1, AddTable(s1, key, f), key, f);
  }

  // ----- what a walk can do to an allocated page -----

  /** In use and not the top table. */
  ghost predicate InUse(s: State, page: nat)
  {
    TopKey in s.tables && IsFrame(s, page) && page !in s.free && page != s.tables[TopKey]
  }

  /** A page in use stays so; it may become a table if it could be evicted and nothing was free. */
  lemma MadeInUse(s: State, s1: State, s': State, key: Key, f: nat, page: nat)
    requires MadeFrom(s, s1, s', key, f) && InUse(s, page)
    ensures InUse(s', page) && s'.tables == s.tables[key := f] && s'.swappable <= s.swappable
    ensures IsTable(s'.tables, page) ==> IsTable(s.tables, page) || (page in s.swappable && s.free == {})
    ensures s.free != {} ==> |s'.free| == |s.free| - 1
  {
    if s.free != {} {
      CardRemove(s.free, f);
    } else {
      EvictParts(s, f);
      assert s1.free == {};
    }
    AddTableSet(s1, key, f);
    hide TreeOk, EntryIn, Evictable, Evict;
  }

  lemma EvictParts(s: State, f: nat)
    requires Evictable(s, f)
    ensures var s' := Evict(s, f);
            && s'.free == s.free + {f} && s'.swappable == s.swappable - {f} && s'.tables == s.tables
            && |s'.frames| == |s.frames|
  {
  }

  lemma StepInUse(s: State, s': State, key: Key, page: nat)
    requires TableMade(s, s', key) && InUse(s, page)
    ensures InUse(s', page) && s'.swappable <= s.swappable && key in s'.tables
    ensures forall k <- s'.tables :: k in s.tables || k == key
    ensures forall k <- s.tables :: k in s'.tables
    ensures IsTable(s'.tables, page) ==> IsTable(s.tables, page) || (page in s.swappable && s.free == {} && key !in s.tables)
    ensures s' == s || (key !in s.tables && (s.free != {} ==> |s'.free| == |s.free| - 1))
  {
    if key !in s.tables {
      var s1: State, f: nat :| MadeFrom(s, s1, s', key, f);
      MadeInUse(s, s1, s', key, f, page);
      hide MadeFrom;
    }
  }

  /** page_insert's walk turns its page into a table only if the page may be evicted and too few pages are free. */
  lemma WalkedInUse(s: State, s': State, v: Vpn, page: nat)
    requires Walked(s, s', v) && InUse(s, page) && !IsTable(s.tables, page)
    requires LeafKey(v.i, v.j) in s.tables ==> MidKey(v.i) in s.tables
    ensures InUse(s', page) && LeafKey(v.i, v.j) in s'.tables
    ensures IsTable(s'.tables, page) ==> page in s.swappable && |s.free| < MissingTables(s, v)
  {
    var t: State :| TableMade(s, t, MidKey(v.i)) && TableMade(t, s', LeafKey(v.i, v.j));
    StepInUse(s, t, MidKey(v.i), page);
    StepInUse(t, s', LeafKey(v.i, v.j), page);
    hide TableMade, InUse, IsTable;
  }

  // ----- a choice that turns the page into a table -----

  /** A table for `key`, made from page f. */
  lemma MakeTable(s: State, key: Key, f: nat) returns (s': State)
    requires Inv(s) && TablePlace(s.tables, key) && key !in s.tables
    requires f in s.free || (s.free == {} && f in s.swappable)
    ensures TableMade(s, s', key) && Inv(s') && s'.tables == s.tables[key := f]
    ensures s.free == {} ==> s'.free == {} && s'.swappable == s.swappable - {f}
    ensures s.free != {} ==> s'.free == s.free - {f} && s'.swappable == s.swappable
  {
    InvOpen(s);
    var s1 := TakeFree(s, f);
    if s.free == {} {
      SwappableEvictable(s, f);
      EvictParts(s, f);
      s1 := TakeFree(Evict(s, f), f);
    }
    hide Inv, ExactInv, Grown, Owned, Evict, Evictable;
    AllocStep(s, s1, f);
    TableStep(s, s1, key, f);
    s' := AddTable(s1, key, f);
    MadeBy(s, s1, key, f);
  }

  /** With the page on the list and too few pages free, some victims turn it into a table. */
  lemma SpoilingWalk(s: State, v: Vpn, page: nat) returns (mid: State)
    requires Inv(s) && InRange(v) && page in s.swappable
    requires |s.free| < MissingTables(s, v) <= |s.free| + |s.swappable|
    ensures Walked(s, mid, v) && Inv(mid) && IsTable(mid.tables, page)
  {
    hide Inv, Walked, TableMade;
    InvExact(s);
    KeysOk(s, v);
    var m, l := MidKey(v.i), LeafKey(v.i, v.j);
    if m in s.tables {
      MadeAlready(s, m);
      mid := MakeTable(s, l, page);
      WalkedBy(s, s, mid, v);
      assert l in mid.tables && mid.tables[l] == page;
    } else {
      var first := page;
      if s.free != {} {
        first :| first in s.free;
        CardRemove(s.free, first);
      } else {
        CardRemove(s.swappable, page);
      }
      var t := MakeTable(s, m, first);
      InvExact(t);
      KeysOk(t, v);
      var second := page;
      if s.free == {} {
        second :| second in t.swappable;
      }
      mid := MakeTable(t, l, second);
      WalkedBy(s, t, mid, v);
      if s.free == {} {
        assert m in mid.tables && mid.tables[m] == page;
      } else {
        assert l in mid.tables && mid.tables[l] == page;
      }
    }
  }

  lemma MadeAlready(s: State, key: Key)
    requires key in s.tables
    ensures TableMade(s, s, key)
  {
  }

  lemma InvExact(s: State)
    requires Inv(s)
    ensures ExactInv(s)
  {
  }

  // ----- when an insertion is safe -----

  /** The insertion of `page` at v after the walk leaves everything in order. */
  ghost predicate InsertsWell(mid: State, v: Vpn, page: nat, perm: nat)
  {
    && Exact(mid) && InRange(v) && LeafKey(v.i, v.j) in mid.tables && IsFrame(mid, page) && perm < 1024
    && Exact(InsertPage(mid, v, page, perm))
  }

  /** The counts stay exact and only a table ends up mapped. */
  ghost predicate InsertsTable(mid: State, v: Vpn, page: nat, perm: nat)
  {
    && Exact(mid) && InRange(v) && LeafKey(v.i, v.j) in mid.tables && IsFrame(mid, page) && perm < 1024
    && Counted(InsertPage(mid, v, page, perm)) && !TablesUnmapped(InsertPage(mid, v, page, perm))
  }

  lemma StepExact(s: State, s': State, key: Key)
    requires Sound(s) && TableMade(s, s', key)
    ensures Sound(s')
  {
    if key !in s.tables {
      var s1: State, f: nat :| MadeFrom(s, s1, s', key, f);
      MadeSound(s, s1, s', key, f);
    }
  }

  lemma MadeSound(s: State, s1: State, s': State, key: Key, f: nat)
    requires Sound(s) && MadeFrom(s, s1, s', key, f)
    ensures Sound(s')
  {
    hide Sound, Exact, Counted, Allocated, Growth, Held;
    SoundParts(s);
    AllocatedGrowth(s, s1, f);
    GrowthExact(s, s1, 1);
    SoundParts(s1);
    ExactCounted(s1);
    AddTableInv(s1, key, f);
    SoundParts(s');
  }

  lemma WalkedSound(s: State, s': State, v: Vpn)
    requires Sound(s) && Walked(s, s', v)
    ensures Sound(s')
  {
    var t: State :| TableMade(s, t, MidKey(v.i)) && TableMade(t, s', LeafKey(v.i, v.j));
    StepExact(s, t, MidKey(v.i));
    StepExact(t, s', LeafKey(v.i, v.j));
  }

  /** What becomes of an insertion after some walk. */
  lemma InsertAfterWalk(s: State, mid: State, v: Vpn, page: nat, perm: nat)
    requires Sound(s) && InRange(v) && Mappable(s, page) && perm < 1024 && Walked(s, mid, v)
    ensures if IsTable(mid.tables, page) then InsertsTable(mid, v, page, perm) else InsertsWell(mid, v, page, perm)
    ensures IsTable(mid.tables, page) ==> page in s.swappable && |s.free| < MissingTables(s, v)
  {
    hide Walked, EntriesOk, RefsOk, InsertPage;
    assert InUse(s, page) && (LeafKey(v.i, v.j) in s.tables ==> KeyOk(s.tables, LeafKey(v.i, v.j)));
    WalkedInUse(s, mid, v, page);
    WalkedSound(s, mid, v);
    InsertCounted(mid, v, page, perm);
    InsertInv(mid, v, page, perm);
    hide MappedOk, FreeOk, SwapOk, TreeOk;
  }

  /**
   Whatever the choices of the walk, page_insert leaves everything in order iff the page is not
   on the swap manager's list or enough pages are free.
   */
  lemma InsertSafe(s: State, v: Vpn, page: nat, perm: nat)
    requires Sound(s) && InRange(v) && Mappable(s, page) && perm < 1024
    requires |s.free| + |s.swappable| >= MissingTables(s, v)
    ensures (forall mid: State :: Walked(s, mid, v) ==> InsertsWell(mid, v, page, perm))
       <==> page !in s.swappable || |s.free| >= MissingTables(s, v)
  {
    hide Sound, Walked, InsertsWell, InsertsTable, MissingTables, Mappable;
    if page !in s.swappable || |s.free| >= MissingTables(s, v) {
      forall mid: State | Walked(s, mid, v) ensures InsertsWell(mid, v, page, perm) {
        InsertAfterWalk(s, mid, v, page, perm);
      }
    } else {
      InvIsSound(s);
      var mid := SpoilingWalk(s, v, page);
      InsertAfterWalk(s, mid, v, page, perm);
      TableIsNotWell(mid, v, page, perm);
    }
  }

  lemma TableIsNotWell(mid: State, v: Vpn, page: nat, perm: nat)
    requires InsertsTable(mid, v, page, perm)
    ensures !InsertsWell(mid, v, page, perm)
  {
  }

  /** What page_insert knows of its page after the walk. */
  lemma AfterWalk(s: State, mid: State, v: Vpn, page: nat)
    requires ExactInv(s) && ExactInv(mid) && InRange(v) && Mappable(s, page) && Walked(s, mid, v)
    ensures Tree(mid) && Insertable(mid, page) && (Mappable(mid, page) <==> !IsTable(mid.tables, page))
    ensures IsTable(mid.tables, page) ==> page in s.swappable && |s.free| < MissingTables(s, v)
  {
    hide Walked, EntriesOk, RefsOk;
    ExactOpen(s);
    ExactOpen(mid);
    assert InUse(s, page) && (LeafKey(v.i, v.j) in s.tables ==> KeyOk(s.tables, LeafKey(v.i, v.j)));
    WalkedInUse(s, mid, v, page);
  }
}
