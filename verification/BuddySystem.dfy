/**
 The page allocator over up to ten buddy zones, and what whole histories of allocations and
 frees leave behind.
 */
module BuddySystem {
  import opened Bits
  import opened BuddyTree
  import opened BuddyNodes
  import opened Buddy
  import opened Wrappers

  const MAX_NUM_BUDDY_ZONE := 10

  /** An aligned free block of m pages exists in the zone. */
  ghost predicate CanServe(z: BuddyZone, m: nat)
    reads z
  {
    exists o :: Available(z.taken, z.size, Block(o, m))
  }

  predicate HasPage(z: BuddyZone, page: nat)
  {
    z.beginPage <= page < z.beginPage + z.size
  }

  twostate predicate SameZone(z: BuddyZone)
    reads z, z.longest
  {
    z.taken == old(z.taken) && z.freeSize == old(z.freeSize) && z.longest[..] == old(z.longest[..])
  }

  /** The lowest available block of its size was taken. */
  twostate predicate Taken(z: BuddyZone, b: Block)
    reads z
  {
    && old(Available(z.taken, z.size, b)) && old(NoneBelow(z.taken, z.size, b.size, b.off))
    && z.taken == old(z.taken) + {b} && b !in old(z.taken) && z.freeSize == old(z.freeSize) - b.size
  }

  /** The block with the page was released; without one nothing changed. */
  twostate predicate Freed(z: BuddyZone, page: Block)
    reads z, z.longest
  {
    && (forall b <- old(z.taken) :: Within(page, b) ==>
          z.taken == old(z.taken) - {b} && z.freeSize == old(z.freeSize) + b.size)
    && (old(Untouched(z.taken, page)) ==> SameZone(z))
  }

  class BuddyManager {
    var zones: seq<BuddyZone>

    ghost predicate Valid()
      reads this, zones, set z <- zones :: z.longest
    {
      && |zones| <= MAX_NUM_BUDDY_ZONE
      && (forall z <- zones :: z.Valid())
      && (forall i, j | 0 <= i < j < |zones| :: zones[i] != zones[j] && zones[i].longest != zones[j].longest)
      && (forall i, j | 0 <= i < j < |zones| ::
            zones[i].beginPage + zones[i].size <= zones[j].beginPage ||
            zones[j].beginPage + zones[j].size <= zones[i].beginPage)
    }

    constructor ()
      ensures Valid() && zones == []
    {
      zones := [];
    }

    /** Adds a zone over n pages from page `begin` on. */
    method InitMemmap(begin: nat, n: nat)
      requires Valid() && |zones| < MAX_NUM_BUDDY_ZONE && 1 < n <= MAX_ZONE && !IsPow2(n)
      requires forall z <- zones :: begin + 2 * n <= z.beginPage || z.beginPage + z.size <= begin
      modifies this
      ensures Valid() && |zones| == |old(zones)| + 1 && zones[..|old(zones)|] == old(zones)
      ensures var z := zones[|old(zones)|];
              && fresh(z) && z.beginPage == begin && n < z.size < 2 * n && z.taken == {z.reserved}
              && z.reserved.off + z.reserved.size == z.size && z.size - n <= z.reserved.size < 2 * (z.size - n)
    {
      var z := new BuddyZone(begin, n);
      ghost var before := zones;
      zones := zones + [z];
      forall y <- before ensures y.Valid() {
        assert old(y.Valid());
      }
    }

    /**
     Hands out the lowest free block of the first zone that has one of the rounded-up size m;
     fails exactly when no zone has one.
     */
    method AllocPages(n: nat) returns (page: Option<nat>, ghost m: nat, ghost k: nat, ghost offset: nat)
      requires Valid() && 0 < n <= 0x1_0000_0000
      modifies zones, set z <- zones :: z.longest
      ensures Valid() && zones == old(zones)
      ensures IsPow2(m) && n <= m < 2 * n && k <= |zones|
      ensures forall i | 0 <= i < k :: !old(CanServe(zones[i], m))
      ensures page == if k < |zones| then Some(zones[k].beginPage + offset) else None
      ensures k < |zones| ==> Taken(zones[k], Block(offset, m))
      ensures forall i | 0 <= i < |zones| && i != k :: SameZone(zones[i])
    {
      var p := n;
      PowerOfTwoTest(n);
      if And(n, n - 1) != 0 {
        p := NextPowerOf2(n);
      }
      m := p;
      page, k, offset := AllocFrom(p);
    }

    method AllocFrom(m: nat) returns (page: Option<nat>, ghost k: nat, ghost offset: nat)
      requires Valid() && IsPow2(m)
      modifies zones, set z <- zones :: z.longest
      ensures Valid() && zones == old(zones) && k <= |zones|
      ensures forall i | 0 <= i < k :: !old(CanServe(zones[i], m))
      ensures page == if k < |zones| then Some(zones[k].beginPage + offset) else None
      ensures k < |zones| ==> Taken(zones[k], Block(offset, m))
      ensures forall i | 0 <= i < |zones| && i != k :: SameZone(zones[i])
    {
      hide BuddyZone.Valid, Available, NoneBelow;
      var i := FirstZone(m);
      k, offset := i, 0;
      if i == |zones| {
        return None, k, offset;
      }
      var at := TakeFrom(zones[i], m);
      offset := at;
      page := Some(zones[i].beginPage + at);
    }

    method TakeFrom(z: BuddyZone, p: nat) returns (offset: nat)
      requires Valid() && z in zones && IsPow2(p) && z.Valid() && z.longest[0] >= p
      modifies z`taken, z`freeSize, z.longest
      ensures Valid()
      ensures Taken(z, Block(offset, p))
    {
      offset := z.Take(p);
      forall y <- zones ensures y.Valid() {
        assert old(y.Valid());
        assert y == z || y.longest != z.longest;
      }
    }

    method FreeIn(z: BuddyZone, offset: nat)
      requires Valid() && z in zones && offset < z.size && Disjoint(z.reserved, Block(offset, 1))
      modifies z`taken, z`freeSize, z.longest
      ensures Valid() && Freed(z, Block(offset, 1))
    {
      z.Free(offset);
      forall y <- zones ensures y.Valid() {
        assert old(y.Valid());
        assert y == z || y.longest != z.longest;
      }
    }

    /** The first zone whose root value reaches p. */
    method FirstZone(p: nat) returns (i: nat)
      requires Valid() && IsPow2(p)
      ensures i <= |zones|
      ensures forall j | 0 <= j < i :: !CanServe(zones[j], p)
      ensures i < |zones| ==> CanServe(zones[i], p) && zones[i].Valid() && zones[i].longest[0] >= p
    {
      i := 0;
      while i < |zones|
        invariant i <= |zones|
        invariant forall j | 0 <= j < i :: !CanServe(zones[j], p)
      {
        var z := zones[i];
        assert z in zones && z.Valid();
        RootDecides(z.longest[..], z.size, z.taken, p);
        if z.longest[0] >= p {
          return;
        }
        i := i + 1;
      }
    }

    /**
     Releases the block that contains the page, found by address; the length argument is not
     used.  A page of no zone, or of no block, is left alone.
     */
    method FreePages(base: nat, n: int) returns (ghost k: nat)
      requires Valid()
      requires forall z <- zones :: HasPage(z, base) ==>
                 Disjoint(z.reserved, Block(base - z.beginPage, 1))
      modifies zones, set z <- zones :: z.longest
      ensures Valid() && zones == old(zones) && k <= |zones|
      ensures forall i | 0 <= i < k :: !HasPage(zones[i], base)
      ensures k < |zones| ==> HasPage(zones[k], base) && Freed(zones[k], Block(base - zones[k].beginPage, 1))
      ensures forall i | 0 <= i < |zones| && i != k :: SameZone(zones[i])
    {
      var i := ZoneOf(base);
      k := i;
      if i < |zones| {
        assert zones[i] in zones;
        FreeIn(zones[i], base - zones[i].beginPage);
      }
    }

    /** The first zone whose range has the page. */
    method ZoneOf(base: nat) returns (i: nat)
      ensures i <= |zones|
      ensures forall j | 0 <= j < i :: !HasPage(zones[j], base)
      ensures i < |zones| ==> HasPage(zones[i], base)
    {
      i := 0;
      while i < |zones|
        invariant i <= |zones|
        invariant forall j | 0 <= j < i :: !HasPage(zones[j], base)
      {
        if zones[i].beginPage <= base < zones[i].beginPage + zones[i].size {
          return;
        }
        i := i + 1;
      }
    }

    /** What the zones stand for. */
    ghost function Views(): (v: seq<ZoneView>)
      reads this, zones
      ensures |v| == |zones|
      ensures forall i | 0 <= i < |v| :: v[i] == View(zones[i])
    {
      seq(|zones|, i requires 0 <= i < |zones| reads this, zones => View(zones[i]))
    }

    method NrFreePages() returns (total: nat)
      requires Valid()
      ensures total == Total(Views())
    {
      total := 0;
      ghost var views := Views();
      for i := 0 to |zones|
        invariant total == Total(views[..i])
      {
        assert zones[i] in zones;
        TotalStep(views, i);
        total := total + zones[i].freeSize;
      }
      assert views[..|zones|] == views;
    }

    // ----- single pages -----

    ghost predicate CanServePage()
      reads this, zones
    {
      exists i | 0 <= i < |zones| :: CanServe(zones[i], 1)
    }

    /** alloc_page, when there is a free page: that page becomes outstanding, nothing else changes. */
    method AllocPage() returns (page: nat)
      requires Valid() && CanServePage()
      modifies zones, set z <- zones :: z.longest
      ensures Valid() && zones == old(zones)
      ensures PageOut(old(Views()), Views(), page)
    {
      ghost var k;
      page, k := TakePage();
      TakenView(old(Views()), Views(), k, page);
    }

    method TakePage() returns (page: nat, ghost k: nat)
      requires Valid() && CanServePage()
      modifies zones, set z <- zones :: z.longest
      ensures Valid() && zones == old(zones)
      ensures ViewsApart(Views()) && PageTaken(old(Views()), Views(), k, page)
    {
      ghost var m, offset;
      var got;
      got, m, k, offset := AllocPages(1);
      page := got.value;
      ghost var z := zones[k];
      assert old(z in zones && z.Valid());
      TakenBlock(old(View(z)), View(z), offset);
      ViewsStep(k);
    }

    /** When only zone k changed, only its view did. */
    twostate lemma ViewsStep(k: nat)
      requires zones == old(zones) && k < |zones|
      requires forall i | 0 <= i < |zones| && i != k :: SameZone(zones[i])
      ensures forall i | 0 <= i < |zones| && i != k :: Views()[i] == old(Views())[i]
    {
      forall i | 0 <= i < |zones| && i != k ensures Views()[i] == old(Views())[i] {
        assert SameZone(zones[i]);
      }
    }

    /** free_page of an outstanding page: that page is free again, nothing else changes. */
    method FreePage(page: nat)
      requires Valid() && HoldsAt(Views(), page)
      modifies zones, set z <- zones :: z.longest
      ensures Valid() && zones == old(zones)
      ensures PageOut(Views(), old(Views()), page)
    {
      ghost var k := GivePage(page);
      GivenView(old(Views()), Views(), k, page);
    }

    method GivePage(page: nat) returns (ghost k: nat)
      requires Valid() && HoldsAt(Views(), page)
      modifies zones, set z <- zones :: z.longest
      ensures Valid() && zones == old(zones)
      ensures ViewsApart(Views()) && PageTaken(Views(), old(Views()), k, page)
    {
      ghost var views := Views();
      HolderFacts(page);
      k := FreePages(page, 1);
      GivenBlock(views[k], View(zones[k]), page);
      ViewsStep(k);
    }

    /** The zone that holds an outstanding page is the only one with that page. */
    lemma HolderFacts(page: nat)
      requires Valid() && HoldsAt(Views(), page)
      ensures ViewsApart(Views())
      ensures exists i | 0 <= i < |zones| :: HasPage(zones[i], page)
      ensures forall i | 0 <= i < |zones| && HasPage(zones[i], page) ::
                && ViewOk(Views()[i]) && HoldsIn(Views()[i], page)
                && Disjoint(zones[i].reserved, Block(page - zones[i].beginPage, 1))
    {
      assert ViewsApart(Views());
      var k := Holder(Views(), page);
      assert zones[k] in zones && zones[k].Valid();
    }
  }

  // ----- single pages of several zones -----

  datatype ZoneView = ZoneView(begin: nat, size: nat, reserved: Block, taken: set<Block>)

  ghost function View(z: BuddyZone): ZoneView
    reads z
  {
    ZoneView(z.beginPage, z.size, z.reserved, z.taken)
  }

  /** From `before` to `after` the page was taken out of zone k. */
  ghost predicate PageTaken(before: seq<ZoneView>, after: seq<ZoneView>, k: nat, page: nat)
  {
    && k < |before| == |after| && ViewTaken(before[k], after[k], page)
    && forall i | 0 <= i < |before| && i != k :: after[i] == before[i]
  }

  ghost predicate ViewTaken(v: ZoneView, w: ZoneView, page: nat)
  {
    && v.begin <= page < v.begin + v.size && v.reserved in v.taken
    && var b := Block(page - v.begin, 1);
    && Untouched(v.taken, b) && b !in v.taken
    && w == v.(taken := v.taken + {b})
  }

  ghost predicate ViewOk(v: ZoneView)
  {
    WellFormed(v.taken, v.size) && v.reserved in v.taken
  }

  ghost predicate HoldsIn(v: ZoneView, page: nat)
  {
    && v.begin <= page < v.begin + v.size
    && Block(page - v.begin, 1) in v.taken && Block(page - v.begin, 1) != v.reserved
  }

  /** The page is an outstanding block of its own. */
  ghost predicate HoldsAt(views: seq<ZoneView>, page: nat)
  {
    exists i | 0 <= i < |views| :: HoldsIn(views[i], page)
  }

  ghost predicate ViewsApart(views: seq<ZoneView>)
  {
    forall i, j | 0 <= i < j < |views| ::
      views[i].begin + views[i].size <= views[j].begin || views[j].begin + views[j].size <= views[i].begin
  }

  /** Zones do not overlap, so the holder of a page is unique. */
  ghost function Holder(views: seq<ZoneView>, page: nat): (k: nat)
    requires ViewsApart(views) && HoldsAt(views, page)
    ensures k < |views| && HoldsIn(views[k], page)
    ensures forall i | 0 <= i < |views| && views[i].begin <= page < views[i].begin + views[i].size :: i == k
  {
    var k: nat :| k < |views| && HoldsIn(views[k], page);
    k
  }

  lemma TakenBlock(v: ZoneView, w: ZoneView, offset: nat)
    requires v.reserved in v.taken && Available(v.taken, v.size, Block(offset, 1))
    requires Block(offset, 1) !in v.taken && w == v.(taken := v.taken + {Block(offset, 1)})
    ensures ViewTaken(v, w, v.begin + offset)
  {
  }

  lemma GivenBlock(v: ZoneView, w: ZoneView, page: nat)
    requires HoldsIn(v, page) && ViewOk(v)
    requires w == v.(taken := w.taken)
    requires var b := Block(page - v.begin, 1); forall c <- v.taken :: Within(b, c) ==> w.taken == v.taken - {c}
    ensures ViewTaken(w, v, page)
  {
    var b := Block(page - v.begin, 1);
    assert Within(b, b);
    assert w.taken == v.taken - {b};
    assert v.taken == w.taken + {b};
  }

  lemma TakenHolds(before: seq<ZoneView>, after: seq<ZoneView>, k: nat, page: nat, p: nat)
    requires PageTaken(before, after, k, page) && ViewsApart(before)
    ensures HoldsAt(after, p) <==> HoldsAt(before, p) || p == page
    ensures p == page ==> !HoldsAt(before, p)
  {
    forall i | 0 <= i < |before| ensures HoldsIn(after[i], p) <==> HoldsIn(before[i], p) || (i == k && p == page) {
      assert i != k ==> after[i] == before[i];
    }
  }

  lemma TakenTotal(before: seq<ZoneView>, after: seq<ZoneView>, k: nat, page: nat)
    requires PageTaken(before, after, k, page)
    ensures Total(after) + 1 == Total(before)
  {
    var v := before[k];
    FreePagesTake(v.taken, v.size, Block(page - v.begin, 1));
    TotalUpdate(before, k, after[k]);
    assert after == before[k := after[k]];
  }

  lemma TakenView(before: seq<ZoneView>, after: seq<ZoneView>, k: nat, page: nat)
    requires PageTaken(before, after, k, page) && ViewsApart(after)
    ensures PageOut(before, after, page)
  {
    SameShape(before, after, k, page);
    ApartOut(before, after, k, page);
  }

  lemma GivenView(before: seq<ZoneView>, after: seq<ZoneView>, k: nat, page: nat)
    requires PageTaken(after, before, k, page) && ViewsApart(after)
    ensures PageOut(after, before, page)
  {
    ApartOut(after, before, k, page);
  }

  lemma ApartOut(before: seq<ZoneView>, after: seq<ZoneView>, k: nat, page: nat)
    requires PageTaken(before, after, k, page) && ViewsApart(before)
    ensures PageOut(before, after, page)
  {
    TakenTotal(before, after, k, page);
    SameInside(before, after, k, page);
    forall p: nat ensures HoldsAt(after, p) <==> HoldsAt(before, p) || p == page {
      TakenHolds(before, after, k, page, p);
    }
    TakenHolds(before, after, k, page, page);
    assert InView(after[k], page);
  }

  /** The extent of the zones does not change. */
  lemma SameInside(before: seq<ZoneView>, after: seq<ZoneView>, k: nat, page: nat)
    requires PageTaken(before, after, k, page)
    ensures forall p: nat :: InsideZones(before, p) <==> InsideZones(after, p)
  {
    forall p: nat ensures InsideZones(before, p) <==> InsideZones(after, p) {
      assert forall i | 0 <= i < |before| :: InView(before[i], p) <==> InView(after[i], p);
    }
  }

  lemma SameShape(before: seq<ZoneView>, after: seq<ZoneView>, k: nat, page: nat)
    requires PageTaken(before, after, k, page) && ViewsApart(after)
    ensures ViewsApart(before)
  {
    assert forall i | 0 <= i < |after| :: before[i].begin == after[i].begin && before[i].size == after[i].size;
  }

  /** The page lies in a zone, in front of the reserved tail. */
  ghost predicate InsideZones(views: seq<ZoneView>, page: nat)
  {
    exists i | 0 <= i < |views| :: InView(views[i], page)
  }

  ghost predicate InView(v: ZoneView, page: nat)
  {
    v.begin <= page < v.begin + v.size && Disjoint(v.reserved, Block(page - v.begin, 1))
  }

  /**
   From `before` to `after` one page inside the zones became outstanding; no other page did or
   ceased to be, and one page less is free.
   */
  ghost predicate PageOut(before: seq<ZoneView>, after: seq<ZoneView>, page: nat)
  {
    && !HoldsAt(before, page) && HoldsAt(after, page) && InsideZones(after, page)
    && (forall p: nat | p != page :: HoldsAt(after, p) <==> HoldsAt(before, p))
    && (forall p: nat :: InsideZones(before, p) <==> InsideZones(after, p))
    && Total(after) + 1 == Total(before)
  }

  /** The free pages of all zones. */
  ghost function Total(views: seq<ZoneView>): nat
  {
    if views == [] then 0
    else
      var v := views[|views| - 1];
      Total(views[..|views| - 1]) + |FreePages(v.taken, v.size)|
  }

  lemma TotalStep(views: seq<ZoneView>, i: nat)
    requires i < |views|
    ensures Total(views[..i + 1]) == Total(views[..i]) + |FreePages(views[i].taken, views[i].size)|
  {
    assert views[..i + 1][..i] == views[..i];
  }

  lemma {:induction false} TotalUpdate(views: seq<ZoneView>, i: nat, v: ZoneView)
    requires i < |views|
    ensures Total(views[i := v]) + |FreePages(views[i].taken, views[i].size)|
         == Total(views) + |FreePages(v.taken, v.size)|
  {
    var n := |views| - 1;
    if i < n {
      TotalUpdate(views[..n], i, v);
      assert views[i := v][..n] == views[..n][i := v];
    } else {
      assert views[i := v][..n] == views[..n];
    }
  }

  // ----- whole histories -----

  /** Allocating a block and freeing it again by any of its pages restores the array. */
  method AllocThenFree(z: BuddyZone, n: nat, k: nat)
    requires z.Valid() && IsPow2(n) && k < n && z.longest[0] >= n
    modifies z, z.longest
    ensures z.Valid() && z.longest[..] == old(z.longest[..])
    ensures z.taken == old(z.taken) && z.freeSize == old(z.freeSize)
  {
    ghost var before, tk := z.longest[..], z.taken;
    var offset := z.Take(n);
    ghost var b := Block(offset, n);
    assert Disjoint(z.reserved, b);
    assert Within(Block(offset + k, 1), b);
    z.Free(offset + k);
    assert tk + {b} - {b} == tk;
    CanonicalUnique(before, z.longest[..], z.size, tk);
  }

  /**
   Freeing pages in any order, so long as every outstanding block is hit, leads back to the
   zone's initial state, array included.
   */
  method FreeEverything(z: BuddyZone, pages: seq<nat>)
    requires z.Valid()
    requires forall p <- pages :: p < z.size && Disjoint(z.reserved, Block(p, 1))
    requires forall b <- z.taken :: b != z.reserved ==> exists p <- pages :: Within(Block(p, 1), b)
    modifies z, z.longest
    ensures z.Valid() && z.taken == {z.reserved} && Canonical(z.longest[..], z.size, {z.reserved})
    ensures z.freeSize == z.size - z.reserved.size
  {
    ghost var first := z.taken;
    var i := 0;
    while i < |pages|
      invariant i <= |pages| && z.Valid() && z.taken <= first
      invariant forall b <- z.taken, j | 0 <= j < i :: b != z.reserved ==> !Within(Block(pages[j], 1), b)
    {
      ghost var page := Block(pages[i], 1);
      ghost var tk := z.taken;
      z.Free(pages[i]);
      forall b <- z.taken | b != z.reserved ensures b in tk && !Within(page, b) {
        FreedIsGone(tk, z.taken, page, b);
      }
      i := i + 1;
    }
    assert z.taken == {z.reserved};
    PagesConserved(z.taken, z.size);
    SumRemove(z.taken, z.reserved);
    assert z.taken - {z.reserved} == {};
  }

  lemma FreedIsGone(before: set<Block>, after: set<Block>, page: Block, b: Block)
    requires page.size == 1
    requires forall c <- before :: Within(page, c) ==> after == before - {c}
    requires Untouched(before, page) ==> after == before
    requires b in after
    ensures b in before && !Within(page, b)
  {
    if Untouched(before, page) {
    } else {
      var c :| c in before && !Disjoint(c, page);
      assert Within(page, c);
    }
  }
}
