/**
 The slab allocator on top of the buddy system: caches of equally sized objects, each slab one
 page with its free list in front.
 */
module Slab {
  import opened Sv39
  import opened SlabState
  import opened BuddySystem

  /** The slab layer in order: managed pages are real, slabs are outstanding pages. */
  ghost predicate Ok(s: State, views: seq<ZoneView>)
  {
    && Sound(s)
    && (forall p: nat | InsideZones(views, p) :: p < |s.frames|)
    && (forall p <- s.chains :: HoldsAt(views, p))
  }

  /** Free pages and slabs together. */
  ghost function Supply(s: State, views: seq<ZoneView>): nat
  {
    Total(views) + |s.chains|
  }

  class SlabAllocator {
    const frames: array<Frame>
    const slabs: array<SlabState.Slab>      // the slab part of the Page structs
    const mem: BuddyManager
    var caches: map<CacheRef, Cache>
    ghost var chains: map<nat, seq<nat>>

    ghost function View(): State
      reads this, frames, slabs
    {
      State(frames[..], slabs[..], caches, chains)
    }

    ghost predicate Valid()
      reads this, frames, slabs, mem, mem.zones, set z <- mem.zones :: z.longest
    {
      Ok(View(), mem.Views()) && mem.Valid()
    }

    /** system_init: only the cache of caches exists. */
    constructor (memory: seq<Frame>, buddy: BuddyManager)
      requires buddy.Valid() && (forall f | 0 <= f < |memory| :: |memory[f]| == WORDS)
      requires forall p: nat | InsideZones(buddy.Views(), p) :: p < |memory|
      ensures Valid() && CachesLive(View()) && mem == buddy && fresh(frames) && fresh(slabs)
      ensures caches.Keys == {CacheCache} && chains == map[]
      ensures caches[CacheCache].objsize == 72 && FillsPage(caches[CacheCache].num, 72)
    {
      frames := new Frame[|memory|](i requires 0 <= i < |memory| => memory[i]);
      slabs := new SlabState.Slab[|memory|](_ => SlabState.Slab(NoCache, 0, 0));
      mem := buddy;
      caches := map[CacheCache := NewCache(CACHE_SIZE)];
      chains := map[];
      new;
      assert frames[..] == memory;
      InitialOk(View());
      NumFills(CACHE_SIZE);
    }

    // ----- growing -----

    /** Links the slots of a new slab one after the other. */
    method InitBufctl(page: nat, num: nat)
      requires page < frames.Length && |frames[page]| == WORDS && 0 < num <= WORDS
      modifies frames
      ensures frames[..] == old(frames[..])[page := Linear(old(frames[page]), num)]
    {
      ghost var b := frames[page];
      for i := 1 to num
        invariant frames[..] == old(frames[..])[page := frames[page]] && |frames[page]| == WORDS
        invariant forall k | 0 <= k < WORDS :: frames[page][k] == if k < i - 1 then k + 1 else b[k]
      {
        WriteWord(page, i - 1, i);
      }
      WriteWord(page, num - 1, -1);
      assert frames[page] == Linear(b, num);
    }

    /** One 16-bit word of a page. */
    method WriteWord(page: nat, k: nat, w: int)
      requires page < frames.Length && k < |frames[page]|
      modifies frames
      ensures frames[..] == old(frames[..])[page := frames[page]]
      ensures frames[page] == old(frames[page])[k := w]
    {
      var f: Frame := frames[page][k := w];
      frames[page] := f;
    }

    method MakeSlab(page: nat, r: CacheRef)
      requires r in caches && page < frames.Length == slabs.Length && |frames[page]| == WORDS
      requires 0 < caches[r].num <= WORDS && mem.Valid()
      modifies this`caches, this`chains, frames, slabs
      ensures View() == Grown(old(View()), r, page)
      ensures mem.Valid() && mem.Views() == old(mem.Views())
    {
      hide BuddyManager.Valid;
      slabs[page] := SlabState.Slab(r, 0, 0);
      var c := caches[r];
      caches := caches[r := c.(free := [page] + c.free)];
      chains := chains[page := Iota(c.num)];
      InitBufctl(page, c.num);
    }

    /** cache_grow: turns a free page into an empty slab of the cache. */
    method CacheGrow(r: CacheRef) returns (page: nat)
      requires Valid() && r in caches && mem.CanServePage()
      modifies this`caches, this`chains, frames, slabs, mem.zones, set z <- mem.zones :: z.longest
      ensures Valid() && Sound(old(View())) && page < frames.Length && page !in old(chains)
      ensures old(caches[r].num) <= |old(frames[page])| && View() == Grown(old(View()), r, page)
      ensures Supply(View(), mem.Views()) == old(Supply(View(), mem.Views()))
    {
      hide BuddyManager.Valid, Ok, PageOut, Grown, Supply, Sound;
      page := mem.AllocPage();
      GrowStep(View(), old(mem.Views()), mem.Views(), r, page);
      MakeSlab(page, r);
    }

    // ----- allocating an object -----

    /** The slab to take an object from: a partial one, else an empty one, else a new one. */
    method PickSlab(r: CacheRef) returns (p: nat)
      requires Valid() && r in caches
      requires caches[r].partial == [] && caches[r].free == [] ==> mem.CanServePage()
      modifies this`caches, this`chains, frames, slabs, mem.zones, set z <- mem.zones :: z.longest
      ensures Valid() && Picked(old(View()), View(), r, p)
      ensures var c := old(caches[r]);
              && (c.partial != [] ==> p == c.partial[0]) && (c.partial == [] && c.free != [] ==> p == c.free[0])
              && (c.partial == [] && c.free == [] ==> p !in old(chains))
      ensures ObjectsKept(old(caches), old(frames[..]), frames[..])
      ensures Supply(View(), mem.Views()) == old(Supply(View(), mem.Views()))
    {
      hide BuddyManager.Valid, Ok, Supply, Sound, Grown, DataKept;
      SameData(caches, frames[..]);
      PickOld(View(), mem.Views(), r);
      if caches[r].partial != [] {
        p := caches[r].partial[0];
      } else {
        if caches[r].free == [] {
          var page := CacheGrow(r);
          PickNew(old(View()), r, page);
          GrownData(old(View()), r, page);
        }
        p := caches[r].free[0];
      }
    }

    /** The rest of cache_alloc: the first free slot of slab p. */
    method TakeObject(r: CacheRef, p: nat) returns (objp: nat)
      requires Sound(View()) && FirstReady(View(), r, p) && mem.Valid()
      modifies this`caches, this`chains, slabs
      ensures View() == Allocated(old(View()), r, p) && objp == ObjAddr(old(caches[r]), p, old(slabs[p].free))
      ensures mem.Valid() && mem.Views() == old(mem.Views())
    {
      hide BuddyManager.Valid, Sound;
      ghost var s := View();
      ChainPop(frames[p], caches[r].num, slabs[p].free, chains[p]);
      var c := Unlinked(caches[r], p);
      objp := ObjAddr(c, p, slabs[p].free);
      slabs[p] := slabs[p].(inuse := slabs[p].inuse + 1);
      slabs[p] := slabs[p].(free := Unsigned(frames[p][slabs[p].free]));
      if slabs[p].inuse == c.num {
        caches := caches[r := c.(full := [p] + c.full)];
      } else {
        caches := caches[r := c.(partial := [p] + c.partial)];
      }
      chains := chains[p := chains[p][1..]];
      TakenState(s, View(), r, p, slabs[p]);
    }

    /**
     cache_alloc: an object of the cache that was not in use; all other objects, of this and of
     the other caches, stay as they are.
     */
    method CacheAlloc(r: CacheRef) returns (objp: nat, ghost p: nat, ghost k: nat)
      requires Valid() && r in caches
      requires caches[r].partial == [] && caches[r].free == [] ==> mem.CanServePage()
      modifies this`caches, this`chains, frames, slabs, mem.zones, set z <- mem.zones :: z.longest
      ensures Valid() && HandedOut(old(View()), View(), r, p, k) && objp == ObjAddr(old(caches[r]), p, k)
      ensures objp == p * 4096 + 2 * old(caches[r]).num + k * old(caches[r]).objsize
      ensures var c := old(caches[r]);
              && (c.partial != [] ==> p == c.partial[0]) && (c.partial == [] && c.free != [] ==> p == c.free[0])
              && (c.partial == [] && c.free == [] ==> p !in old(chains))
      ensures ObjectsKept(old(caches), old(frames[..]), frames[..])
      ensures Supply(View(), mem.Views()) == old(Supply(View(), mem.Views()))
    {
      hide BuddyManager.Valid, Ok, Supply, Sound, Picked, Allocated, FirstReady, HandedOut, Live, ObjectsKept;
      var page := PickSlab(r);
      ghost var s1 := View();
      TakeStep(old(View()), s1, mem.Views(), r, page);
      p, k := page, slabs[page].free;
      objp := TakeObject(r, page);
    }

    // ----- freeing an object -----

    /** cache_free once the page and the index are known. */
    method GiveObject(r: CacheRef, p: nat, offset: nat)
      requires r in caches && SlabOk(View(), r, caches[r], p) && offset < caches[r].num && slabs[p].inuse > 0
      requires mem.Valid()
      modifies this`caches, this`chains, frames, slabs
      ensures View() == Returned(old(View()), r, p, offset)
      ensures mem.Valid() && mem.Views() == old(mem.Views())
    {
      hide BuddyManager.Valid;
      ghost var s := View();
      var c := Unlinked(caches[r], p);
      WriteWord(p, offset, Signed(slabs[p].free));
      slabs[p] := slabs[p].(inuse := slabs[p].inuse - 1);
      slabs[p] := slabs[p].(free := offset);
      if slabs[p].inuse == 0 {
        caches := caches[r := c.(free := [p] + c.free)];
      } else {
        caches := caches[r := c.(partial := [p] + c.partial)];
      }
      chains := chains[p := [offset] + chains[p]];
      GivenState(s, View(), r, p, offset, slabs[p]);
    }

    /** cache_free of an allocated object, which is found from its address alone. */
    method CacheFree(r: CacheRef, objp: nat, ghost p: nat, ghost k: nat)
      requires Valid() && Live(View(), r, p, k) && objp == ObjAddr(caches[r], p, k) && caches[r].objsize > 0
      modifies this`caches, this`chains, frames, slabs
      ensures Valid() && mem.Views() == old(mem.Views())
      ensures TakenBack(old(View()), View(), r, p, k) && ObjectsKept(old(caches), old(frames[..]), frames[..])
      ensures Supply(View(), mem.Views()) == old(Supply(View(), mem.Views()))
    {
      hide BuddyManager.Valid, Ok, Supply, TakenBack, Returned, ObjectsKept;
      GiveStep(View(), mem.Views(), r, p, k);
      var page: nat, offset: nat := PageOfObj(objp), IndexOfObj(caches[r], objp);
      GiveObject(r, page, offset);
    }

    // ----- destroying and creating caches -----

    /** slab_destroy: the page goes back to the buddy system. */
    method SlabDestroy(r: CacheRef, p: nat)
      requires Valid() && r in caches && OnCache(caches[r], p)
      modifies this`caches, this`chains, slabs, mem.zones, set z <- mem.zones :: z.longest
      ensures Valid() && SlabGone(old(View()), View(), r, p)
      ensures Total(mem.Views()) == old(Total(mem.Views())) + 1
    {
      hide BuddyManager.Valid, Ok, PageOut, Total, SlabGone, Destroyed;
      DestroyStep(View(), mem.Views(), r, p);
      Unlink(r, p);
      mem.FreePage(p);
      DestroyDone(old(View()), old(mem.Views()), mem.Views(), r, p);
    }

    method Unlink(r: CacheRef, p: nat)
      requires r in caches && p < slabs.Length && mem.Valid()
      modifies this`caches, this`chains, slabs
      ensures View() == Destroyed(old(View()), r, p)
      ensures mem.Valid() && mem.Views() == old(mem.Views())
    {
      hide BuddyManager.Valid;
      slabs[p] := SlabState.Slab(NoCache, 0, 0);
      caches := caches[r := Unlinked(caches[r], p)];
      chains := chains - {p};
    }

    /** One of the three loops of cache_destroy. */
    method DestroyList(r: CacheRef, sel: Which)
      requires Valid() && r in caches
      modifies this`caches, this`chains, slabs, mem.zones, set z <- mem.zones :: z.longest
      ensures Valid() && ListGone(old(View()), View(), r, sel, |old(ListOf(caches[r], sel))|)
      ensures Total(mem.Views()) == old(Total(mem.Views())) + |old(ListOf(caches[r], sel))|
    {
      hide BuddyManager.Valid, Ok, Total, SlabGone, ListGone;
      ghost var s := View();
      var list := ListOf(caches[r], sel);
      GoneStart(s, mem.Views(), r, sel);
      for i := 0 to |list|
        invariant Valid() && r in caches && ListGone(s, View(), r, sel, i)
        invariant Total(mem.Views()) == Total(old(mem.Views())) + i
      {
        ghost var s1 := View();
        GoneNext(s, s1, r, sel, i);
        SlabDestroy(r, list[i]);
        GoneStep(s, s1, View(), r, sel, i);
      }
    }

    /** The slab part of cache_destroy: every slab of the cache goes. */
    method DestroySlabs(r: CacheRef)
      requires Valid() && r in caches
      modifies this`caches, this`chains, slabs, mem.zones, set z <- mem.zones :: z.longest
      ensures Valid() && AllGone(old(View()), View(), r)
      ensures Total(mem.Views()) == old(Total(mem.Views())) + old(SlabCount(caches[r]))
    {
      hide BuddyManager.Valid, Ok, Total, ListGone, AllGone, OthersSame, ListOf, SlabCount, WithList;
      ghost var s := View();
      GoneKeys(s, mem.Views(), r);
      DestroyList(r, Full);
      ghost var s1 := View();
      GoneLists(s, s1, r, Full);
      DestroyList(r, Partial);
      ghost var s2 := View();
      GoneLists(s1, s2, r, Partial);
      DestroyList(r, Free);
      ghost var s3 := View();
      GoneLists(s2, s3, r, Free);
      GoneAll(s, s1, s2, s3, r);
    }

    /**
     cache_destroy: all pages of the cache's slabs, and no others, become free again, and its
     record goes back to the cache of caches.
     */
    method CacheDestroy(addr: nat)
      requires Valid() && CachesLive(View()) && At(addr) in caches
      modifies this`caches, this`chains, frames, slabs, mem.zones, set z <- mem.zones :: z.longest
      ensures Valid() && CachesLive(View()) && CacheGone(old(View()), View(), addr)
      ensures ObjectsKept(old(caches) - {At(addr)}, old(frames[..]), frames[..])
      ensures Total(mem.Views()) == old(Total(mem.Views())) + old(SlabCount(caches[At(addr)]))
    {
      hide BuddyManager.Valid, Ok, Total, AllGone, CacheGone, Live, CachesLive, ObjectsKept;
      ghost var s := View();
      OkSound(s, mem.Views());
      DestroySlabs(At(addr));
      FreeRecord(s, addr);
    }

    /** The end of cache_destroy. */
    method FreeRecord(ghost s: State, addr: nat)
      requires Valid() && Sound(s) && CachesLive(s) && At(addr) in s.caches
      requires AllGone(s, View(), At(addr)) && frames[..] == s.frames
      modifies this`caches, this`chains, frames, slabs
      ensures Valid() && CachesLive(View()) && CacheGone(s, View(), addr) && mem.Views() == old(mem.Views())
      ensures ObjectsKept(s.caches - {At(addr)}, s.frames, frames[..])
    {
      hide BuddyManager.Valid, Ok, Total, AllGone, CacheGone, TakenBack, Live, CachesLive, ObjectsKept, Sound;
      ghost var s1 := View();
      ghost var (p, k) := RecordOf(s, addr);
      DropStep(s, s1, mem.Views(), addr, p, k);
      OtherCaches(s, s1, addr);
      caches := caches - {At(addr)};
      ghost var s2 := View();
      CacheFree(CacheCache, addr, p, k);
      GoneStepLast(s, s1, s2, View(), addr, p, k);
    }

    /** cache_create: a new cache whose record is an object of the cache of caches. */
    method CacheCreate(size: nat) returns (addr: nat)
      requires Valid() && CachesLive(View()) && size <= PGSIZE - 2
      requires CacheCache in caches && (caches[CacheCache].partial == [] && caches[CacheCache].free == [] ==> mem.CanServePage())
      modifies this`caches, this`chains, frames, slabs, mem.zones, set z <- mem.zones :: z.longest
      ensures Valid() && CachesLive(View())
      ensures At(addr) !in old(caches) && CacheMade(old(View()), View(), addr, size)
      ensures At(addr) in caches && caches[At(addr)].objsize == size && FillsPage(caches[At(addr)].num, size)
      ensures ObjectsKept(old(caches), old(frames[..]), frames[..])
      ensures Supply(View(), mem.Views()) == old(Supply(View(), mem.Views()))
    {
      hide BuddyManager.Valid, Ok, Total, CacheMade, HandedOut, Live, CachesLive, ObjectsKept;
      ghost var s, p, k := View(), 0, 0;
      addr, p, k := CacheAlloc(CacheCache);
      MakeStep(s, View(), mem.Views(), addr, p, k, size);
      caches := caches[At(addr) := NewCache(size)];
      NumFills(size);
    }
  }

  /** The lists of a cache. */
  datatype Which = Full | Partial | Free

  function ListOf(c: Cache, sel: Which): seq<nat>
  {
    match sel
    case Full => c.full
    case Partial => c.partial
    case Free => c.free
  }

  function WithList(c: Cache, sel: Which, l: seq<nat>): Cache
  {
    match sel
    case Full => c.(full := l)
    case Partial => c.(partial := l)
    case Free => c.(free := l)
  }

  function SlabCount(c: Cache): nat
  {
    |c.full| + |c.partial| + |c.free|
  }

  /** The caches other than r are untouched, with their objects. */
  ghost predicate OthersSame(s: State, s': State, r: CacheRef)
  {
    && Sound(s) && Sound(s') && r in s.caches && SameCaches(s, s')
    && (forall q <- s.caches | q != r :: s'.caches[q] == s.caches[q])
    && (forall q: CacheRef, x: nat, k: nat | q != r :: Live(s', q, x, k) <==> Live(s, q, x, k))
  }

  /** The first n slabs of a list of cache r are gone. */
  ghost predicate ListGone(s: State, s': State, r: CacheRef, sel: Which, n: nat)
  {
    && OthersSame(s, s', r) && n <= |ListOf(s.caches[r], sel)|
    && s'.caches[r] == WithList(s.caches[r], sel, ListOf(s.caches[r], sel)[n..])
  }

  ghost predicate AllGone(s: State, s': State, r: CacheRef)
  {
    OthersSame(s, s', r) && forall x: nat :: !OnCache(s'.caches[r], x)
  }

  /** Cache At(addr) is gone with all its objects; of the other objects only its record was freed. */
  ghost predicate CacheGone(s: State, s': State, addr: nat)
  {
    && Sound(s) && Sound(s') && CacheCache in s.caches && s'.caches.Keys == s.caches.Keys - {At(addr)}
    && SameRecords(s, s')
    && (forall q: CacheRef, x: nat, k: nat | q != CacheCache && q != At(addr) :: Live(s', q, x, k) <==> Live(s, q, x, k))
    && (forall x: nat, k: nat :: Live(s', CacheCache, x, k) <==>
          Live(s, CacheCache, x, k) && ObjAddr(s.caches[CacheCache], x, k) != addr)
  }

  /** Cache At(addr) was set up, empty, in a freshly allocated record. */
  ghost predicate CacheMade(s: State, s': State, addr: nat, size: nat)
  {
    && Sound(s) && Sound(s') && s'.caches.Keys == s.caches.Keys + {At(addr)} && s'.caches[At(addr)] == NewCache(size)
    && (forall q: CacheRef, x: nat, k: nat | q != CacheCache :: Live(s', q, x, k) <==> Live(s, q, x, k))
    && (forall x: nat, k: nat :: Live(s', CacheCache, x, k) <==>
          Live(s, CacheCache, x, k) || (k < s.caches[CacheCache].num && ObjAddr(s.caches[CacheCache], x, k) == addr))
  }

  /** From s to s' object k of slab p was given back to cache r, and nothing else. */
  ghost predicate TakenBack(s: State, s': State, r: CacheRef, p: nat, k: nat)
  {
    && Sound(s) && Sound(s') && Live(s, r, p, k) && SameCaches(s, s')
    && forall q: CacheRef, x: nat, j: nat ::
         Live(s', q, x, j) <==> Live(s, q, x, j) && !(q == r && x == p && j == k)
  }

  /** From s to s' slab p left cache r, with all its objects. */
  ghost predicate SlabGone(s: State, s': State, r: CacheRef, p: nat)
  {
    && Sound(s) && Sound(s') && r in s.caches && SameCaches(s, s')
    && s'.caches[r] == Unlinked(s.caches[r], p)
    && (forall q <- s.caches | q != r :: s'.caches[q] == s.caches[q])
    && (forall x: nat :: OnCache(s'.caches[r], x) <==> OnCache(s.caches[r], x) && x != p)
    && (forall q: CacheRef, x: nat, j: nat :: Live(s', q, x, j) <==> Live(s, q, x, j) && !(q == r && x == p))
  }

  /** p is the slab cache_alloc chooses; at most an empty slab was added on the way. */
  ghost predicate Picked(s: State, s1: State, r: CacheRef, p: nat)
  {
    && Sound(s) && Sound(s1) && r in s1.caches && (s1.caches[r].partial != [] || s1.caches[r].free != [])
    && p == FirstSlab(s1.caches[r]) && SameCaches(s, s1)
    && (forall q: CacheRef, x: nat, k: nat :: Live(s1, q, x, k) <==> Live(s, q, x, k))
  }

  /** From s to s' object k of slab p was handed out by cache r, and nothing else. */
  ghost predicate HandedOut(s: State, s': State, r: CacheRef, p: nat, k: nat)
  {
    && Sound(s) && Sound(s') && !Live(s, r, p, k) && SameCaches(s, s')
    && forall q: CacheRef, x: nat, j: nat ::
         Live(s', q, x, j) <==> Live(s, q, x, j) || (q == r && x == p && j == k)
  }

  ghost predicate SameCaches(s: State, s': State)
  {
    && s'.caches.Keys == s.caches.Keys
    && forall q <- s.caches :: s'.caches[q].num == s.caches[q].num && s'.caches[q].objsize == s.caches[q].objsize
  }

  lemma PickOld(s: State, views: seq<ZoneView>, r: CacheRef)
    requires Ok(s, views) && r in s.caches
    ensures s.caches[r].partial != [] || s.caches[r].free != [] ==> Picked(s, s, r, FirstSlab(s.caches[r]))
  {
  }

  lemma PickNew(s: State, r: CacheRef, p: nat)
    requires Sound(s) && r in s.caches && s.caches[r].partial == [] && s.caches[r].free == []
    requires p < |s.frames| && p !in s.chains
    ensures s.caches[r].num <= |s.frames[p]| && |s.slabs| == |s.frames|
    ensures Picked(s, Grown(s, r, p), r, p)
    ensures Grown(s, r, p).caches[r].partial == [] && Grown(s, r, p).caches[r].free == [p]
  {
    hide Live, CacheOk, IsSlab;
    GrownOk(s, r, p);
    GrownCaches(s, r, p);
    hide Sound;
  }

  lemma GrownCaches(s: State, r: CacheRef, p: nat)
    requires r in s.caches && p < |s.frames| == |s.slabs| && s.caches[r].num <= |s.frames[p]|
    ensures SameCaches(s, Grown(s, r, p))
  {
  }

  /** The writes of cache_alloc make up Allocated. */
  lemma TakenState(s: State, s': State, r: CacheRef, p: nat, now: SlabState.Slab)
    requires FirstReady(s, r, p) && s'.frames == s.frames && s'.slabs == s.slabs[p := now]
    requires -0x8000 <= s.frames[p][s.slabs[p].free] < 0x8000
    requires now == SlabState.Slab(s.slabs[p].cachep, s.slabs[p].inuse + 1, Unsigned(s.frames[p][s.slabs[p].free]))
    requires s'.chains == s.chains[p := s.chains[p][1..]]
    requires s'.caches == s.caches[r := Relinked(Unlinked(s.caches[r], p), p, now.inuse)]
    ensures s' == Allocated(s, r, p)
  {
    assert s.frames[p := s.frames[p]] == s.frames;
  }

  /** Moving a slab between lists changes no layout. */
  lemma PutCaches(s: State, r: CacheRef, p: nat)
    requires r in s.caches
    ensures forall n: nat :: SameCaches(s, s.(caches := s.caches[r := Relinked(Unlinked(s.caches[r], p), p, n)]))
  {
  }

  lemma AllocatedFrame(s: State, views: seq<ZoneView>, r: CacheRef, p: nat)
    requires Ok(s, views) && FirstReady(s, r, p)
    ensures Ok(Allocated(s, r, p), views) && Supply(Allocated(s, r, p), views) == Supply(s, views)
    ensures SameCaches(s, Allocated(s, r, p))
  {
    hide Live, CacheOk, IsSlab;
    PutCaches(s, r, p);
    AllocatedOk(s, r, p);
    assert Allocated(s, r, p).chains.Keys == s.chains.Keys;
    hide Ok, Supply, Sound;
    OkKept(s, Allocated(s, r, p), views);
  }

  lemma TakeStep(s: State, s1: State, views: seq<ZoneView>, r: CacheRef, p: nat)
    requires Picked(s, s1, r, p) && Ok(s1, views) && r in s.caches
    ensures Sound(s1) && FirstReady(s1, r, p) && r in s1.caches && SlabOk(s1, r, s1.caches[r], p)
    ensures var s', k := Allocated(s1, r, p), s1.slabs[p].free;
            && Ok(s', views) && Supply(s', views) == Supply(s1, views) && HandedOut(s, s', r, p, k)
            && ObjAddr(s1.caches[r], p, k) == ObjAddr(s.caches[r], p, k)
  {
    hide Live, Ok, Supply;
    FirstIsReady(s1, r, p);
    assert Sound(s1) by { OkSound(s1, views); }
    AllocatedFrame(s1, views, r, p);
    AllocatedOk(s1, r, p);
    hide Sound, Allocated, FirstReady;
    TakenFrom(s, s1, Allocated(s1, r, p), r, p, s1.slabs[p].free);
  }

  lemma OkSound(s: State, views: seq<ZoneView>)
    requires Ok(s, views)
    ensures Sound(s)
  {
  }

  lemma TakenFrom(s: State, s1: State, s': State, r: CacheRef, p: nat, k: nat)
    requires Picked(s, s1, r, p) && Sound(s') && SameCaches(s1, s') && !Live(s1, r, p, k)
    requires forall q: CacheRef, x: nat, j: nat ::
               Live(s', q, x, j) <==> Live(s1, q, x, j) || (q == r && x == p && j == k)
    ensures HandedOut(s, s', r, p, k) && ObjAddr(s1.caches[r], p, k) == ObjAddr(s.caches[r], p, k)
  {
    hide Sound, Live;
  }

  /** The writes of cache_free make up Returned. */
  lemma GivenState(s: State, s': State, r: CacheRef, p: nat, k: nat, now: SlabState.Slab)
    requires r in s.caches && SlabOk(s, r, s.caches[r], p) && k < s.caches[r].num && s.slabs[p].inuse > 0
    requires |s'.frames| == |s.frames| && s'.frames == s.frames[p := s'.frames[p]] && s'.slabs == s.slabs[p := now]
    requires s'.frames[p] == s.frames[p][k := Signed(s.slabs[p].free)]
    requires now == SlabState.Slab(s.slabs[p].cachep, s.slabs[p].inuse - 1, k)
    requires s'.chains == s.chains[p := [k] + s.chains[p]]
    requires s'.caches == s.caches[r := Relinked(Unlinked(s.caches[r], p), p, now.inuse)]
    ensures s' == Returned(s, r, p, k)
  {
  }

  lemma GiveStep(s: State, views: seq<ZoneView>, r: CacheRef, p: nat, k: nat)
    requires Ok(s, views) && Live(s, r, p, k) && s.caches[r].objsize > 0
    ensures SlabOk(s, r, s.caches[r], p) && k < s.caches[r].num && s.slabs[p].inuse > 0
    ensures PageOfObj(ObjAddr(s.caches[r], p, k)) == p && IndexOfObj(s.caches[r], ObjAddr(s.caches[r], p, k)) == k
    ensures var s' := Returned(s, r, p, k);
            Ok(s', views) && Supply(s', views) == Supply(s, views) && TakenBack(s, s', r, p, k)
            && ObjectsKept(s.caches, s.frames, s'.frames)
  {
    assert CacheOk(s, r);
    Recover(s.caches[r], p, k);
    ReturnedOk(s, r, p, k);
    ReturnedData(s, r, p, k);
    ReturnedFrame(s, views, r, p, k);
    hide ObjectsKept, Live, Returned, Ok, Supply, CacheOk;
  }

  lemma ReturnedFrame(s: State, views: seq<ZoneView>, r: CacheRef, p: nat, k: nat)
    requires Ok(s, views) && r in s.caches && SlabOk(s, r, s.caches[r], p) && k < s.caches[r].num
    requires s.slabs[p].inuse > 0 && Sound(Returned(s, r, p, k))
    ensures var s' := Returned(s, r, p, k);
            Ok(s', views) && Supply(s', views) == Supply(s, views) && SameCaches(s, s')
  {
    hide Live, CacheOk, IsSlab;
    PutCaches(s, r, p);
    assert Returned(s, r, p, k).chains.Keys == s.chains.Keys;
    hide Ok, Supply;
    OkKept(s, Returned(s, r, p, k), views);
  }

  lemma DestroyStep(s: State, views: seq<ZoneView>, r: CacheRef, p: nat)
    requires Ok(s, views) && r in s.caches && OnCache(s.caches[r], p)
    ensures p < |s.slabs| && HoldsAt(views, p)
  {
    DestroyedOk(s, r, p);
  }

  lemma DestroyDone(s: State, views: seq<ZoneView>, views': seq<ZoneView>, r: CacheRef, p: nat)
    requires Ok(s, views) && r in s.caches && OnCache(s.caches[r], p) && PageOut(views', views, p)
    ensures p < |s.slabs| && Ok(Destroyed(s, r, p), views') && SlabGone(s, Destroyed(s, r, p), r, p)
    ensures Total(views') == Total(views) + 1
  {
    hide Live, CacheOk, IsSlab, OnCache;
    DestroyedOk(s, r, p);
    DestroyedCaches(s, r, p);
    assert Destroyed(s, r, p).chains.Keys == s.chains.Keys - {p};
    hide Ok, PageOut, Sound;
    OkShrunk(s, Destroyed(s, r, p), views, views', p);
  }

  lemma DestroyedCaches(s: State, r: CacheRef, p: nat)
    requires r in s.caches && p < |s.slabs|
    ensures var s' := Destroyed(s, r, p);
            && SameCaches(s, s') && s'.caches[r] == Unlinked(s.caches[r], p)
            && forall q <- s.caches | q != r :: s'.caches[q] == s.caches[q]
  {
  }

  lemma InitialOk(s: State)
    requires |s.slabs| == |s.frames| && (forall f | 0 <= f < |s.frames| :: |s.frames[f]| == WORDS)
    requires s.caches == map[CacheCache := NewCache(CACHE_SIZE)] && s.chains == map[]
    ensures Sound(s) && CachesLive(s)
  {
    NumPositive(CACHE_SIZE);
    assert CacheOk(s, CacheCache);
    forall a: nat ensures RecordAt(s, a) {
    }
  }

  // ----- slabs and outstanding pages -----

  lemma OkKept(s: State, s': State, views: seq<ZoneView>)
    requires Ok(s, views) && Sound(s') && |s'.frames| == |s.frames| && s'.chains.Keys == s.chains.Keys
    ensures Ok(s', views) && Supply(s', views) == Supply(s, views)
  {
    hide Sound;
    assert |s'.chains| == |s'.chains.Keys| && |s.chains| == |s.chains.Keys|;
  }

  lemma OkGrown(s: State, s': State, before: seq<ZoneView>, views: seq<ZoneView>, p: nat)
    requires Ok(s, before) && PageOut(before, views, p) && p !in s.chains
    requires Sound(s') && |s'.frames| == |s.frames| && s'.chains.Keys == s.chains.Keys + {p}
    ensures Ok(s', views) && Supply(s', views) == Supply(s, before)
  {
    hide Sound;
    assert |s'.chains| == |s'.chains.Keys| && |s.chains| == |s.chains.Keys|;
  }

  lemma OkShrunk(s: State, s': State, views: seq<ZoneView>, views': seq<ZoneView>, p: nat)
    requires Ok(s, views) && PageOut(views', views, p)
    requires Sound(s') && |s'.frames| == |s.frames| && s'.chains.Keys == s.chains.Keys - {p}
    ensures Ok(s', views') && Total(views') == Total(views) + 1
  {
    hide Sound;
  }

  lemma FreshForSlabs(s: State, before: seq<ZoneView>, views: seq<ZoneView>, p: nat)
    requires Ok(s, before) && PageOut(before, views, p)
    ensures p < |s.frames| && p !in s.chains && Sound(s)
  {
    hide Sound;
  }

  lemma GrowStep(s: State, before: seq<ZoneView>, views: seq<ZoneView>, r: CacheRef, page: nat)
    requires Ok(s, before) && PageOut(before, views, page) && r in s.caches
    ensures Sound(s) && page < |s.frames| == |s.slabs| && page !in s.chains
    ensures 0 < s.caches[r].num <= WORDS == |s.frames[page]|
    ensures Ok(Grown(s, r, page), views) && Supply(Grown(s, r, page), views) == Supply(s, before)
  {
    hide Ok, Supply, PageOut, Live, CacheOk, IsSlab;
    FreshForSlabs(s, before, views, page);
    GrownOk(s, r, page);
    assert Grown(s, r, page).chains.Keys == s.chains.Keys + {page};
    OkGrown(s, Grown(s, r, page), before, views, page);
  }

  // ----- destroying, step by step -----

  lemma GoneStart(s: State, views: seq<ZoneView>, r: CacheRef, sel: Which)
    requires Ok(s, views) && r in s.caches
    ensures ListGone(s, s, r, sel, 0)
  {
  }

  /** Taking the head off a list leaves the other two alone. */
  lemma UnlinkHead(slabs: seq<SlabState.Slab>, c: Cache, sel: Which)
    requires ListsOk(slabs, c) && c.num > 0 && ListOf(c, sel) != []
    ensures Unlinked(c, ListOf(c, sel)[0]) == WithList(c, sel, ListOf(c, sel)[1..])
  {
    var p := ListOf(c, sel)[0];
    WithoutFacts(c.full, p);
    WithoutFacts(c.partial, p);
    WithoutFacts(c.free, p);
  }

  lemma GoneNext(s: State, s1: State, r: CacheRef, sel: Which, i: nat)
    requires ListGone(s, s1, r, sel, i) && i < |ListOf(s.caches[r], sel)|
    ensures r in s1.caches && OnCache(s1.caches[r], ListOf(s.caches[r], sel)[i])
  {
    assert ListOf(s1.caches[r], sel)[0] == ListOf(s.caches[r], sel)[i];
  }

  lemma GoneStep(s: State, s1: State, s2: State, r: CacheRef, sel: Which, i: nat)
    requires ListGone(s, s1, r, sel, i) && i < |ListOf(s.caches[r], sel)|
    requires SlabGone(s1, s2, r, ListOf(s.caches[r], sel)[i])
    ensures r in s2.caches && ListGone(s, s2, r, sel, i + 1)
  {
    var l := ListOf(s.caches[r], sel);
    SlabGoneOthers(s1, s2, r, l[i]);
    OthersTrans(s, s1, s2, r);
    hide OthersSame, Live;
    assert CacheOk(s1, r);
    UnlinkHead(s1.slabs, s1.caches[r], sel);
    assert l[i..][1..] == l[i + 1..];
    hide Sound, CacheOk, Unlinked;
  }

  lemma SlabGoneOthers(s: State, s': State, r: CacheRef, p: nat)
    requires SlabGone(s, s', r, p)
    ensures OthersSame(s, s', r)
  {
    hide Sound, Live, Unlinked;
  }

  lemma GoneKeys(s: State, views: seq<ZoneView>, r: CacheRef)
    requires Ok(s, views) && r in s.caches
    ensures OthersSame(s, s, r)
  {
  }

  lemma GoneLists(s: State, s': State, r: CacheRef, sel: Which)
    requires r in s.caches && ListGone(s, s', r, sel, |ListOf(s.caches[r], sel)|)
    ensures OthersSame(s, s', r) && r in s'.caches && s'.caches[r] == WithList(s.caches[r], sel, [])
  {
  }

  lemma OthersTrans(s: State, s1: State, s2: State, r: CacheRef)
    requires OthersSame(s, s1, r) && OthersSame(s1, s2, r)
    ensures OthersSame(s, s2, r)
  {
    hide Live, Sound;
  }

  lemma GoneAll(s: State, s1: State, s2: State, s3: State, r: CacheRef)
    requires OthersSame(s, s1, r) && OthersSame(s1, s2, r) && OthersSame(s2, s3, r)
    requires s1.caches[r] == WithList(s.caches[r], Full, []) && s2.caches[r] == WithList(s1.caches[r], Partial, [])
    requires s3.caches[r] == WithList(s2.caches[r], Free, [])
    ensures AllGone(s, s3, r)
    ensures SlabCount(s.caches[r])
         == |ListOf(s.caches[r], Full)| + |ListOf(s1.caches[r], Partial)| + |ListOf(s2.caches[r], Free)|
  {
    hide Live, Sound;
    OthersTrans(s, s1, s2, r);
    OthersTrans(s, s2, s3, r);
  }

  /** The object of the cache of caches that a cache's record is. */
  ghost function RecordOf(s: State, addr: nat): (r: (nat, nat))
    requires Sound(s) && CachesLive(s) && At(addr) in s.caches
    ensures Live(s, CacheCache, r.0, r.1) && addr == ObjAddr(s.caches[CacheCache], r.0, r.1)
  {
    assert RecordAt(s, addr);
    var p: nat, k: nat :| Live(s, CacheCache, p, k) && addr == ObjAddr(s.caches[CacheCache], p, k);
    (p, k)
  }

  lemma DropStep(s: State, s1: State, views: seq<ZoneView>, addr: nat, p: nat, k: nat)
    requires AllGone(s, s1, At(addr)) && Ok(s1, views) && Live(s, CacheCache, p, k)
    requires addr == ObjAddr(s.caches[CacheCache], p, k)
    ensures var s2 := s1.(caches := s1.caches - {At(addr)});
            && Ok(s2, views) && Live(s2, CacheCache, p, k) && s2.caches[CacheCache].objsize == CACHE_SIZE
            && addr == ObjAddr(s2.caches[CacheCache], p, k)
  {
    DropCache(s1, At(addr));
  }

  lemma OtherCaches(s: State, s1: State, addr: nat)
    requires AllGone(s, s1, At(addr))
    ensures s1.caches - {At(addr)} == s.caches - {At(addr)}
  {
    hide Sound, Live, OnCache;
  }

  lemma GoneStepLast(s: State, s1: State, s2: State, s3: State, addr: nat, p: nat, k: nat)
    requires AllGone(s, s1, At(addr)) && CachesLive(s)
    requires s2 == s1.(caches := s1.caches - {At(addr)}) && TakenBack(s2, s3, CacheCache, p, k)
    requires Live(s, CacheCache, p, k) && addr == ObjAddr(s.caches[CacheCache], p, k)
    ensures CacheGone(s, s3, addr) && CachesLive(s3)
  {
    DropCache(s1, At(addr));
    forall x: nat, j: nat ensures Live(s3, CacheCache, x, j) <==>
      Live(s, CacheCache, x, j) && ObjAddr(s.caches[CacheCache], x, j) != addr
    {
      if Live(s, CacheCache, x, j) && ObjAddr(s.caches[CacheCache], x, j) == addr {
        SameRecord(s, p, k, x, j);
      }
    }
    DestroyedLive(s, s3, p, k);
  }

  lemma MakeStep(s: State, s1: State, views: seq<ZoneView>, addr: nat, p: nat, k: nat, size: nat)
    requires HandedOut(s, s1, CacheCache, p, k) && Ok(s1, views) && CachesLive(s) && size <= PGSIZE - 2
    requires CacheCache in s.caches && addr == ObjAddr(s.caches[CacheCache], p, k)
    ensures var s' := s1.(caches := s1.caches[At(addr) := NewCache(size)]);
            && At(addr) !in s.caches && Ok(s', views) && CachesLive(s') && CacheMade(s, s', addr, size)
            && Supply(s', views) == Supply(s1, views)
  {
    hide Live, CachesLive, Ok, Supply;
    assert Sound(s1) && SameRecords(s, s1);
    CreatedLive(s, s1, p, k, size);
    CreatedMade(s, s1, addr, p, k, size);
    hide Sound, HandedOut, CacheMade;
    OkKept(s1, s1.(caches := s1.caches[At(addr) := NewCache(size)]), views);
  }

  lemma CreatedMade(s: State, s1: State, addr: nat, p: nat, k: nat, size: nat)
    requires HandedOut(s, s1, CacheCache, p, k) && size <= PGSIZE - 2
    requires CacheCache in s.caches && addr == ObjAddr(s.caches[CacheCache], p, k) && At(addr) !in s.caches
    ensures CacheMade(s, s1.(caches := s1.caches[At(addr) := NewCache(size)]), addr, size)
  {
    hide CacheOk, IsSlab;
    AddCache(s1, addr, size);
    assert Live(s1, CacheCache, p, k);
    assert k < s.caches[CacheCache].num;
    hide Live;
    forall x: nat, j: nat | j < s.caches[CacheCache].num && ObjAddr(s.caches[CacheCache], x, j) == addr
      ensures x == p && j == k
    {
      SameRecord(s, p, k, x, j);
    }
    hide Sound, ObjAddr;
  }
}
