/**
 The slab layer as one value: pages whose first words form an index free list, the records of
 the slabs, and the caches with their three lists; and what every operation keeps.
 */
module SlabState {
  import opened Sv39

  const WORDS := 2048              // 16-bit words in a page
  const CACHE_SIZE := 72           // sizeof(struct cache_t)

  /** A page, read as signed 16-bit words. */
  type Frame = seq<int>

  /** A cache is known by the address of its record; the cache of caches is static. */
  datatype CacheRef = NoCache | CacheCache | At(addr: nat)

  /** What a Page struct holds while its page is a slab. */
  datatype Slab = Slab(cachep: CacheRef, inuse: nat, free: nat)

  /** The three lists hold the page numbers of slabs, first entry first. */
  datatype Cache = Cache(objsize: nat, num: nat, full: seq<nat>, partial: seq<nat>, free: seq<nat>)

  datatype State = State(
    frames: seq<Frame>,
    slabs: seq<Slab>,
    caches: map<CacheRef, Cache>,
    chains: map<nat, seq<nat>>)    // the unallocated slots of each slab, in free-list order

  // ----- 16-bit conversions -----

  function Unsigned(x: int): nat
    requires -0x8000 <= x < 0x8000
  {
    if x < 0 then x + 0x1_0000 else x
  }

  function Signed(x: nat): int
    requires x < 0x1_0000
  {
    if x < 0x8000 then x else x - 0x1_0000
  }

  /** The same 16 bits read either way; the end mark -1 is 0xFFFF. */
  lemma SixteenBits(x: int)
    requires -0x8000 <= x < 0x8000
    ensures Signed(Unsigned(x)) == x && Unsigned(x) < 0x1_0000 && (Unsigned(x) - x) % 0x1_0000 == 0
    ensures Unsigned(-1) == 0xFFFF
  {
  }

  // ----- lists -----

  ghost predicate NoDup(l: seq<nat>)
  {
    forall i, j | 0 <= i < j < |l| :: l[i] != l[j]
  }

  lemma PutInFront(l: seq<nat>, p: nat)
    requires NoDup(l)
    ensures p !in l ==> NoDup([p] + l)
    ensures forall x: nat :: x in [p] + l <==> x == p || x in l
  {
  }

  lemma HeadAndRest(l: seq<nat>)
    requires l != []
    ensures forall x: nat :: x in l <==> x == l[0] || x in l[1..]
    ensures NoDup(l) ==> NoDup(l[1..]) && l[0] !in l[1..]
  {
  }

  // ----- the free list of a slab -----

  /** What leads to position i of a chain: the slot there, or the end mark. */
  function Link(chain: seq<nat>, i: nat): int
  {
    if i < |chain| then chain[i] else -1
  }

  /** The list that starts at `free` and goes through bufctl: no slot twice, ended by -1. */
  ghost predicate ChainOk(b: Frame, num: nat, free: nat, chain: seq<nat>)
  {
    && |b| == WORDS && 0 < num <= WORDS
    && (forall k <- chain :: k < num) && NoDup(chain)
    && Linked(b, chain) && free < 0x1_0000 && Signed(free) == Link(chain, 0)
  }

  /** Each slot of the chain holds the next one. */
  ghost predicate Linked(b: Frame, chain: seq<nat>)
  {
    forall i | 0 <= i < |chain| :: chain[i] < |b| && b[chain[i]] == Link(chain, i + 1)
  }

  lemma LinkInFront(b: Frame, chain: seq<nat>, k: nat, next: int)
    requires Linked(b, chain) && k < |b| && k !in chain && next == Link(chain, 0)
    ensures Linked(b[k := next], [k] + chain)
  {
    var c := [k] + chain;
    forall i | 0 <= i < |c| ensures c[i] < |b| && b[k := next][c[i]] == Link(c, i + 1) {
      if i > 0 {
        assert c[i] == chain[i - 1] != k;
        assert Link(c, i + 1) == Link(chain, i);
      }
    }
  }

  /** Taking the first slot. */
  lemma ChainPop(b: Frame, num: nat, free: nat, chain: seq<nat>)
    requires ChainOk(b, num, free, chain) && chain != []
    ensures free == chain[0] < num && -0x8000 <= b[free] < 0x8000
    ensures ChainOk(b, num, Unsigned(b[free]), chain[1..]) && free !in chain[1..]
  {
    HeadAndRest(chain);
    LinkRest(b, chain);
    assert |chain| > 1 ==> chain[1] in chain;
  }

  lemma LinkRest(b: Frame, chain: seq<nat>)
    requires Linked(b, chain) && chain != []
    ensures Linked(b, chain[1..]) && chain[0] < |b| && b[chain[0]] == Link(chain, 1) == Link(chain[1..], 0)
  {
    var c := chain[1..];
    forall i | 0 <= i < |c| ensures c[i] < |b| && b[c[i]] == Link(c, i + 1) {
      assert c[i] == chain[i + 1];
    }
  }

  /** Putting a slot in front. */
  lemma ChainPush(b: Frame, num: nat, free: nat, chain: seq<nat>, k: nat)
    requires ChainOk(b, num, free, chain) && k < num && k !in chain
    ensures ChainOk(b[k := Signed(free)], num, k, [k] + chain)
  {
    PutInFront(chain, k);
    LinkInFront(b, chain, k, Signed(free));
  }

  function Upto(n: nat): (r: set<nat>)
    ensures |r| == n && forall x: nat :: x in r <==> x < n
  {
    if n == 0 then {} else Upto(n - 1) + {n - 1}
  }

  function Elements(s: seq<nat>): (r: set<nat>)
    ensures forall x: nat :: x in r <==> x in s
  {
    set x | x in s
  }

  lemma {:induction false} ElementsCount(s: seq<nat>)
    requires NoDup(s)
    ensures |Elements(s)| == |s|
  {
    if s == [] {
      assert Elements(s) == {};
    } else {
      ElementsCount(s[1..]);
      assert Elements(s) == Elements(s[1..]) + {s[0]};
    }
  }

  /** A slot outside the chain means that the chain is shorter than the slab. */
  lemma ChainShort(b: Frame, num: nat, free: nat, chain: seq<nat>, k: nat)
    requires ChainOk(b, num, free, chain) && k < num && k !in chain
    ensures |chain| < num
  {
    ElementsCount(chain);
    Subset(Elements(chain) + {k}, Upto(num));
    assert |Elements(chain) + {k}| == |chain| + 1;
  }

  lemma {:induction false} Subset(a: set<nat>, b: set<nat>)
    requires a <= b
    ensures |a| <= |b|
    decreases |a|
  {
    if a != {} {
      var x :| x in a;
      Subset(a - {x}, b - {x});
    }
  }

  // ----- object addresses -----

  function NumFor(objsize: nat): nat
  {
    PGSIZE / (2 + objsize)
  }

  /** Mentioning OpenSize(z) lets SizeOk be unfolded, which keeps the division out of other proofs. */
  ghost predicate OpenSize(z: nat) { true }

  /** The number of objects is the one cache_create computes. */
  ghost predicate SizeOk(c: Cache)
  {
    && 0 < c.num <= WORDS
    && forall z {:trigger OpenSize(z)} :: z == c.objsize ==> z <= PGSIZE - 2 && c.num == NumFor(z)
  }

  /** Bytes from the start of physical memory to object k of the slab in page p. */
  function ObjAddr(c: Cache, p: nat, k: nat): nat
  {
    p * PGSIZE + 2 * c.num + k * c.objsize
  }

  /** The page and index that cache_free computes from an address. */
  function PageOfObj(a: nat): nat
  {
    a / PGSIZE
  }

  function IndexOfObj(c: Cache, a: nat): int
    requires c.objsize > 0
  {
    (a - (a / PGSIZE * PGSIZE + 2 * c.num)) / c.objsize
  }

  /** The objects of a slab lie behind its free list and in front of the next page. */
  lemma ObjInPage(c: Cache, k: nat)
    requires SizeOk(c) && k < c.num
    ensures 2 * c.num <= 2 * c.num + k * c.objsize && 2 * c.num + (k + 1) * c.objsize <= PGSIZE
  {
    var n, z := c.num, c.objsize;
    assert OpenSize(z);
    assert n * (2 + z) <= PGSIZE;
    assert (k + 1) * z <= n * z by {
      MulMono(k + 1, n, z);
    }
    assert n * (2 + z) == 2 * n + n * z;
  }

  lemma MulMono(a: nat, b: nat, z: nat)
    requires a <= b
    ensures a * z <= b * z
  {
  }

  /** The objects and their list fit in a page, and one object more would not. */
  predicate FillsPage(num: nat, objsize: nat)
  {
    num * (2 + objsize) <= 4096 < (num + 1) * (2 + objsize)
  }

  lemma NumFills(objsize: nat)
    ensures FillsPage(NumFor(objsize), objsize)
  {
    var n, z := NumFor(objsize), 2 + objsize;
    assert PGSIZE == z * n + PGSIZE % z;
    assert (n + 1) * z == z * n + z;
    assert n * z == z * n;
  }

  lemma NumPositive(objsize: nat)
    requires objsize <= PGSIZE - 2
    ensures 1 <= NumFor(objsize) <= WORDS
  {
  }

  /** cache_free recovers the page and the index from the address of an object. */
  lemma Recover(c: Cache, p: nat, k: nat)
    requires SizeOk(c) && k < c.num && c.objsize > 0
    ensures PageOfObj(ObjAddr(c, p, k)) == p && IndexOfObj(c, ObjAddr(c, p, k)) == k
  {
    ObjInPage(c, k);
    var off := 2 * c.num + k * c.objsize;
    assert (k + 1) * c.objsize == k * c.objsize + c.objsize;
    assert off < PGSIZE;
    assert ObjAddr(c, p, k) / PGSIZE == p;
    DivExact(k, c.objsize);
  }

  lemma DivExact(k: nat, z: nat)
    requires z > 0
    ensures k * z / z == k
  {
    var q := k * z / z;
    if q < k {
      MulMono(q + 1, k, z);
    } else if q > k {
      MulMono(k + 1, q, z);
    }
  }

  /** With objects of size 0, which cache_create accepts, every address is one page too far. */
  lemma SizeMatters(c: Cache, p: nat, k: nat)
    requires SizeOk(c) && k < c.num
    ensures PageOfObj(ObjAddr(c, p, k)) == p <==> c.objsize > 0
  {
    assert OpenSize(c.objsize);
    if c.objsize > 0 {
      Recover(c, p, k);
    } else {
      assert c.num == 2048;
      assert k * c.objsize == 0;
    }
  }

  // ----- the lists of a cache -----

  /** list_del of an entry. */
  function WithoutPage(l: seq<nat>, p: nat): seq<nat>
  {
    if l == [] then [] else if l[0] == p then l[1..] else [l[0]] + WithoutPage(l[1..], p)
  }

  lemma {:induction false} WithoutFacts(l: seq<nat>, p: nat)
    requires NoDup(l)
    ensures NoDup(WithoutPage(l, p)) && forall x: nat :: x in WithoutPage(l, p) <==> x in l && x != p
    ensures p !in l ==> WithoutPage(l, p) == l
  {
    if l != [] {
      WithoutFacts(l[1..], p);
      PutInFront(WithoutPage(l[1..], p), l[0]);
      assert forall x: nat :: x in l <==> x == l[0] || x in l[1..];
    }
  }

  predicate OnCache(c: Cache, p: nat)
  {
    p in c.full || p in c.partial || p in c.free
  }

  function Unlinked(c: Cache, p: nat): Cache
  {
    c.(full := WithoutPage(c.full, p), partial := WithoutPage(c.partial, p), free := WithoutPage(c.free, p))
  }

  /** list_add to the list that fits the number of objects in use. */
  function Relinked(c: Cache, p: nat, inuse: nat): Cache
  {
    if inuse == c.num then c.(full := [p] + c.full)
    else if inuse == 0 then c.(free := [p] + c.free)
    else c.(partial := [p] + c.partial)
  }

  // ----- the invariant -----

  ghost predicate SlabOk(s: State, r: CacheRef, c: Cache, p: nat)
  {
    && p < |s.frames| == |s.slabs| && p in s.chains && s.slabs[p].cachep == r
    && ChainOk(s.frames[p], c.num, s.slabs[p].free, s.chains[p])
    && s.slabs[p].inuse == c.num - |s.chains[p]|
  }

  /** The list a slab is on says how many of its objects are in use. */
  ghost predicate ListsOk(slabs: seq<Slab>, c: Cache)
  {
    && NoDup(c.full) && NoDup(c.partial) && NoDup(c.free)
    && (forall p <- c.full :: p < |slabs| && slabs[p].inuse == c.num)
    && (forall p <- c.partial :: p < |slabs| && 0 < slabs[p].inuse < c.num)
    && (forall p <- c.free :: p < |slabs| && slabs[p].inuse == 0)
  }

  ghost predicate CacheOk(s: State, r: CacheRef)
    requires r in s.caches
  {
    var c := s.caches[r];
    SizeOk(c) && ListsOk(s.slabs, c) && forall p: nat | OnCache(c, p) :: SlabOk(s, r, c, p)
  }

  ghost predicate Sound(s: State)
  {
    && |s.slabs| == |s.frames| && (forall f | 0 <= f < |s.frames| :: |s.frames[f]| == WORDS)
    && NoCache !in s.caches && CacheCache in s.caches && s.caches[CacheCache].objsize == CACHE_SIZE
    && (forall r <- s.caches :: CacheOk(s, r))
    && (forall p <- s.chains :: IsSlab(s, p))
  }

  /** The page is on a list of the cache its record names. */
  ghost predicate IsSlab(s: State, p: nat)
  {
    p < |s.slabs| && s.slabs[p].cachep in s.caches && OnCache(s.caches[s.slabs[p].cachep], p)
  }

  /** Object k of slab p belongs to cache r and is allocated. */
  ghost predicate Live(s: State, r: CacheRef, p: nat, k: nat)
  {
    && r in s.caches && OnCache(s.caches[r], p) && p in s.chains
    && k < s.caches[r].num && k !in s.chains[p]
  }

  /** A slab is on the list of full, partial or free slabs by the number of objects in use. */
  lemma ListByUse(s: State, r: CacheRef, p: nat)
    requires Sound(s) && r in s.caches && OnCache(s.caches[r], p)
    ensures p < |s.slabs|
    ensures var c, inuse := s.caches[r], s.slabs[p].inuse;
            && (p in c.full <==> inuse == c.num) && (p in c.partial <==> 0 < inuse < c.num) && (p in c.free <==> inuse == 0)
  {
    assert CacheOk(s, r);
  }

  /** That number is the number of live objects of the slab. */
  lemma UseCounts(s: State, r: CacheRef, p: nat)
    requires Sound(s) && r in s.caches && OnCache(s.caches[r], p)
    ensures p < |s.slabs| && s.slabs[p].inuse == |set k: nat | k < s.caches[r].num && Live(s, r, p, k)|
  {
    assert CacheOk(s, r) && SlabOk(s, r, s.caches[r], p);
    var n, chain := s.caches[r].num, s.chains[p];
    ElementsCount(chain);
    var live := set k: nat | k < n && Live(s, r, p, k);
    hide Sound, CacheOk, SlabOk;
    assert live == Upto(n) - Elements(chain);
    assert Elements(chain) <= Upto(n);
  }

  // ----- operations -----

  /** bufctl of a new slab: each slot leads to the next one. */
  function Linear(b: Frame, num: nat): (r: Frame)
    requires num <= |b|
    ensures |r| == |b| && forall i | 0 <= i < |b| :: r[i] == if i < num - 1 then i + 1 else if i == num - 1 then -1 else b[i]
  {
    seq(|b|, i requires 0 <= i < |b| => if i < num - 1 then i + 1 else if i == num - 1 then -1 else b[i])
  }

  function Iota(n: nat): (r: seq<nat>)
    ensures |r| == n && forall i | 0 <= i < n :: r[i] == i
    ensures forall k: nat :: k in r <==> k < n
  {
    if n == 0 then [] else Iota(n - 1) + [n - 1]
  }

  /** Writes page p, its slab record, its chain and the record of cache r. */
  function Put(s: State, r: CacheRef, p: nat, f: Frame, slab: Slab, chain: seq<nat>, c: Cache): State
    requires p < |s.frames| == |s.slabs|
  {
    State(s.frames[p := f], s.slabs[p := slab], s.caches[r := c], s.chains[p := chain])
  }

  /** cache_grow with page p. */
  function Grown(s: State, r: CacheRef, p: nat): State
    requires r in s.caches && p < |s.frames| == |s.slabs| && s.caches[r].num <= |s.frames[p]|
  {
    var c := s.caches[r];
    Put(s, r, p, Linear(s.frames[p], c.num), Slab(r, 0, 0), Iota(c.num), c.(free := [p] + c.free))
  }

  /** The slab that cache_alloc takes an object from, unless it has to grow. */
  function FirstSlab(c: Cache): nat
    requires c.partial != [] || c.free != []
  {
    if c.partial != [] then c.partial[0] else c.free[0]
  }

  /** cache_alloc from slab p. */
  ghost function Allocated(s: State, r: CacheRef, p: nat): State
    requires r in s.caches && SlabOk(s, r, s.caches[r], p) && s.chains[p] != []
  {
    ChainPop(s.frames[p], s.caches[r].num, s.slabs[p].free, s.chains[p]);
    var was := s.slabs[p];
    var now := was.(inuse := was.inuse + 1, free := Unsigned(s.frames[p][was.free]));
    Put(s, r, p, s.frames[p], now, s.chains[p][1..], Relinked(Unlinked(s.caches[r], p), p, now.inuse))
  }

  /** cache_free of object k of slab p. */
  ghost function Returned(s: State, r: CacheRef, p: nat, k: nat): State
    requires r in s.caches && SlabOk(s, r, s.caches[r], p) && k < s.caches[r].num && s.slabs[p].inuse > 0
  {
    var was := s.slabs[p];
    var f: Frame := s.frames[p][k := Signed(was.free)];
    var now := was.(inuse := was.inuse - 1, free := k);
    Put(s, r, p, f, now, [k] + s.chains[p], Relinked(Unlinked(s.caches[r], p), p, now.inuse))
  }

  /** slab_destroy. */
  function Destroyed(s: State, r: CacheRef, p: nat): State
    requires r in s.caches && p < |s.slabs|
  {
    s.(slabs := s.slabs[p := Slab(NoCache, 0, 0)],
       caches := s.caches[r := Unlinked(s.caches[r], p)],
       chains := s.chains - {p})
  }

  // ----- what objects hold -----

  /** From f to f' a page changed at most in its bufctl part. */
  ghost predicate DataKept(f: Frame, f': Frame, num: nat)
  {
    |f'| == |f| && forall i | num <= i < |f| :: f'[i] == f[i]
  }

  /** No object of these caches changed its contents. */
  ghost predicate ObjectsKept(caches: map<CacheRef, Cache>, b: seq<Frame>, b': seq<Frame>)
  {
    |b'| == |b| && forall r <- caches, p: nat | OnCache(caches[r], p) && p < |b| :: DataKept(b[p], b'[p], caches[r].num)
  }

  lemma SameData(caches: map<CacheRef, Cache>, b: seq<Frame>)
    ensures ObjectsKept(caches, b, b)
  {
  }

  /** A new slab lies in a page without objects. */
  lemma GrownData(s: State, r: CacheRef, p: nat)
    requires Sound(s) && r in s.caches && p < |s.frames| && p !in s.chains
    ensures s.caches[r].num <= |s.frames[p]| && ObjectsKept(s.caches, s.frames, Grown(s, r, p).frames)
  {
    hide Live;
    GrownOk(s, r, p);
    forall q <- s.caches, x: nat | OnCache(s.caches[q], x) ensures x != p {
      assert CacheOk(s, q);
    }
  }

  lemma OneOwner(s: State, r: CacheRef, p: nat)
    requires Sound(s) && r in s.caches && SlabOk(s, r, s.caches[r], p)
    ensures forall q <- s.caches | OnCache(s.caches[q], p) :: q == r
  {
    forall q <- s.caches | OnCache(s.caches[q], p) ensures q == r {
      assert CacheOk(s, q);
    }
  }

  /** cache_free writes one word of bufctl. */
  lemma ReturnedData(s: State, r: CacheRef, p: nat, k: nat)
    requires Sound(s) && r in s.caches && SlabOk(s, r, s.caches[r], p) && k < s.caches[r].num && s.slabs[p].inuse > 0
    ensures ObjectsKept(s.caches, s.frames, Returned(s, r, p, k).frames)
  {
    OneOwner(s, r, p);
    hide Sound, SlabOk, OnCache;
  }

  // ----- what stays the same -----

  /** s' differs from s in the record of cache r and in page p only. */
  ghost predicate Local(s: State, s': State, r: CacheRef, p: nat)
  {
    && |s'.frames| == |s.frames| == |s'.slabs| == |s.slabs| && p < |s.frames|
    && (forall x | 0 <= x < |s.frames| && x != p :: s'.frames[x] == s.frames[x] && s'.slabs[x] == s.slabs[x])
    && r in s.caches && s'.caches.Keys == s.caches.Keys
    && (forall q <- s.caches | q != r :: s'.caches[q] == s.caches[q])
    && (forall x: nat | x != p :: (x in s'.chains <==> x in s.chains) && (x in s.chains ==> s'.chains[x] == s.chains[x]))
  }

  lemma PutLocal(s: State, r: CacheRef, p: nat, f: Frame, slab: Slab, chain: seq<nat>, c: Cache)
    requires p < |s.frames| == |s.slabs| && r in s.caches
    ensures Local(s, Put(s, r, p, f, slab, chain, c), r, p)
  {
  }

  /** Page p is unused or a slab of r. */
  ghost predicate Mine(s: State, r: CacheRef, p: nat)
  {
    p < |s.slabs| && (p in s.chains ==> s.slabs[p].cachep == r)
  }

  lemma OthersKept(s: State, s': State, r: CacheRef, p: nat, q: CacheRef)
    requires Sound(s) && Local(s, s', r, p) && Mine(s, r, p) && q in s.caches && q != r
    ensures CacheOk(s', q) && forall x: nat, k: nat :: Live(s', q, x, k) <==> Live(s, q, x, k)
  {
    var c := s.caches[q];
    assert CacheOk(s, q);
    forall x: nat | OnCache(c, x) ensures x != p && SlabOk(s', q, c, x) {
      assert SlabOk(s, q, c, x);
    }
    ListsKept(s.slabs, s'.slabs, c, p);
  }

  lemma ListsKept(slabs: seq<Slab>, slabs': seq<Slab>, c: Cache, p: nat)
    requires ListsOk(slabs, c) && !OnCache(c, p) && |slabs'| == |slabs|
    requires forall x | 0 <= x < |slabs| && x != p :: slabs'[x] == slabs[x]
    ensures ListsOk(slabs', c)
  {
  }

  lemma SlabKept(s: State, s': State, r: CacheRef, p: nat, x: nat)
    requires Sound(s) && Local(s, s', r, p) && x != p && OnCache(s.caches[r], x)
    ensures x in s.chains && SlabOk(s, r, s.caches[r], x) && SlabOk(s', r, s.caches[r], x)
  {
    assert CacheOk(s, r);
  }

  /** With cache r in order again, everything is. */
  lemma SoundAfter(s: State, s': State, r: CacheRef, p: nat)
    requires Sound(s) && Local(s, s', r, p) && Mine(s, r, p) && CacheOk(s', r) && |s'.frames[p]| == WORDS
    requires p in s'.chains ==> s'.slabs[p].cachep == r && OnCache(s'.caches[r], p)
    requires forall x: nat | x != p :: OnCache(s'.caches[r], x) <==> OnCache(s.caches[r], x)
    requires s'.caches[r].objsize == s.caches[r].objsize
    ensures Sound(s')
  {
    forall q <- s'.caches ensures CacheOk(s', q) {
      if q != r {
        OthersKept(s, s', r, p, q);
      }
    }
    forall x <- s'.chains ensures IsSlab(s', x) {
      IsSlabKept(s, s', r, p, x);
    }
  }

  lemma IsSlabKept(s: State, s': State, r: CacheRef, p: nat, x: nat)
    requires Sound(s) && Local(s, s', r, p) && x in s'.chains
    requires p in s'.chains ==> s'.slabs[p].cachep == r && OnCache(s'.caches[r], p)
    requires forall y: nat | y != p :: OnCache(s'.caches[r], y) <==> OnCache(s.caches[r], y)
    ensures IsSlab(s', x)
  {
    assert x != p ==> IsSlab(s, x);
  }

  /** Moving slab p to the list that fits keeps the lists in order. */
  lemma RelinkOk(slabs: seq<Slab>, slabs': seq<Slab>, c: Cache, p: nat)
    requires ListsOk(slabs, c) && |slabs'| == |slabs| && p < |slabs| && c.num > 0
    requires forall x | 0 <= x < |slabs| && x != p :: slabs'[x] == slabs[x]
    requires slabs'[p].inuse <= c.num
    ensures var c' := Relinked(Unlinked(c, p), p, slabs'[p].inuse);
            && ListsOk(slabs', c') && OnCache(c', p) && c'.num == c.num && c'.objsize == c.objsize
            && forall x: nat | x != p :: OnCache(c', x) <==> OnCache(c, x)
  {
    UnlinkOk(slabs, slabs', c, p);
    var u := Unlinked(c, p);
    PutInFront(u.full, p);
    PutInFront(u.partial, p);
    PutInFront(u.free, p);
    assert !OnCache(u, p);
  }

  lemma UnlinkOk(slabs: seq<Slab>, slabs': seq<Slab>, c: Cache, p: nat)
    requires ListsOk(slabs, c) && |slabs'| == |slabs| && p < |slabs|
    requires forall x | 0 <= x < |slabs| && x != p :: slabs'[x] == slabs[x]
    ensures ListsOk(slabs', Unlinked(c, p)) && forall x: nat :: OnCache(Unlinked(c, p), x) <==> OnCache(c, x) && x != p
  {
    WithoutFacts(c.full, p);
    WithoutFacts(c.partial, p);
    WithoutFacts(c.free, p);
  }

  // ----- each operation keeps the invariant -----

  /** The cache record after the step: its other slabs are as before, p is in order or gone. */
  ghost predicate CacheStep(s: State, s': State, r: CacheRef, p: nat)
    requires r in s.caches && r in s'.caches && p < |s'.frames|
  {
    var c, c' := s.caches[r], s'.caches[r];
    && c'.objsize == c.objsize && c'.num == c.num && ListsOk(s'.slabs, c')
    && (forall x: nat | x != p :: OnCache(c', x) <==> OnCache(c, x))
    && (OnCache(c', p) ==> SlabOk(s', r, c', p)) && (p in s'.chains <==> OnCache(c', p))
    && |s'.frames[p]| == WORDS
  }

  lemma StepOk(s: State, s': State, r: CacheRef, p: nat)
    requires Sound(s) && Local(s, s', r, p) && Mine(s, r, p) && CacheStep(s, s', r, p)
    ensures Sound(s')
    ensures forall q: CacheRef, x: nat, k: nat | q != r || x != p :: Live(s', q, x, k) <==> Live(s, q, x, k)
  {
    var c, c' := s.caches[r], s'.caches[r];
    assert CacheOk(s, r);
    assert OpenSize(c.objsize);
    forall x: nat | OnCache(c', x) ensures SlabOk(s', r, c', x) {
      if x != p {
        SlabKept(s, s', r, p, x);
      }
    }
    SoundAfter(s, s', r, p);
    forall q: CacheRef, x: nat, k: nat | q != r || x != p ensures Live(s', q, x, k) <==> Live(s, q, x, k) {
      if q in s.caches && q != r {
        OthersKept(s, s', r, p, q);
      }
    }
  }

  /** A new slab with no object in use, in front of the free list. */
  lemma GrownLists(slabs: seq<Slab>, c: Cache, p: nat, r: CacheRef)
    requires ListsOk(slabs, c) && !OnCache(c, p) && p < |slabs|
    ensures var c' := c.(free := [p] + c.free);
            && ListsOk(slabs[p := Slab(r, 0, 0)], c') && OnCache(c', p)
            && forall x: nat | x != p :: OnCache(c', x) <==> OnCache(c, x)
  {
    ListsKept(slabs, slabs[p := Slab(r, 0, 0)], c, p);
    PutInFront(c.free, p);
    assert p in [p] + c.free;
  }

  lemma GrownStep(s: State, r: CacheRef, p: nat)
    requires Sound(s) && r in s.caches && p < |s.frames| && p !in s.chains
    ensures 0 < s.caches[r].num <= WORDS && !OnCache(s.caches[r], p)
    ensures var s' := Grown(s, r, p); Local(s, s', r, p) && CacheStep(s, s', r, p)
  {
    var c := s.caches[r];
    assert CacheOk(s, r);
    assert !OnCache(c, p);
    hide IsSlab, CacheOk, ListsOk, OnCache;
    var s' := Grown(s, r, p);
    GrownLists(s.slabs, c, p, r);
    NewChain(s.frames[p], c.num);
    PutLocal(s, r, p, s'.frames[p], s'.slabs[p], s'.chains[p], s'.caches[r]);
    assert SlabOk(s', r, s'.caches[r], p);
  }

  lemma GrownOk(s: State, r: CacheRef, p: nat)
    requires Sound(s) && r in s.caches && p < |s.frames| && p !in s.chains
    ensures 0 < s.caches[r].num <= WORDS == |s.frames[p]| && Sound(Grown(s, r, p))
    ensures forall q: CacheRef, x: nat, k: nat :: Live(Grown(s, r, p), q, x, k) <==> Live(s, q, x, k)
  {
    hide CacheOk, IsSlab;
    GrownStep(s, r, p);
    var s' := Grown(s, r, p);
    StepOk(s, s', r, p);
    forall q: CacheRef, k: nat ensures !Live(s', q, p, k) {
      LiveOwner(s', q, p, k);
    }
  }

  lemma LiveOwner(s: State, q: CacheRef, p: nat, k: nat)
    requires Sound(s)
    ensures Live(s, q, p, k) ==> SlabOk(s, q, s.caches[q], p)
  {
    if q in s.caches {
      assert CacheOk(s, q);
    }
  }

  lemma AllocatedStep(s: State, r: CacheRef, p: nat)
    requires Sound(s) && r in s.caches && OnCache(s.caches[r], p) && p in s.chains && s.chains[p] != []
    ensures SlabOk(s, r, s.caches[r], p) && s.slabs[p].free == s.chains[p][0] < s.caches[r].num
    ensures s.chains[p][0] !in s.chains[p][1..]
    ensures var s' := Allocated(s, r, p); Local(s, s', r, p) && CacheStep(s, s', r, p)
  {
    var c := s.caches[r];
    assert CacheOk(s, r);
    var s' := Allocated(s, r, p);
    ChainPop(s.frames[p], c.num, s.slabs[p].free, s.chains[p]);
    RelinkOk(s.slabs, s'.slabs, c, p);
    PutLocal(s, r, p, s'.frames[p], s'.slabs[p], s'.chains[p], s'.caches[r]);
    assert SlabOk(s', r, s'.caches[r], p);
  }

  lemma AllocatedOk(s: State, r: CacheRef, p: nat)
    requires Sound(s) && r in s.caches && OnCache(s.caches[r], p) && p in s.chains && s.chains[p] != []
    ensures SlabOk(s, r, s.caches[r], p) && Sound(Allocated(s, r, p))
    ensures var k0 := s.slabs[p].free;
            && k0 < s.caches[r].num && !Live(s, r, p, k0)
            && forall q: CacheRef, x: nat, k: nat ::
                 Live(Allocated(s, r, p), q, x, k) <==> Live(s, q, x, k) || (q == r && x == p && k == k0)
  {
    AllocatedStep(s, r, p);
    var s', chain := Allocated(s, r, p), s.chains[p];
    StepOk(s, s', r, p);
    HeadAndRest(chain);
    assert OnCache(s'.caches[r], p);
  }

  lemma ReturnedStep(s: State, r: CacheRef, p: nat, k0: nat)
    requires Sound(s) && Live(s, r, p, k0)
    ensures SlabOk(s, r, s.caches[r], p) && s.slabs[p].inuse > 0
    ensures var s' := Returned(s, r, p, k0); Local(s, s', r, p) && CacheStep(s, s', r, p)
  {
    var c := s.caches[r];
    assert CacheOk(s, r);
    ChainShort(s.frames[p], c.num, s.slabs[p].free, s.chains[p], k0);
    var s' := Returned(s, r, p, k0);
    ChainPush(s.frames[p], c.num, s.slabs[p].free, s.chains[p], k0);
    RelinkOk(s.slabs, s'.slabs, c, p);
    PutLocal(s, r, p, s'.frames[p], s'.slabs[p], s'.chains[p], s'.caches[r]);
    assert SlabOk(s', r, s'.caches[r], p);
  }

  lemma ReturnedOk(s: State, r: CacheRef, p: nat, k0: nat)
    requires Sound(s) && Live(s, r, p, k0)
    ensures SlabOk(s, r, s.caches[r], p) && s.slabs[p].inuse > 0 && Sound(Returned(s, r, p, k0))
    ensures forall q: CacheRef, x: nat, k: nat ::
              Live(Returned(s, r, p, k0), q, x, k) <==> Live(s, q, x, k) && !(q == r && x == p && k == k0)
  {
    ReturnedStep(s, r, p, k0);
    var s', chain := Returned(s, r, p, k0), s.chains[p];
    StepOk(s, s', r, p);
    PutInFront(chain, k0);
    assert OnCache(s'.caches[r], p);
  }

  lemma DestroyedOk(s: State, r: CacheRef, p: nat)
    requires Sound(s) && r in s.caches && OnCache(s.caches[r], p)
    ensures p < |s.slabs| && p in s.chains && Sound(Destroyed(s, r, p))
    ensures forall x: nat :: OnCache(Destroyed(s, r, p).caches[r], x) <==> OnCache(s.caches[r], x) && x != p
    ensures forall q: CacheRef, x: nat, k: nat ::
              Live(Destroyed(s, r, p), q, x, k) <==> Live(s, q, x, k) && !(q == r && x == p)
  {
    hide IsSlab;
    var c := s.caches[r];
    assert CacheOk(s, r);
    assert SlabOk(s, r, c, p);
    var s' := Destroyed(s, r, p);
    UnlinkOk(s.slabs, s'.slabs, c, p);
    StepOk(s, s', r, p);
  }

  lemma NewChain(b: Frame, num: nat)
    requires |b| == WORDS && 0 < num <= WORDS
    ensures ChainOk(Linear(b, num), num, 0, Iota(num))
  {
  }

  // ----- objects never overlap -----

  lemma ObjectsApart(c: Cache, p: nat, k: nat, l: nat)
    requires k < l
    ensures ObjAddr(c, p, k) + c.objsize <= ObjAddr(c, p, l)
  {
    MulMono(k + 1, l, c.objsize);
    assert (k + 1) * c.objsize == k * c.objsize + c.objsize;
  }

  /** An allocated object lies in its slab's page, behind the free list. */
  lemma LiveInPage(s: State, r: CacheRef, p: nat, k: nat)
    requires Sound(s) && Live(s, r, p, k)
    ensures var c := s.caches[r];
            p * PGSIZE + 2 * c.num <= ObjAddr(c, p, k) && ObjAddr(c, p, k) + c.objsize <= p * PGSIZE + PGSIZE
  {
    var c := s.caches[r];
    assert CacheOk(s, r);
    ObjInPage(c, k);
    assert (k + 1) * c.objsize == k * c.objsize + c.objsize;
  }

  /** Two different allocated objects, of whatever caches, share no byte. */
  lemma NoOverlap(s: State, q: CacheRef, p: nat, k: nat, r: CacheRef, x: nat, l: nat)
    requires Sound(s) && Live(s, q, p, k) && Live(s, r, x, l) && (q != r || p != x || k != l)
    ensures var a, b := ObjAddr(s.caches[q], p, k), ObjAddr(s.caches[r], x, l);
            a + s.caches[q].objsize <= b || b + s.caches[r].objsize <= a
  {
    LiveInPage(s, q, p, k);
    LiveInPage(s, r, x, l);
    if p == x {
      LiveOwner(s, q, p, k);
      LiveOwner(s, r, x, l);
      ObjectsApart(s.caches[q], p, if k < l then k else l, if k < l then l else k);
    }
  }

  /** Whatever programs write to the objects of a slab, the free lists stay as they are. */
  lemma ObjectWrites(s: State, r: CacheRef, p: nat, g: Frame)
    requires Sound(s) && r in s.caches && OnCache(s.caches[r], p) && p < |s.frames|
    requires |g| == WORDS && forall i | 0 <= i < s.caches[r].num && i < WORDS :: g[i] == s.frames[p][i]
    ensures var s' := s.(frames := s.frames[p := g]);
            Sound(s') && forall q: CacheRef, x: nat, k: nat :: Live(s', q, x, k) <==> Live(s, q, x, k)
  {
    var s' := s.(frames := s.frames[p := g]);
    assert CacheOk(s, r) && SlabOk(s, r, s.caches[r], p);
    LinkedKept(s.frames[p], g, s.caches[r].num, s.chains[p]);
    StepOk(s, s', r, p);
  }

  lemma LinkedKept(b: Frame, g: Frame, num: nat, chain: seq<nat>)
    requires Linked(b, chain) && |g| == |b| && forall i | 0 <= i < num && i < |b| :: g[i] == b[i]
    requires forall k <- chain :: k < num
    ensures Linked(g, chain)
  {
    forall i | 0 <= i < |chain| ensures g[chain[i]] == Link(chain, i + 1) {
      assert chain[i] in chain;
    }
  }

  // ----- allocating and freeing again -----

  /** Freeing what was just allocated restores everything, free list order included. */
  lemma AllocThenFree(s: State, r: CacheRef, p: nat)
    requires Sound(s) && r in s.caches && (s.caches[r].partial != [] || s.caches[r].free != [])
    requires p == FirstSlab(s.caches[r])
    ensures FirstReady(s, r, p)
    ensures var s1, k := Allocated(s, r, p), s.slabs[p].free;
            && Live(s1, r, p, k) && SlabOk(s1, r, s1.caches[r], p) && s1.slabs[p].inuse > 0
            && Returned(s1, r, p, k) == s
  {
    FirstIsReady(s, r, p);
    assert CacheOk(s, r);
    AllocatedOk(s, r, p);
    var s1, k := Allocated(s, r, p), s.slabs[p].free;
    ReturnedOk(s1, r, p, k);
    AllocFreeState(s, r, p);
  }

  lemma AllocFreeState(s: State, r: CacheRef, p: nat)
    requires FirstReady(s, r, p) && ListsOk(s.slabs, s.caches[r]) && p == FirstSlab(s.caches[r])
    requires s.slabs[p].inuse < s.caches[r].num
    requires var s1 := Allocated(s, r, p);
             r in s1.caches && SlabOk(s1, r, s1.caches[r], p) && s1.slabs[p].inuse > 0
    requires s.slabs[p].free < Allocated(s, r, p).caches[r].num
    ensures Returned(Allocated(s, r, p), r, p, s.slabs[p].free) == s
  {
    var s1 := Allocated(s, r, p);
    AllocFreeParts(s, r, p);
    PutBack(s, r, p, s1.frames[p], s1.slabs[p], s1.chains[p], s1.caches[r]);
  }

  /** Page by page and record by record, the free undoes the allocation. */
  lemma AllocFreeParts(s: State, r: CacheRef, p: nat)
    requires FirstReady(s, r, p) && ListsOk(s.slabs, s.caches[r]) && p == FirstSlab(s.caches[r])
    requires s.slabs[p].inuse < s.caches[r].num
    ensures var s1, k := Allocated(s, r, p), s.slabs[p].free;
            && p < |s1.frames| == |s1.slabs| && r in s1.caches && p in s1.chains
            && k < |s1.frames[p]| && s1.slabs[p].free < 0x1_0000 && s1.slabs[p].inuse > 0
            && s1.frames[p][k := Signed(s1.slabs[p].free)] == s.frames[p]
            && s1.slabs[p].(inuse := s1.slabs[p].inuse - 1, free := k) == s.slabs[p]
            && [k] + s1.chains[p] == s.chains[p]
            && Relinked(Unlinked(s1.caches[r], p), p, s.slabs[p].inuse) == s.caches[r]
  {
    var b, k := s.frames[p], s.slabs[p].free;
    ChainPop(b, s.caches[r].num, k, s.chains[p]);
    RelinkTwice(s.slabs, s.caches[r], p, s.slabs[p].inuse);
    assert Signed(Unsigned(b[k])) == b[k] && b[k := b[k]] == b;
  }

  lemma PutBack(s: State, r: CacheRef, p: nat, f: Frame, slab: Slab, chain: seq<nat>, c: Cache)
    requires p < |s.frames| == |s.slabs| && r in s.caches && p in s.chains
    ensures Put(Put(s, r, p, f, slab, chain, c), r, p, s.frames[p], s.slabs[p], s.chains[p], s.caches[r]) == s
  {
  }

  /** The slab cache_alloc looks at has a free slot. */
  ghost predicate FirstReady(s: State, r: CacheRef, p: nat)
  {
    r in s.caches && OnCache(s.caches[r], p) && SlabOk(s, r, s.caches[r], p) && s.chains[p] != []
  }

  lemma FirstIsReady(s: State, r: CacheRef, p: nat)
    requires Sound(s) && r in s.caches && (s.caches[r].partial != [] || s.caches[r].free != [])
    requires p == FirstSlab(s.caches[r])
    ensures FirstReady(s, r, p) && s.slabs[p].inuse < s.caches[r].num
  {
    var c := s.caches[r];
    assert CacheOk(s, r) && OnCache(c, p);
    assert SlabOk(s, r, c, p) && s.slabs[p].inuse < c.num;
  }

  lemma RelinkTwice(slabs: seq<Slab>, c: Cache, p: nat, inuse: nat)
    requires ListsOk(slabs, c) && (c.partial != [] || c.free != []) && p == FirstSlab(c)
    requires p < |slabs| && inuse == slabs[p].inuse < c.num
    ensures Relinked(Unlinked(Relinked(Unlinked(c, p), p, inuse + 1), p), p, inuse) == c
  {
    WithoutFacts(c.full, p);
    WithoutFacts(c.partial, p);
    WithoutFacts(c.free, p);
    var u := Unlinked(c, p);
    assert p !in c.full && WithoutPage(c.full, p) == c.full;
    if c.partial != [] {
      assert [p] + u.partial == c.partial && u.free == c.free;
    } else {
      assert [p] + u.free == c.free && u.partial == c.partial;
    }
    var m := Relinked(u, p, inuse + 1);
    WithoutFacts(u.full, p);
    WithoutFacts(u.partial, p);
    WithoutFacts(u.free, p);
    assert ([p] + u.full)[1..] == u.full && ([p] + u.partial)[1..] == u.partial;
    assert Unlinked(m, p) == u;
  }

  // ----- caches are objects of the cache of caches -----

  /** The address is that of an allocated cache record. */
  ghost predicate LiveAt(s: State, a: nat)
    requires CacheCache in s.caches
  {
    exists p: nat, k: nat :: Live(s, CacheCache, p, k) && a == ObjAddr(s.caches[CacheCache], p, k)
  }

  /** A cache exists exactly where a record is allocated. */
  ghost predicate CachesLive(s: State)
    requires Sound(s)
  {
    forall a: nat :: RecordAt(s, a)
  }

  ghost predicate RecordAt(s: State, a: nat)
    requires CacheCache in s.caches
  {
    At(a) in s.caches <==> LiveAt(s, a)
  }

  /** Two records at one address are the same object. */
  lemma SameRecord(s: State, p: nat, k: nat, x: nat, l: nat)
    requires Sound(s) && CacheCache in s.caches
    requires k < s.caches[CacheCache].num && l < s.caches[CacheCache].num
    requires ObjAddr(s.caches[CacheCache], p, k) == ObjAddr(s.caches[CacheCache], x, l)
    ensures p == x && k == l
  {
    assert CacheOk(s, CacheCache);
    Recover(s.caches[CacheCache], p, k);
    Recover(s.caches[CacheCache], x, l);
  }

  /** The layout of the slabs of cache records does not change. */
  ghost predicate SameRecords(s: State, s': State)
    requires CacheCache in s.caches && CacheCache in s'.caches
  {
    && s'.caches[CacheCache].num == s.caches[CacheCache].num
    && s'.caches[CacheCache].objsize == s.caches[CacheCache].objsize
  }

  function NewCache(size: nat): Cache
  {
    Cache(size, NumFor(size), [], [], [])
  }

  lemma AddCache(s: State, a: nat, size: nat)
    requires Sound(s) && At(a) !in s.caches && size <= PGSIZE - 2
    ensures var s' := s.(caches := s.caches[At(a) := NewCache(size)]);
            Sound(s') && forall q: CacheRef, x: nat, k: nat :: Live(s', q, x, k) <==> Live(s, q, x, k)
  {
    var r := At(a);
    var s' := s.(caches := s.caches[r := NewCache(size)]);
    NumPositive(size);
    forall q <- s'.caches ensures CacheOk(s', q) {
      assert q != r ==> CacheOk(s, q);
    }
    forall p <- s'.chains ensures IsSlab(s', p) {
      assert IsSlab(s, p);
    }
  }

  lemma DropCache(s: State, r: CacheRef)
    requires Sound(s) && r in s.caches && r != CacheCache && forall x: nat :: !OnCache(s.caches[r], x)
    ensures var s' := s.(caches := s.caches - {r});
            Sound(s') && forall q: CacheRef, x: nat, k: nat :: Live(s', q, x, k) <==> Live(s, q, x, k)
  {
    var s' := s.(caches := s.caches - {r});
    forall q <- s'.caches ensures CacheOk(s', q) {
      assert CacheOk(s, q);
    }
    forall p <- s'.chains ensures IsSlab(s', p) {
      assert IsSlab(s, p);
    }
  }

  /** A record was allocated and its cache set up. */
  lemma CreatedLive(s: State, s1: State, p: nat, k0: nat, size: nat)
    requires Sound(s) && CachesLive(s) && Sound(s1) && s1.caches.Keys == s.caches.Keys && size <= PGSIZE - 2
    requires SameRecords(s, s1) && !Live(s, CacheCache, p, k0)
    requires forall x: nat, k: nat :: Live(s1, CacheCache, x, k) <==> Live(s, CacheCache, x, k) || (x == p && k == k0)
    ensures var a0 := ObjAddr(s.caches[CacheCache], p, k0);
            var s' := s1.(caches := s1.caches[At(a0) := NewCache(size)]);
            At(a0) !in s.caches && Sound(s') && CachesLive(s')
  {
    var a0 := ObjAddr(s.caches[CacheCache], p, k0);
    assert Live(s1, CacheCache, p, k0);
    assert RecordAt(s, a0);
    if LiveAt(s, a0) {
      var x: nat, k: nat :| Live(s, CacheCache, x, k) && a0 == ObjAddr(s.caches[CacheCache], x, k);
      SameRecord(s, p, k0, x, k);
    }
    AddCache(s1, a0, size);
    var s' := s1.(caches := s1.caches[At(a0) := NewCache(size)]);
    hide LiveAt, Live, ObjAddr;
    forall a: nat ensures RecordAt(s', a) {
      assert RecordAt(s, a);
      LiveAtAdded(s, s1, p, k0, a);
      LiveAtSame(s1, s', a);
    }
  }

  lemma LiveAtSame(s: State, s': State, a: nat)
    requires CacheCache in s.caches && CacheCache in s'.caches && SameRecords(s, s')
    requires forall x: nat, k: nat :: Live(s', CacheCache, x, k) <==> Live(s, CacheCache, x, k)
    ensures LiveAt(s', a) <==> LiveAt(s, a)
  {
  }

  lemma LiveAtAdded(s: State, s': State, p: nat, k0: nat, a: nat)
    requires CacheCache in s.caches && CacheCache in s'.caches && SameRecords(s, s')
    requires forall x: nat, k: nat :: Live(s', CacheCache, x, k) <==> Live(s, CacheCache, x, k) || (x == p && k == k0)
    ensures LiveAt(s', a) <==> LiveAt(s, a) || a == ObjAddr(s.caches[CacheCache], p, k0)
  {
    assert Live(s', CacheCache, p, k0);
  }

  /** A cache was dropped and its record, object k0 of slab p, freed. */
  lemma DestroyedLive(s: State, s': State, p: nat, k0: nat)
    requires Sound(s) && CachesLive(s) && Sound(s') && SameRecords(s, s') && Live(s, CacheCache, p, k0)
    requires s'.caches.Keys == s.caches.Keys - {At(ObjAddr(s.caches[CacheCache], p, k0))}
    requires forall x: nat, k: nat :: Live(s', CacheCache, x, k) <==> Live(s, CacheCache, x, k) && !(x == p && k == k0)
    ensures CachesLive(s')
  {
    hide LiveAt, Live, ObjAddr;
    forall a: nat ensures RecordAt(s', a) {
      assert RecordAt(s, a);
      LiveAtRemoved(s, s', p, k0, a);
    }
  }

  lemma LiveAtRemoved(s: State, s': State, p: nat, k0: nat, a: nat)
    requires Sound(s) && Sound(s') && SameRecords(s, s') && Live(s, CacheCache, p, k0)
    requires forall x: nat, k: nat :: Live(s', CacheCache, x, k) <==> Live(s, CacheCache, x, k) && !(x == p && k == k0)
    ensures LiveAt(s', a) <==> LiveAt(s, a) && a != ObjAddr(s.caches[CacheCache], p, k0)
  {
    LiveAtAdded(s', s, p, k0, a);
    if LiveAt(s', a) && a == ObjAddr(s.caches[CacheCache], p, k0) {
      var x: nat, k: nat :| Live(s', CacheCache, x, k) && a == ObjAddr(s'.caches[CacheCache], x, k);
      SameRecord(s, p, k0, x, k);
    }
  }
}