/**
 The SFS image builder: block numbers handed out in order, inodes whose block trees grow by
 appending, and the free bitmap written at the end.
 */
module Mksfs {
  import opened Bits
  import opened BlockTree
  import opened Wrappers

  const HASH_LIST_SIZE := 1024
  const SFS_BLKN_ROOT := 1
  const SFS_BLKN_FREEMAP := 2
  const SFS_MAX_NBLKS := 0x8_0000
  const SFS_BLKBITS := 32768                 // bits in a block

  /** The number of blocks of an image of `size` bytes; the count is cut to 32 bits first. */
  function BlocksOf(size: nat): nat
  {
    var n := size / SFS_BLKSIZE % 0x1_0000_0000;
    if n > SFS_MAX_NBLKS then SFS_MAX_NBLKS else n
  }

  /** The first number behind the super block, the root inode and the bitmap. */
  function FirstIno(ninos: nat): nat
  {
    SFS_BLKN_FREEMAP + (ninos + SFS_BLKBITS - 1) / SFS_BLKBITS
  }

  /** Whole blocks of 4096 bytes, at most 2^19 of them (below 2^44 bytes, where nothing is cut off). */
  lemma BlocksMeaning(size: nat)
    ensures var n := BlocksOf(size);
            && n * 4096 <= size && n <= 0x8_0000
            && (size < 0x1000_0000_0000 ==> size < (n + 1) * 4096 || n == 0x8_0000)
  {
  }

  /** The bitmap has the fewest blocks that have a bit for each number. */
  lemma FirstMeaning(ninos: nat)
    ensures var blocks := FirstIno(ninos) - 2;
            ninos <= blocks * 32768 && (ninos > 0 ==> (blocks - 1) * 32768 < ninos)
  {
  }

  /** Bit j of a bitmap block of 32-bit words. */
  predicate BitSet(words: seq<nat>, j: nat)
    requires |words| == NENTRY && j < SFS_BLKBITS
  {
    BitOf(words[j / 32], j % 32)
  }

  ghost predicate BitmapOk(m: seq<seq<nat>>)
  {
    forall k | 0 <= k < |m| :: |m[k]| == NENTRY
  }

  /** Bit n of the whole bitmap. */
  ghost predicate BitAt(m: seq<seq<nat>>, n: nat)
    requires BitmapOk(m) && n < |m| * SFS_BLKBITS
  {
    BitSet(m[n / SFS_BLKBITS], n % SFS_BLKBITS)
  }

  ghost function SetBits(m: seq<seq<nat>>): set<nat>
    requires BitmapOk(m)
  {
    set n: nat | n < |m| * SFS_BLKBITS && BitAt(m, n)
  }

  function Between(lo: nat, hi: nat): (r: set<nat>)
    requires lo <= hi
    ensures |r| == hi - lo && forall n: nat :: n in r <==> lo <= n < hi
    decreases hi - lo
  {
    if lo == hi then {} else {lo} + Between(lo + 1, hi)
  }

  /** hash32: the top ten bits of the 32-bit product. */
  function Hash32(val: nat): nat
  {
    val % 0x1_0000_0000 * 0x9e370001 % 0x1_0000_0000 / 0x40_0000
  }

  lemma HashValues(val: nat)
    ensures Hash32(val) < 1024 && Hash32(1) == 632 && Hash32(3) == 874
  {
  }

  class CacheBlock {
    const ino: nat
    var cache: seq<nat>

    constructor (ino: nat)
      ensures this.ino == ino && cache == ZeroBlock()
    {
      this.ino := ino;
      cache := ZeroBlock();
    }
  }

  ghost function View(b: CacheBlock): IndexBlock
    reads b
  {
    IndexBlock(b.ino, b.cache)
  }

  /** The index blocks of a file. */
  datatype Links = Links(single: CacheBlock?, double: CacheBlock?, leaves: seq<CacheBlock>)

  ghost function IndexSet(l: Links): set<CacheBlock>
  {
    (if l.single != null then {l.single} else {}) + (if l.double != null then {l.double} else {}) + (set b <- l.leaves)
  }

  /** The index block at a place of the tree. */
  ghost function At(l: Links, pos: Pos): CacheBlock?
  {
    match pos
    case Single => l.single
    case Double => l.double
    case Leaf(j) => if j < |l.leaves| then l.leaves[j] else null
  }

  ghost predicate Distinct(l: Links)
  {
    && (l.single != null ==> l.single != l.double && l.single !in l.leaves)
    && (l.double != null ==> l.double !in l.leaves)
    && forall i, j | 0 <= i < j < |l.leaves| :: l.leaves[i] != l.leaves[j]
  }

  ghost function LastLeaf(l: Links): CacheBlock?
  {
    if l.leaves != [] then l.leaves[|l.leaves| - 1] else l.single
  }

  /** The index blocks after appending block n, which created `news`. */
  ghost function Extended(l: Links, n: nat, news: seq<CacheBlock>): Links
    requires |news| == |NewIndex(n)|
  {
    if n == SFS_NDIRECT then l.(single := news[0])
    else if n == L1_NBLKS then l.(double := news[0], leaves := l.leaves + [news[1]])
    else if n > L1_NBLKS && LeafSlot(n) == 0 then l.(leaves := l.leaves + [news[0]])
    else l
  }

  ghost function Views(bs: seq<CacheBlock>): (v: seq<IndexBlock>)
    reads bs
    ensures |v| == |bs| && forall i | 0 <= i < |bs| :: v[i] == View(bs[i])
  {
    seq(|bs|, i requires 0 <= i < |bs| reads bs => View(bs[i]))
  }

  /** cb was created with number `next` and put into the first chain; or nothing was created. */
  ghost predicate Cached(before: seq<seq<CacheBlock>>, next: nat, after: seq<seq<CacheBlock>>, next': nat,
                         cb: CacheBlock, isNew: bool)
  {
    && |before| == HASH_LIST_SIZE
    && if isNew then cb.ino == next && next' == next + 1 && after == before[0 := [cb] + before[0]]
       else next' == next && after == before
  }

  /** The index blocks `news`, with numbers from `next` on, were added to the first chain. */
  ghost predicate NewBlocks(before: seq<seq<CacheBlock>>, next: nat, after: seq<seq<CacheBlock>>, next': nat,
                            news: seq<CacheBlock>)
  {
    && |before| == |after| == HASH_LIST_SIZE && next' == next + |news|
    && (forall k | 0 <= k < |news| :: news[k].ino == next + k)
    && (forall k | 0 < k < |before| :: after[k] == before[k])
    && (set b <- after[0]) == (set b <- before[0]) + (set b <- news)
  }

  lemma CachedOnce(before: seq<seq<CacheBlock>>, next: nat, after: seq<seq<CacheBlock>>, next': nat,
                   cb: CacheBlock, isNew: bool)
    requires Cached(before, next, after, next', cb, isNew)
    ensures NewBlocks(before, next, after, next', if isNew then [cb] else [])
  {
  }

  lemma CachedTwice(before: seq<seq<CacheBlock>>, next: nat, mid: seq<seq<CacheBlock>>, next1: nat,
                    after: seq<seq<CacheBlock>>, next2: nat, x: CacheBlock, newX: bool, y: CacheBlock, newY: bool)
    requires Cached(before, next, mid, next1, x, newX) && Cached(mid, next1, after, next2, y, newY)
    ensures NewBlocks(before, next, after, next2, (if newX then [x] else []) + (if newY then [y] else []))
  {
  }

  /** Putting leaf x at position q, behind the others or over itself. */
  lemma LeafPut(l: Links, q: nat, x: CacheBlock)
    requires Distinct(l) && q <= |l.leaves| <= q + 1
    requires if q < |l.leaves| then x == l.leaves[q] else x !in IndexSet(l)
    ensures var l' := l.(leaves := l.leaves[..q] + [x]);
            Distinct(l') && LastLeaf(l') == x && (q == |l.leaves| ==> l' == l.(leaves := l.leaves + [x]))
    ensures q < |l.leaves| ==> l.leaves[..q] + [x] == l.leaves
  {
    if q < |l.leaves| {
      assert l.leaves[..q] + [x] == l.leaves;
    } else {
      assert l.leaves[..q] == l.leaves;
    }
  }

  /** The index blocks that are new for block n. */
  function LeafNews(n: nat, d: CacheBlock, leaf: CacheBlock): seq<CacheBlock>
    requires n >= L1_NBLKS
  {
    (if n == L1_NBLKS then [d] else []) + (if LeafSlot(n) == 0 then [leaf] else [])
  }

  /** t' and l' are t and links with the index blocks for block n, d and l, in place. */
  ghost predicate LeafOpened(t: Tree, links: Links, n: nat, t': Tree, links': Links, news: seq<CacheBlock>, d: IndexBlock, l: IndexBlock)
  {
    && n >= L1_NBLKS && |news| == |NewIndex(n)| && links' == Extended(links, n, news) && links'.leaves != []
    && LeafOpen(t, n, d, l) && LeafIndex(n) < |d.words| && LeafIndex(n) <= |t.leaves|
    && t' == OpenTree(t, LeafIndex(n), d, l)
  }

  lemma OpenedLeaf(t: Tree, links: Links, n: nat, x: CacheBlock, y: CacheBlock, d: IndexBlock, l: IndexBlock)
    requires L1_NBLKS <= n < LN_NBLKS && |links.leaves| == |t.leaves| == LeafCount(n) && LeafIndex(n) <= |t.leaves|
    requires n > L1_NBLKS ==> links.double == x
    requires LeafSlot(n) != 0 ==> LeafIndex(n) < |t.leaves| && y == links.leaves[LeafIndex(n)] && l == t.leaves[LeafIndex(n)]
    requires LeafSlot(n) == 0 ==> l.words == ZeroBlock()
    requires DoubleOpen(t, n, d) && l.ino != 0 && |l.words| == NENTRY
    ensures LeafOpened(t, links, n, OpenTree(t.(double := Some(d)), LeafIndex(n), d, l),
                       links.(double := x, leaves := links.leaves[..LeafIndex(n)] + [y]), LeafNews(n, x, y), d, l)
  {
    LeafPlace(n);
    NewLeafCount(n);
  }

  class CacheInode {
    const ino: nat
    var nblks: nat
    var size: nat
    var blocks: nat
    var direct: seq<nat>
    var indirect: nat
    var dbIndirect: nat
    var l1: CacheBlock?              // the index block of the last append
    var l2: CacheBlock?              // the double-indirect block
    ghost var links: Links
    ghost var data: seq<nat>         // the appended block numbers

    ghost function Index(): set<CacheBlock>
      reads this`links
    {
      IndexSet(links)
    }

    ghost function Contents(): Tree
      reads this`direct, this`links, Index()
    {
      Tree(direct,
           if links.single != null then Some(View(links.single)) else None,
           if links.double != null then Some(View(links.double)) else None,
           Views(links.leaves))
    }

    /** The inode names the index blocks, and the cursors are those the last append went through. */
    ghost predicate LinksOk()
      reads this
    {
      && Distinct(links) && l2 == links.double && l1 == LastLeaf(links)
      && indirect == (if links.single != null then links.single.ino else 0)
      && dbIndirect == (if links.double != null then links.double.ino else 0)
    }

    ghost predicate Valid()
      reads this, Index()
    {
      nblks == blocks == |data| && TreeOk(Contents(), data) && LinksOk()
    }

    lemma LeafInos()
      ensures |Contents().leaves| == |links.leaves|
      ensures forall j | 0 <= j < |links.leaves| :: Contents().leaves[j] == View(links.leaves[j])
    {
    }

    /** alloc_cache_inode, once the number is known. */
    constructor (ino: nat)
      ensures Valid() && this.ino == ino && data == [] && links == Links(null, null, [])
    {
      this.ino := ino;
      nblks, size, blocks, indirect, dbIndirect := 0, 0, 0, 0, 0;
      direct := seq(SFS_NDIRECT, _ => 0);
      l1, l2, links, data := null, null, Links(null, null, []), [];
    }
  }

  // ----- who owns which block -----

  /** What a block number was handed out for. */
  datatype Owner = InodeOf(f: CacheInode) | IndexOf(f: CacheInode, pos: Pos) | DataOf(f: CacheInode, i: nat)

  /** The numbers a file uses. */
  datatype FileInfo = FileInfo(links: Links, data: seq<nat>)

  /** All numbers of file f are booked for it; the root inode lies in front of the booked range. */
  ghost predicate Owns(f: CacheInode, i: FileInfo, owned: map<nat, Owner>)
  {
    && (f.ino == SFS_BLKN_ROOT || (f.ino in owned && owned[f.ino] == InodeOf(f)))
    && (forall pos | At(i.links, pos) != null :: OwnsIndex(f, pos, At(i.links, pos), owned))
    && (forall k | 0 <= k < |i.data| :: i.data[k] in owned && owned[i.data[k]] == DataOf(f, k))
  }

  ghost predicate OwnsIndex(f: CacheInode, pos: Pos, b: CacheBlock, owned: map<nat, Owner>)
  {
    b.ino in owned && owned[b.ino] == IndexOf(f, pos)
  }

  /** The owner on record really uses number n. */
  ghost predicate Backed(o: Owner, n: nat, files: map<CacheInode, FileInfo>)
  {
    o.f in files &&
    match o
    case InodeOf(f) => f.ino == n
    case IndexOf(f, pos) => At(files[f].links, pos) != null && At(files[f].links, pos).ino == n
    case DataOf(f, i) => i < |files[f].data| && files[f].data[i] == n
  }

  /**
   Every number from `first` to `next` is used exactly once, as an inode, an index block or a
   data block: `owned` says by whom.
   */
  ghost predicate OwnershipOk(files: map<CacheInode, FileInfo>, owned: map<nat, Owner>, first: nat, next: nat)
  {
    && (forall n: nat :: n in owned <==> first <= n < next)
    && (forall f <- files :: Owns(f, files[f], owned))
    && (forall n <- owned :: Backed(owned[n], n, files))
  }

  lemma InIndexSet(l: Links, b: CacheBlock) returns (pos: Pos)
    requires b in IndexSet(l)
    ensures At(l, pos) == b
  {
    if l.single == b {
      pos := Single;
    } else if l.double == b {
      pos := Double;
    } else {
      var j :| 0 <= j < |l.leaves| && l.leaves[j] == b;
      pos := Leaf(j);
    }
  }

  /** Index blocks with the same number are the same block of the same file. */
  lemma SameBlock(files: map<CacheInode, FileInfo>, owned: map<nat, Owner>, first: nat, next: nat,
                  f: CacheInode, b: CacheBlock, g: CacheInode, c: CacheBlock)
    requires OwnershipOk(files, owned, first, next) && f in files && g in files
    requires b in IndexSet(files[f].links) && c in IndexSet(files[g].links) && b.ino == c.ino
    ensures f == g && b == c
  {
    var p := InIndexSet(files[f].links, b);
    var q := InIndexSet(files[g].links, c);
    assert Owns(f, files[f], owned) && Owns(g, files[g], owned);
    assert OwnsIndex(f, p, b, owned) && OwnsIndex(g, q, c, owned);
  }

  /** The bookings for block n of file f, number `next`, and the index blocks created with it. */
  ghost function Booked(owned: map<nat, Owner>, next: nat, f: CacheInode, n: nat, poss: seq<Pos>): map<nat, Owner>
  {
    if poss == [] then owned[next := DataOf(f, n)]
    else Booked(owned, next, f, n, poss[..|poss| - 1])[next + |poss| := IndexOf(f, poss[|poss| - 1])]
  }

  lemma {:induction false} BookedFacts(owned: map<nat, Owner>, next: nat, f: CacheInode, n: nat, poss: seq<Pos>)
    ensures var o := Booked(owned, next, f, n, poss);
            && (forall k: nat :: k in o <==> k in owned || next <= k <= next + |poss|)
            && (forall k <- owned | k < next :: o[k] == owned[k])
            && o[next] == DataOf(f, n)
            && forall j | 0 <= j < |poss| :: next + 1 + j in o && o[next + 1 + j] == IndexOf(f, poss[j])
    decreases |poss|
  {
    if poss != [] {
      BookedFacts(owned, next, f, n, poss[..|poss| - 1]);
    }
  }

  /** Where the new index blocks are, and that the old ones stay. */
  lemma ExtendedAt(l: Links, n: nat, news: seq<CacheBlock>, pos: Pos)
    requires |news| == |NewIndex(n)| && |l.leaves| == LeafCount(n) && n < LN_NBLKS
    requires (l.single == null <==> n <= SFS_NDIRECT) && (l.double == null <==> n <= L1_NBLKS)
    ensures At(l, pos) != null ==> At(Extended(l, n, news), pos) == At(l, pos)
    ensures At(l, pos) == null && At(Extended(l, n, news), pos) != null ==>
              exists j :: 0 <= j < |news| && NewIndex(n)[j] == pos && At(Extended(l, n, news), pos) == news[j]
    ensures forall j | 0 <= j < |news| :: At(Extended(l, n, news), NewIndex(n)[j]) == news[j]
  {
    if n >= L1_NBLKS {
      LeafPlace(n);
    }
  }

  /** The shape of the index blocks of a file of n blocks. */
  ghost predicate LinksShape(l: Links, n: nat)
  {
    && n <= LN_NBLKS && |l.leaves| == LeafCount(n)
    && (l.single == null <==> n <= SFS_NDIRECT) && (l.double == null <==> n <= L1_NBLKS)
  }

  lemma OwnsStep(f: CacheInode, i: FileInfo, owned: map<nat, Owner>, next: nat, news: seq<CacheBlock>)
    requires LinksShape(i.links, |i.data|) && |i.data| < LN_NBLKS && |news| == |NewIndex(|i.data|)|
    requires Owns(f, i, owned) && (forall k <- owned :: k < next) && forall k | 0 <= k < |news| :: news[k].ino == next + 1 + k
    ensures Owns(f, FileInfo(Extended(i.links, |i.data|, news), i.data + [next]),
                 Booked(owned, next, f, |i.data|, NewIndex(|i.data|)))
  {
    var n := |i.data|;
    var poss := NewIndex(n);
    var l', o := Extended(i.links, n, news), Booked(owned, next, f, n, poss);
    BookedFacts(owned, next, f, n, poss);
    hide Extended, NewIndex, Booked;
    forall pos | At(l', pos) != null ensures OwnsIndex(f, pos, At(l', pos), o) {
      ExtendedAt(i.links, n, news, pos);
      if At(i.links, pos) != null {
        assert OwnsIndex(f, pos, At(i.links, pos), owned);
      } else {
        var j :| 0 <= j < |news| && poss[j] == pos && At(l', pos) == news[j];
        assert o[next + 1 + j] == IndexOf(f, poss[j]);
      }
    }
  }

  lemma OwnsLater(g: CacheInode, i: FileInfo, owned: map<nat, Owner>, o: map<nat, Owner>)
    requires Owns(g, i, owned) && forall k <- owned :: k in o && o[k] == owned[k]
    ensures Owns(g, i, o)
  {
    forall pos | At(i.links, pos) != null ensures OwnsIndex(g, pos, At(i.links, pos), o) {
      assert OwnsIndex(g, pos, At(i.links, pos), owned);
    }
  }

  lemma BackedStep(files: map<CacheInode, FileInfo>, f: CacheInode, next: nat, news: seq<CacheBlock>, o: Owner, n: nat)
    requires f in files && Backed(o, n, files)
    requires LinksShape(files[f].links, |files[f].data|) && |files[f].data| < LN_NBLKS
    requires |news| == |NewIndex(|files[f].data|)|
    ensures Backed(o, n, files[f := FileInfo(Extended(files[f].links, |files[f].data|, news), files[f].data + [next])])
  {
    if o.IndexOf? {
      ExtendedAt(files[f].links, |files[f].data|, news, o.pos);
    }
  }

  /** Appending a block keeps the books exact. */
  lemma OwnershipStep(files: map<CacheInode, FileInfo>, owned: map<nat, Owner>, first: nat, next: nat,
                      f: CacheInode, news: seq<CacheBlock>)
    requires OwnershipOk(files, owned, first, next) && first <= next && f in files
    requires var i := files[f];
             && LinksShape(i.links, |i.data|) && |i.data| < LN_NBLKS && |news| == |NewIndex(|i.data|)|
             && forall k | 0 <= k < |news| :: news[k].ino == next + 1 + k
    ensures var i := files[f];
            OwnershipOk(files[f := FileInfo(Extended(i.links, |i.data|, news), i.data + [next])],
                        Booked(owned, next, f, |i.data|, NewIndex(|i.data|)), first, next + 1 + |news|)
  {
    var i := files[f];
    var n, poss := |i.data|, NewIndex(|i.data|);
    var i' := FileInfo(Extended(i.links, n, news), i.data + [next]);
    var files', o := files[f := i'], Booked(owned, next, f, n, poss);
    BookedFacts(owned, next, f, n, poss);
    OwnsStep(f, i, owned, next, news);
    forall j | 0 <= j < |news| ensures At(i'.links, poss[j]) == news[j] {
      ExtendedAt(i.links, n, news, poss[j]);
    }
    hide Extended, NewIndex, Booked, LinksShape;
    forall g <- files' ensures Owns(g, files'[g], o) {
      if g != f {
        OwnsLater(g, files[g], owned, o);
      }
    }
    forall k <- o ensures Backed(o[k], k, files') {
      if k in owned {
        BackedStep(files, f, next, news, owned[k], k);
      } else if k > next {
        var j := k - next - 1;
        assert o[next + 1 + j] == IndexOf(f, poss[j]);
      }
    }
  }

  /** So does a new inode. */
  lemma OwnershipNew(files: map<CacheInode, FileInfo>, owned: map<nat, Owner>, first: nat, next: nat, f: CacheInode)
    requires OwnershipOk(files, owned, first, next) && first <= next && f !in files && f.ino == next
    ensures OwnershipOk(files[f := FileInfo(Links(null, null, []), [])], owned[next := InodeOf(f)], first, next + 1)
  {
    var files', o := files[f := FileInfo(Links(null, null, []), [])], owned[next := InodeOf(f)];
    forall g <- files' ensures Owns(g, files'[g], o) {
      if g != f {
        OwnsLater(g, files[g], owned, o);
      }
    }
    forall k <- o ensures Backed(o[k], k, files') {
      if k in owned {
        assert Backed(owned[k], k, files);
      }
    }
  }

  /** Exactly the index blocks of the files are cached, all of them in the first chain. */
  ghost predicate ChainsOk(chains: seq<seq<CacheBlock>>, files: map<CacheInode, FileInfo>)
  {
    && |chains| == HASH_LIST_SIZE && (forall k | 0 < k < |chains| :: chains[k] == [])
    && (forall b <- chains[0] :: exists f <- files :: b in IndexSet(files[f].links))
    && (forall f <- files, b <- IndexSet(files[f].links) :: b in chains[0])
  }

  lemma ExtendedSet(l: Links, n: nat, news: seq<CacheBlock>)
    requires LinksShape(l, n) && |news| == |NewIndex(n)|
    ensures IndexSet(Extended(l, n, news)) == IndexSet(l) + set b <- news
  {
  }

  lemma ChainsStep(chains: seq<seq<CacheBlock>>, chains': seq<seq<CacheBlock>>, files: map<CacheInode, FileInfo>,
                   f: CacheInode, data: seq<nat>, news: seq<CacheBlock>)
    requires ChainsOk(chains, files) && f in files && LinksShape(files[f].links, |files[f].data|)
    requires |news| == |NewIndex(|files[f].data|)|
    requires |chains'| == |chains| && (forall k | 0 < k < |chains| :: chains'[k] == chains[k])
    requires (set b <- chains'[0]) == (set b <- chains[0]) + (set b <- news)
    ensures ChainsOk(chains', files[f := FileInfo(Extended(files[f].links, |files[f].data|, news), data)])
  {
    var files' := files[f := FileInfo(Extended(files[f].links, |files[f].data|, news), data)];
    ExtendedSet(files[f].links, |files[f].data|, news);
    hide Extended, IndexSet, LinksShape, NewIndex;
    var before, after := set b <- chains[0], set b <- chains'[0];
    forall b <- chains'[0] ensures exists g <- files' :: b in IndexSet(files'[g].links) {
      assert b in after;
      if b in news {
        assert b in IndexSet(files'[f].links);
      } else {
        assert b in before && b in chains[0];
        var g: CacheInode :| g in files && b in IndexSet(files[g].links);
        assert b in IndexSet(files'[g].links);
      }
    }
    forall g <- files', b <- IndexSet(files'[g].links) ensures b in chains'[0] {
      if g == f && b in news {
        assert b in after;
      } else {
        assert b in chains[0] && b in before;
        assert b in after;
      }
    }
  }

  lemma ChainsNew(chains: seq<seq<CacheBlock>>, files: map<CacheInode, FileInfo>, f: CacheInode)
    requires ChainsOk(chains, files) && f !in files
    ensures ChainsOk(chains, files[f := FileInfo(Links(null, null, []), [])])
  {
    var files' := files[f := FileInfo(Links(null, null, []), [])];
    hide IndexSet;
    forall b <- chains[0] ensures exists g <- files' :: b in IndexSet(files'[g].links) {
      var g: CacheInode :| g in files && b in IndexSet(files[g].links);
      assert b in IndexSet(files'[g].links);
    }
    EmptyIndex();
  }

  lemma EmptyIndex()
    ensures IndexSet(Links(null, null, [])) == {}
  {
  }

  /** The files are as recorded. */
  ghost predicate FilesOk(fs: map<CacheInode, FileInfo>)
    reads fs.Keys, set f <- fs.Keys, b <- IndexSet(fs[f].links) :: b
  {
    forall f <- fs :: f.links == fs[f].links && f.data == fs[f].data && f.Valid()
  }

  lemma FileOk(fs: map<CacheInode, FileInfo>, f: CacheInode)
    requires FilesOk(fs) && f in fs
    ensures f.Valid() && f.links == fs[f].links && f.data == fs[f].data && f.nblks == |f.data|
    ensures LinksShape(f.links, |f.data|)
  {
    ValidShape(f);
  }

  lemma ValidShape(f: CacheInode)
    requires f.Valid()
    ensures LinksShape(f.links, |f.data|)
  {
  }

  class Sfs {
    const ninos: nat
    const root: CacheInode
    const first: nat                         // the first number behind the bitmap
    var unusedBlocks: nat                    // super.unused_blocks
    var nextIno: nat
    var blocks: seq<seq<CacheBlock>>         // the hash chains of cached index blocks
    ghost var files: map<CacheInode, FileInfo>
    ghost var owned: map<nat, Owner>

    ghost predicate Valid()
      reads this, files.Keys, set f <- files.Keys, b <- IndexSet(files[f].links) :: b
    {
      && CountersOk() && OwnershipOk(files, owned, first, nextIno) && ChainsOk(blocks, files)
      && FilesOk(files)
    }

    ghost predicate CountersOk()
      reads this
    {
      && 2 < first <= nextIno <= ninos && unusedBlocks == ninos - nextIno
      && |blocks| == HASH_LIST_SIZE
    }

    /** create_sfs, for an image that has room behind the bitmap: only the root inode exists. */
    constructor (n: nat)
      requires FirstIno(n) < n <= SFS_MAX_NBLKS
      ensures Valid() && ninos == n && nextIno == first == FirstIno(n) && unusedBlocks == n - first
      ensures files.Keys == {root} && root.ino == SFS_BLKN_ROOT && fresh(root) && root.data == []
    {
      ninos, first, nextIno := n, FirstIno(n), FirstIno(n);
      unusedBlocks := n - FirstIno(n);
      var r := new CacheInode(SFS_BLKN_ROOT);
      root := r;
      blocks := seq(HASH_LIST_SIZE, _ => []);
      files := map[r := FileInfo(Links(null, null, []), [])];
      owned := map[];
    }

    /** sfs_alloc_ino; None stands for the exit "out of disk space". */
    method AllocIno() returns (ino: Option<nat>)
      requires CountersOk()
      modifies this`unusedBlocks, this`nextIno
      ensures CountersOk()
      ensures if old(nextIno) < ninos then ino == Some(old(nextIno)) && nextIno == old(nextIno) + 1
              else ino == None && nextIno == old(nextIno)
    {
      if nextIno < ninos {
        unusedBlocks := unusedBlocks - 1;
        ino := Some(nextIno);
        nextIno := nextIno + 1;
      } else {
        ino := None;
      }
    }

    /**
     alloc_cache_block with number 0: a fresh number and an empty index block.  The block goes
     to the chain of the number passed in, which is 0, not to that of its own number.
     */
    method AllocCacheBlock() returns (cb: CacheBlock?)
      requires CountersOk()
      modifies this`unusedBlocks, this`nextIno, this`blocks
      ensures CountersOk()
      ensures if old(nextIno) < ninos
              then cb != null && fresh(cb) && cb.ino == old(nextIno) && cb.cache == ZeroBlock() && nextIno == old(nextIno) + 1
                   && blocks == old(blocks)[0 := [cb] + old(blocks[0])]
              else cb == null && nextIno == old(nextIno) && blocks == old(blocks)
    {
      var ino := AllocIno();
      if ino.None? {
        return null;
      }
      cb := new CacheBlock(ino.value);
      var head := Hash32(0);
      blocks := blocks[head := [cb] + blocks[head]];
    }

    /** search_cache_block */
    method SearchCacheBlock(ino: nat) returns (cb: CacheBlock?)
      requires |blocks| == HASH_LIST_SIZE
      ensures cb == null ==> forall b <- blocks[Hash32(ino)] :: b.ino != ino
      ensures cb != null ==> cb in blocks[Hash32(ino)] && cb.ino == ino
    {
      var chain := blocks[Hash32(ino)];
      var i := 0;
      while i < |chain| && chain[i].ino != ino
        invariant i <= |chain| && forall j | 0 <= j < i :: chain[j].ino != ino
      {
        i := i + 1;
      }
      cb := if i < |chain| then chain[i] else null;
    }

    /**
     The first chain holds every cached block, but a search looks into the chain of the number
     itself, so it would find the block only if that is the first chain as well.
     */
    lemma SearchMisses(b: CacheBlock)
      requires ChainsOk(blocks, files) && b in blocks[0]
      ensures b in blocks[Hash32(b.ino)] <==> Hash32(b.ino) == 0
      ensures Hash32(3) != 0
    {
    }

    /**
     update_cache: the cached block for entry `ino`, created when the entry is still 0.  Callers
     keep the cursor on the right block, so the search for another one is never reached.
     */
    method UpdateCache(cb: CacheBlock?, ino: nat) returns (cb': CacheBlock?, ino': nat)
      requires CountersOk()
      requires ino != 0 ==> cb != null && cb.ino == ino
      modifies this`unusedBlocks, this`nextIno, this`blocks
      ensures CountersOk()
      ensures cb' == null <==> ino == 0 && old(nextIno) >= ninos
      ensures cb' == null ==> nextIno == old(nextIno)
      ensures cb' != null ==> ino' == cb'.ino && Cached(old(blocks), old(nextIno), blocks, nextIno, cb', ino == 0)
      ensures cb' != null ==> if ino == 0 then fresh(cb') && cb'.cache == ZeroBlock() else cb' == cb
    {
      if ino == 0 {
        cb' := AllocCacheBlock();
        ino' := if cb' != null then cb'.ino else 0;
      } else {
        assert !(cb == null || cb.ino != ino);
        cb', ino' := cb, ino;
      }
    }

    /** append_block to a direct entry. */
    method AppendToDirect(file: CacheInode, ino: nat) returns (ghost news: seq<CacheBlock>)
      requires CountersOk() && file.Valid() && file.nblks < SFS_NDIRECT
      modifies file`direct
      ensures |news| == |NewIndex(file.nblks)| && file.links == Extended(old(file.links), file.nblks, news)
      ensures NewBlocks(blocks, nextIno, blocks, nextIno, news)
      ensures TreeOk(file.Contents(), file.data + [ino]) && file.LinksOk()
    {
      AppendDirect(file.Contents(), file.data, ino);
      file.direct := file.direct[file.nblks := ino];
      news := [];
    }

    /** append_block behind the direct entries and before the double-indirect ones. */
    method AppendToSingle(file: CacheInode, ino: nat) returns (ok: bool, ghost news: seq<CacheBlock>)
      requires CountersOk() && file.Valid() && SFS_NDIRECT <= file.nblks < L1_NBLKS
      modifies this`unusedBlocks, this`nextIno, this`blocks, file`l1, file`indirect, file`links, file.Index()
      ensures CountersOk()
      ensures ok <==> old(nextIno) + |NewIndex(file.nblks)| <= ninos
      ensures ok ==> |news| == |NewIndex(file.nblks)| && file.links == Extended(old(file.links), file.nblks, news)
      ensures ok ==> NewBlocks(old(blocks), old(nextIno), blocks, nextIno, news)
      ensures ok ==> TreeOk(file.Contents(), file.data + [ino]) && file.LinksOk()
    {
      ghost var t := file.Contents();
      var n := file.nblks;
      var l1, indirect := UpdateCache(file.l1, file.indirect);
      news := if l1 != null && file.indirect == 0 then [l1] else [];
      if l1 == null {
        return false, news;
      }
      ghost var s := View(l1);
      file.l1, file.indirect, file.links := l1, indirect, file.links.(single := l1);
      l1.cache := l1.cache[n - SFS_NDIRECT := ino];
      AppendSingle(t, file.data, s, ino);
      CachedOnce(old(blocks), old(nextIno), blocks, nextIno, l1, n == SFS_NDIRECT);
      assert file.Contents() == t.(single := Some(s.(words := s.words[n - SFS_NDIRECT := ino])));
      ok := true;
    }

    /** The double-indirect block, created for the first block that needs it. */
    method EnsureDouble(file: CacheInode) returns (ok: bool)
      requires CountersOk() && file.Valid() && L1_NBLKS <= file.nblks < LN_NBLKS
      modifies this`unusedBlocks, this`nextIno, this`blocks, file`l2, file`dbIndirect, file`links
      ensures CountersOk()
      ensures ok <==> file.nblks > L1_NBLKS || old(nextIno) < ninos
      ensures !ok ==> nextIno == old(nextIno)
      ensures ok ==> file.l2 != null && file.links == old(file.links).(double := file.l2)
      ensures ok ==> file.LinksOk() && if file.nblks == L1_NBLKS then fresh(file.l2) else file.l2 == old(file.l2)
      ensures ok ==> Cached(old(blocks), old(nextIno), blocks, nextIno, file.l2, file.nblks == L1_NBLKS)
      ensures ok ==> DoubleOpen(old(file.Contents()), file.nblks, View(file.l2))
      ensures ok ==> file.Contents() == old(file.Contents()).(double := Some(View(file.l2)))
    {
      LeafReady(file.Contents(), file.data);
      hide TreeOk;
      var l2, dbIndirect := UpdateCache(file.l2, file.dbIndirect);
      ok := l2 != null;
      if ok {
        file.l2, file.dbIndirect, file.links := l2, dbIndirect, file.links.(double := l2);
      }
    }

    /** The cursor on leaf q, which is created when its entry is still 0. */
    method GetLeaf(file: CacheInode, q: nat, entry: nat) returns (ok: bool, newEntry: nat)
      requires CountersOk() && file.LinksOk() && q <= |file.links.leaves| <= q + 1
      requires if q < |file.links.leaves| then entry == file.links.leaves[q].ino != 0 else entry == 0
      modifies this`unusedBlocks, this`nextIno, this`blocks, file`l1, file`links
      ensures CountersOk()
      ensures ok <==> q < |old(file.links.leaves)| || old(nextIno) < ninos
      ensures ok ==> file.l1 != null && file.links == old(file.links).(leaves := old(file.links.leaves[..q]) + [file.l1])
      ensures ok ==> newEntry == file.l1.ino && file.LinksOk()
      ensures ok ==> if q == |old(file.links.leaves)| then fresh(file.l1) && file.l1.cache == ZeroBlock()
                     else file.l1 == old(file.l1)
      ensures ok ==> Cached(old(blocks), old(nextIno), blocks, nextIno, file.l1, q == |old(file.links.leaves)|)
      ensures ok ==> file.Contents() == old(file.Contents()).(leaves := old(file.Contents().leaves[..q]) + [View(file.l1)])
    {
      hide Cached, Distinct;
      ghost var t := file.Contents();
      var l1;
      l1, newEntry := UpdateCache(file.l1, entry);
      assert file.Contents() == t && file.LinksOk();
      ok := l1 != null;
      if ok {
        PutLeaf(file, q, l1);
      }
    }

    /** Makes l1 the cursor, and leaf q if it is a new one. */
    method PutLeaf(file: CacheInode, q: nat, l1: CacheBlock)
      requires file.LinksOk() && q <= |file.links.leaves| <= q + 1
      requires if q < |file.links.leaves| then l1 == file.links.leaves[q] else l1 !in file.Index()
      modifies file`l1, file`links
      ensures file.l1 == l1 && file.links == old(file.links).(leaves := old(file.links.leaves[..q]) + [l1])
      ensures file.LinksOk()
      ensures file.Contents() == old(file.Contents()).(leaves := old(file.Contents().leaves[..q]) + [View(l1)])
    {
      hide Distinct;
      ghost var t, links := file.Contents(), file.links;
      LeafPut(links, q, l1);
      file.l1, file.links := l1, links.(leaves := links.leaves[..q] + [l1]);
      assert file.Contents().leaves == t.leaves[..q] + [View(l1)];
    }

    /** The leaf for entry q of the double-indirect block, entered there. */
    method EnsureLeaf(file: CacheInode, q: nat) returns (ok: bool)
      requires CountersOk() && file.LinksOk() && file.l2 != null && q < |file.l2.cache|
      requires q <= |file.links.leaves| <= q + 1
      requires file.l2.cache[q] == if q < |file.links.leaves| then file.links.leaves[q].ino else 0
      requires q < |file.links.leaves| ==> file.links.leaves[q].ino != 0
      modifies this`unusedBlocks, this`nextIno, this`blocks, file`l1, file`links, file.l2
      ensures CountersOk()
      ensures ok <==> q < |old(file.links.leaves)| || old(nextIno) < ninos
      ensures ok ==> file.l1 != null && file.links == old(file.links).(leaves := old(file.links.leaves[..q]) + [file.l1])
      ensures ok ==> file.LinksOk()
      ensures ok ==> if q == |old(file.links.leaves)| then fresh(file.l1) && file.l1.cache == ZeroBlock()
                     else file.l1 == old(file.l1) && View(file.l1) == old(file.Contents().leaves[q])
      ensures ok ==> Cached(old(blocks), old(nextIno), blocks, nextIno, file.l1, q == |old(file.links.leaves)|)
      ensures ok ==> file.Contents() == OpenTree(old(file.Contents()), q, old(View(file.l2)), View(file.l1))
    {
      hide Cached;
      var entry := file.l2.cache[q];
      ok, entry := GetLeaf(file, q, entry);
      if ok {
        EnterLeaf(file, q, entry);
      }
    }

    /** *inop = ino, for entry q of the double-indirect block. */
    method EnterLeaf(file: CacheInode, q: nat, entry: nat)
      requires file.l2 != null && file.links.double == file.l2 && Distinct(file.links) && q < |file.l2.cache|
      modifies file.l2
      ensures var t := old(file.Contents());
              var d := old(View(file.l2));
              file.Contents() == t.(double := Some(d.(words := d.words[q := entry])))
    {
      ghost var t := file.Contents();
      file.l2.cache := file.l2.cache[q := entry];
      assert file.Contents().leaves == t.leaves;
    }

    /** Makes the index blocks for the next block of the file ready: d and l, l entered in d already. */
    method ReadyLeaf(file: CacheInode) returns (ok: bool, ghost news: seq<CacheBlock>, ghost d: IndexBlock, ghost l: IndexBlock)
      requires CountersOk() && file.Valid() && L1_NBLKS <= file.nblks < LN_NBLKS
      modifies this`unusedBlocks, this`nextIno, this`blocks, file`l1, file`l2, file`dbIndirect, file`links, file.Index()
      ensures CountersOk()
      ensures ok <==> old(nextIno) + |NewIndex(file.nblks)| <= ninos
      ensures ok ==> file.LinksOk() && file.l1 != null && (file.l1 in old(file.Index()) || fresh(file.l1))
      ensures ok ==> l == View(file.l1) && NewBlocks(old(blocks), old(nextIno), blocks, nextIno, news)
      ensures ok ==> LeafOpened(old(file.Contents()), old(file.links), file.nblks, file.Contents(), file.links, news, d, l)
    {
      hide TreeOk, NewIndex, LeafIndex, LeafSlot, LeafCount, OpenTree, NewBlocks, Distinct;
      hide CacheInode.Contents, LeafOpened;
      ghost var t, chains, next := file.Contents(), blocks, nextIno;
      var n := file.nblks;
      var q := LeafIndex(n);
      LeafPlace(n);
      LeafReady(t, file.data);
      file.LeafInos();
      NewLeafCount(n);
      news, d, l := [], IndexBlock(0, []), IndexBlock(0, []);
      ok := EnsureDouble(file);
      if !ok {
        return;
      }
      d := View(file.l2);
      ghost var chains1, next1, l2 := blocks, nextIno, file.l2;
      ok := EnsureLeaf(file, q);
      if !ok {
        return;
      }
      l := View(file.l1);
      news := LeafNews(n, l2, file.l1);
      CachedTwice(chains, next, chains1, next1, blocks, nextIno, l2, n == L1_NBLKS, file.l1, LeafSlot(n) == 0);
      OpenedLeaf(t, old(file.links), n, l2, file.l1, d, l);
    }

    /** append_block through the double-indirect block and one of its leaves. */
    method AppendToLeaf(file: CacheInode, ino: nat) returns (ok: bool, ghost news: seq<CacheBlock>)
      requires CountersOk() && file.Valid() && L1_NBLKS <= file.nblks < LN_NBLKS
      modifies this`unusedBlocks, this`nextIno, this`blocks, file`l1, file`l2, file`dbIndirect, file`links, file.Index()
      ensures CountersOk()
      ensures ok <==> old(nextIno) + |NewIndex(file.nblks)| <= ninos
      ensures ok ==> |news| == |NewIndex(file.nblks)| && file.links == Extended(old(file.links), file.nblks, news)
      ensures ok ==> NewBlocks(old(blocks), old(nextIno), blocks, nextIno, news)
      ensures ok ==> TreeOk(file.Contents(), file.data + [ino]) && file.LinksOk()
    {
      hide NewIndex, Extended, NewBlocks, LeafOpen;
      ghost var t, d, l := file.Contents(), IndexBlock(0, []), IndexBlock(0, []);
      LeafPlace(file.nblks);
      ok, news, d, l := ReadyLeaf(file);
      if !ok {
        return;
      }
      AppendLeaf(t, file.data, d, l, ino);
      hide TreeOk, LeafCount;
      WriteLast(file, LeafSlot(file.nblks), ino);
    }

    /** data1[...] = ino, in the last leaf. */
    method WriteLast(file: CacheInode, k: nat, ino: nat)
      requires file.LinksOk() && file.links.leaves != [] && file.l1 != null && k < |file.l1.cache|
      modifies file.l1
      ensures var t := old(file.Contents());
              var l := t.leaves[|t.leaves| - 1];
              file.Contents() == t.(leaves := t.leaves[..|t.leaves| - 1] + [l.(words := l.words[k := ino])])
    {
      file.l1.cache := file.l1.cache[k := ino];
    }

    /**
     append_block: enters block `ino` as the next block of the file; false stands for the exits
     "file is too big" and "out of disk space".
     */
    method AppendBlock(file: CacheInode, len: nat, ino: nat) returns (ok: bool, ghost news: seq<CacheBlock>)
      requires CountersOk() && file.Valid() && len <= SFS_BLKSIZE
      modifies this`unusedBlocks, this`nextIno, this`blocks, file, file.Index()
      ensures CountersOk()
      ensures ok <==> old(file.nblks) < LN_NBLKS && old(nextIno) + |NewIndex(old(file.nblks))| <= ninos
      ensures ok ==> file.Valid() && file.data == old(file.data) + [ino] && file.size == old(file.size) + len
      ensures ok ==> |news| == |NewIndex(old(file.nblks))| && file.links == Extended(old(file.links), old(file.nblks), news)
      ensures ok ==> NewBlocks(old(blocks), old(nextIno), blocks, nextIno, news)
    {
      hide TreeOk, Extended, NewBlocks, NewIndex, CacheInode.LinksOk, CacheInode.Contents;
      ok, news := EnterBlock(file, ino);
      if ok {
        CountBlock(file, len, ino);
      }
    }

    /** The counters at the end of append_block. */
    method CountBlock(file: CacheInode, len: nat, ghost ino: nat)
      requires file.nblks == file.blocks == |file.data| && TreeOk(file.Contents(), file.data + [ino]) && file.LinksOk()
      modifies file`data, file`nblks, file`size, file`blocks
      ensures file.Valid() && file.data == old(file.data) + [ino] && file.size == old(file.size) + len
    {
      hide TreeOk;
      file.data := file.data + [ino];
      file.nblks := file.nblks + 1;
      file.size := file.size + len;
      file.blocks := file.blocks + 1;
    }

    /** The part of append_block that enters the number. */
    method EnterBlock(file: CacheInode, ino: nat) returns (ok: bool, ghost news: seq<CacheBlock>)
      requires CountersOk() && file.Valid()
      modifies this`unusedBlocks, this`nextIno, this`blocks, file`direct, file`l1, file`l2, file`indirect, file`dbIndirect, file`links, file.Index()
      ensures CountersOk()
      ensures ok <==> file.nblks < LN_NBLKS && old(nextIno) + |NewIndex(file.nblks)| <= ninos
      ensures ok ==> |news| == |NewIndex(file.nblks)| && file.links == Extended(old(file.links), file.nblks, news)
      ensures ok ==> NewBlocks(old(blocks), old(nextIno), blocks, nextIno, news)
      ensures ok ==> TreeOk(file.Contents(), file.data + [ino]) && file.LinksOk()
    {
      var nblks := file.nblks;
      if nblks >= LN_NBLKS {
        return false, [];
      }
      if nblks < SFS_NDIRECT {
        news := AppendToDirect(file, ino);
        ok := true;
      } else if nblks < L1_NBLKS {
        ok, news := AppendToSingle(file, ino);
      } else {
        ok, news := AppendToLeaf(file, ino);
      }
    }

    /** Appending to one file leaves the others alone. */
    lemma OthersApart(file: CacheInode, g: CacheInode)
      requires Valid() && file in files && g in files && g != file
      ensures g.Index() !! file.Index() && g.Valid()
    {
      if b :| b in g.Index() && b in file.Index() {
        SameBlock(files, owned, first, nextIno, g, b, file, b);
      }
    }

    /**
     What add_entry, open_file and open_link do for a block of data: a fresh number, then
     append_block.  False stands for the exits.
     */
    method AppendFresh(file: CacheInode, len: nat, ghost fs: map<CacheInode, FileInfo>)
      returns (ok: bool, ghost news: seq<CacheBlock>)
      requires CountersOk() && FilesOk(fs) && file in fs && len <= SFS_BLKSIZE
      requires forall g <- fs | g != file :: g.Index() !! file.Index()
      modifies this`unusedBlocks, this`nextIno, this`blocks, file, file.Index()
      ensures CountersOk()
      ensures ok <==> old(file.nblks) < LN_NBLKS && old(nextIno) + 1 + |NewIndex(old(file.nblks))| <= ninos
      ensures ok ==> |news| == |NewIndex(old(file.nblks))|
      ensures ok ==> NewBlocks(old(blocks), old(nextIno) + 1, blocks, nextIno, news)
      ensures ok ==> file.data == fs[file].data + [old(nextIno)]
      ensures ok ==> file.links == Extended(fs[file].links, old(file.nblks), news)
      ensures ok ==> FilesOk(fs[file := FileInfo(file.links, file.data)])
    {
      hide NewIndex, Extended, TreeOk, CacheInode.LinksOk, CacheInode.Contents, NewBlocks;
      var ino := AllocIno();
      news := [];
      if ino.None? {
        return false, news;
      }
      ok, news := AppendBlock(file, len, ino.value);
      if ok {
        forall g <- fs | g != file ensures g.links == fs[g].links && g.data == fs[g].data && g.Valid() {
          assert old(g.Index()) !! old(file.Index());
        }
      }
    }

    /** The same with the books kept: every number handed out has exactly one user. */
    method AddBlock(file: CacheInode, len: nat) returns (ok: bool)
      requires Valid() && file in files && len <= SFS_BLKSIZE
      modifies this, file, file.Index()
      ensures ok <==> old(file.nblks) < LN_NBLKS && old(nextIno) + 1 + |NewIndex(old(file.nblks))| <= ninos
      ensures ok ==> Valid() && nextIno == old(nextIno) + 1 + |NewIndex(old(file.nblks))|
      ensures ok ==> files.Keys == old(files).Keys && file.data == old(file.data) + [old(nextIno)]
      ensures ok ==> forall f <- files | f != file :: files[f] == old(files)[f]
    {
      hide OwnershipOk, ChainsOk, NewIndex, Extended, TreeOk, LinksShape, Booked, FilesOk;
      forall g <- files | g != file ensures g.Index() !! file.Index() {
        OthersApart(file, g);
      }
      ghost var fs, next, was, n := files, nextIno, blocks, file.nblks;
      FileOk(fs, file);
      ghost var news;
      ok, news := AppendFresh(file, len, fs);
      if ok {
        OwnershipStep(fs, owned, first, next, file, news);
        ChainsStep(was, blocks, fs, file, file.data, news);
        owned := Booked(owned, next, file, n, NewIndex(n));
        files := files[file := FileInfo(file.links, file.data)];
      }
    }

    method FreshInode(ghost fs: map<CacheInode, FileInfo>) returns (file: CacheInode?)
      requires CountersOk() && FilesOk(fs)
      modifies this`unusedBlocks, this`nextIno
      ensures CountersOk() && (file == null <==> old(nextIno) >= ninos)
      ensures file != null ==> fresh(file) && file.ino == old(nextIno) && nextIno == old(nextIno) + 1
      ensures file != null ==> file.data == [] && FilesOk(fs[file := FileInfo(Links(null, null, []), [])])
    {
      hide TreeOk;
      var ino := AllocIno();
      if ino.None? {
        return null;
      }
      file := new CacheInode(ino.value);
      forall g <- fs ensures g != file && g.links == fs[g].links && g.data == fs[g].data && g.Valid() {
        assert old(g.Valid());
      }
    }

    /** alloc_cache_inode with a fresh number; null stands for the exit "out of disk space". */
    method NewInode() returns (file: CacheInode?)
      requires Valid()
      modifies this
      ensures file == null <==> old(nextIno) >= ninos
      ensures file != null ==> Valid() && fresh(file) && file.ino == old(nextIno) && nextIno == old(nextIno) + 1
      ensures file != null ==> file.data == [] && files == old(files)[file := FileInfo(Links(null, null, []), [])]
    {
      hide OwnershipOk, ChainsOk, FilesOk;
      ghost var fs, next := files, nextIno;
      file := FreshInode(fs);
      if file != null {
        OwnershipNew(fs, owned, first, next, file);
        ChainsNew(blocks, fs, file);
        files := fs[file := FileInfo(Links(null, null, []), [])];
        owned := owned[next := InodeOf(file)];
      }
    }

    // ----- closing -----

    /** One block of the bitmap: bits start to end - 1 set. */
    method BitmapBlock(start: nat, end: nat) returns (words: seq<nat>)
      requires end <= SFS_BLKBITS
      ensures |words| == NENTRY && forall j | 0 <= j < SFS_BLKBITS :: BitSet(words, j) <==> start <= j < end
      ensures forall w, b | 0 <= w < 1024 && 0 <= b < 32 :: BitOf(words[w], b) <==> start <= w * 32 + b < end
      ensures forall w | 0 <= w < 1024 :: words[w] < 0x1_0000_0000
    {
      var data := new nat[NENTRY](_ => 0);
      forall j | 0 <= j < SFS_BLKBITS ensures !BitSet(data[..], j) {
        ShrZero(0, j % 32);
      }
      var j: nat := start;
      while j < end
        invariant if start <= end then start <= j <= end else j == start
        invariant forall i | 0 <= i < SFS_BLKBITS :: BitSet(data[..], i) <==> start <= i < j
        invariant forall w | 0 <= w < 1024 :: data[w] < 0x1_0000_0000
      {
        ghost var t := data[..];
        WordRange(data[j / 32], j % 32);
        data[j / 32] := Or(data[j / 32], Exp2(j % 32));
        assert data[..] == t[j / 32 := Or(t[j / 32], Exp2(j % 32))];
        forall i | 0 <= i < SFS_BLKBITS ensures BitSet(data[..], i) <==> i == j || BitSet(t, i) {
          OrBit(t[j / 32], j % 32, i % 32);
        }
        j := j + 1;
      }
      words := data[..];
      WordBits(words, start, end);
    }

    /**
     The bitmap loop of close_sfs: a set bit is a free block, so bit n is set exactly for the
     numbers not handed out, and their count is what the super block says.
     */
    method FreeMap() returns (m: seq<seq<nat>>)
      requires Valid() && first == FirstIno(ninos)
      ensures |m| == first - SFS_BLKN_FREEMAP && BitmapOk(m)
      ensures forall n: nat | n < |m| * SFS_BLKBITS :: BitAt(m, n) <==> nextIno <= n < ninos
      ensures forall i, w, b | 0 <= i < |m| && 0 <= w < 1024 && 0 <= b < 32 ::
                BitOf(m[i][w], b) <==> nextIno <= i * 32768 + w * 32 + b < ninos
      ensures |SetBits(m)| == unusedBlocks
    {
      m := [];
      var i: nat, ino := 0, SFS_BLKN_FREEMAP;
      while i < ninos
        invariant i == |m| * SFS_BLKBITS && ino == SFS_BLKN_FREEMAP + |m| && BitmapOk(m)
        invariant i < ninos + SFS_BLKBITS
        invariant forall n: nat | n < |m| * SFS_BLKBITS :: BitAt(m, n) <==> nextIno <= n < ninos
        decreases ninos + SFS_BLKBITS - i
      {
        var start, end := 0, 0;
        if i + SFS_BLKBITS > nextIno {
          end := SFS_BLKBITS;
          if i < nextIno {
            start := nextIno - i;
          }
          if i + SFS_BLKBITS > ninos {
            end := ninos - i;
          }
        }
        var words := BitmapBlock(start, end);
        assert ino < first;
        NextBitmapBlock(m, words, nextIno, ninos);
        m := m + [words];
        ino, i := ino + 1, i + SFS_BLKBITS;
      }
      assert SetBits(m) == Between(nextIno, ninos);
      MapBits(m, nextIno, ninos);
    }

    /** Index blocks in the chains with the same number are the same. */
    lemma ChainDistinct(b: CacheBlock, c: CacheBlock)
      requires OwnershipOk(files, owned, first, nextIno) && ChainsOk(blocks, files)
      requires b in blocks[0] && c in blocks[0] && b.ino == c.ino
      ensures b == c
    {
      var f: CacheInode :| f in files && b in IndexSet(files[f].links);
      var g: CacheInode :| g in files && c in IndexSet(files[g].links);
      SameBlock(files, owned, first, nextIno, f, b, g, c);
    }

    /** The loop of close_sfs that writes the cached index blocks. */
    method FlushBlocks() returns (image: map<nat, seq<nat>>)
      requires Valid()
      ensures Flushed(image, blocks[0])
    {
      hide OwnershipOk, FilesOk;
      image := map[];
      for i := 0 to HASH_LIST_SIZE
        invariant if i > 0 then Flushed(image, blocks[0]) else image == map[]
      {
        var k := 0;
        while k < |blocks[i]|
          invariant k <= |blocks[i]| && Flushed(image, if i > 0 then blocks[0] else blocks[0][..k])
        {
          var cb := blocks[i][k];
          forall b <- blocks[0] | b.ino == cb.ino ensures b == cb {
            ChainDistinct(b, cb);
          }
          image := image[cb.ino := cb.cache];
          k := k + 1;
        }
      }
      assert blocks[0][..|blocks[0]|] == blocks[0];
    }

    /** From the written image every appended block of every file is found again, in order. */
    lemma ImageComplete(image: map<nat, seq<nat>>, f: CacheInode, i: nat)
      requires Valid() && Flushed(image, blocks[0]) && f in files && i < |f.data|
      ensures |f.direct| == SFS_NDIRECT && Lookup(image, f.direct, f.indirect, f.dbIndirect, i) == f.data[i]
    {
      hide FilesOk, OwnershipOk;
      FileOk(files, f);
      var t := f.Contents();
      forall b | b in IndexSet(f.links) ensures OnDisk(image, View(b)) {
        assert b in blocks[0];
      }
      assert AllOnDisk(image, t);
      LookupFinds(t, f.data, image, i);
    }

    /** Writing the index blocks overwrites no data block, no inode and none of the blocks in front. */
    lemma FlushSpares(image: map<nat, seq<nat>>, n: nat)
      requires Valid() && Flushed(image, blocks[0]) && n in image
      ensures first <= n < nextIno
      ensures forall f <- files :: f.ino != n && n !in f.data
    {
      hide FilesOk, OwnershipOk, ChainsOk;
      var b :| b in blocks[0] && b.ino == n;
      IndexOwner(blocks, files, owned, first, nextIno, b);
      forall f <- files ensures n !in f.data {
        FileOk(files, f);
      }
    }
  }

  /** An index block's number belongs to no inode and no data block. */
  lemma IndexOwner(chains: seq<seq<CacheBlock>>, files: map<CacheInode, FileInfo>, owned: map<nat, Owner>,
                   first: nat, next: nat, b: CacheBlock)
    requires ChainsOk(chains, files) && OwnershipOk(files, owned, first, next) && first > SFS_BLKN_ROOT
    requires b in chains[0]
    ensures first <= b.ino < next && forall f <- files :: f.ino != b.ino && b.ino !in files[f].data
  {
    var f :| f in files && b in IndexSet(files[f].links);
    var pos := InIndexSet(files[f].links, b);
    assert Owns(f, files[f], owned);
    assert OwnsIndex(f, pos, b, owned);
    forall g <- files ensures g.ino != b.ino && b.ino !in files[g].data {
      assert Owns(g, files[g], owned);
    }
  }

  /** open_img and create_sfs; null stands for the exit "img file is too small". */
  method CreateSfs(size: nat) returns (sfs: Sfs?)
    ensures sfs == null <==> BlocksOf(size) <= FirstIno(BlocksOf(size))
    ensures sfs != null ==> sfs.Valid() && sfs.ninos == BlocksOf(size) && sfs.first == FirstIno(sfs.ninos)
    ensures sfs != null ==> sfs.nextIno == sfs.first && sfs.files.Keys == {sfs.root}
    ensures sfs != null ==> sfs.ninos * 4096 <= size && sfs.ninos <= (sfs.first - 2) * 32768
    ensures sfs != null && size < 0x1000_0000_0000 ==> size < (sfs.ninos + 1) * 4096 || sfs.ninos == 0x8_0000
  {
    BlocksMeaning(size);
    FirstMeaning(BlocksOf(size));
    var ninos := BlocksOf(size);
    if FirstIno(ninos) >= ninos {
      return null;
    }
    sfs := new Sfs(ninos);
  }

  /** 1 << k for k below 32 keeps a word in 32 bits. */
  lemma WordRange(w: nat, k: nat)
    requires w < 0x1_0000_0000 && k < 32
    ensures Or(w, Exp2(k)) < 0x1_0000_0000
  {
    Exp2At32And64();
    Exp2Grows(k, 32);
    OrRange(w, Exp2(k), 32);
  }

  /** The bits counted through a block, word by word. */
  lemma WordBits(words: seq<nat>, start: nat, end: nat)
    requires |words| == NENTRY && forall j | 0 <= j < SFS_BLKBITS :: BitSet(words, j) <==> start <= j < end
    ensures forall w, b | 0 <= w < 1024 && 0 <= b < 32 :: BitOf(words[w], b) <==> start <= w * 32 + b < end
  {
    hide BitOf;
    forall w, b | 0 <= w < 1024 && 0 <= b < 32 ensures BitOf(words[w], b) <==> start <= w * 32 + b < end {
      Split32(w, b);
      assert BitSet(words, w * 32 + b) <==> start <= w * 32 + b < end;
    }
  }

  lemma Split32(w: nat, b: nat)
    requires w < 1024 && b < 32
    ensures (w * 32 + b) / 32 == w && (w * 32 + b) % 32 == b && w * 32 + b < SFS_BLKBITS
  {
  }

  lemma MapBits(m: seq<seq<nat>>, next: nat, ninos: nat)
    requires BitmapOk(m) && forall n: nat | n < |m| * SFS_BLKBITS :: BitAt(m, n) <==> next <= n < ninos
    ensures forall i, w, b | 0 <= i < |m| && 0 <= w < 1024 && 0 <= b < 32 ::
              BitOf(m[i][w], b) <==> next <= i * 32768 + w * 32 + b < ninos
  {
    hide BitOf;
    forall i, w, b | 0 <= i < |m| && 0 <= w < 1024 && 0 <= b < 32
      ensures BitOf(m[i][w], b) <==> next <= i * 32768 + w * 32 + b < ninos
    {
      Split32(w, b);
      SplitBlock(i, |m|, w * 32 + b);
      assert BitAt(m, i * SFS_BLKBITS + (w * 32 + b)) <==> next <= i * 32768 + w * 32 + b < ninos;
    }
  }

  lemma SplitBlock(i: nat, n: nat, j: nat)
    requires i < n && j < SFS_BLKBITS
    ensures (i * SFS_BLKBITS + j) / SFS_BLKBITS == i && (i * SFS_BLKBITS + j) % SFS_BLKBITS == j
    ensures i * SFS_BLKBITS + j < n * SFS_BLKBITS
  {
  }

  /** What was written are the index blocks in bs, under their numbers. */
  ghost predicate Flushed(image: map<nat, seq<nat>>, bs: seq<CacheBlock>)
    reads bs
  {
    && (forall b <- bs :: b.ino in image && image[b.ino] == b.cache)
    && forall n <- image :: exists b <- bs :: b.ino == n
  }

  lemma NextBitmapBlock(m: seq<seq<nat>>, words: seq<nat>, next: nat, ninos: nat)
    requires BitmapOk(m) && |words| == NENTRY
    requires forall n: nat | n < |m| * SFS_BLKBITS :: BitAt(m, n) <==> next <= n < ninos
    requires forall j | 0 <= j < SFS_BLKBITS :: BitSet(words, j) <==> next <= |m| * SFS_BLKBITS + j < ninos
    ensures BitmapOk(m + [words])
    ensures forall n: nat | n < (|m| + 1) * SFS_BLKBITS :: BitAt(m + [words], n) <==> next <= n < ninos
  {
    forall n: nat | n < (|m| + 1) * SFS_BLKBITS ensures BitAt(m + [words], n) <==> next <= n < ninos {
      if n < |m| * SFS_BLKBITS {
        assert BitAt(m, n) <==> next <= n < ninos;
      } else {
        assert n == |m| * SFS_BLKBITS + n % SFS_BLKBITS;
      }
    }
  }
}
