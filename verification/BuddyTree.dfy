/**
 The meaning of the buddy allocator's `longest` array.

 A zone of `size` pages is described by the set of blocks taken out of it (the outstanding
 allocations and the reserved tail).  `Longest` gives, from that set alone, the value every
 node of the implicit binary tree must hold.
 */
module BuddyTree {
  import opened Bits

  datatype Block = Block(off: nat, size: nat)

  function LeftHalf(b: Block): Block
  {
    Block(b.off, b.size / 2)
  }

  function RightHalf(b: Block): Block
  {
    Block(b.off + b.size / 2, b.size / 2)
  }

  predicate Disjoint(b: Block, c: Block)
  {
    b.off + b.size <= c.off || c.off + c.size <= b.off
  }

  /** b lies inside c. */
  predicate Within(b: Block, c: Block)
  {
    c.off <= b.off && b.off + b.size <= c.off + c.size
  }

  /** The size is a power of two and the offset a multiple of it (see AlignedMeaning). */
  predicate AlignedAt(off: nat, n: nat)
  {
    n == 1 || (n > 1 && n % 2 == 0 && off % 2 == 0 && AlignedAt(off / 2, n / 2))
  }

  predicate Aligned(b: Block)
  {
    AlignedAt(b.off, b.size)
  }

  ghost predicate WellFormed(taken: set<Block>, size: nat)
  {
    && IsPow2(size)
    && (forall b <- taken :: Aligned(b) && b.off + b.size <= size)
    && (forall b <- taken, c <- taken :: b != c ==> Disjoint(b, c))
  }

  /** No taken block touches b. */
  ghost predicate Untouched(taken: set<Block>, b: Block)
  {
    forall c <- taken :: Disjoint(c, b)
  }

  /** Nothing was taken inside b. */
  ghost predicate Whole(taken: set<Block>, b: Block)
  {
    forall c <- taken :: !Within(c, b)
  }

  /** b is an aligned block of the zone that could be handed out. */
  ghost predicate Available(taken: set<Block>, size: nat, b: Block)
  {
    Aligned(b) && b.off + b.size <= size && Untouched(taken, b)
  }

  // ----- the canonical tree -----

  function Max(a: nat, b: nat): nat
  {
    if a > b then a else b
  }

  /** The value of the tree node that stands for the pages of b. */
  ghost function Longest(taken: set<Block>, b: Block): nat
    decreases b.size
  {
    if b in taken then 0
    else if b.size <= 1 || Whole(taken, b) then b.size
    else Max(Longest(taken, LeftHalf(b)), Longest(taken, RightHalf(b)))
  }

  // ----- alignment -----

  lemma {:induction false} AlignedMeaning(b: Block)
    ensures Aligned(b) <==> IsPow2(b.size) && b.off % b.size == 0
    decreases b.size
  {
    if b.size > 1 && b.size % 2 == 0 {
      AlignedMeaning(Block(b.off / 2, b.size / 2));
      ModTwice(b.off, b.size / 2);
    }
  }

  predicate InBlock(b: Block, page: nat)
  {
    b.off <= page < b.off + b.size
  }

  /** A block is available when it is a properly placed power of two and none of its pages is taken. */
  lemma AvailableMeaning(taken: set<Block>, size: nat, b: Block)
    requires forall c <- taken :: c.size > 0
    ensures Available(taken, size, b) <==>
              && IsPow2(b.size) && b.off % b.size == 0 && b.off + b.size <= size
              && forall c <- taken, p: nat :: !(InBlock(b, p) && InBlock(c, p))
  {
    AlignedMeaning(b);
    if IsPow2(b.size) {
      forall c <- taken ensures Disjoint(c, b) <==> forall p: nat :: !(InBlock(b, p) && InBlock(c, p)) {
        CommonPage(b, c);
      }
    }
    hide Disjoint, Aligned, InBlock;
  }

  lemma CommonPage(b: Block, c: Block)
    requires b.size > 0 && c.size > 0
    ensures Disjoint(c, b) <==> forall p: nat :: !(InBlock(b, p) && InBlock(c, p))
  {
    var p := Max(b.off, c.off);
    assert !Disjoint(c, b) ==> InBlock(b, p) && InBlock(c, p);
  }

  lemma ModTwice(a: nat, m: nat)
    requires m > 0
    ensures a % (2 * m) == 2 * (a / 2 % m) + a % 2
  {
    var q, r := a / 2 / m, 2 * (a / 2 % m) + a % 2;
    assert a == 2 * m * q + r;
    DivModUnique(a, 2 * m, q, r);
  }

  lemma DivModUnique(a: nat, m: nat, q: nat, r: nat)
    requires m > 0 && a == m * q + r && r < m
    ensures a / m == q && a % m == r
  {
    var d := a / m - q;
    assert m * d == r - a % m;
    SmallMultiple(m, d);
  }

  lemma SmallMultiple(m: int, d: int)
    requires 0 - m < m * d < m
    ensures d == 0
  {
  }

  lemma {:induction false} Pow2Between(m: nat, n: nat)
    requires IsPow2(m) && IsPow2(n) && n < 2 * m
    ensures n <= m
  {
    if m > 1 && n > 1 {
      Pow2Between(m / 2, n / 2);
    }
  }

  lemma {:induction false} AlignedAtIsPow2(off: nat, n: nat)
    requires AlignedAt(off, n)
    ensures IsPow2(n)
  {
    if n > 1 {
      AlignedAtIsPow2(off / 2, n / 2);
    }
  }

  /** Of two aligned blocks the smaller is at most half the larger. */
  lemma HalfOrSame(b: Block, c: Block)
    requires Aligned(b) && Aligned(c) && b.size < c.size
    ensures 1 <= b.size <= c.size / 2
  {
    AlignedAtIsPow2(b.off, b.size);
    AlignedAtIsPow2(c.off, c.size);
    if b.size > c.size / 2 {
      Pow2Between(b.size, c.size);
    }
  }

  lemma {:induction false} AlignedCoarser(off: nat, n: nat, m: nat)
    requires AlignedAt(off, n) && IsPow2(m) && m <= n
    ensures AlignedAt(off, m)
  {
    if m > 1 {
      AlignedCoarser(off / 2, n / 2, m / 2);
    }
  }

  lemma {:induction false} AlignedHalves(off: nat, n: nat)
    requires AlignedAt(off, n) && n > 1
    ensures AlignedAt(off, n / 2) && AlignedAt(off + n / 2, n / 2) && n / 2 + n / 2 == n
  {
    if n > 2 {
      AlignedHalves(off / 2, n / 2);
      assert (off + n / 2) / 2 == off / 2 + n / 2 / 2;
    }
  }

  /** The two halves of an aligned block are aligned, disjoint and make up the block. */
  lemma Halves(b: Block)
    requires Aligned(b) && b.size > 1
    ensures Aligned(LeftHalf(b)) && Aligned(RightHalf(b))
    ensures Disjoint(LeftHalf(b), RightHalf(b)) && Within(LeftHalf(b), b) && Within(RightHalf(b), b)
    ensures LeftHalf(b).size >= 1 && LeftHalf(b).size + RightHalf(b).size == b.size
  {
    AlignedHalves(b.off, b.size);
  }

  /** Two aligned power-of-two ranges are disjoint or nested. */
  lemma Laminar(b: Block, c: Block)
    requires Aligned(b) && Aligned(c) && b.size <= c.size
    ensures Disjoint(b, c) || Within(b, c)
  {
    LaminarAt(b.off, b.size, c.off, c.size);
  }

  lemma {:induction false} LaminarAt(o: nat, m: nat, off: nat, n: nat)
    requires AlignedAt(o, m) && AlignedAt(off, n) && m <= n
    ensures o + m <= off || off + n <= o || (off <= o && o + m <= off + n)
  {
    if m > 1 {
      LaminarAt(o / 2, m / 2, off / 2, n / 2);
    }
  }

  /** A block strictly inside an aligned block lies in one of its halves. */
  lemma InOneHalf(b: Block, n: Block)
    requires Aligned(b) && Aligned(n) && Within(b, n) && b.size < n.size
    ensures n.size > 1 && (Within(b, LeftHalf(n)) || Within(b, RightHalf(n)))
  {
    HalfOrSame(b, n);
    Halves(n);
    Laminar(b, LeftHalf(n));
    Laminar(b, RightHalf(n));
  }

  // ----- what the canonical value says -----

  lemma {:induction false} LongestBound(taken: set<Block>, b: Block)
    ensures Longest(taken, b) <= b.size
    decreases b.size
  {
    if b.size > 1 {
      LongestBound(taken, LeftHalf(b));
      LongestBound(taken, RightHalf(b));
    }
  }

  /** An inner node with something taken strictly inside holds the larger of its halves. */
  lemma LongestSplit(taken: set<Block>, b: Block)
    requires b !in taken && !Whole(taken, b) && b.size > 1
    ensures Longest(taken, b) == Max(Longest(taken, LeftHalf(b)), Longest(taken, RightHalf(b))) <= b.size / 2
  {
    LongestBound(taken, LeftHalf(b));
    LongestBound(taken, RightHalf(b));
  }

  /** A node holds its full size exactly when nothing was taken inside it. */
  lemma LongestFull(taken: set<Block>, size: nat, b: Block)
    requires WellFormed(taken, size) && b.size >= 1
    ensures Longest(taken, b) == b.size <==> Whole(taken, b)
  {
    if b in taken {
      assert Within(b, b);
    } else if b.size > 1 {
      if !Whole(taken, b) {
        LongestSplit(taken, b);
      }
    } else {
      forall c <- taken | Within(c, b) ensures c == b {
        AlignedAtIsPow2(c.off, c.size);
      }
    }
  }

  /** Nothing taken strictly contains the node. */
  ghost predicate Reachable(taken: set<Block>, n: Block)
  {
    forall b <- taken :: Within(n, b) ==> b == n
  }

  /** The halves of a node that is not itself taken are reachable too. */
  lemma ReachableHalf(taken: set<Block>, size: nat, n: Block, half: Block)
    requires WellFormed(taken, size) && Aligned(n) && n.size > 1
    requires Reachable(taken, n) && n !in taken
    requires half == LeftHalf(n) || half == RightHalf(n)
    ensures Reachable(taken, half)
  {
    Halves(n);
    forall b <- taken | Within(half, b) ensures b == half {
      if b.size < n.size {
        HalfOrSame(b, n);
      } else {
        Laminar(n, b);
      }
    }
  }

  /** An available block of m pages lies inside n. */
  ghost predicate HasRoom(taken: set<Block>, size: nat, n: Block, m: nat)
  {
    exists o :: Within(Block(o, m), n) && Available(taken, size, Block(o, m))
  }

  lemma RoomInHalves(taken: set<Block>, size: nat, n: Block, m: nat)
    requires Aligned(n) && n.size > 1 && m < n.size
    ensures HasRoom(taken, size, n, m) <==>
            HasRoom(taken, size, LeftHalf(n), m) || HasRoom(taken, size, RightHalf(n), m)
  {
    Halves(n);
    forall o | Within(Block(o, m), n) && Available(taken, size, Block(o, m))
      ensures Within(Block(o, m), LeftHalf(n)) || Within(Block(o, m), RightHalf(n))
    {
      InOneHalf(Block(o, m), n);
    }
  }

  /** A block with something taken inside it is not available as a whole. */
  lemma NoRoomForAll(taken: set<Block>, size: nat, n: Block)
    requires WellFormed(taken, size) && !Whole(taken, n)
    ensures !HasRoom(taken, size, n, n.size)
  {
    var b :| b in taken && Within(b, n);
    AlignedAtIsPow2(b.off, b.size);
    forall o | Within(Block(o, n.size), n) ensures !Available(taken, size, Block(o, n.size)) {
      assert !Disjoint(b, Block(o, n.size));
    }
  }

  lemma RoomWhole(taken: set<Block>, size: nat, n: Block, m: nat)
    requires WellFormed(taken, size) && Aligned(n) && n.off + n.size <= size && IsPow2(m) && m <= n.size
    requires Reachable(taken, n) && Whole(taken, n)
    ensures HasRoom(taken, size, n, m)
  {
    var b := Block(n.off, m);
    assert Within(n, n);
    forall c <- taken ensures Disjoint(c, b) {
      if c.size <= n.size { Laminar(c, n); } else { Laminar(n, c); }
    }
    AlignedCoarser(n.off, n.size, m);
    assert Within(b, n) && Available(taken, size, b);
  }

  /**
   The value of a reachable node decides exactly whether an aligned free block of m pages
   lies below it.
   */
  lemma {:induction false} LongestDecides(taken: set<Block>, size: nat, n: Block, m: nat)
    requires WellFormed(taken, size) && Aligned(n) && n.off + n.size <= size && IsPow2(m) && m <= n.size
    requires Reachable(taken, n)
    ensures Longest(taken, n) >= m <==> HasRoom(taken, size, n, m)
    decreases n.size
  {
    if n in taken {
      forall o | Within(Block(o, m), n) ensures !Available(taken, size, Block(o, m)) {
        assert !Disjoint(n, Block(o, m));
      }
    } else if Whole(taken, n) {
      RoomWhole(taken, size, n, m);
    } else if n.size == 1 {
      LongestFull(taken, size, n);
    } else {
      LongestSplit(taken, n);
      if m == n.size {
        NoRoomForAll(taken, size, n);
      } else {
        AlignedAtIsPow2(n.off, n.size);
        if m > n.size / 2 { Pow2Between(m, n.size); }
        Halves(n);
        RoomInHalves(taken, size, n, m);
        ReachableHalf(taken, size, n, LeftHalf(n));
        ReachableHalf(taken, size, n, RightHalf(n));
        LongestDecides(taken, size, LeftHalf(n), m);
        LongestDecides(taken, size, RightHalf(n), m);
      }
    }
  }

  // ----- how the canonical value changes -----

  /** Taking or releasing b changes no node that does not contain b. */
  lemma {:induction false} LongestElsewhere(taken: set<Block>, taken': set<Block>, b: Block, n: Block)
    requires taken' == taken + {b} || taken' == taken - {b}
    requires !Within(b, n)
    ensures Longest(taken', n) == Longest(taken, n)
    decreases n.size
  {
    assert n != b;
    assert Whole(taken, n) <==> Whole(taken', n);
    if n.size > 1 {
      LongestElsewhere(taken, taken', b, LeftHalf(n));
      LongestElsewhere(taken, taken', b, RightHalf(n));
    }
  }

  /** A node strictly above a taken block holds the larger of its two halves. */
  lemma LongestAboveTaken(taken: set<Block>, size: nat, b: Block, n: Block)
    requires WellFormed(taken, size) && b in taken && Within(b, n) && b.size < n.size && n.size > 1
    ensures Longest(taken, n) == Max(Longest(taken, LeftHalf(n)), Longest(taken, RightHalf(n)))
  {
    AlignedAtIsPow2(b.off, b.size);
    assert n in taken ==> Disjoint(n, b);
    LongestSplit(taken, n);
  }

  lemma WholeHalves(taken: set<Block>, size: nat, n: Block)
    requires WellFormed(taken, size) && Aligned(n) && n.size > 1 && n !in taken
    ensures Whole(taken, n) <==> Whole(taken, LeftHalf(n)) && Whole(taken, RightHalf(n))
  {
    Halves(n);
    forall b <- taken | Within(b, n) ensures Within(b, LeftHalf(n)) || Within(b, RightHalf(n)) {
      InOneHalf(b, n);
    }
  }

  /** The rule with which `free` rebuilds a node from its halves gives the canonical value. */
  lemma LongestMerge(taken: set<Block>, size: nat, n: Block)
    requires WellFormed(taken, size) && Aligned(n) && n.size > 1 && n !in taken
    ensures Longest(taken, n) == Merged(Longest(taken, LeftHalf(n)), Longest(taken, RightHalf(n)), n.size)
  {
    Halves(n);
    WholeHalves(taken, size, n);
    LongestFull(taken, size, n);
    LongestFull(taken, size, LeftHalf(n));
    LongestFull(taken, size, RightHalf(n));
    LongestBound(taken, LeftHalf(n));
    LongestBound(taken, RightHalf(n));
    if !Whole(taken, n) {
      LongestSplit(taken, n);
    }
  }

  /** The value `free` writes over two halves with values l and r. */
  function Merged(l: nat, r: nat, n: nat): nat
  {
    if l + r == n then n else Max(l, r)
  }

  // ----- free pages -----

  ghost function FreePages(taken: set<Block>, size: nat): set<nat>
  {
    set p: nat | p < size && Untouched(taken, Block(p, 1))
  }

  /** The pages of a block. */
  ghost function Pages(b: Block): set<nat>
  {
    set p: nat | p < b.off + b.size && !Disjoint(b, Block(p, 1))
  }

  lemma {:induction false} PagesCount(b: Block)
    ensures |Pages(b)| == b.size
    decreases b.size
  {
    if b.size == 0 {
      assert Pages(b) == {};
    } else {
      var c := Block(b.off, b.size - 1);
      PagesCount(c);
      assert Pages(b) == Pages(c) + {b.off + b.size - 1};
    }
  }

  /** Taking a free block removes exactly its pages from the free ones. */
  lemma FreePagesTake(taken: set<Block>, size: nat, b: Block)
    requires b.off + b.size <= size && Untouched(taken, b)
    ensures |FreePages(taken, size)| == |FreePages(taken + {b}, size)| + b.size
  {
    var f, f' := FreePages(taken, size), FreePages(taken + {b}, size);
    PagesCount(b);
    assert Pages(b) <= f;
    assert f' == f - Pages(b) by {
      assert b in taken + {b};
    }
  }

  ghost function Sum(taken: set<Block>): nat
  {
    if taken == {} then 0 else var b :| b in taken; b.size + Sum(taken - {b})
  }

  lemma {:induction false} SumRemove(taken: set<Block>, b: Block)
    requires b in taken
    ensures Sum(taken) == b.size + Sum(taken - {b})
    decreases |taken|
  {
    var c :| c in taken && Sum(taken) == c.size + Sum(taken - {c});
    if b != c {
      SumRemove(taken - {c}, b);
      SumRemove(taken - {b}, c);
      assert taken - {c} - {b} == taken - {b} - {c};
    }
  }

  /** Conservation: free pages and taken blocks together make up the zone. */
  lemma {:induction false} PagesConserved(taken: set<Block>, size: nat)
    requires WellFormed(taken, size)
    ensures |FreePages(taken, size)| + Sum(taken) == size
    decreases |taken|
  {
    if taken == {} {
      assert FreePages(taken, size) == Pages(Block(0, size));
      PagesCount(Block(0, size));
    } else {
      var b :| b in taken;
      var rest := taken - {b};
      PagesConserved(rest, size);
      assert rest + {b} == taken;
      FreePagesTake(rest, size, b);
      SumRemove(taken, b);
    }
  }
}
