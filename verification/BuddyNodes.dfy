/**
 The implicit binary tree of the buddy allocator: node indices, the repair of a node's
 ancestors, the descent that looks for a free block and the climb that looks for a taken one.
 */
module BuddyNodes {
  import opened Bits
  import opened BuddyTree

  function Left(i: nat): nat { 2 * i + 1 }

  function Right(i: nat): nat { 2 * i + 2 }

  function Parent(i: nat): nat
    requires i > 0
  {
    (i + 1) / 2 - 1
  }

  /** The pages that tree node i of a zone of `size` pages stands for. */
  function Node(size: nat, i: nat): Block
  {
    if i == 0 then Block(0, size)
    else if i % 2 == 1 then LeftHalf(Node(size, Parent(i)))
    else RightHalf(Node(size, Parent(i)))
  }

  /** The whole array is the one the taken blocks determine. */
  ghost predicate Canonical(t: seq<nat>, size: nat, taken: set<Block>)
  {
    && |t| == 2 * size - 1
    && forall i :: 0 <= i < |t| ==> t[i] == Longest(taken, Node(size, i))
  }

  lemma CanonicalUnique(t: seq<nat>, u: seq<nat>, size: nat, taken: set<Block>)
    requires Canonical(t, size, taken) && Canonical(u, size, taken)
    ensures t == u
  {
  }

  // ----- the shape of nodes -----

  lemma {:induction false} AlignedZero(n: nat)
    requires IsPow2(n)
    ensures AlignedAt(0, n)
  {
    if n > 1 {
      AlignedZero(n / 2);
    }
  }

  /** The formula `offset = (index + 1) * node_size - size`, with what makes it go through. */
  lemma {:induction false} NodeOffset(size: nat, i: nat)
    requires IsPow2(size) && i < 2 * size - 1
    ensures var b := Node(size, i);
            && Aligned(b) && b.off + b.size <= size
            && (i + 1) * b.size == b.off + size
            && (i < size - 1 <==> b.size > 1)
  {
    AlignedZero(size);
    if i > 0 {
      var p := Parent(i);
      NodeOffset(size, p);
      var b := Node(size, p);
      assert b.size > 1;
      Halves(b);
      ChildOffset(p, b.size / 2);
    }
    NodeLeaf(size, i, Node(size, i));
  }

  lemma ChildOffset(p: nat, h: nat)
    ensures (2 * p + 2) * h == (p + 1) * (2 * h) && (2 * p + 3) * h == (p + 1) * (2 * h) + h
  {
  }

  lemma NodeLeaf(size: nat, i: nat, b: Block)
    requires (i + 1) * b.size == b.off + size && b.off + b.size <= size && b.size >= 1
    ensures i < size - 1 <==> b.size > 1
  {
    assert b.size > 1 ==> (i + 1) * b.size >= (i + 1) * 2;
  }

  /** Every index is an aligned block of the zone; the leaves are the single pages. */
  lemma NodeShape(size: nat, i: nat)
    requires IsPow2(size) && i < 2 * size - 1
    ensures var b := Node(size, i);
            && Aligned(b) && IsPow2(b.size) && 1 <= b.size && b.off + b.size <= size
            && (i < size - 1 <==> b.size > 1)
  {
    NodeOffset(size, i);
    AlignedAtIsPow2(Node(size, i).off, Node(size, i).size);
  }

  /** Two nodes of one size with pages in common are the same node. */
  lemma SameNode(size: nat, i: nat, j: nat, b: Block)
    requires IsPow2(size) && i < 2 * size - 1 && j < 2 * size - 1 && b.size > 0
    requires Node(size, i).size == Node(size, j).size && Within(b, Node(size, i)) && Within(b, Node(size, j))
    ensures i == j
  {
    NodeOffset(size, i);
    NodeOffset(size, j);
    Laminar(Node(size, i), Node(size, j));
    SameFactor(i + 1, j + 1, Node(size, i).size);
  }

  lemma SameFactor(a: nat, b: nat, c: nat)
    requires c > 0 && a * c == b * c
    ensures a == b
  {
    assert (a - b) * c == 0;
  }

  lemma LeafIndex(size: nat, page: nat, i: nat)
    requires IsPow2(size) && page < size && i == page + size - 1
    ensures Node(size, i) == Block(page, 1)
  {
    NodeOffset(size, i);
    var b := Node(size, i);
    assert b.size == 1 && (i + 1) * 1 == b.off + size;
  }

  lemma NodeChildren(size: nat, i: nat)
    ensures Node(size, Left(i)) == LeftHalf(Node(size, i)) && Node(size, Right(i)) == RightHalf(Node(size, i))
  {
    ParentOfChild(i);
  }

  lemma ParentOfChild(i: nat)
    ensures Left(i) > 0 && Left(i) % 2 == 1 && Parent(Left(i)) == i
    ensures Right(i) > 0 && Right(i) % 2 == 0 && Parent(Right(i)) == i
  {
    assert Left(i) + 1 == 2 * (i + 1) && Right(i) + 1 == 2 * (i + 1) + 1;
  }

  /** The two children of an inner node exist and are its halves. */
  lemma NodeHalves(size: nat, i: nat)
    requires IsPow2(size) && i < 2 * size - 1 && Node(size, i).size > 1
    ensures Right(i) < 2 * size - 1
    ensures Node(size, Left(i)) == LeftHalf(Node(size, i)) && Node(size, Right(i)) == RightHalf(Node(size, i))
  {
    NodeShape(size, i);
    NodeChildren(size, i);
  }

  /** The parent of a node is an inner node of twice its size that contains it. */
  lemma ParentShape(size: nat, i: nat)
    requires IsPow2(size) && 0 < i < 2 * size - 1
    ensures var p := Parent(i);
            && Right(p) < 2 * size - 1 && Node(size, p).size > 1 && Node(size, i).size == Node(size, p).size / 2
            && Node(size, p).size == 2 * Node(size, i).size
            && Within(Node(size, i), Node(size, p))
  {
    var p := Parent(i);
    NodeShape(size, p);
    Halves(Node(size, p));
  }

  // ----- repairing the ancestors of a node -----

  /** Canonical for `taken`, except possibly at the nodes larger than s that contain b. */
  ghost predicate Repaired(t: seq<nat>, size: nat, taken: set<Block>, b: Block, s: nat)
  {
    && |t| == 2 * size - 1
    && forall j :: 0 <= j < |t| && (Node(size, j).size <= s || !Within(b, Node(size, j))) ==>
         t[j] == Longest(taken, Node(size, j))
  }

  /** Writing the right value at b's own node repairs everything of b's size. */
  lemma RepairStart(t: seq<nat>, size: nat, taken: set<Block>, taken': set<Block>, b: Block, i: nat, v: nat)
    requires IsPow2(size) && Canonical(t, size, taken) && i < |t| && Node(size, i) == b
    requires taken' == taken + {b} || taken' == taken - {b}
    requires v == Longest(taken', b)
    ensures Repaired(t[i := v], size, taken', b, b.size)
  {
    NodeShape(size, i);
    forall j | 0 <= j < |t| && j != i && (Node(size, j).size <= b.size || !Within(b, Node(size, j)))
      ensures t[j] == Longest(taken', Node(size, j))
    {
      if Within(b, Node(size, j)) {
        SameNode(size, i, j, b);
      } else {
        LongestElsewhere(taken, taken', b, Node(size, j));
      }
    }
  }

  /** Writing the right value at the next larger ancestor carries the repair one level up. */
  lemma RepairStep(t: seq<nat>, size: nat, taken: set<Block>, b: Block, p: nat, v: nat)
    requires IsPow2(size) && p < |t| && Node(size, p).size > 1 && b.size > 0
    requires Repaired(t, size, taken, b, Node(size, p).size / 2)
    requires Within(b, Node(size, p)) && v == Longest(taken, Node(size, p))
    ensures Repaired(t[p := v], size, taken, b, Node(size, p).size)
  {
    var s := Node(size, p).size;
    NodeShape(size, p);
    forall j | 0 <= j < |t| && j != p && (Node(size, j).size <= s || !Within(b, Node(size, j)))
      ensures t[j] == Longest(taken, Node(size, j))
    {
      NodeShape(size, j);
      if Node(size, j).size > s / 2 && Within(b, Node(size, j)) {
        Pow2Between(Node(size, j).size, s);
        SameNode(size, p, j, b);
      }
    }
  }

  lemma RepairDone(t: seq<nat>, size: nat, taken: set<Block>, b: Block)
    requires IsPow2(size) && Repaired(t, size, taken, b, size)
    ensures Canonical(t, size, taken)
  {
    forall j | 0 <= j < |t| ensures t[j] == Longest(taken, Node(size, j)) {
      NodeShape(size, j);
    }
  }

  /** What a climb needs to know at the parent of a repaired node. */
  lemma ParentRepair(t: seq<nat>, size: nat, taken: set<Block>, b: Block, i: nat)
    requires IsPow2(size) && b.size > 0 && 0 < i < |t| && Within(b, Node(size, i))
    requires Repaired(t, size, taken, b, Node(size, i).size)
    ensures var p := Parent(i);
            && Right(p) < |t| && Node(size, p).size > b.size && Node(size, p).size == 2 * Node(size, i).size
            && Within(b, Node(size, p)) && Aligned(Node(size, p))
            && t[Left(p)] == Longest(taken, LeftHalf(Node(size, p)))
            && t[Right(p)] == Longest(taken, RightHalf(Node(size, p)))
  {
    var p := Parent(i);
    ParentShape(size, i);
    NodeShape(size, p);
    NodeChildren(size, p);
  }

  /** One step of the climb after taking b: the parent takes the larger of its two halves. */
  lemma ClimbMax(t: seq<nat>, size: nat, taken: set<Block>, b: Block, i: nat)
    requires WellFormed(taken, size) && b in taken && b.size > 0 && 0 < i < |t|
    requires Repaired(t, size, taken, b, Node(size, i).size) && Within(b, Node(size, i))
    ensures Right(Parent(i)) < |t| && Within(b, Node(size, Parent(i)))
    ensures var p := Parent(i);
            Repaired(t[p := Max(t[Left(p)], t[Right(p)])], size, taken, b, Node(size, p).size)
  {
    ParentRepair(t, size, taken, b, i);
    LongestAboveTaken(taken, size, b, Node(size, Parent(i)));
    RepairStep(t, size, taken, b, Parent(i), Longest(taken, Node(size, Parent(i))));
  }

  /** One step of the climb after releasing b: two full halves make a full node. */
  lemma ClimbMerge(t: seq<nat>, size: nat, taken: set<Block>, b: Block, i: nat)
    requires WellFormed(taken, size) && Untouched(taken, b) && b.size > 0 && 0 < i < |t|
    requires Repaired(t, size, taken, b, Node(size, i).size) && Within(b, Node(size, i))
    ensures Right(Parent(i)) < |t| && Within(b, Node(size, Parent(i)))
    ensures Node(size, Parent(i)).size == 2 * Node(size, i).size
    ensures var p := Parent(i);
            Repaired(t[p := Merged(t[Left(p)], t[Right(p)], Node(size, p).size)], size, taken, b, Node(size, p).size)
  {
    var n := Node(size, Parent(i));
    ParentRepair(t, size, taken, b, i);
    assert n in taken ==> Disjoint(n, b);
    LongestMerge(taken, size, n);
    RepairStep(t, size, taken, b, Parent(i), Longest(taken, n));
  }

  // ----- the search for a free block -----

  /** No available block of m pages starts below page o. */
  ghost predicate NoneBelow(taken: set<Block>, size: nat, m: nat, o: nat)
  {
    forall o' :: 0 <= o' < o ==> !Available(taken, size, Block(o', m))
  }

  /** Going down towards a block of m pages keeps room below and leaves none to the left. */
  ghost predicate Descent(taken: set<Block>, size: nat, i: nat, m: nat)
  {
    && i < 2 * size - 1 && m <= Node(size, i).size
    && Reachable(taken, Node(size, i))
    && Longest(taken, Node(size, i)) >= m
    && NoneBelow(taken, size, m, Node(size, i).off)
  }

  /** The root value tells whether the zone can serve a request of m pages. */
  lemma RootDecides(t: seq<nat>, size: nat, taken: set<Block>, m: nat)
    requires WellFormed(taken, size) && Canonical(t, size, taken) && IsPow2(m)
    ensures t[0] >= m <==> exists o :: Available(taken, size, Block(o, m))
    ensures t[0] >= m ==> Descent(taken, size, 0, m)
  {
    var root := Block(0, size);
    assert t[0] == Longest(taken, Node(size, 0));
    LongestBound(taken, root);
    AlignedZero(size);
    assert forall o: nat :: Available(taken, size, Block(o, m)) ==> Within(Block(o, m), root) && m <= size;
    if m <= size {
      LongestDecides(taken, size, root, m);
    }
  }

  lemma DescentHalves(taken: set<Block>, size: nat, n: Block, m: nat)
    requires WellFormed(taken, size) && IsPow2(m) && m < n.size && n.off + n.size <= size && Aligned(n)
    requires Reachable(taken, n) && Longest(taken, n) >= m
    ensures m <= n.size / 2 && Reachable(taken, LeftHalf(n)) && Reachable(taken, RightHalf(n))
    ensures Longest(taken, LeftHalf(n)) < m ==> Longest(taken, RightHalf(n)) >= m
    ensures Longest(taken, LeftHalf(n)) < m && NoneBelow(taken, size, m, n.off) ==>
              NoneBelow(taken, size, m, RightHalf(n).off)
  {
    AlignedAtIsPow2(n.off, n.size);
    if m > n.size / 2 {
      Pow2Between(m, n.size);
      assert false;
    }
    Halves(n);
    LongestDecides(taken, size, n, m);
    ReachableHalf(taken, size, n, LeftHalf(n));
    ReachableHalf(taken, size, n, RightHalf(n));
    RoomInHalves(taken, size, n, m);
    LongestDecides(taken, size, LeftHalf(n), m);
    LongestDecides(taken, size, RightHalf(n), m);
    if Longest(taken, LeftHalf(n)) < m && NoneBelow(taken, size, m, n.off) {
      forall o | 0 <= o < RightHalf(n).off ensures !Available(taken, size, Block(o, m)) {
        if o >= n.off && Available(taken, size, Block(o, m)) {
          Laminar(Block(o, m), LeftHalf(n));
        }
      }
    }
  }

  /** The comparison that `alloc` makes at an inner node keeps the descent going. */
  lemma DescentPick(t: seq<nat>, size: nat, taken: set<Block>, i: nat, m: nat)
    requires WellFormed(taken, size) && Canonical(t, size, taken) && IsPow2(m)
    requires Descent(taken, size, i, m) && Node(size, i).size != m
    ensures Right(i) < |t|
    ensures var next := if t[Left(i)] >= m then Left(i) else Right(i);
            Descent(taken, size, next, m) && Node(size, next).size == Node(size, i).size / 2 < Node(size, i).size
  {
    NodeShape(size, i);
    NodeHalves(size, i);
    DescentHalves(taken, size, Node(size, i), m);
    assert t[Left(i)] == Longest(taken, Node(size, Left(i)));
  }

  /** At the end of the descent the node itself is the lowest available block. */
  lemma DescentDone(taken: set<Block>, size: nat, i: nat, m: nat)
    requires WellFormed(taken, size) && IsPow2(m) && Descent(taken, size, i, m) && Node(size, i).size == m
    ensures Available(taken, size, Node(size, i)) && NoneBelow(taken, size, m, Node(size, i).off)
  {
    var n := Node(size, i);
    NodeShape(size, i);
    LongestDecides(taken, size, n, m);
    var o :| Within(Block(o, m), n) && Available(taken, size, Block(o, m));
    assert Block(o, m) == n;
  }

  lemma WellFormedTake(taken: set<Block>, size: nat, b: Block)
    requires WellFormed(taken, size) && Available(taken, size, b)
    ensures WellFormed(taken + {b}, size) && b !in taken
  {
    AlignedAtIsPow2(b.off, b.size);
    assert b in taken ==> Disjoint(b, b);
  }

  // ----- the climb of `free` -----

  /** The climb has met no block that contains the page, and not everything below is taken. */
  ghost predicate Ascent(taken: set<Block>, size: nat, i: nat, page: nat)
  {
    var n := Node(size, i);
    && i < 2 * size - 1
    && Within(Block(page, 1), n)
    && (forall b <- taken :: Within(Block(page, 1), b) ==> n.size <= b.size)
    && (n.size > 1 ==> Longest(taken, LeftHalf(n)) > 0 || Longest(taken, RightHalf(n)) > 0)
  }

  lemma AscentStart(taken: set<Block>, size: nat, page: nat, i: nat)
    requires WellFormed(taken, size) && page < size && i == page + size - 1
    ensures Ascent(taken, size, i, page) && Node(size, i).size == 1
  {
    LeafIndex(size, page, i);
  }

  lemma LargerBlock(b: Block, n: Block, page: Block)
    requires Aligned(b) && Aligned(n) && n.size <= b.size && b != n && page.size > 0
    requires Within(page, b) && Within(page, n)
    ensures 2 * n.size <= b.size
  {
    Laminar(n, b);
    HalfOrSame(n, b);
  }

  /** A block that contains the page of a non-zero node is larger than the node. */
  lemma LargerThanNode(taken: set<Block>, size: nat, i: nat, page: nat, b: Block)
    requires WellFormed(taken, size) && Ascent(taken, size, i, page) && Longest(taken, Node(size, i)) > 0
    requires b in taken && Within(Block(page, 1), b)
    ensures 2 * Node(size, i).size <= b.size
  {
    NodeShape(size, i);
    LargerBlock(b, Node(size, i), Block(page, 1));
  }

  lemma AscentStep(taken: set<Block>, size: nat, i: nat, page: nat)
    requires WellFormed(taken, size) && Ascent(taken, size, i, page) && Longest(taken, Node(size, i)) > 0 && i > 0
    ensures Ascent(taken, size, Parent(i), page) && Node(size, Parent(i)).size == 2 * Node(size, i).size
  {
    var p := Parent(i);
    ParentShape(size, i);
    forall b <- taken | Within(Block(page, 1), b) ensures Node(size, p).size <= b.size {
      LargerThanNode(taken, size, i, page, b);
    }
  }

  lemma AscentRoot(taken: set<Block>, size: nat, page: nat)
    requires WellFormed(taken, size) && Ascent(taken, size, 0, page) && Longest(taken, Node(size, 0)) > 0
    ensures Untouched(taken, Block(page, 1))
  {
    forall b <- taken ensures Disjoint(b, Block(page, 1)) {
      if Within(Block(page, 1), b) {
        LargerThanNode(taken, size, 0, page, b);
      }
    }
  }

  /** The first zero on the way up is the node of the block that contains the page. */
  lemma AscentFound(taken: set<Block>, size: nat, i: nat, page: nat)
    requires WellFormed(taken, size) && Ascent(taken, size, i, page) && Longest(taken, Node(size, i)) == 0
    ensures Node(size, i) in taken
    ensures forall b <- taken :: Within(Block(page, 1), b) ==> b == Node(size, i)
  {
    NodeShape(size, i);
    var n := Node(size, i);
    assert n in taken;
    assert forall b <- taken :: b == n || Disjoint(b, n);
  }

  /** Removing a taken block leaves its place untouched, and its node becomes full again. */
  lemma ReleaseStart(t: seq<nat>, size: nat, taken: set<Block>, b: Block, i: nat)
    requires WellFormed(taken, size) && b in taken && Canonical(t, size, taken) && i < |t| && Node(size, i) == b
    ensures b.size > 0 && Untouched(taken - {b}, b) && WellFormed(taken - {b}, size)
    ensures Repaired(t[i := b.size], size, taken - {b}, b, b.size)
  {
    var rest := taken - {b};
    NodeShape(size, i);
    assert forall c <- rest :: Disjoint(c, b);
    forall c <- rest ensures !Within(c, b) {
      AlignedAtIsPow2(c.off, c.size);
    }
    LongestFull(rest, size, b);
    RepairStart(t, size, taken, rest, b, i, b.size);
  }
}
