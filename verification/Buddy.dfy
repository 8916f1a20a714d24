/**
 The buddy allocator: one array `longest` per zone holds an implicit binary tree, and every
 operation walks between a node and the root.
 */
module Buddy {
  import opened Bits
  import opened BuddyTree
  import opened BuddyNodes

  /** Above this many pages the `int` and `unsigned` locals of the operations could overflow. */
  const MAX_ZONE := 0x4000_0000

  /** The number of leaves of a zone over n pages, and the size of its reserved tail. */
  method ZoneSizes(n: nat) returns (vSize: nat, r: nat)
    requires 1 < n <= MAX_ZONE && !IsPow2(n)
    ensures IsPow2(vSize) && n < vSize < 2 * n && vSize <= MAX_ZONE
    ensures IsPow2(r) && vSize - n <= r < 2 * (vSize - n) && r <= vSize
  {
    vSize := NextPowerOf2(n);
    MaxZoneIsPow2();
    if vSize > MAX_ZONE {
      Pow2Between(MAX_ZONE, vSize);
    }
    var excess := vSize - n;
    r := NextPowerOf2(excess);
    if r > vSize {
      Pow2Between(vSize, r);
    }
  }

  class BuddyZone {
    const size: nat
    const longest: array<nat>
    const beginPage: nat
    var freeSize: nat
    ghost const reserved: Block    // the tail that is not backed by pages
    ghost var taken: set<Block>    // outstanding blocks and the reserved tail

    ghost predicate Valid()
      reads this, longest
    {
      && size <= MAX_ZONE
      && WellFormed(taken, size)
      && reserved in taken
      && Canonical(longest[..], size, taken)
      && freeSize == |FreePages(taken, size)|
    }

    /**
     Sets up a zone over n pages.  The tree has the next power of two leaves; the excess is
     rounded up to a power of two as well and marked as taken at the right end.  A size that
     already is a power of two has no excess, and the search for its node would not end.
     */
    constructor (begin: nat, n: nat)
      requires 1 < n <= MAX_ZONE && !IsPow2(n)
      ensures Valid() && fresh(longest) && beginPage == begin
      ensures IsPow2(size) && n < size < 2 * n
      ensures taken == {reserved} && reserved.off + reserved.size == size
      ensures IsPow2(reserved.size) && size - n <= reserved.size < 2 * (size - n)
      ensures freeSize == size - reserved.size
    {
      var vSize, r := ZoneSizes(n);
      size := vSize;
      freeSize := vSize - r;
      beginPage := begin;
      longest := new nat[2 * vSize - 1];
      reserved := Block(vSize - r, r);
      taken := {};
      new;
      FillFull();
      var index := FindTail(r);
      PagesConserved({}, size);
      MarkTaken(index);
    }

    /** The array of a zone with nothing taken: every node holds its own size. */
    method FillFull()
      requires IsPow2(size) && longest.Length == 2 * size - 1
      modifies longest
      ensures Canonical(longest[..], size, {})
    {
      ghost var sz := size;
      var nodeSize := size * 2;
      for i := 0 to 2 * size - 1
        invariant nodeSize == if i == 0 then 2 * sz else Node(sz, i - 1).size
        invariant Filled(longest[..], sz, i)
      {
        ghost var t := longest[..];
        NextNodeSize(sz, i, nodeSize);
        if And(i + 1, i) == 0 {
          nodeSize := nodeSize / 2;
        }
        longest[i] := nodeSize;
        assert longest[..] == t[i := nodeSize];
      }
      EmptyCanonical(longest[..], sz);
    }

    /** Goes down the right edge of the fresh tree to the node of r pages. */
    method FindTail(r: nat) returns (index: nat)
      requires IsPow2(size) && Canonical(longest[..], size, {}) && IsPow2(r) && r <= size
      ensures index < longest.Length && Node(size, index) == Block(size - r, r)
      ensures Available({}, size, Node(size, index))
    {
      index := 0;
      ghost var t, sz := longest[..], size;
      while longest[index] != r
        invariant index < |t| && t == longest[..]
        invariant Node(sz, index).off + Node(sz, index).size == sz && r <= Node(sz, index).size
        decreases Node(sz, index).size
      {
        TailStep(t, sz, index, r);
        index := Right(index);
      }
      assert t[index] == Longest({}, Node(sz, index));
      NodeShape(sz, index);
    }

    /** Writes 0 at a node and lets each ancestor take the larger of its two halves. */
    method MarkTaken(i: nat)
      requires WellFormed(taken, size) && Canonical(longest[..], size, taken)
      requires i < longest.Length && Available(taken, size, Node(size, i))
      modifies this`taken, longest
      ensures taken == old(taken) + {Node(size, i)}
      ensures WellFormed(taken, size) && Canonical(longest[..], size, taken)
      ensures |FreePages(taken, size)| + Node(size, i).size == |FreePages(old(taken), size)|
    {
      ghost var b := Node(size, i);
      NodeShape(size, i);
      WellFormedTake(taken, size, b);
      FreePagesTake(taken, size, b);
      RepairStart(longest[..], size, taken, taken + {b}, b, i, 0);
      taken := taken + {b};
      longest[i] := 0;
      assert longest[..] == old(longest[..])[i := 0];
      RaiseMax(i, b);
    }

    method RaiseMax(i: nat, ghost b: Block)
      requires WellFormed(taken, size) && b in taken && b.size > 0
      requires i < longest.Length && b == Node(size, i)
      requires Repaired(longest[..], size, taken, b, b.size)
      modifies longest
      ensures Canonical(longest[..], size, taken)
    {
      var index: nat := i;
      while index != 0
        invariant index < longest.Length == 2 * size - 1
        invariant Within(b, Node(size, index))
        invariant Repaired(longest[..], size, taken, b, Node(size, index).size)
      {
        ghost var t := longest[..];
        ClimbMax(t, size, taken, b, index);
        index := Parent(index);
        longest[index] := Max(longest[Left(index)], longest[Right(index)]);
        assert longest[..] == t[index := Max(t[Left(index)], t[Right(index)])];
      }
      RepairDone(longest[..], size, taken, b);
    }

    /** Walks down to the lowest node of n free pages, left half first. */
    method FindNode(n: nat) returns (index: nat, nodeSize: nat)
      requires Valid() && IsPow2(n) && longest[0] >= n
      ensures index < longest.Length && nodeSize == n == Node(size, index).size
      ensures Available(taken, size, Node(size, index)) && NoneBelow(taken, size, n, Node(size, index).off)
    {
      index, nodeSize := 0, size;
      ghost var t, tk := longest[..], taken;
      RootDecides(t, size, tk, n);
      while nodeSize != n
        invariant nodeSize == Node(size, index).size && Descent(tk, size, index, n)
        decreases nodeSize
      {
        DescentPick(t, size, tk, index, n);
        index := if longest[Left(index)] >= n then Left(index) else Right(index);
        nodeSize := nodeSize / 2;
      }
      DescentDone(tk, size, index, n);
    }

    /** Hands out the lowest free block of n pages, n a power of two the root can serve. */
    method Take(n: nat) returns (offset: nat)
      requires Valid() && IsPow2(n) && longest[0] >= n
      modifies this`taken, this`freeSize, longest
      ensures Valid()
      ensures Available(old(taken), size, Block(offset, n)) && NoneBelow(old(taken), size, n, offset)
      ensures taken == old(taken) + {Block(offset, n)} && Block(offset, n) !in old(taken)
      ensures freeSize == old(freeSize) - n
    {
      var index, nodeSize := FindNode(n);
      NodeOffset(size, index);
      offset := (index + 1) * nodeSize - size;
      WellFormedTake(taken, size, Block(offset, n));
      MarkTaken(index);
      freeSize := freeSize - n;
    }

    /** Climbs from a page's leaf to the first zero; found is false when there is none. */
    method FindTaken(offset: nat) returns (found: bool, index: nat, nodeSize: nat)
      requires Valid() && offset < size
      ensures found ==> index < longest.Length && nodeSize == Node(size, index).size && Node(size, index) in taken
      ensures found ==> Within(Block(offset, 1), Node(size, index))
      ensures found ==> forall b <- taken :: Within(Block(offset, 1), b) ==> b == Node(size, index)
      ensures !found ==> Untouched(taken, Block(offset, 1))
    {
      nodeSize := 1;
      index := offset + size - 1;
      ghost var t, tk := longest[..], taken;
      AscentStart(tk, size, offset, index);
      while longest[index] != 0
        invariant index < longest.Length && nodeSize == Node(size, index).size && Ascent(tk, size, index, offset)
        invariant t == longest[..]
        decreases index
      {
        assert t[index] == Longest(tk, Node(size, index));
        nodeSize := nodeSize * 2;
        if index == 0 {
          AscentRoot(tk, size, offset);
          return false, index, nodeSize;
        }
        AscentStep(tk, size, index, offset);
        index := Parent(index);
      }
      assert t[index] == Longest(tk, Node(size, index));
      AscentFound(tk, size, index, offset);
      found := true;
    }

    /**
     Releases the block that contains the given page, whichever of its pages that is.  A page
     that is in no block is left alone.
     */
    method Free(offset: nat)
      requires Valid() && offset < size && Disjoint(reserved, Block(offset, 1))
      modifies this`taken, this`freeSize, longest
      ensures Valid()
      ensures forall b <- old(taken) :: Within(Block(offset, 1), b) ==>
                taken == old(taken) - {b} && freeSize == old(freeSize) + b.size
      ensures Untouched(old(taken), Block(offset, 1)) ==>
                taken == old(taken) && freeSize == old(freeSize) && longest[..] == old(longest[..])
    {
      var found, index, nodeSize := FindTaken(offset);
      if found {
        Release(index, nodeSize);
      }
    }

    /** Marks a taken node as free again and rebuilds its ancestors. */
    method Release(i: nat, n: nat)
      requires Valid() && i < longest.Length && Node(size, i) in taken && n == Node(size, i).size
      requires Node(size, i) != reserved
      modifies this`taken, this`freeSize, longest
      ensures Valid()
      ensures taken == old(taken) - {Node(size, i)} && freeSize == old(freeSize) + n
    {
      ghost var b := Node(size, i);
      ghost var rest := taken - {b};
      ReleaseStart(longest[..], size, taken, b, i);
      FreePagesTake(rest, size, b);
      assert rest + {b} == taken;
      taken := rest;
      longest[i] := n;
      assert longest[..] == old(longest[..])[i := n];
      freeSize := freeSize + n;
      RaiseMerge(i, n, b);
    }

    method RaiseMerge(i: nat, n: nat, ghost b: Block)
      requires WellFormed(taken, size) && Untouched(taken, b) && b.size == n > 0
      requires i < longest.Length && b == Node(size, i)
      requires Repaired(longest[..], size, taken, b, b.size)
      modifies longest
      ensures Canonical(longest[..], size, taken)
    {
      var index: nat, nodeSize := i, n;
      while index != 0
        invariant index < longest.Length == 2 * size - 1 && nodeSize == Node(size, index).size
        invariant Within(b, Node(size, index))
        invariant Repaired(longest[..], size, taken, b, nodeSize)
      {
        ghost var t := longest[..];
        ClimbMerge(t, size, taken, b, index);
        index := Parent(index);
        nodeSize := nodeSize * 2;
        var l, r := longest[Left(index)], longest[Right(index)];
        longest[index] := if l + r == nodeSize then nodeSize else Max(l, r);
        assert longest[..] == t[index := Merged(t[Left(index)], t[Right(index)], nodeSize)];
      }
      RepairDone(longest[..], size, taken, b);
    }
  }

  lemma MaxZoneIsPow2()
    ensures IsPow2(MAX_ZONE)
  {
    assert Exp2(8) == 0x100;
    assert Exp2(16) == 0x1_0000;
    assert Exp2(24) == 0x100_0000;
    assert Exp2(30) == MAX_ZONE;
    Exp2IsPow2(30);
  }

  /** Level by level, a node is half the size of its predecessor when a new level starts. */
  lemma {:induction false} NodeSizeStep(size: nat, i: nat)
    requires i > 0
    ensures Node(size, i).size == if IsPow2(i + 1) then Node(size, i - 1).size / 2 else Node(size, i - 1).size
  {
    if i % 2 == 1 && i > 1 {
      assert Parent(i) == i / 2 && Parent(i - 1) == i / 2 - 1;
      assert (i + 1) / 2 == i / 2 + 1;
      NodeSizeStep(size, i / 2);
    } else if i > 1 {
      assert Parent(i) == Parent(i - 1);
    }
  }

  lemma NextNodeSize(size: nat, i: nat, nodeSize: nat)
    requires nodeSize == if i == 0 then 2 * size else Node(size, i - 1).size
    ensures Node(size, i).size == if And(i + 1, i) == 0 then nodeSize / 2 else nodeSize
  {
    PowerOfTwoTest(i + 1);
    if i > 0 {
      NodeSizeStep(size, i);
    }
  }

  /** The first i nodes hold their own sizes. */
  ghost predicate Filled(t: seq<nat>, size: nat, i: nat)
  {
    |t| == 2 * size - 1 && forall j :: 0 <= j < i && j < |t| ==> t[j] == Node(size, j).size
  }

  lemma EmptyCanonical(t: seq<nat>, size: nat)
    requires Filled(t, size, |t|)
    ensures Canonical(t, size, {})
  {
    forall j | 0 <= j < |t| ensures t[j] == Longest({}, Node(size, j)) {
      assert Whole({}, Node(size, j));
    }
  }

  /** One step down the right edge of an empty zone. */
  lemma TailStep(t: seq<nat>, size: nat, i: nat, r: nat)
    requires IsPow2(size) && Canonical(t, size, {}) && i < |t| && IsPow2(r)
    requires t[i] != r <= Node(size, i).size && Node(size, i).off + Node(size, i).size == size
    ensures Right(i) < |t|
    ensures var n := Node(size, Right(i));
            n.off + n.size == size && r <= n.size < Node(size, i).size
  {
    NodeShape(size, i);
    assert t[i] == Longest({}, Node(size, i));
    if r > Node(size, i).size / 2 {
      Pow2Between(r, Node(size, i).size);
    }
    NodeHalves(size, i);
    Halves(Node(size, i));
  }
}
