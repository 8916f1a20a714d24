/**
 The virtual memory areas of an address space: a sorted linked list with a one-entry cache.
 */
module Vma {
  import opened LinkedList

  const VM_WRITE := 2

  /** What a vma_struct holds besides its list link; it does not change once the area exists. */
  datatype Area = Area(start: nat, end: nat, flags: nat)

  predicate Contains(a: Area, addr: nat)
  {
    a.start <= addr < a.end
  }

  predicate Apart(a: Area, b: Area)
  {
    a.end <= b.start || b.end <= a.start
  }

  predicate Writable(a: Area)
  {
    a.flags / VM_WRITE % 2 == 1
  }

  // ----- the ring of areas: the head, then the areas in address order -----

  ghost predicate AreasOk(r: seq<ListEntry<Area>>)
  {
    && (forall i | 1 <= i < |r| :: r[i].owner.start < r[i].owner.end)
    && (forall i, j | 1 <= i < j < |r| :: r[i].owner.end <= r[j].owner.start)
  }

  ghost predicate ApartFromAll(r: seq<ListEntry<Area>>, a: Area)
  {
    forall i | 1 <= i < |r| :: Apart(r[i].owner, a)
  }

  ghost predicate NoneContains(r: seq<ListEntry<Area>>, addr: nat)
  {
    forall i | 1 <= i < |r| :: !Contains(r[i].owner, addr)
  }

  /** vma is the one area of the ring that contains addr. */
  ghost predicate IsOnly(r: seq<ListEntry<Area>>, vma: ListEntry<Area>, addr: nat)
  {
    && Contains(vma.owner, addr) && InRing(r, vma)
    && forall i | 1 <= i < |r| && Contains(r[i].owner, addr) :: r[i] == vma
  }

  ghost predicate InRing(r: seq<ListEntry<Area>>, vma: ListEntry<Area>)
  {
    exists i :: 1 <= i < |r| && r[i] == vma
  }

  lemma OnlyOne(r: seq<ListEntry<Area>>, vma: ListEntry<Area>, addr: nat)
    requires AreasOk(r) && InRing(r, vma) && Contains(vma.owner, addr)
    ensures IsOnly(r, vma, addr)
  {
    var k :| 1 <= k < |r| && r[k] == vma;
    assert forall i | 1 <= i < |r| && i != k :: !Contains(r[i].owner, addr);
  }

  /** Where a new area goes: after the last area that starts no later than it. */
  ghost predicate Place(r: seq<ListEntry<Area>>, i: nat, start: nat)
  {
    && 1 <= i <= |r|
    && (forall j | 1 <= j < i :: r[j].owner.start <= start)
    && (i < |r| ==> r[i].owner.start > start)
  }

  /** check_vma_overlap against the two neighbours. */
  ghost predicate NeighboursOk(r: seq<ListEntry<Area>>, i: nat, a: Area)
    requires 1 <= i <= |r|
  {
    (i > 1 ==> r[i - 1].owner.end <= a.start) && (i < |r| ==> a.end <= r[i].owner.start)
  }

  /** Looking at the two neighbours decides overlap with every area of the list. */
  lemma NeighboursDecide(r: seq<ListEntry<Area>>, i: nat, a: Area)
    requires AreasOk(r) && Place(r, i, a.start) && a.start < a.end
    ensures NeighboursOk(r, i, a) <==> ApartFromAll(r, a)
  {
    if NeighboursOk(r, i, a) {
      forall j | 1 <= j < |r| ensures Apart(r[j].owner, a) {
        if j < i - 1 {
          assert r[j].owner.end <= r[i - 1].owner.start;
        } else if j > i {
          assert r[i].owner.end <= r[j].owner.start;
        }
      }
    }
  }

  lemma InsertedAreas(r: seq<ListEntry<Area>>, i: nat, vma: ListEntry<Area>)
    requires AreasOk(r) && Place(r, i, vma.owner.start) && vma.owner.start < vma.owner.end
    requires ApartFromAll(r, vma.owner)
    ensures AreasOk(Inserted(r, i - 1, vma)) && InRing(Inserted(r, i - 1, vma), vma)
    ensures forall x :: InRing(r, x) ==> InRing(Inserted(r, i - 1, vma), x)
  {
    var q := Inserted(r, i - 1, vma);
    assert forall j | 1 <= j < |q| :: q[j] == if j < i then r[j] else if j == i then vma else r[j - 1];
    forall j, k | 1 <= j < k < |q| ensures q[j].owner.end <= q[k].owner.start {
      InsertedPair(r, i, vma.owner, j, k);
    }
    InsertedIn(r, i, vma);
  }

  /** Around the place of a new area the order holds. */
  lemma InsertedPair(r: seq<ListEntry<Area>>, i: nat, a: Area, j: nat, k: nat)
    requires AreasOk(r) && Place(r, i, a.start) && a.start < a.end && ApartFromAll(r, a)
    requires 1 <= j < k <= |r|
    ensures k < i ==> r[j].owner.end <= r[k].owner.start
    ensures i < j ==> r[j - 1].owner.end <= r[k - 1].owner.start
    ensures j < i < k ==> r[j].owner.end <= r[k - 1].owner.start
    ensures i == k ==> r[j].owner.end <= a.start
    ensures i == j ==> a.end <= r[k - 1].owner.start
  {
    if i == k {
      assert Apart(r[j].owner, a);
    }
    if i == j {
      assert Apart(r[k - 1].owner, a);
      assert i < k - 1 ==> r[i].owner.end <= r[k - 1].owner.start;
    }
  }

  lemma InsertedIn(r: seq<ListEntry<Area>>, i: nat, vma: ListEntry<Area>)
    requires 1 <= i <= |r|
    ensures InRing(Inserted(r, i - 1, vma), vma)
    ensures forall x :: InRing(r, x) ==> InRing(Inserted(r, i - 1, vma), x)
  {
    var q := Inserted(r, i - 1, vma);
    assert q[i] == vma;
    forall j | 1 <= j < |r| ensures q[if j < i then j else j + 1] == r[j] {
    }
  }

  /** The outcome of a search, in addresses. */
  lemma SearchMeaning(r: seq<ListEntry<Area>>, vma: ListEntry?<Area>, addr: nat)
    requires if vma == null then NoneContains(r, addr) else IsOnly(r, vma, addr)
    ensures if vma == null then forall i | 1 <= i < |r| :: addr < r[i].owner.start || r[i].owner.end <= addr
            else vma.owner.start <= addr < vma.owner.end && vma in r
  {
  }

  class MmStruct {
    const head: ListEntry<Area>
    var mmapCache: ListEntry?<Area>
    var mapCount: int
    ghost var ring: seq<ListEntry<Area>>

    ghost predicate Valid()
      reads this, ring
    {
      && Ring(ring) && ring[0] == head
      && AreasOk(ring)
      && mapCount == |ring| - 1
      && (mmapCache != null ==> InRing(ring, mmapCache))
    }

    /** mm_create */
    constructor ()
      ensures Valid() && fresh(head) && ring == [head]
    {
      head := new ListEntry(Area(0, 0, 0));
      mmapCache := null;
      mapCount := 0;
      new;
      ring := [head];
    }

    /** The area that contains addr, from the cache when it fits, else from the list. */
    method FindVma(addr: nat) returns (vma: ListEntry?<Area>)
      requires Valid()
      modifies this`mmapCache
      ensures Valid()
      ensures if vma == null then NoneContains(ring, addr) else IsOnly(ring, vma, addr)
      ensures if vma == null then forall i | 1 <= i < |ring| :: addr < ring[i].owner.start || ring[i].owner.end <= addr
              else vma.owner.start <= addr < vma.owner.end && vma in ring
      ensures mmapCache == if vma != null then vma else old(mmapCache)
    {
      hide Ring, AreasOk, NoneContains, IsOnly;
      vma := mmapCache;
      if !(vma != null && vma.owner.start <= addr && vma.owner.end > addr) {
        vma := SearchList(addr);
      }
      if vma != null {
        mmapCache := vma;
        OnlyOne(ring, vma, addr);
      }
      SearchMeaning(ring, vma, addr);
    }

    method SearchList(addr: nat) returns (vma: ListEntry?<Area>)
      requires Ring(ring) && ring[0] == head
      ensures if vma == null then NoneContains(ring, addr) else InRing(ring, vma) && Contains(vma.owner, addr)
    {
      vma := null;
      var le := head.next;
      ghost var i := 1;
      while le != head
        invariant 1 <= i <= |ring| && le == (if i < |ring| then ring[i] else head)
        invariant forall j | 1 <= j < i :: !Contains(ring[j].owner, addr)
        decreases |ring| - i
      {
        if le.owner.start <= addr && addr < le.owner.end {
          return le;
        }
        le := le.next;
        i := i + 1;
      }
    }

    method FindPlace(start: nat) returns (prev: ListEntry<Area>, ghost i: nat)
      requires Ring(ring) && ring[0] == head
      ensures Place(ring, i, start) && prev == ring[i - 1]
    {
      prev := head;
      var le := head.next;
      i := 1;
      while le != head
        invariant 1 <= i <= |ring| && le == (if i < |ring| then ring[i] else head) && prev == ring[i - 1]
        invariant forall j | 1 <= j < i :: ring[j].owner.start <= start
        decreases |ring| - i
      {
        if le.owner.start > start {
          break;
        }
        prev := le;
        le := le.next;
        i := i + 1;
      }
    }

    /**
     Links a new area in address order.  Only the two neighbours are compared with it; the
     comparisons (assertions in the source, so a panic when they fail) hold exactly when the
     area is well formed and apart from all others.
     */
    method InsertVmaStruct(vma: ListEntry<Area>) returns (ok: bool)
      requires Valid() && vma !in ring
      modifies this`ring, this`mapCount, ring, vma
      ensures Valid()
      ensures ok <==> vma.owner.start < vma.owner.end && old(ApartFromAll(ring, vma.owner))
      ensures ok <==> vma.owner.start < vma.owner.end && forall i | 1 <= i < |old(ring)| ::
                        old(ring)[i].owner.end <= vma.owner.start || vma.owner.end <= old(ring)[i].owner.start
      ensures !ok ==> ring == old(ring)
      ensures ok ==> exists i :: 0 <= i < |old(ring)| && ring == Inserted(old(ring), i, vma)
    {
      var a := vma.owner;
      if !(a.start < a.end) {
        return false;
      }
      ghost var r := ring;
      ghost var i;
      var prev;
      prev, i := FindPlace(a.start);
      var next := prev.next;
      ok := (prev == head || prev.owner.end <= a.start) && (next == head || a.end <= next.owner.start);
      NeighboursDecide(r, i, a);
      assert ok <==> NeighboursOk(r, i, a);
      if ok {
        ListAdd(prev, vma, r, i - 1);
        ring := Inserted(r, i - 1, vma);
        mapCount := mapCount + 1;
        InsertedAreas(r, i, vma);
      }
    }
  }
}
