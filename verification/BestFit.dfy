/**
 The best-fit page allocator: an address-ordered list of free chunks that are merged with their
 neighbours when pages come back.
 */
module BestFit {
  import opened LinkedList
  import opened Wrappers

  /** A run of free pages. */
  datatype Chunk = Chunk(base: nat, size: nat)

  function End(c: Chunk): nat
  {
    c.base + c.size
  }

  /** Nonempty chunks in address order that do not overlap. */
  ghost predicate Ordered(cs: seq<Chunk>)
  {
    && (forall i | 0 <= i < |cs| :: cs[i].size > 0)
    && forall i, j | 0 <= i < j < |cs| :: End(cs[i]) <= cs[j].base
  }

  /** In order, and no two neighbours could be merged. */
  ghost predicate Coalesced(cs: seq<Chunk>)
  {
    Ordered(cs) && forall i | 0 < i < |cs| :: End(cs[i - 1]) < cs[i].base
  }

  ghost predicate Covers(cs: seq<Chunk>, page: nat)
  {
    exists i | 0 <= i < |cs| :: cs[i].base <= page < End(cs[i])
  }

  /** The pages of b are in no chunk. */
  ghost predicate Free(cs: seq<Chunk>, b: Chunk)
  {
    forall i | 0 <= i < |cs| :: End(b) <= cs[i].base || End(cs[i]) <= b.base
  }

  ghost function Sum(cs: seq<Chunk>): nat
  {
    if cs == [] then 0 else cs[0].size + Sum(cs[1..])
  }

  lemma {:induction false} SumJoin(a: seq<Chunk>, b: seq<Chunk>)
    ensures Sum(a + b) == Sum(a) + Sum(b)
  {
    if a == [] {
      assert a + b == b;
    } else {
      SumJoin(a[1..], b);
      assert (a + b)[1..] == a[1..] + b;
    }
  }

  function Dropped(cs: seq<Chunk>, k: nat): seq<Chunk>
    requires k < |cs|
  {
    cs[..k] + cs[k + 1..]
  }

  lemma DroppedIndex(cs: seq<Chunk>, k: nat)
    requires k < |cs|
    ensures |Dropped(cs, k)| == |cs| - 1
    ensures forall i | 0 <= i < |cs| - 1 :: Dropped(cs, k)[i] == cs[if i < k then i else i + 1]
  {
  }

  lemma SumDropped(cs: seq<Chunk>, k: nat)
    requires k < |cs|
    ensures Sum(Dropped(cs, k)) + cs[k].size == Sum(cs)
  {
    SumJoin(cs[..k], cs[k..]);
    SumJoin(cs[..k], cs[k + 1..]);
    assert cs == cs[..k] + cs[k..];
  }

  lemma SumUpdated(cs: seq<Chunk>, k: nat, c: Chunk)
    requires k < |cs|
    ensures Sum(cs[k := c]) + cs[k].size == Sum(cs) + c.size
  {
    SumDropped(cs, k);
    SumDropped(cs[k := c], k);
    assert Dropped(cs[k := c], k) == Dropped(cs, k);
  }

  /** Without chunk k the same pages are free but those of chunk k. */
  lemma DroppedCovers(cs: seq<Chunk>, k: nat, page: nat)
    requires k < |cs|
    ensures Covers(cs, page) <==> Covers(Dropped(cs, k), page) || cs[k].base <= page < End(cs[k])
  {
    var q := Dropped(cs, k);
    DroppedIndex(cs, k);
    hide Dropped;
    if Covers(cs, page) {
      var i :| 0 <= i < |cs| && cs[i].base <= page < End(cs[i]);
      assert i != k ==> q[if i < k then i else i - 1] == cs[i];
    }
  }

  // ----- allocation -----

  /** Chunk k is the smallest that has n pages, the lowest of them among equals. */
  ghost predicate BestAmong(cs: seq<Chunk>, upto: nat, n: nat, k: nat)
  {
    && k < upto <= |cs| && cs[k].size >= n
    && forall i | 0 <= i < upto && cs[i].size >= n :: cs[k].size < cs[i].size || (cs[k].size == cs[i].size && k <= i)
  }

  /** The first n pages of chunk k taken away. */
  ghost function Carved(cs: seq<Chunk>, k: nat, n: nat): seq<Chunk>
    requires k < |cs| && n <= cs[k].size
  {
    if cs[k].size > n then cs[k := Chunk(cs[k].base + n, cs[k].size - n)] else Dropped(cs, k)
  }

  lemma CarvedOk(cs: seq<Chunk>, k: nat, n: nat)
    requires Coalesced(cs) && k < |cs| && 0 < n <= cs[k].size
    ensures Coalesced(Carved(cs, k, n)) && Sum(Carved(cs, k, n)) + n == Sum(cs)
  {
    hide Coalesced, Ordered;
    if cs[k].size > n {
      SumUpdated(cs, k, Chunk(cs[k].base + n, cs[k].size - n));
      ShrunkOk(cs, k, n);
    } else {
      SumDropped(cs, k);
      DroppedOk(cs, k);
    }
  }

  lemma ShrunkOk(cs: seq<Chunk>, k: nat, n: nat)
    requires Coalesced(cs) && k < |cs| && 0 < n < cs[k].size
    ensures Coalesced(cs[k := Chunk(cs[k].base + n, cs[k].size - n)])
  {
    var q := cs[k := Chunk(cs[k].base + n, cs[k].size - n)];
    assert forall i | 0 <= i < |cs| :: End(q[i]) == End(cs[i]) && q[i].base >= cs[i].base;
  }

  lemma DroppedOk(cs: seq<Chunk>, k: nat)
    requires Coalesced(cs) && k < |cs|
    ensures Coalesced(Dropped(cs, k))
  {
    DroppedIndex(cs, k);
    hide Dropped;
    var q := Dropped(cs, k);
    forall i | 0 < i < |q| ensures End(q[i - 1]) < q[i].base {
      if i == k {
        assert End(cs[k - 1]) < cs[k].base && End(cs[k]) <= cs[k + 1].base;
      }
    }
  }

  /** In an ordered list the pages of a chunk are in no other. */
  lemma OwnPages(cs: seq<Chunk>, k: nat, page: nat)
    requires Ordered(cs) && k < |cs| && cs[k].base <= page < End(cs[k])
    ensures !Covers(Dropped(cs, k), page)
  {
    DroppedIndex(cs, k);
  }

  /** Exactly the first n pages of the chunk stop being free. */
  lemma CarvedCovers(cs: seq<Chunk>, k: nat, n: nat, page: nat)
    requires Coalesced(cs) && k < |cs| && 0 < n <= cs[k].size
    ensures Covers(Carved(cs, k, n), page) <==> Covers(cs, page) && !(cs[k].base <= page < cs[k].base + n)
  {
    var q := Carved(cs, k, n);
    DroppedCovers(cs, k, page);
    if cs[k].base <= page < End(cs[k]) {
      OwnPages(cs, k, page);
    }
    if cs[k].size > n {
      DroppedCovers(q, k, page);
      assert Dropped(q, k) == Dropped(cs, k);
    }
  }

  // ----- freeing -----

  ghost function WithChunk(cs: seq<Chunk>, i: nat, b: Chunk): seq<Chunk>
    requires i <= |cs|
  {
    cs[..i] + [b] + cs[i..]
  }

  /** Chunks i - 1 and i made one. */
  ghost function Joined(cs: seq<Chunk>, i: nat): seq<Chunk>
    requires 0 < i < |cs|
  {
    Dropped(cs[i - 1 := Chunk(cs[i - 1].base, cs[i - 1].size + cs[i].size)], i)
  }

  predicate Touching(cs: seq<Chunk>, i: nat)
  {
    0 < i < |cs| && End(cs[i - 1]) == cs[i].base
  }

  ghost function JoinedIf(cs: seq<Chunk>, i: nat): seq<Chunk>
  {
    if Touching(cs, i) then Joined(cs, i) else cs
  }

  /** free_pages: insertion, then merging with the chunk before and the chunk behind. */
  ghost function Returned(cs: seq<Chunk>, i: nat, b: Chunk): seq<Chunk>
    requires i <= |cs|
  {
    var a := WithChunk(cs, i, b);
    var c := JoinedIf(a, i);
    JoinedIf(c, if Touching(a, i) then i else i + 1)
  }

  /** In order, and mergeable at most at the positions lo and hi. */
  ghost predicate CoalescedBut(cs: seq<Chunk>, lo: nat, hi: nat)
  {
    Ordered(cs) && forall i | 0 < i < |cs| && i != lo && i != hi :: End(cs[i - 1]) < cs[i].base
  }

  /** Where the freed chunk goes: in front of the first chunk behind it. */
  ghost predicate Place(cs: seq<Chunk>, i: nat, base: nat)
  {
    && i <= |cs|
    && (forall j | 0 <= j < i :: cs[j].base <= base)
    && (i < |cs| ==> base < cs[i].base)
  }

  /** Chunk k after the insertion. */
  function ChunkAt(cs: seq<Chunk>, i: nat, b: Chunk, k: nat): Chunk
    requires i <= |cs| && k <= |cs|
  {
    if k < i then cs[k] else if k == i then b else cs[k - 1]
  }

  lemma InsertedIndex(cs: seq<Chunk>, i: nat, b: Chunk)
    requires i <= |cs|
    ensures |WithChunk(cs, i, b)| == |cs| + 1 && Dropped(WithChunk(cs, i, b), i) == cs
    ensures forall k | 0 <= k <= |cs| :: WithChunk(cs, i, b)[k] == ChunkAt(cs, i, b, k)
  {
  }

  lemma InsertedOk(cs: seq<Chunk>, i: nat, b: Chunk)
    requires Coalesced(cs) && Place(cs, i, b.base) && b.size > 0 && Free(cs, b)
    ensures CoalescedBut(WithChunk(cs, i, b), i, i + 1) && Sum(WithChunk(cs, i, b)) == Sum(cs) + b.size
  {
    InsertedIndex(cs, i, b);
    SumDropped(WithChunk(cs, i, b), i);
    InsertedOrder(cs, i, b);
    hide WithChunk, CoalescedBut;
  }

  lemma InsertedOrder(cs: seq<Chunk>, i: nat, b: Chunk)
    requires Coalesced(cs) && Place(cs, i, b.base) && b.size > 0 && Free(cs, b)
    ensures CoalescedBut(WithChunk(cs, i, b), i, i + 1)
  {
    var q := WithChunk(cs, i, b);
    InsertedIndex(cs, i, b);
    hide WithChunk, Free, Place, Dropped, ChunkAt;
    forall k | 0 <= k <= |cs| ensures q[k].size > 0 {
      InsertedSize(cs, i, b, k);
    }
    forall j, k | 0 <= j < k < |q| ensures End(q[j]) <= q[k].base {
      InsertedPair(cs, i, b, j, k);
    }
    forall k | 0 < k < |q| && k != i && k != i + 1 ensures End(q[k - 1]) < q[k].base {
      InsertedGap(cs, i, b, k);
    }
  }

  lemma InsertedSize(cs: seq<Chunk>, i: nat, b: Chunk, k: nat)
    requires Ordered(cs) && i <= |cs| && b.size > 0 && k <= |cs|
    ensures ChunkAt(cs, i, b, k).size > 0
  {
  }

  lemma InsertedGap(cs: seq<Chunk>, i: nat, b: Chunk, k: nat)
    requires Coalesced(cs) && i <= |cs| && 0 < k <= |cs| && k != i && k != i + 1
    ensures End(ChunkAt(cs, i, b, k - 1)) < ChunkAt(cs, i, b, k).base
  {
    var m := if k < i then k else k - 1;
    assert End(cs[m - 1]) < cs[m].base;
  }

  lemma InsertedPair(cs: seq<Chunk>, i: nat, b: Chunk, j: nat, k: nat)
    requires Ordered(cs) && Place(cs, i, b.base) && b.size > 0 && Free(cs, b) && j < k <= |cs|
    ensures End(ChunkAt(cs, i, b, j)) <= ChunkAt(cs, i, b, k).base
  {
    if j == i && i < k - 1 {
      assert End(cs[i]) <= cs[k - 1].base;
    }
  }

  lemma JoinedIndex(cs: seq<Chunk>, i: nat)
    requires 0 < i < |cs|
    ensures |Joined(cs, i)| == |cs| - 1
    ensures forall k | 0 <= k < |cs| - 1 ::
              Joined(cs, i)[k] == if k < i - 1 then cs[k]
                                  else if k == i - 1 then Chunk(cs[k].base, cs[k].size + cs[i].size) else cs[k + 1]
  {
    DroppedIndex(cs[i - 1 := Chunk(cs[i - 1].base, cs[i - 1].size + cs[i].size)], i);
  }

  lemma JoinedOk(cs: seq<Chunk>, i: nat, other: nat)
    requires CoalescedBut(cs, i, other) && Touching(cs, i)
    ensures CoalescedBut(Joined(cs, i), if other > i then other - 1 else other, 0)
    ensures Sum(Joined(cs, i)) == Sum(cs)
  {
    var c := Chunk(cs[i - 1].base, cs[i - 1].size + cs[i].size);
    hide Coalesced, CoalescedBut;
    SumUpdated(cs, i - 1, c);
    SumDropped(cs[i - 1 := c], i);
    JoinedOrder(cs, i, other);
  }

  lemma JoinedOrder(cs: seq<Chunk>, i: nat, other: nat)
    requires CoalescedBut(cs, i, other) && Touching(cs, i)
    ensures CoalescedBut(Joined(cs, i), if other > i then other - 1 else other, 0)
  {
    JoinedIndex(cs, i);
    var q := Joined(cs, i);
    hide Joined;
    forall j, k | 0 <= j < k < |q| ensures End(q[j]) <= q[k].base {
      JoinedAt(cs, i, j, k);
      assert End(cs[if j < i - 1 then j else j + 1]) <= cs[if k < i then k else k + 1].base;
    }
    forall k | 0 < k < |q| && k != (if other > i then other - 1 else other) ensures End(q[k - 1]) < q[k].base {
      JoinedAt(cs, i, k - 1, k);
      var m := if k < i then k else k + 1;
      assert m != i && m != other ==> End(cs[m - 1]) < cs[m].base;
    }
  }

  /** Where a joined chunk's end and the base of a later one come from. */
  lemma JoinedAt(cs: seq<Chunk>, i: nat, j: nat, k: nat)
    requires Touching(cs, i) && j < k < |cs| - 1
    ensures |Joined(cs, i)| == |cs| - 1
    ensures End(Joined(cs, i)[j]) == End(cs[if j < i - 1 then j else j + 1])
    ensures Joined(cs, i)[k].base == cs[if k < i then k else k + 1].base
  {
    JoinedIndex(cs, i);
  }

  lemma JoinedCovers(cs: seq<Chunk>, i: nat, page: nat)
    requires Touching(cs, i)
    ensures Covers(Joined(cs, i), page) <==> Covers(cs, page)
  {
    var q := Joined(cs, i);
    JoinedIndex(cs, i);
    hide Joined;
    if Covers(cs, page) {
      var k :| 0 <= k < |cs| && cs[k].base <= page < End(cs[k]);
      assert q[i - 1].base == cs[i - 1].base && End(q[i - 1]) == End(cs[i]);
      assert k != i && k != i - 1 ==> q[if k < i then k else k - 1] == cs[k];
    }
    if Covers(q, page) {
      var k :| 0 <= k < |q| && q[k].base <= page < End(q[k]);
      assert k != i - 1 ==> q[k] == cs[if k < i then k else k + 1];
    }
  }

  lemma InsertedCovers(cs: seq<Chunk>, i: nat, b: Chunk, page: nat)
    requires i <= |cs|
    ensures Covers(WithChunk(cs, i, b), page) <==> Covers(cs, page) || b.base <= page < End(b)
  {
    InsertedIndex(cs, i, b);
    DroppedCovers(WithChunk(cs, i, b), i, page);
  }

  /** The list stays coalesced and its pages are the old ones and the freed ones. */
  lemma ReturnedOk(cs: seq<Chunk>, i: nat, b: Chunk)
    requires Coalesced(cs) && Place(cs, i, b.base) && b.size > 0 && Free(cs, b)
    ensures Coalesced(Returned(cs, i, b)) && Sum(Returned(cs, i, b)) == Sum(cs) + b.size
    ensures forall page: nat :: Covers(Returned(cs, i, b), page) <==> Covers(cs, page) || b.base <= page < End(b)
  {
    ReturnedOrder(cs, i, b);
    hide Coalesced, Returned, Place, Free, Covers;
    forall page: nat ensures Covers(Returned(cs, i, b), page) <==> Covers(cs, page) || b.base <= page < End(b) {
      ReturnedCovers(cs, i, b, page);
    }
  }

  lemma ReturnedOrder(cs: seq<Chunk>, i: nat, b: Chunk)
    requires Coalesced(cs) && Place(cs, i, b.base) && b.size > 0 && Free(cs, b)
    ensures Coalesced(Returned(cs, i, b)) && Sum(Returned(cs, i, b)) == Sum(cs) + b.size
  {
    hide Joined, WithChunk, Free;
    var a := WithChunk(cs, i, b);
    InsertedOk(cs, i, b);
    var c, k := JoinedIf(a, i), if Touching(a, i) then i else i + 1;
    if Touching(a, i) {
      JoinedOk(a, i, i + 1);
    }
    assert CoalescedBut(c, k, 0);
    if Touching(c, k) {
      JoinedOk(c, k, 0);
    }
  }

  lemma ReturnedCovers(cs: seq<Chunk>, i: nat, b: Chunk, page: nat)
    requires i <= |cs|
    ensures Covers(Returned(cs, i, b), page) <==> Covers(cs, page) || b.base <= page < End(b)
  {
    hide Joined, WithChunk, Covers, Touching;
    var a := WithChunk(cs, i, b);
    var c, k := JoinedIf(a, i), if Touching(a, i) then i else i + 1;
    InsertedCovers(cs, i, b, page);
    if Touching(a, i) {
      JoinedCovers(a, i, page);
    }
    if Touching(c, k) {
      JoinedCovers(c, k, page);
    }
  }

  // ----- the allocator -----

  type PageLink = ListEntry<nat>

  /** The list runs through the first pages of the chunks. */
  ghost predicate Listed(ring: seq<PageLink>, head: PageLink, link: seq<PageLink>, cs: seq<Chunk>)
    reads ring
  {
    Ring(ring) && Lists(ring, head, link, cs)
  }

  ghost predicate Lists(ring: seq<PageLink>, head: PageLink, link: seq<PageLink>, cs: seq<Chunk>)
  {
    && |ring| == |cs| + 1 && ring[0] == head
    && forall i | 0 <= i < |cs| :: cs[i].base < |link| && ring[i + 1] == link[cs[i].base]
  }

  /** property is right at the first page of each chunk. */
  ghost predicate SizesOk(property: seq<nat>, cs: seq<Chunk>)
  {
    forall i | 0 <= i < |cs| :: cs[i].base < |property| && property[cs[i].base] == cs[i].size
  }

  ghost predicate IsBase(cs: seq<Chunk>, page: nat)
  {
    exists i | 0 <= i < |cs| :: cs[i].base == page
  }

  /** PG_property marks the first pages of the chunks and no others. */
  ghost predicate FlagsOk(flags: seq<bool>, cs: seq<Chunk>)
  {
    forall p | 0 <= p < |flags| :: flags[p] <==> IsBase(cs, p)
  }

  ghost predicate InMemory(cs: seq<Chunk>, n: nat)
  {
    forall i | 0 <= i < |cs| :: End(cs[i]) <= n
  }

  ghost predicate LinksOk(link: seq<PageLink>, head: PageLink)
  {
    head !in link && forall p | 0 <= p < |link| :: link[p].owner == p
  }

  lemma RingPrev(r: seq<PageLink>, i: nat)
    requires Ring(r) && i < |r| && |r| > 1
    ensures r[i].prev != r[i]
  {
    assert r[i].prev == r[Before(i, |r|)];
  }

  class BestFitManager {
    const head: PageLink
    const link: seq<PageLink>          // page->page_link
    const property: array<nat>
    const flags: array<bool>           // PG_property
    var nrFree: nat
    ghost var ring: seq<PageLink>
    ghost var chunks: seq<Chunk>

    ghost predicate Valid()
      reads this, ring, property, flags
    {
      && LinksOk(link, head) && |link| == property.Length == flags.Length
      && Listed(ring, head, link, chunks) && Coalesced(chunks) && InMemory(chunks, |link|)
      && SizesOk(property[..], chunks) && FlagsOk(flags[..], chunks) && nrFree == Sum(chunks)
    }

    /** best_fit_init, for the pages with the given links: nothing is free yet. */
    constructor (links: seq<PageLink>)
      requires forall p | 0 <= p < |links| :: links[p].owner == p
      ensures Valid() && chunks == [] && link == links && fresh(property) && fresh(flags) && fresh(head)
    {
      head := new ListEntry(0);
      link := links;
      property := new nat[|links|];
      flags := new bool[|links|](_ => false);
      nrFree, chunks := 0, [];
      new;
      ring := [head];
    }

    /** The search of alloc_pages. */
    method FindBest(n: nat) returns (page: Option<nat>, ghost k: nat)
      requires Valid() && n > 0
      ensures page.None? <==> forall i | 0 <= i < |chunks| :: chunks[i].size < n
      ensures page.Some? ==> BestAmong(chunks, |chunks|, n, k) && page.value == chunks[k].base
    {
      hide FlagsOk, Coalesced, Dropped, Sum;
      page, k := None, 0;
      var minSize := nrFree + 1;
      var le := head.next;
      ghost var i := 0;
      while le != head
        invariant 0 <= i <= |chunks| && le == (if i < |chunks| then ring[i + 1] else head)
        invariant if page.None? then minSize == nrFree + 1 && forall j | 0 <= j < i :: chunks[j].size < n
                  else BestAmong(chunks, i, n, k) && page.value == chunks[k].base && minSize == chunks[k].size
        decreases |chunks| - i
      {
        var p := le.owner;
        SumDropped(chunks, i);
        if property[p] >= n {
          if property[p] < minSize {
            minSize := property[p];
            page, k := Some(p), i;
          }
        }
        le := le.next;
        i := i + 1;
      }
    }

    /** alloc_pages: the first pages of the smallest chunk that is large enough, None if there is none. */
    method AllocPages(n: nat) returns (page: Option<nat>, ghost k: nat)
      requires Valid() && n > 0
      modifies this`nrFree, this`ring, this`chunks, head, link, property, flags
      ensures Valid()
      ensures page.None? <==> forall i | 0 <= i < |old(chunks)| :: old(chunks)[i].size < n
      ensures page.None? ==> chunks == old(chunks)
      ensures page.Some? ==> BestAmong(old(chunks), |old(chunks)|, n, k) && page.value == old(chunks)[k].base
      ensures page.Some? ==> chunks == Carved(old(chunks), k, n)
      ensures nrFree == old(nrFree) - (if page.Some? then n else 0)
      ensures forall i | 0 < i < |chunks| :: chunks[i - 1].base + chunks[i - 1].size < chunks[i].base
    {
      if n > nrFree {
        TooLarge(chunks, n);
        Gaps(chunks);
        return None, 0;
      }
      page, k := FindBest(n);
      if page.Some? {
        Carve(page.value, n, k);
      }
      Gaps(chunks);
    }

    /** The entries of the list are the head and links of pages. */
    lemma Members()
      requires Lists(ring, head, link, chunks)
      ensures forall e <- ring :: e == head || e in link
    {
      forall i | 0 <= i < |ring| ensures ring[i] == head || ring[i] in link {
        assert i > 0 ==> ring[i] == link[chunks[i - 1].base];
      }
    }

    /** list_del of the first page of chunk k. */
    method Unlink(page: nat, ghost k: nat)
      requires Listed(ring, head, link, chunks) && k < |chunks| && page == chunks[k].base
      modifies this`ring, this`chunks, head, link
      ensures chunks == Dropped(old(chunks), k) && ring == Removed(old(ring), k + 1)
      ensures Listed(ring, head, link, chunks)
    {
      Members();
      var le := link[page];
      assert le == ring[k + 1] && le.prev in ring && le.next in ring;
      ListsDropped(ring, head, link, chunks, k);
      hide Lists, Dropped;
      ListDel(le, ring, k + 1);
      ring := Removed(ring, k + 1);
      chunks := Dropped(chunks, k);
    }

    /** list_add of page p behind `prev`, the entry at position k of the list. */
    method LinkAfter(prev: PageLink, p: nat, ghost k: nat, ghost size: nat)
      requires Listed(ring, head, link, chunks) && k < |ring| && prev == ring[k] && p < |link| && link[p] !in ring
      modifies this`ring, this`chunks, head, link
      ensures chunks == WithChunk(old(chunks), k, Chunk(p, size)) && ring == LinkedList.Inserted(old(ring), k, link[p])
      ensures Listed(ring, head, link, chunks)
    {
      Members();
      assert prev in ring && prev.next in ring;
      ListsInserted(ring, head, link, chunks, k, Chunk(p, size));
      InsertBetween(link[p], prev, prev.next, ring, k);
      ring := LinkedList.Inserted(ring, k, link[p]);
      chunks := WithChunk(chunks, k, Chunk(p, size));
    }

    /** The second half of alloc_pages: chunk k, which starts at `page`, loses its first n pages. */
    method Carve(page: nat, n: nat, ghost k: nat)
      requires Valid() && k < |chunks| && page == chunks[k].base && 0 < n <= chunks[k].size
      modifies this`nrFree, this`ring, this`chunks, head, link, property, flags
      ensures Valid() && chunks == Carved(old(chunks), k, n)
      ensures nrFree == old(nrFree) - n
    {
      hide Coalesced, SizesOk, FlagsOk, Carved, Dropped, WithChunk, IsBase, InMemory, Listed, Removed;
      ghost var cs := chunks;
      CarvedStep(n, k);
      var prev := link[page].prev;
      Unlink(page, k);
      if property[page] > n {
        var p := page + n;
        property[p] := property[page] - n;
        flags[p] := true;
        LinkAfter(prev, p, k, property[p]);
      }
      nrFree := nrFree - n;
      flags[page] := false;
    }

    /** list_add(le, &base->page_link) with le the entry of base itself. */
    ghost predicate SelfLinked(base: nat)
      requires base < |link|
      reads link, head
    {
      link[base].prev == link[base] && link[base].next == head && head.prev == link[base]
    }

    /** Then nothing with the head in it is a ring: the entry before the head is before itself. */
    lemma NoRing(base: nat, r: seq<PageLink>)
      requires base < |link| && LinksOk(link, head) && SelfLinked(base) && head in r
      ensures !Ring(r)
    {
      if Ring(r) {
        var j :| 0 <= j < |r| && r[j] == head;
        assert r[Before(j, |r|)] == link[base] != head;
        RingPrev(r, Before(j, |r|));
      }
    }

    lemma Spoilt(base: nat)
      requires base < |link| && SelfLinked(base)
      ensures !Valid()
    {
      hide Coalesced, Ordered, SizesOk, FlagsOk, InMemory, Sum;
      if Valid() {
        NoRing(base, ring);
      }
    }

    /** list_add behind the last entry: once, and then once more behind the entry just added. */
    method AddTail(le: PageLink, base: nat, ghost i: nat, ghost n: nat, ghost phase: nat)
      requires base < |link| && LinksOk(link, head) && le.next == head
      requires if phase == 0
               then Listed(ring, head, link, chunks) && i + 1 == |chunks| && le == ring[i + 1] && link[base] !in ring
               else le == link[base]
      modifies this`ring, this`chunks, head, link
      ensures phase == 0 ==> link[base].next == head && le.next == link[base]
      ensures phase > 0 ==> SelfLinked(base)
    {
      if phase == 0 {
        Members();
        assert le in ring;
      }
      InsertBetween(link[base], le, le.next, ring, i + 1);
    }

    /**
     The insertion of free_pages.  For a page behind the last chunk it does not stop after the
     insertion at the end, and links the entry to itself.
     */
    method InsertFree(base: nat, ghost n: nat) returns (ghost i: nat)
      requires Listed(ring, head, link, chunks) && base < |link| && link[base] !in ring && LinksOk(link, head)
      requires !IsBase(chunks, base) && Ordered(chunks)
      modifies this`ring, this`chunks, head, link
      ensures Low(old(chunks), base) ==>
                Place(old(chunks), i, base) && Listed(ring, head, link, chunks)
                && chunks == WithChunk(old(chunks), i, Chunk(base, n))
      ensures !Low(old(chunks), base) ==> SelfLinked(base)
    {
      hide Ring, Lists, WithChunk, IsBase;
      ghost var cs, phase := chunks, 0;
      i := 0;
      HeadFacts();
      if head.next == head {
        LinkAfter(head, base, 0, n);
        return;
      }
      var le := head.next;
      while le != head
        invariant phase == 0 ==> i < |cs| && Listed(ring, head, link, chunks) && chunks == cs && i + 1 < |ring|
                                 && le == ring[i + 1] != head && (forall j | 0 <= j < i :: cs[j].base <= base) && link[base] !in ring
        invariant phase == 1 ==> !Low(cs, base) && link[base].next == head && le == link[base]
        invariant phase == 2 ==> !Low(cs, base) && SelfLinked(base) && le == head
        invariant 0 <= phase <= 2
        decreases 2 - phase, |cs| - i
      {
        if phase == 0 {
          EntryFacts(i);
        }
        var page := le.owner;
        if base < page {
          assert cs[i].base <= cs[|cs| - 1].base;
          LinkAfter(le.prev, base, i, n);
          break;
        } else if le.next == head {
          AddTail(le, base, i, n, phase);
          phase := phase + 1;
        }
        le := le.next;
        i := i + 1;
      }
    }

    /** List, sizes and marks fit the chunks, which may touch each other. */
    ghost predicate Consistent()
      reads this, ring, property, flags
    {
      && LinksOk(link, head) && |link| == property.Length == flags.Length
      && Listed(ring, head, link, chunks) && Ordered(chunks) && InMemory(chunks, |link|)
      && SizesOk(property[..], chunks) && FlagsOk(flags[..], chunks)
    }

    /** free_pages looks at the entry before: a chunk that ends where this one starts takes it in. */
    method MergeBack(base: nat, ghost k: nat, ghost low: bool) returns (front: nat)
      requires if low then Consistent() && k < |chunks| && chunks[k].base == base
               else LinksOk(link, head) && |link| == property.Length && base < |link| && SelfLinked(base) && property[base] > 0
      modifies this`ring, this`chunks, head, link, property, flags
      ensures if low
              then Consistent() && chunks == JoinedIf(old(chunks), k)
                   && (if Touching(old(chunks), k) then 0 < k <= |chunks| && front == chunks[k - 1].base
                       else k < |chunks| && front == chunks[k].base)
              else front == base && SelfLinked(base)
    {
      front := base;
      if low {
        EntryFacts(k);
        if k > 0 {
          EntryFacts(k - 1);
        }
      }
      var le := link[base].prev;
      if le != head {
        var p := le.owner;
        if p + property[p] == base {
          Absorb(p, base, k);
          front := p;
        }
      }
    }

    /** free_pages looks at the entry behind. */
    method MergeAhead(base: nat, ghost k: nat, ghost low: bool)
      requires if low then Consistent() && k < |chunks| && chunks[k].base == base
               else LinksOk(link, head) && |link| == property.Length && base < |link| && SelfLinked(base)
      modifies this`ring, this`chunks, head, link, property, flags
      ensures if low then Consistent() && chunks == JoinedIf(old(chunks), k + 1) else SelfLinked(base)
    {
      if low {
        EntryFacts(k);
        if k + 1 < |chunks| {
          EntryFacts(k + 1);
        }
      }
      var le := link[base].next;
      if le != head {
        var p := le.owner;
        if base + property[base] == p {
          Absorb(base, p, k + 1);
        }
      }
    }

    /** The chunk at p takes in the one at q, which follows it. */
    method Absorb(p: nat, q: nat, ghost k: nat)
      requires Consistent() && Touching(chunks, k) && p == chunks[k - 1].base && q == chunks[k].base
      modifies this`ring, this`chunks, head, link, property, flags
      ensures Consistent() && chunks == Joined(old(chunks), k)
    {
      ghost var cs := chunks;
      JoinedMarks(property[..], flags[..], cs, k, |link|);
      property[p] := property[p] + property[q];
      flags[q] := false;
      Unlink(q, k);
      JoinedLists(ring, head, link, cs, k);
      chunks := Joined(cs, k);
    }

    /**
     free_pages.  In front of the last free chunk, or with nothing free, the list stays sorted,
     disjoint and coalesced.  Behind the last chunk the entry ends up linked to itself, so the
     list is a ring no longer.
     */
    method FreePages(base: nat, n: nat) returns (ghost i: nat)
      requires Valid() && n > 0 && base + n <= |link| && Free(chunks, Chunk(base, n))
      modifies this`nrFree, this`ring, this`chunks, head, link, property, flags
      ensures Valid() <==> Low(old(chunks), base)
      ensures Low(old(chunks), base) ==>
                Place(old(chunks), i, base) && chunks == Returned(old(chunks), i, Chunk(base, n))
      ensures !Low(old(chunks), base) ==> SelfLinked(base)
      ensures Low(old(chunks), base) ==>
                forall i | 0 < i < |chunks| :: chunks[i - 1].base + chunks[i - 1].size < chunks[i].base
      ensures nrFree == old(nrFree) + n
    {
      hide Coalesced, Ordered, SizesOk, FlagsOk, InMemory, WithChunk, Returned, JoinedIf, Sum, Place, Free, IsBase, Listed;
      ghost var cs, b, low := chunks, Chunk(base, n), Low(chunks, base);
      FreeReady(b);
      ClearFlags(base, n);
      property[base] := n;
      flags[base] := true;
      nrFree := nrFree + n;
      i := InsertFree(base, n);
      if low {
        InsertedMarks(old(property[..]), old(flags[..]), property[..], flags[..], cs, i, b);
        ReturnedSteps(cs, i, b);
      }
      ghost var k := i;
      var front := MergeBack(base, k, low);
      k := if low && Touching(WithChunk(cs, i, b), i) then i - 1 else i;
      MergeAhead(front, k, low);
      if low {
        Gaps(chunks);
      } else {
        Spoilt(base);
      }
    }

    lemma FreeReady(b: Chunk)
      requires Valid() && b.size > 0 && End(b) <= |link| && Free(chunks, b)
      ensures !IsBase(chunks, b.base) && b.base < |link| && link[b.base] !in ring && Ordered(chunks)
      ensures forall p | b.base <= p < End(b) :: !flags[p]
      ensures property.Length == flags.Length == |link|
    {
      hide Sum, Ring;
      FreeNotBase(chunks, b);
      NotListed(ring, head, link, chunks, b.base);
    }

    /** The first loop of free_pages: none of the pages may be marked, and they stay unmarked. */
    method ClearFlags(base: nat, n: nat)
      requires base + n <= flags.Length && forall p | base <= p < base + n :: !flags[p]
      modifies flags
      ensures flags[..] == old(flags[..])
    {
      for p := base to base + n
        invariant flags[..] == old(flags[..])
      {
        flags[p] := false;
        assert flags[..] == old(flags[..]);
      }
    }

    lemma HeadFacts()
      requires Listed(ring, head, link, chunks)
      ensures |ring| == |chunks| + 1 && ring[0] == head
      ensures if chunks == [] then head.next == head else head.next == ring[1] != head
    {
    }

    /** The list around the entry of chunk i. */
    lemma EntryFacts(i: nat)
      requires Listed(ring, head, link, chunks) && i < |chunks| && LinksOk(link, head)
      ensures |ring| == |chunks| + 1 && ring[i + 1].owner == chunks[i].base
      ensures ring[i + 1].prev == ring[i]
      ensures if i + 1 < |chunks| then ring[i + 1].next == ring[i + 2] != head else ring[i + 1].next == head
    {
    }

    /** What taking pages from chunk k means for the list and the marks. */
    lemma CarvedStep(n: nat, k: nat)
      requires Valid() && k < |chunks| && 0 < n <= chunks[k].size
      ensures var cs, page, p, rest := chunks, chunks[k].base, chunks[k].base + n, chunks[k].size - n;
              && page < |link| && property[page] == cs[k].size && link[page].prev == ring[k]
              && k + 1 < |ring| && k < |Removed(ring, k + 1)| && Removed(ring, k + 1)[k] == ring[k]
              && Coalesced(Carved(cs, k, n)) && Sum(Carved(cs, k, n)) + n == Sum(cs) && InMemory(Carved(cs, k, n), |link|)
              && if rest > 0 then
                   && p < |link| && link[p] !in Removed(ring, k + 1)
                   && Carved(cs, k, n) == WithChunk(Dropped(cs, k), k, Chunk(p, rest))
                   && SizesOk(property[..][p := rest], Carved(cs, k, n))
                   && FlagsOk(flags[..][p := true][page := false], Carved(cs, k, n))
                 else
                   && Carved(cs, k, n) == Dropped(cs, k)
                   && SizesOk(property[..], Carved(cs, k, n)) && FlagsOk(flags[..][page := false], Carved(cs, k, n))
    {
      hide FlagsOk, SizesOk, Coalesced, InMemory, Listed, LinksOk, Carved, Dropped, WithChunk, IsBase, Sum;
      CarvedPlace(n, k);
      CarvedOk(chunks, k, n);
      assert Ordered(chunks) by { CoalescedOrdered(chunks); }
      hide Ordered;
      CarvedMarks(property[..], flags[..], chunks, k, n);
      CarvedIs(chunks, k, n);
    }

    lemma CarvedPlace(n: nat, k: nat)
      requires Valid() && k < |chunks| && 0 < n <= chunks[k].size
      ensures var page, p := chunks[k].base, chunks[k].base + n;
              && page < |link| && property[page] == chunks[k].size && link[page].prev == ring[k]
              && k + 1 < |ring| && k < |Removed(ring, k + 1)| && Removed(ring, k + 1)[k] == ring[k]
              && (n < chunks[k].size ==> p < |link| && link[p] !in Removed(ring, k + 1))
    {
      hide FlagsOk, Coalesced, Sum, Dropped, IsBase;
      assert Ordered(chunks) by { CoalescedOrdered(chunks); }
      CarvedNew(chunks, k, n);
      InMemoryAt(chunks, |link|, k);
      assert link[chunks[k].base] == ring[k + 1] && property[..][chunks[k].base] == chunks[k].size;
      hide SizesOk, InMemory, Ordered;
      if n < chunks[k].size {
        NotListed(ring, head, link, chunks, chunks[k].base + n);
      }
    }
  }

  /** Two chunks never touch. */
  lemma Gaps(cs: seq<Chunk>)
    requires Coalesced(cs)
    ensures forall i | 0 < i < |cs| :: cs[i - 1].base + cs[i - 1].size < cs[i].base
  {
  }

  lemma CoalescedOrdered(cs: seq<Chunk>)
    requires Coalesced(cs)
    ensures Ordered(cs)
  {
  }

  /** Two frees on an empty list, the second behind the first, spoil it. */
  method TailCase() returns (m: BestFitManager)
    ensures !m.Valid()
  {
    hide BestFitManager.Valid, Returned, Free, Place, BestFitManager.SelfLinked;
    FirstFreed();
    var a := new ListEntry(0);
    var b := new ListEntry(1);
    var c := new ListEntry(2);
    m := new BestFitManager([a, b, c]);
    var i := m.FreePages(0, 1);
    i := m.FreePages(2, 1);
  }

  lemma FirstFreed()
    ensures Free([], Chunk(0, 1)) && Free([Chunk(0, 1)], Chunk(2, 1))
    ensures forall i: nat | Place([], i, 0) :: i == 0 && Returned([], i, Chunk(0, 1)) == [Chunk(0, 1)]
  {
  }

  /** The freed pages lie in front of some free chunk, or nothing is free. */
  predicate Low(cs: seq<Chunk>, base: nat)
  {
    cs == [] || base < cs[|cs| - 1].base
  }

  lemma ListsDropped(ring: seq<PageLink>, head: PageLink, link: seq<PageLink>, cs: seq<Chunk>, k: nat)
    requires Lists(ring, head, link, cs) && k < |cs|
    ensures Lists(Removed(ring, k + 1), head, link, Dropped(cs, k))
  {
    DroppedIndex(cs, k);
    hide Dropped;
    var r, q := Removed(ring, k + 1), Dropped(cs, k);
    forall i | 0 <= i < |q| ensures q[i].base < |link| && r[i + 1] == link[q[i].base] {
      assert r[i + 1] == ring[if i < k then i + 1 else i + 2];
    }
  }

  lemma ListsInserted(ring: seq<PageLink>, head: PageLink, link: seq<PageLink>, cs: seq<Chunk>, k: nat, c: Chunk)
    requires Lists(ring, head, link, cs) && k < |ring| && c.base < |link|
    ensures Lists(LinkedList.Inserted(ring, k, link[c.base]), head, link, WithChunk(cs, k, c))
  {
    InsertedIndex(cs, k, c);
    hide WithChunk;
    var r, q := LinkedList.Inserted(ring, k, link[c.base]), WithChunk(cs, k, c);
    forall i | 0 <= i < |q| ensures q[i].base < |link| && r[i + 1] == link[q[i].base] {
      if i < k {
        assert r[i + 1] == ring[i + 1] == link[cs[i].base];
      } else if i > k {
        assert r[i + 1] == ring[i] == link[cs[i - 1].base];
      }
    }
  }

  /** The first pages of the joined chunks are those without the second chunk's. */
  lemma JoinedLists(ring: seq<PageLink>, head: PageLink, link: seq<PageLink>, cs: seq<Chunk>, k: nat)
    requires 0 < k < |cs| && Lists(ring, head, link, Dropped(cs, k))
    ensures Lists(ring, head, link, Joined(cs, k))
  {
    JoinedIndex(cs, k);
    DroppedIndex(cs, k);
    hide Joined, Dropped;
    assert forall i | 0 <= i < |cs| - 1 :: Joined(cs, k)[i].base == Dropped(cs, k)[i].base;
  }

  lemma JoinedOrdered(cs: seq<Chunk>, k: nat)
    requires Ordered(cs) && Touching(cs, k)
    ensures Ordered(Joined(cs, k))
  {
    JoinedIndex(cs, k);
    forall i, j | 0 <= i < j < |cs| - 1 ensures End(Joined(cs, k)[i]) <= Joined(cs, k)[j].base {
      JoinedAt(cs, k, i, j);
      assert End(cs[if i < k - 1 then i else i + 1]) <= cs[if j < k then j else j + 1].base;
    }
  }

  lemma JoinedMarks(property: seq<nat>, flags: seq<bool>, cs: seq<Chunk>, k: nat, n: nat)
    requires SizesOk(property, cs) && FlagsOk(flags, cs) && Ordered(cs) && Touching(cs, k) && InMemory(cs, n)
    requires |property| == |flags| == n
    ensures var p, q := cs[k - 1].base, cs[k].base;
            && p < n && q < n && p != q
            && SizesOk(property[p := property[p] + property[q]], Joined(cs, k))
            && FlagsOk(flags[q := false], Joined(cs, k)) && InMemory(Joined(cs, k), n) && Ordered(Joined(cs, k))
  {
    var p, q, j := cs[k - 1].base, cs[k].base, Joined(cs, k);
    JoinedIndex(cs, k);
    JoinedOrdered(cs, k);
    DroppedIndex(cs, k);
    forall x | 0 <= x < n ensures IsBase(j, x) <==> IsBase(cs, x) && x != q {
      BasesDropped(cs, k, x);
      SameBases(cs, k, x);
    }
    hide Joined, Dropped;
  }

  lemma SameBases(cs: seq<Chunk>, k: nat, x: nat)
    requires 0 < k < |cs|
    ensures IsBase(Joined(cs, k), x) <==> IsBase(Dropped(cs, k), x)
  {
    JoinedIndex(cs, k);
    DroppedIndex(cs, k);
    hide Joined, Dropped;
    assert forall i | 0 <= i < |cs| - 1 :: Joined(cs, k)[i].base == Dropped(cs, k)[i].base;
  }

  /** The two merges, one after the other. */
  lemma ReturnedSteps(cs: seq<Chunk>, i: nat, b: Chunk)
    requires Coalesced(cs) && Place(cs, i, b.base) && b.size > 0 && Free(cs, b)
    ensures i <= |cs|
    ensures var a := WithChunk(cs, i, b);
            var c := JoinedIf(a, i);
            var k := if Touching(a, i) then i else i + 1;
            && i < |a| && a[i].base == b.base && JoinedIf(c, k) == Returned(cs, i, b)
            && Coalesced(Returned(cs, i, b)) && Sum(Returned(cs, i, b)) == Sum(cs) + b.size
  {
    InsertedIndex(cs, i, b);
    ReturnedOk(cs, i, b);
  }

  lemma FreeNotBase(cs: seq<Chunk>, b: Chunk)
    requires Ordered(cs) && Free(cs, b) && b.size > 0
    ensures forall page | b.base <= page < End(b) :: !IsBase(cs, page)
  {
  }

  lemma InsertedMarks(property: seq<nat>, flags: seq<bool>, property': seq<nat>, flags': seq<bool>,
                      cs: seq<Chunk>, i: nat, b: Chunk)
    requires SizesOk(property, cs) && FlagsOk(flags, cs) && Coalesced(cs) && InMemory(cs, |flags|)
    requires Place(cs, i, b.base) && b.size > 0 && Free(cs, b) && End(b) <= |flags| == |property|
    requires property' == property[b.base := b.size] && flags' == flags[b.base := true]
    ensures var q := WithChunk(cs, i, b);
            SizesOk(property', q) && FlagsOk(flags', q) && InMemory(q, |flags|) && Ordered(q)
  {
    InsertedOk(cs, i, b);
    FreeNotBase(cs, b);
    InsertedSizes(property, property', cs, i, b);
    InsertedFlags(flags, flags', cs, i, b);
    hide WithChunk;
  }

  lemma InsertedSizes(property: seq<nat>, property': seq<nat>, cs: seq<Chunk>, i: nat, b: Chunk)
    requires SizesOk(property, cs) && i <= |cs| && b.base < |property| && !IsBase(cs, b.base)
    requires property' == property[b.base := b.size] && InMemory(cs, |property|) && End(b) <= |property|
    ensures SizesOk(property', WithChunk(cs, i, b)) && InMemory(WithChunk(cs, i, b), |property|)
  {
    InsertedIndex(cs, i, b);
    hide WithChunk;
    assert forall k | 0 <= k < |cs| :: cs[k].base != b.base;
  }

  lemma InsertedFlags(flags: seq<bool>, flags': seq<bool>, cs: seq<Chunk>, i: nat, b: Chunk)
    requires FlagsOk(flags, cs) && i <= |cs| && b.base < |flags| && flags' == flags[b.base := true]
    ensures FlagsOk(flags', WithChunk(cs, i, b))
  {
    hide IsBase;
    forall x | 0 <= x < |flags| ensures flags'[x] <==> IsBase(WithChunk(cs, i, b), x) {
      BasesAdded(cs, i, b, x);
    }
  }

  /** A page that starts no chunk is not on the list. */
  lemma NotListed(ring: seq<PageLink>, head: PageLink, link: seq<PageLink>, cs: seq<Chunk>, page: nat)
    requires Lists(ring, head, link, cs) && LinksOk(link, head) && page < |link| && !IsBase(cs, page)
    ensures link[page] !in ring
  {
    forall i | 0 <= i < |ring| ensures ring[i] != link[page] {
      assert i > 0 ==> ring[i] == link[cs[i - 1].base] && link[cs[i - 1].base].owner == cs[i - 1].base;
    }
  }

  lemma BasesDropped(cs: seq<Chunk>, k: nat, page: nat)
    requires Ordered(cs) && k < |cs|
    ensures IsBase(Dropped(cs, k), page) <==> IsBase(cs, page) && page != cs[k].base
  {
    var q := Dropped(cs, k);
    DroppedIndex(cs, k);
    hide Dropped;
    if IsBase(cs, page) && page != cs[k].base {
      var i :| 0 <= i < |cs| && cs[i].base == page;
      assert q[if i < k then i else i - 1].base == page;
    }
  }

  lemma BasesAdded(cs: seq<Chunk>, i: nat, b: Chunk, page: nat)
    requires i <= |cs|
    ensures IsBase(WithChunk(cs, i, b), page) <==> IsBase(cs, page) || page == b.base
  {
    var q := WithChunk(cs, i, b);
    InsertedIndex(cs, i, b);
    hide WithChunk;
    assert q[i] == b;
    if IsBase(cs, page) {
      var k :| 0 <= k < |cs| && cs[k].base == page;
      assert q[if k < i then k else k + 1].base == page;
    }
  }

  /** The page behind the first n of a larger chunk starts no chunk. */
  lemma CarvedNew(cs: seq<Chunk>, k: nat, n: nat)
    requires Ordered(cs) && k < |cs| && 0 < n <= cs[k].size
    ensures n < cs[k].size ==> !IsBase(cs, cs[k].base + n)
  {
  }

  lemma CarvedIs(cs: seq<Chunk>, k: nat, n: nat)
    requires k < |cs| && n <= cs[k].size
    ensures Carved(cs, k, n) == if n < cs[k].size then WithChunk(Dropped(cs, k), k, Chunk(cs[k].base + n, cs[k].size - n))
                                else Dropped(cs, k)
  {
  }

  lemma CarvedMarks(property: seq<nat>, flags: seq<bool>, cs: seq<Chunk>, k: nat, n: nat)
    requires SizesOk(property, cs) && FlagsOk(flags, cs) && Ordered(cs) && k < |cs| && 0 < n <= cs[k].size
    requires |property| == |flags| && InMemory(cs, |flags|)
    ensures var page, p, rest := cs[k].base, cs[k].base + n, cs[k].size - n;
            if rest > 0 then
              && p < |flags|
              && SizesOk(property[p := rest], Carved(cs, k, n)) && FlagsOk(flags[p := true][page := false], Carved(cs, k, n))
            else SizesOk(property, Carved(cs, k, n)) && FlagsOk(flags[page := false], Carved(cs, k, n))
    ensures InMemory(Carved(cs, k, n), |flags|)
  {
    hide Ordered, SizesOk, Carved, IsBase, InMemory;
    var page, p := cs[k].base, cs[k].base + n;
    CarvedSizes(property, cs, k, n);
    assert page < |flags| by { InMemoryAt(cs, |flags|, k); }
    forall x | 0 <= x < |flags|
      ensures IsBase(Carved(cs, k, n), x) <==> (IsBase(cs, x) && x != page) || (n < cs[k].size && x == p)
    {
      CarvedBase(cs, k, n, x);
    }
  }

  lemma InMemoryAt(cs: seq<Chunk>, n: nat, k: nat)
    requires InMemory(cs, n) && k < |cs|
    ensures End(cs[k]) <= n
  {
  }

  lemma CarvedBase(cs: seq<Chunk>, k: nat, n: nat, x: nat)
    requires Ordered(cs) && k < |cs| && 0 < n <= cs[k].size
    ensures IsBase(Carved(cs, k, n), x) <==> (IsBase(cs, x) && x != cs[k].base) || (n < cs[k].size && x == cs[k].base + n)
  {
    CarvedIs(cs, k, n);
    hide Carved;
    BasesDropped(cs, k, x);
    if n < cs[k].size {
      DroppedIndex(cs, k);
      BasesAdded(Dropped(cs, k), k, Chunk(cs[k].base + n, cs[k].size - n), x);
    }
  }

  lemma CarvedSizes(property: seq<nat>, cs: seq<Chunk>, k: nat, n: nat)
    requires SizesOk(property, cs) && Ordered(cs) && k < |cs| && 0 < n <= cs[k].size && InMemory(cs, |property|)
    ensures var p, rest := cs[k].base + n, cs[k].size - n;
            && (rest > 0 ==> p < |property|)
            && SizesOk(if rest > 0 then property[p := rest] else property, Carved(cs, k, n))
    ensures InMemory(Carved(cs, k, n), |property|)
  {
    if n < cs[k].size {
      ShrunkSizes(property, cs, k, n);
    } else {
      DroppedSizes(property, cs, k);
    }
  }

  lemma ShrunkSizes(property: seq<nat>, cs: seq<Chunk>, k: nat, n: nat)
    requires SizesOk(property, cs) && Ordered(cs) && k < |cs| && 0 < n < cs[k].size && InMemory(cs, |property|)
    ensures var p, c := cs[k].base + n, Chunk(cs[k].base + n, cs[k].size - n);
            p < |property| && SizesOk(property[p := c.size], cs[k := c]) && InMemory(cs[k := c], |property|)
  {
    var p, c := cs[k].base + n, Chunk(cs[k].base + n, cs[k].size - n);
    forall i | 0 <= i < |cs| && i != k ensures cs[i].base != p {
      if i < k {
        assert End(cs[i]) <= cs[k].base;
      } else {
        assert End(cs[k]) <= cs[i].base;
      }
    }
  }

  lemma DroppedSizes(property: seq<nat>, cs: seq<Chunk>, k: nat)
    requires SizesOk(property, cs) && k < |cs| && InMemory(cs, |property|)
    ensures SizesOk(property, Dropped(cs, k)) && InMemory(Dropped(cs, k), |property|)
  {
    DroppedIndex(cs, k);
    hide Dropped;
  }

  lemma {:induction false} TooLarge(cs: seq<Chunk>, n: nat)
    requires n > Sum(cs)
    ensures forall i | 0 <= i < |cs| :: cs[i].size < n
  {
    forall i | 0 <= i < |cs| ensures cs[i].size < n {
      SumDropped(cs, i);
    }
  }
}