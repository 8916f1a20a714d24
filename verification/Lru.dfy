/**
 LRU ageing by list surgery: at every clock tick the pages touched since the last one move to
 the front of the list; the victim is taken from its end.
 */
module Lru {
  import opened LinkedList
  import opened Sv39

  const PTE_A := 64
  const PTE_D := 128

  type PageEntry = ListEntry<nat>

  /** The hardware set the accessed or the dirty bit of the entry. */
  predicate Touched(pte: nat)
  {
    HasFlag(pte, PTE_A) || HasFlag(pte, PTE_D)
  }

  /** pte & ~flag */
  function WithBitClear(pte: nat, flag: nat): (r: nat)
    requires flag > 0
    ensures r <= pte
  {
    if HasFlag(pte, flag) then pte - flag else pte
  }

  function Cleared(pte: nat): nat
  {
    WithBitClear(WithBitClear(pte, PTE_A), PTE_D)
  }

  lemma Bits67(hi: nat, d: nat, a: nat, lo: nat)
    requires d < 2 && a < 2 && lo < 64
    ensures var w := hi * 256 + d * 128 + a * 64 + lo;
            (HasFlag(w, PTE_A) <==> a == 1) && (HasFlag(w, PTE_D) <==> d == 1)
  {
    var w := hi * 256 + d * 128 + a * 64 + lo;
    assert w / 64 == hi * 4 + d * 2 + a;
    assert w / 128 == hi * 2 + d;
  }

  lemma Split67(pte: nat) returns (hi: nat, d: nat, a: nat, lo: nat)
    ensures d < 2 && a < 2 && lo < 64 && hi == pte / 256 && lo == pte % 64
    ensures pte == hi * 256 + d * 128 + a * 64 + lo
  {
    var q := pte / 64;
    hi, d, a, lo := q / 2 / 2, q / 2 % 2, q % 2, pte % 64;
    assert pte == q * 64 + lo && q == q / 2 * 2 + a && q / 2 == hi * 2 + d;
  }

  /** Only the two bits change. */
  lemma ClearedFlags(pte: nat)
    ensures !Touched(Cleared(pte)) && Cleared(pte) == pte / 256 * 256 + pte % 64
  {
    hide HasFlag;
    var hi, d, a, lo := Split67(pte);
    Bits67(hi, d, a, lo);
    Bits67(hi, d, 0, lo);
    Bits67(hi, 0, 0, lo);
  }

  /** Touched means bit 6 or bit 7: exactly those entries are changed by the clearing. */
  lemma TouchedBits(pte: nat)
    ensures Touched(pte) <==> pte % 256 >= 64
    ensures Touched(pte) <==> Cleared(pte) != pte
  {
    hide HasFlag;
    var hi, d, a, lo := Split67(pte);
    Bits67(hi, d, a, lo);
    ClearedFlags(pte);
    assert pte % 256 == d * 128 + a * 64 + lo;
  }

  /** The entries whose pages were touched, or those whose pages were not, in list order. */
  ghost function Select(l: seq<PageEntry>, pte: seq<nat>, touched: bool): seq<PageEntry>
    requires PagesIn(l, |pte|)
  {
    if l == [] then []
    else (if Touched(pte[l[0].owner]) == touched then [l[0]] else []) + Select(l[1..], pte, touched)
  }

  ghost predicate PagesIn(l: seq<PageEntry>, n: nat)
  {
    forall e <- l :: e.owner < n
  }

  /** Different entries stand for different pages. */
  ghost predicate PagesDistinct(l: seq<PageEntry>)
  {
    forall e <- l, f <- l :: e.owner == f.owner ==> e == f
  }

  lemma {:induction false} SelectMembers(l: seq<PageEntry>, pte: seq<nat>, touched: bool)
    requires PagesIn(l, |pte|)
    ensures forall e <- Select(l, pte, touched) :: e in l && Touched(pte[e.owner]) == touched
    ensures forall e <- l | Touched(pte[e.owner]) == touched :: e in Select(l, pte, touched)
  {
    if l != [] {
      SelectMembers(l[1..], pte, touched);
      assert forall e <- l :: e == l[0] || e in l[1..];
    }
  }

  /** Nothing is lost and nothing added. */
  lemma {:induction false} SelectAll(l: seq<PageEntry>, pte: seq<nat>)
    requires PagesIn(l, |pte|)
    ensures multiset(Select(l, pte, true) + Select(l, pte, false)) == multiset(l)
  {
    if l != [] {
      SelectAll(l[1..], pte);
      assert l == [l[0]] + l[1..];
    }
  }

  /** No entry is followed by one with a later stamp. */
  ghost predicate Sorted(l: seq<PageEntry>, stamp: map<nat, nat>, clock: nat)
  {
    && (forall e <- l :: e.owner in stamp && stamp[e.owner] <= clock)
    && forall i, j | 0 <= i < j < |l| :: stamp[l[i].owner] >= stamp[l[j].owner]
  }

  ghost predicate ListOk(l: seq<PageEntry>, n: nat, stamp: map<nat, nat>, clock: nat)
  {
    PagesIn(l, n) && PagesDistinct(l) && Sorted(l, stamp, clock)
  }

  lemma LastIsOldest(l: seq<PageEntry>, n: nat, stamp: map<nat, nat>, clock: nat)
    requires ListOk(l, n, stamp, clock) && l != []
    ensures ListOk(l[..|l| - 1], n, stamp, clock)
    ensures var v := l[|l| - 1].owner;
            v in stamp && forall e <- l :: e.owner in stamp && stamp[v] <= stamp[e.owner]
  {
    forall e <- l ensures e.owner in stamp && stamp[l[|l| - 1].owner] <= stamp[e.owner] {
      var i :| 0 <= i < |l| && l[i] == e;
    }
  }

  lemma NewIsFirst(l: seq<PageEntry>, n: nat, stamp: map<nat, nat>, clock: nat, x: PageEntry)
    requires ListOk(l, n, stamp, clock) && x.owner < n && forall e <- l :: e.owner != x.owner
    ensures ListOk([x] + l, n, stamp[x.owner := clock], clock)
  {
    var s, q := stamp[x.owner := clock], [x] + l;
    forall i, j | 0 <= i < j < |q| ensures s[q[i].owner] >= s[q[j].owner] {
      assert q[j] == l[j - 1];
    }
  }

  class LruManager {
    const head: PageEntry
    const pte: array<nat>                // *get_pte(pgdir, page->pra_vaddr, 0), by page
    ghost var ring: seq<PageEntry>
    ghost var clock: nat                 // ticks so far
    ghost var stamp: map<nat, nat>       // the tick at which a page was last seen touched, or its arrival

    /** The pages on the list, the most recent first. */
    ghost function Pages(): seq<PageEntry>
      requires ring != []
      reads this
    {
      ring[1..]
    }

    ghost predicate Valid()
      reads this, ring
    {
      && Ring(ring) && ring[0] == head
      && ListOk(Pages(), pte.Length, stamp, clock)
    }

    /** _lru_init_mm */
    constructor (entries: array<nat>)
      ensures Valid() && pte == entries && fresh(head) && Pages() == []
    {
      head := new ListEntry(0);
      pte := entries;
      clock, stamp := 0, map[];
      new;
      ring := [head];
    }

    /** _lru_map_swappable: a newly arrived page goes to the front. */
    method MapSwappable(entry: PageEntry)
      requires Valid() && entry !in ring && entry.owner < pte.Length
      requires forall e <- Pages() :: e.owner != entry.owner
      modifies this`ring, this`stamp, ring, entry
      ensures Valid() && Pages() == [entry] + old(Pages())
      ensures stamp == old(stamp)[entry.owner := clock]
    {
      hide ListOk;
      NewIsFirst(Pages(), pte.Length, stamp, clock, entry);
      ListAdd(head, entry, ring, 0);
      ghost var l := Pages();
      ring := Inserted(ring, 0, entry);
      stamp := stamp[entry.owner := clock];
      assert Pages() == [entry] + l;
    }

    /** _lru_swap_out_victim: the page at the end, of which no other page has an older stamp. */
    method SwapOutVictim() returns (page: nat)
      requires Valid() && Pages() != []
      modifies this`ring, ring
      ensures Valid() && |old(Pages())| > 0 && Pages() == old(Pages())[..|old(Pages())| - 1]
      ensures page == old(Pages())[|old(Pages())| - 1].owner
      ensures forall e <- old(Pages()) :: page in stamp && e.owner in stamp && stamp[page] <= stamp[e.owner]
    {
      hide ListOk;
      LastIsOldest(Pages(), pte.Length, stamp, clock);
      var entry := head.prev;
      page := entry.owner;
      ghost var n, l := |ring| - 1, Pages();
      assert entry == ring[n] == l[n - 1];
      ListDel(entry, ring, n);
      ring := Removed(ring, n);
      assert Pages() == l[..n - 1];
    }

    /** list_del and list_add of one entry. */
    method MoveToFront(temp: PageEntry, ghost k: nat, ghost all: seq<PageEntry>)
      requires Ring(ring) && ring[0] == head && 0 < k < |ring| && ring[k] == temp && forall e <- ring :: e in all
      modifies this`ring, all
      ensures Ring(ring) && ring == [head, temp] + old(ring[1..k]) + old(ring[k + 1..])
    {
      ghost var r := Removed(ring, k);
      assert temp.prev in ring && temp.next in ring && temp in ring && head in ring;
      RemovedMembers(ring, k);
      MovedRing(ring, k);
      hide Removed, Inserted;
      ListDel(temp, ring, k);
      assert head.next in r;
      InsertBetween(temp, head, head.next, r, 0);
      ring := Inserted(r, 0, temp);
    }

    /** The branch of the walk for a touched page: to the front, and its marks cleared. */
    method MoveTouched(temp: PageEntry, ghost l: seq<PageEntry>, ghost p0: seq<nat>, ghost i: nat,
                       ghost m: seq<PageEntry>, ghost s: seq<PageEntry>, ghost all: seq<PageEntry>)
      requires (forall e <- ring :: e in all) && Ring(ring) && Walking(head, l, p0, ring, i, m, s) && pte[..] == Unmarked(p0, m)
      requires i > 0 && temp == l[i - 1] && temp.owner < |p0| && Touched(p0[temp.owner])
      modifies this`ring, all, pte
      ensures Ring(ring) && Walking(head, l, p0, ring, i - 1, [temp] + m, s) && pte[..] == Unmarked(p0, [temp] + m)
      ensures |ring| == old(|ring|) > |m| + i && forall e <- ring :: e in all
      ensures ring[if |m| + i > 1 then |m| + i else 0] == old(ring[|m| + i - 1])
    {
      hide Select, Touched, Cleared, Unmarked;
      ghost var k, before := |m| + i, pte[..];
      Unseen(head, l, p0, ring, i, m, s);
      WalkMove(head, l, p0, ring, i, m, s);
      MoveToFront(temp, k, all);
      pte[temp.owner] := Cleared(pte[temp.owner]);
      assert pte[..] == before[temp.owner := Cleared(before[temp.owner])];
    }

    /** The loop of _lru_tick_event. */
    method Walk(ghost l: seq<PageEntry>, ghost p0: seq<nat>, ghost all: seq<PageEntry>)
      returns (ghost m: seq<PageEntry>, ghost s: seq<PageEntry>)
      requires Ring(ring) && Walking(head, l, p0, ring, |l|, [], []) && pte[..] == Unmarked(p0, [])
      requires forall e <- ring :: e in all
      modifies this`ring, all, pte
      ensures Ring(ring) && Walking(head, l, p0, ring, 0, m, s) && pte[..] == Unmarked(p0, m)
    {
      hide Select, Touched, Cleared, Unmarked;
      ghost var i: nat, pos: nat := |l|, |l|;
      m, s := [], [];
      var entry := head.prev;
      assert |ring| == |l| + 1 && ring[0] == head;
      while entry != head
        invariant Ring(ring) && Walking(head, l, p0, ring, i, m, s)
        invariant pos <= |m| + i && (i > 0 ==> pos == |m| + i) && entry == ring[pos]
        invariant pte[..] == Unmarked(p0, m) && (forall e <- ring :: e in all) && ring[0] == head
        decreases i, pos
      {
        if i > 0 {
          Unseen(head, l, p0, ring, i, m, s);
        } else {
          Seen(head, l, p0, ring, pos, m, s);
        }
        var page := entry.owner;
        if Touched(pte[page]) {
          var temp := entry;
          entry := entry.prev;
          MoveTouched(temp, l, p0, i, m, s, all);
          m, i, pos := [temp] + m, i - 1, if pos > 1 then pos else 0;
        } else {
          if i > 0 {
            WalkPass(head, l, p0, ring, i, m, s);
            s, i := [entry] + s, i - 1;
          }
          pos := pos - 1;
          entry := entry.prev;
        }
      }
    }

    /**
     _lru_tick_event: one walk from the end of the list to its head.  The touched pages come to
     the front and lose their marks; both groups keep their order.
     */
    method Tick()
      requires Valid()
      modifies this`ring, this`clock, this`stamp, ring, pte
      ensures Valid() && clock == old(clock) + 1
      ensures PagesIn(old(Pages()), |old(pte[..])|) &&
              Pages() == Select(old(Pages()), old(pte[..]), true) + Select(old(Pages()), old(pte[..]), false)
      ensures pte[..] == Unmarked(old(pte[..]), old(Pages()))
      ensures stamp == Stamped(old(stamp), old(pte[..]), old(Pages()), clock)
    {
      hide ListOk, Select, Unmarked, Stamped;
      ghost var l, p0 := Pages(), pte[..];
      ListParts(l, pte.Length, stamp, clock);
      WalkStart(head, l, p0, ring);
      ListAfter(l, p0, stamp, clock);
      ghost var m, s := Walk(l, p0, ring);
      stamp := Stamped(stamp, p0, l, clock + 1);
      clock := clock + 1;
      assert l[0..] == l && Pages() == m + s;
    }
  }

  /** The parts of the invariant that the walk needs. */
  lemma ListParts(l: seq<PageEntry>, n: nat, stamp: map<nat, nat>, clock: nat)
    requires ListOk(l, n, stamp, clock)
    ensures PagesIn(l, n) && PagesDistinct(l)
  {
  }

  lemma MovedRing(r: seq<PageEntry>, k: nat)
    requires 0 < k < |r|
    ensures |Removed(r, k)| > 0 && Inserted(Removed(r, k), 0, r[k]) == [r[0], r[k]] + r[1..k] + r[k + 1..]
  {
  }

  lemma RemovedMembers(r: seq<PageEntry>, k: nat)
    requires 0 < k < |r| && forall i, j | 0 <= i < j < |r| :: r[i] != r[j]
    ensures Removed(r, k)[0] == r[0] && r[k] !in Removed(r, k) && forall e <- Removed(r, k) :: e in r
  {
  }

  /** The entries after the marks of the pages in m were cleared. */
  ghost function Unmarked(pte: seq<nat>, m: seq<PageEntry>): (r: seq<nat>)
    ensures |r| == |pte|
  {
    seq(|pte|, k requires 0 <= k < |pte| => if exists e <- m :: e.owner == k then Cleared(pte[k]) else pte[k])
  }

  ghost function Stamped(stamp: map<nat, nat>, pte: seq<nat>, l: seq<PageEntry>, clock: nat): map<nat, nat>
    requires PagesIn(l, |pte|)
  {
    map k | k in stamp :: if exists e <- l :: e.owner == k && Touched(pte[k]) then clock else stamp[k]
  }

  /** One step of the walk, at ring[pos]: i entries of l are not yet seen, m and s were. */
  ghost predicate Walking(head: PageEntry, l: seq<PageEntry>, p0: seq<nat>, ring: seq<PageEntry>,
                          i: nat, m: seq<PageEntry>, s: seq<PageEntry>)
  {
    && PagesIn(l, |p0|) && PagesDistinct(l) && i <= |l| && ring == [head] + m + l[..i] + s
    && (forall a, b | 0 <= a < b < |ring| :: ring[a] != ring[b])
    && m == Select(l[i..], p0, true) && s == Select(l[i..], p0, false)
  }

  lemma WalkStart(head: PageEntry, l: seq<PageEntry>, p0: seq<nat>, ring: seq<PageEntry>)
    requires PagesIn(l, |p0|) && PagesDistinct(l) && ring == [head] + l
    requires forall a, b | 0 <= a < b < |ring| :: ring[a] != ring[b]
    ensures Walking(head, l, p0, ring, |l|, [], []) && Unmarked(p0, []) == p0
  {
    assert l[..|l|] == l && l[|l|..] == [];
  }

  lemma Unseen(head: PageEntry, l: seq<PageEntry>, p0: seq<nat>, ring: seq<PageEntry>,
               i: nat, m: seq<PageEntry>, s: seq<PageEntry>)
    requires Walking(head, l, p0, ring, i, m, s) && i > 0
    ensures ring[|m| + i] == l[i - 1] && l[i - 1] in l && l[i - 1].owner < |p0|
    ensures Unmarked(p0, m)[l[i - 1].owner] == p0[l[i - 1].owner]
  {
    var e := l[i - 1];
    SelectMembers(l[i..], p0, true);
    forall j | 0 <= j < |m| ensures m[j].owner != e.owner {
      assert m[j] in m && ring[1 + j] != ring[|m| + i];
    }
  }

  lemma Seen(head: PageEntry, l: seq<PageEntry>, p0: seq<nat>, ring: seq<PageEntry>,
             pos: nat, m: seq<PageEntry>, s: seq<PageEntry>)
    requires Walking(head, l, p0, ring, 0, m, s) && 0 < pos <= |m|
    ensures ring[pos] == m[pos - 1] && ring[pos].owner < |p0|
    ensures !Touched(Unmarked(p0, m)[ring[pos].owner])
  {
    SelectMembers(l[0..], p0, true);
    var e := ring[pos];
    assert e in m;
    ClearedFlags(p0[e.owner]);
  }

  lemma SelectOne(l: seq<PageEntry>, p0: seq<nat>, i: nat, touched: bool)
    requires PagesIn(l, |p0|) && 0 < i <= |l|
    ensures PagesIn(l[i..], |p0|) && PagesIn(l[i - 1..], |p0|) && l[i - 1].owner < |p0|
    ensures Select(l[i - 1..], p0, touched)
         == (if Touched(p0[l[i - 1].owner]) == touched then [l[i - 1]] else []) + Select(l[i..], p0, touched)
  {
    assert l[i - 1] in l && l[i - 1..][1..] == l[i..];
  }

  lemma UnmarkedOne(p0: seq<nat>, m: seq<PageEntry>, e: PageEntry)
    requires e.owner < |p0| && Unmarked(p0, m)[e.owner] == p0[e.owner]
    ensures Unmarked(p0, m)[e.owner := Cleared(p0[e.owner])] == Unmarked(p0, [e] + m)
  {
    assert forall x <- [e] + m :: x == e || x in m;
  }

  /** A touched entry is one not seen before; it moves in front of the others. */
  lemma WalkMove(head: PageEntry, l: seq<PageEntry>, p0: seq<nat>, ring: seq<PageEntry>,
                 i: nat, m: seq<PageEntry>, s: seq<PageEntry>)
    requires Walking(head, l, p0, ring, i, m, s) && i > 0 && Touched(p0[l[i - 1].owner])
    ensures var pos, e := |m| + i, l[i - 1];
            && [head, e] + ring[1..pos] + ring[pos + 1..] == [head] + ([e] + m) + l[..i - 1] + s
            && [e] + m == Select(l[i - 1..], p0, true) && s == Select(l[i - 1..], p0, false)
            && Unmarked(p0, m)[e.owner := Cleared(p0[e.owner])] == Unmarked(p0, [e] + m)
  {
    var pos, e := |m| + i, l[i - 1];
    Unseen(head, l, p0, ring, i, m, s);
    SelectOne(l, p0, i, true);
    SelectOne(l, p0, i, false);
    UnmarkedOne(p0, m, e);
    assert l[..i] == l[..i - 1] + [e];
    assert ring[1..pos] == m + l[..i - 1] && ring[pos + 1..] == s;
  }

  lemma WalkPass(head: PageEntry, l: seq<PageEntry>, p0: seq<nat>, ring: seq<PageEntry>,
                 i: nat, m: seq<PageEntry>, s: seq<PageEntry>)
    requires Walking(head, l, p0, ring, i, m, s) && i > 0 && !Touched(p0[l[i - 1].owner])
    ensures Walking(head, l, p0, ring, i - 1, m, [l[i - 1]] + s)
  {
    SelectOne(l, p0, i, true);
    SelectOne(l, p0, i, false);
    assert l[..i] == l[..i - 1] + [l[i - 1]];
  }

  /** Selecting keeps the order. */
  lemma {:induction false} SelectSorted(l: seq<PageEntry>, p0: seq<nat>, touched: bool, stamp: map<nat, nat>, clock: nat)
    requires PagesIn(l, |p0|) && Sorted(l, stamp, clock)
    ensures Sorted(Select(l, p0, touched), stamp, clock)
  {
    if l != [] {
      var r := Select(l[1..], p0, touched);
      SortedRest(l, stamp, clock);
      SelectSorted(l[1..], p0, touched, stamp, clock);
      SelectMembers(l[1..], p0, touched);
      SortedFront(l[0], r, stamp, clock);
    }
  }

  lemma SortedFront(x: PageEntry, r: seq<PageEntry>, stamp: map<nat, nat>, clock: nat)
    requires Sorted(r, stamp, clock) && x.owner in stamp && stamp[x.owner] <= clock
    requires forall e <- r :: stamp[x.owner] >= stamp[e.owner]
    ensures Sorted([x] + r, stamp, clock)
  {
    forall i, j | 0 <= i < j < |r| + 1 ensures stamp[([x] + r)[i].owner] >= stamp[([x] + r)[j].owner] {
      assert ([x] + r)[j] == r[j - 1] && r[j - 1] in r;
    }
  }

  lemma SortedRest(l: seq<PageEntry>, stamp: map<nat, nat>, clock: nat)
    requires Sorted(l, stamp, clock) && l != []
    ensures Sorted(l[1..], stamp, clock) && forall e <- l[1..] :: stamp[l[0].owner] >= stamp[e.owner]
  {
    forall e <- l[1..] ensures stamp[l[0].owner] >= stamp[e.owner] {
      var j :| 0 <= j < |l| - 1 && l[1..][j] == e;
      assert l[j + 1] == e;
    }
  }

  lemma UnmarkedAll(l: seq<PageEntry>, p0: seq<nat>)
    requires PagesIn(l, |p0|)
    ensures Unmarked(p0, Select(l, p0, true)) == Unmarked(p0, l)
  {
    SelectMembers(l, p0, true);
    var m := Select(l, p0, true);
    hide Select;
    forall k | 0 <= k < |p0| ensures Unmarked(p0, m)[k] == Unmarked(p0, l)[k] {
      ClearedUntouched(p0[k]);
      if Touched(p0[k]) {
        assert (exists e <- m :: e.owner == k) ==> (exists e <- l :: e.owner == k);
        if exists e <- l :: e.owner == k {
          var e: PageEntry :| e in l && e.owner == k;
          assert e in m;
        }
      }
    }
  }

  lemma ClearedUntouched(pte: nat)
    ensures !Touched(pte) ==> Cleared(pte) == pte
  {
  }

  lemma StampedAt(stamp: map<nat, nat>, p0: seq<nat>, l: seq<PageEntry>, clock: nat, e: PageEntry)
    requires PagesIn(l, |p0|) && e in l && e.owner in stamp
    ensures var s := Stamped(stamp, p0, l, clock);
            e.owner in s && s[e.owner] == if Touched(p0[e.owner]) then clock else stamp[e.owner]
  {
  }

  /** After the walk the touched entries come first and have the newest stamp. */
  lemma ListAfter(l: seq<PageEntry>, p0: seq<nat>, stamp: map<nat, nat>, clock: nat)
    requires ListOk(l, |p0|, stamp, clock)
    ensures ListOk(Select(l, p0, true) + Select(l, p0, false), |p0|, Stamped(stamp, p0, l, clock + 1), clock + 1)
    ensures Unmarked(p0, Select(l, p0, true)) == Unmarked(p0, l)
  {
    var m, s := Select(l, p0, true), Select(l, p0, false);
    var q, st := m + s, Stamped(stamp, p0, l, clock + 1);
    UnmarkedAll(l, p0);
    SelectMembers(l, p0, true);
    SelectMembers(l, p0, false);
    SelectSorted(l, p0, false, stamp, clock);
    hide Select, Stamped, Touched, Unmarked, Sorted;
    forall e <- q ensures e in l && e.owner in st && st[e.owner] == if Touched(p0[e.owner]) then clock + 1 else stamp[e.owner] {
      StampsOk(l, stamp, clock, e);
      StampedAt(stamp, p0, l, clock + 1, e);
    }
    SubList(l, q, |p0|);
    SortedJoin(m, s, stamp, st, clock);
  }

  lemma StampsOk(l: seq<PageEntry>, stamp: map<nat, nat>, clock: nat, e: PageEntry)
    requires Sorted(l, stamp, clock) && e in l
    ensures e.owner in stamp && stamp[e.owner] <= clock
  {
  }

  lemma SubList(l: seq<PageEntry>, q: seq<PageEntry>, n: nat)
    requires PagesIn(l, n) && PagesDistinct(l) && forall e <- q :: e in l
    ensures PagesIn(q, n) && PagesDistinct(q)
  {
  }

  /** Entries with the newest stamp in front of entries that keep theirs. */
  lemma SortedJoin(m: seq<PageEntry>, s: seq<PageEntry>, stamp: map<nat, nat>, st: map<nat, nat>, clock: nat)
    requires Sorted(s, stamp, clock)
    requires forall e <- m :: e.owner in st && st[e.owner] == clock + 1
    requires forall e <- s :: e.owner in st && st[e.owner] == stamp[e.owner]
    ensures Sorted(m + s, st, clock + 1)
  {
    var q := m + s;
    forall i, j | 0 <= i < j < |q| ensures st[q[i].owner] >= st[q[j].owner] {
      assert if i < |m| then q[i] in m else q[i] == s[i - |m|] && q[i] in s;
      assert if j < |m| then q[j] in m else q[j] == s[j - |m|] && q[j] in s;
    }
  }
}