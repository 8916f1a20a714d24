/**
 The state of demand paging as one value: page frames (table pages included), reference counts,
 the free and swappable sets and the swap disk; what every operation keeps; and the plain
 page-to-contents map all of it stands for.
 */
module PageState {
  import opened Sv39

  const DISK_WORDS := MAX_DISK_NSECS * SECT_WORDS

  /** A page frame: 512 words, read as a table of entries or as data. */
  type Frame = seq<nat>

  /** A page cleared by memset. */
  function ZeroPage(): (z: Frame)
    ensures |z| == NPTEENTRY && forall k | 0 <= k < NPTEENTRY :: z[k] == 0
  {
    seq(NPTEENTRY, _ => 0)
  }

  /** The table pages: the top one, one per used 1 GiB, one per used 2 MiB. */
  datatype Key = TopKey | MidKey(i: nat) | LeafKey(i: nat, j: nat)

  datatype State = State(
    frames: seq<Frame>,
    ref: seq<int>,
    pra: seq<nat>,               // page->pra_vaddr
    free: set<nat>,
    swappable: set<nat>,         // the pages on the swap manager's list
    disk: seq<nat>,
    tables: map<Key, nat>)       // which frame holds which table

  // ----- the table tree -----

  /**
   Entry w leads to the table for `key`, and is valid exactly when there is one.  Of its flags
   only U and V are set: R, W or X would make it a leaf for the hardware.
   */
  ghost predicate Points(w: nat, tables: map<Key, nat>, key: Key)
  {
    if key in tables then IsValid(w) && PageOf(w) == tables[key] && w % 1024 == 17 else !IsValid(w)
  }

  ghost predicate KeyOk(tables: map<Key, nat>, key: Key)
  {
    match key
    case TopKey => true
    case MidKey(i) => i < KERNEL_SLOT
    case LeafKey(i, j) => i < KERNEL_SLOT && j < NPTEENTRY && MidKey(i) in tables
  }

  /** The table pages form a tree without sharing. */
  ghost predicate TreeOk(fr: seq<Frame>, tables: map<Key, nat>)
  {
    && TopKey in tables
    && (forall key <- tables :: KeyOk(tables, key) && tables[key] < |fr|)
    && (forall a <- tables, b <- tables :: tables[a] == tables[b] ==> a == b)
    && (forall f | 0 <= f < |fr| :: |fr[f]| == NPTEENTRY)
    && (forall i | 0 <= i < KERNEL_SLOT :: Points(fr[tables[TopKey]][i], tables, MidKey(i)))
    && (forall i, j | MidKey(i) in tables && 0 <= j < NPTEENTRY ::
          Points(fr[tables[MidKey(i)]][j], tables, LeafKey(i, j)))
  }

  ghost predicate IsTable(tables: map<Key, nat>, f: int)
  {
    exists key <- tables :: tables[key] == f
  }

  /** The leaf entry of a page; 0 where there is no leaf table. */
  ghost function EntryIn(fr: seq<Frame>, tables: map<Key, nat>, v: Vpn): nat
    requires TreeOk(fr, tables) && InRange(v)
  {
    if LeafKey(v.i, v.j) in tables then fr[tables[LeafKey(v.i, v.j)]][v.k] else 0
  }

  /** The same entry found through memory alone, as the hardware walk does. */
  ghost function WalkFrom(fr: seq<Frame>, root: nat, v: Vpn): nat
    requires root < |fr| && InRange(v) && forall f | 0 <= f < |fr| :: |fr[f]| == NPTEENTRY
  {
    var w1 := fr[root][v.i];
    if !IsValid(w1) || !(0 <= PageOf(w1) < |fr|) then 0
    else
      var w0 := fr[PageOf(w1)][v.j];
      if !IsValid(w0) || !(0 <= PageOf(w0) < |fr|) then 0 else fr[PageOf(w0)][v.k]
  }

  lemma WalkIsEntry(fr: seq<Frame>, tables: map<Key, nat>, v: Vpn)
    requires TreeOk(fr, tables) && InRange(v)
    ensures WalkFrom(fr, tables[TopKey], v) == EntryIn(fr, tables, v)
  {
    assert Points(fr[tables[TopKey]][v.i], tables, MidKey(v.i));
    assert LeafKey(v.i, v.j) in tables ==> KeyOk(tables, LeafKey(v.i, v.j));
    if MidKey(v.i) in tables {
      assert Points(fr[tables[MidKey(v.i)]][v.j], tables, LeafKey(v.i, v.j));
    }
  }

  /** Two addresses have the same leaf slot exactly when their 27-bit page numbers agree. */
  lemma SameSlot(fr: seq<Frame>, tables: map<Key, nat>, la: nat, lb: nat)
    requires TreeOk(fr, tables)
    requires var u, v := IndexOf(la), IndexOf(lb); LeafKey(u.i, u.j) in tables && LeafKey(v.i, v.j) in tables
    ensures var u, v := IndexOf(la), IndexOf(lb);
            (tables[LeafKey(u.i, u.j)], u.k) == (tables[LeafKey(v.i, v.j)], v.k)
            <==> la / PGSIZE % 0x800_0000 == lb / PGSIZE % 0x800_0000
  {
    SameIndices(la, lb);
  }

  /** Writes word k of frame f. */
  function Poke(fr: seq<Frame>, f: nat, k: nat, w: nat): seq<Frame>
    requires f < |fr| && k < |fr[f]|
  {
    var table: Frame := fr[f][k := w];
    fr[f := table]
  }

  /** Writing a page that is no table changes neither the tree nor any entry. */
  lemma DataWrite(fr: seq<Frame>, tables: map<Key, nat>, f: nat, x: Frame)
    requires TreeOk(fr, tables) && f < |fr| && !IsTable(tables, f) && |x| == NPTEENTRY
    ensures TreeOk(fr[f := x], tables)
    ensures forall v | InRange(v) :: EntryIn(fr[f := x], tables, v) == EntryIn(fr, tables, v)
  {
    var fr' := fr[f := x];
    assert forall key <- tables :: fr'[tables[key]] == fr[tables[key]];
  }

  /** Writing one word of a leaf table changes exactly one entry. */
  lemma LeafWrite(fr: seq<Frame>, tables: map<Key, nat>, v: Vpn, w: nat)
    requires TreeOk(fr, tables) && InRange(v) && LeafKey(v.i, v.j) in tables
    ensures var f := tables[LeafKey(v.i, v.j)];
            var fr' := Poke(fr, f, v.k, w);
            && TreeOk(fr', tables)
            && forall u | InRange(u) :: EntryIn(fr', tables, u) == if u == v then w else EntryIn(fr, tables, u)
  {
    var f := tables[LeafKey(v.i, v.j)];
    var fr' := Poke(fr, f, v.k, w);
    assert forall key <- tables :: key != LeafKey(v.i, v.j) ==> fr'[tables[key]] == fr[tables[key]];
  }

  /** The table above `key` and the slot in it that leads to `key`. */
  function ParentKey(key: Key): Key
    requires key != TopKey
  {
    match key
    case MidKey(i) => TopKey
    case LeafKey(i, j) => MidKey(i)
  }

  function ParentSlot(key: Key): nat
    requires key != TopKey
  {
    match key
    case MidKey(i) => i
    case LeafKey(i, j) => j
  }

  /** Frames after hanging the zeroed frame f into the tree as the table for `key`. */
  ghost function Hung(fr: seq<Frame>, tables: map<Key, nat>, key: Key, f: nat): seq<Frame>
    requires TreeOk(fr, tables) && key != TopKey && ParentKey(key) in tables && KeyOk(tables, key) && f < |fr|
  {
    var p := tables[ParentKey(key)];
    Poke(fr[f := ZeroPage()], p, ParentSlot(key), PteCreate(f, PTE_U + PTE_V))
  }

  /** A new, zeroed table page changes no entry. */
  lemma TableWrite(fr: seq<Frame>, tables: map<Key, nat>, key: Key, f: nat)
    requires TreeOk(fr, tables) && key != TopKey && key !in tables && ParentKey(key) in tables && KeyOk(tables, key)
    requires f < |fr| && !IsTable(tables, f)
    ensures TreeOk(Hung(fr, tables, key, f), tables[key := f])
    ensures forall v | InRange(v) ::
              EntryIn(Hung(fr, tables, key, f), tables[key := f], v) == EntryIn(fr, tables, v)
  {
    HungFrames(fr, tables, key, f);
    HungTree(fr, tables, key, f);
    hide Hung, Points;
  }

  lemma HungFrames(fr: seq<Frame>, tables: map<Key, nat>, key: Key, f: nat)
    requires TreeOk(fr, tables) && key != TopKey && key !in tables && ParentKey(key) in tables && KeyOk(tables, key)
    requires f < |fr| && !IsTable(tables, f)
    ensures var fr' := Hung(fr, tables, key, f);
            && |fr'| == |fr| && fr'[f] == ZeroPage()
            && forall k <- tables | k != ParentKey(key) :: fr'[tables[k]] == fr[tables[k]]
  {
  }

  lemma HungTree(fr: seq<Frame>, tables: map<Key, nat>, key: Key, f: nat)
    requires TreeOk(fr, tables) && key != TopKey && key !in tables && ParentKey(key) in tables && KeyOk(tables, key)
    requires f < |fr| && !IsTable(tables, f)
    ensures TreeOk(Hung(fr, tables, key, f), tables[key := f])
  {
    var fr', t' := Hung(fr, tables, key, f), tables[key := f];
    var w := PteCreate(f, PTE_U + PTE_V);
    PteRoundTrip(f, PTE_U + PTE_V);
    PteFlags(f, PTE_U + PTE_V);
    assert w % 1024 == 17;
    hide PteCreate, EntryFor;
    assert forall k <- tables :: k != ParentKey(key) ==> fr'[tables[k]] == fr[tables[k]];
    assert fr'[f] == ZeroPage();
    forall i | 0 <= i < KERNEL_SLOT ensures Points(fr'[t'[TopKey]][i], t', MidKey(i)) {
      assert Points(fr[tables[TopKey]][i], tables, MidKey(i));
    }
    forall i, j | MidKey(i) in t' && 0 <= j < NPTEENTRY ensures Points(fr'[t'[MidKey(i)]][j], t', LeafKey(i, j)) {
      assert LeafKey(i, j) in tables ==> KeyOk(tables, LeafKey(i, j));
      if MidKey(i) in tables {
        assert Points(fr[tables[MidKey(i)]][j], tables, LeafKey(i, j));
      }
    }
  }

  // ----- entries and mappings of a state -----

  ghost predicate Tree(s: State)
  {
    TreeOk(s.frames, s.tables)
  }

  ghost function Entry(s: State, v: Vpn): nat
    requires Tree(s) && InRange(v)
  {
    EntryIn(s.frames, s.tables, v)
  }

  ghost predicate Maps(s: State, v: Vpn, f: int)
    requires Tree(s)
  {
    InRange(v) && IsValid(Entry(s, v)) && PageOf(Entry(s, v)) == f
  }

  /** The virtual pages mapped to frame f. */
  ghost function Mappings(s: State, f: int): (m: set<Vpn>)
    requires Tree(s)
    ensures forall v :: v in m <==> Maps(s, v, f)
  {
    set i: nat, j: nat, k: nat |
      i < KERNEL_SLOT && j < NPTEENTRY && k < NPTEENTRY && Maps(s, Vpn(i, j, k), f) :: Vpn(i, j, k)
  }

  /** One reference for being an allocated table; the top table is part of the kernel image. */
  ghost function TableRef(s: State, f: int): int
  {
    if exists key <- s.tables :: key != TopKey && s.tables[key] == f then 1 else 0
  }

  ghost predicate IsFrame(s: State, f: int)
  {
    0 <= f < |s.frames|
  }

  // ----- the invariant -----

  ghost predicate ShapeOk(s: State)
  {
    |s.ref| == |s.frames| && |s.pra| == |s.frames| && |s.disk| == DISK_WORDS
  }

  /** A mapped page is a real page, not free, and not the top table. */
  ghost predicate MappedOk(s: State)
    requires Tree(s)
  {
    forall v | InRange(v) && IsValid(Entry(s, v)) ::
      var f := PageOf(Entry(s, v));
      IsFrame(s, f) && f !in s.free && f != s.tables[TopKey]
  }

  /** No table is mapped as a user page. */
  ghost predicate TablesUnmapped(s: State)
    requires Tree(s)
  {
    forall v | InRange(v) && IsValid(Entry(s, v)) :: !IsTable(s.tables, PageOf(Entry(s, v)))
  }

  ghost predicate FreeOk(s: State)
  {
    forall f <- s.free :: IsFrame(s, f) && !IsTable(s.tables, f)
  }

  /** A swappable page is mapped exactly once, at its recorded address, which has a disk slot. */
  ghost predicate SwappableOk(s: State, f: nat)
    requires Tree(s)
  {
    && IsFrame(s, f) && f < |s.pra|
    && s.pra[f] < VA_LIMIT && HasSlot(IndexOf(s.pra[f]))
    && Mappings(s, f) == {IndexOf(s.pra[f])}
  }

  ghost predicate SwapOk(s: State)
    requires Tree(s)
  {
    forall f <- s.swappable :: SwappableOk(s, f)
  }

  /** An entry that is not valid is empty or names the page's own disk slot. */
  ghost predicate EntriesOk(s: State)
    requires Tree(s)
  {
    forall v | InRange(v) && !IsValid(Entry(s, v)) ::
      Entry(s, v) == 0 || (Entry(s, v) == SwapEntry(v) && HasSlot(v))
  }

  ghost predicate RefOk(s: State, f: int)
    requires Tree(s) && ShapeOk(s) && IsFrame(s, f)
  {
    s.ref[f] == |Mappings(s, f)| + TableRef(s, f)
  }

  /** Reference counts are exact. */
  ghost predicate RefsOk(s: State)
    requires Tree(s) && ShapeOk(s)
  {
    forall f | 0 <= f < |s.frames| :: RefOk(s, f)
  }

  /** Tables, entries, free pages and reference counts are in order, though a table may be mapped. */
  ghost predicate Counted(s: State)
  {
    ShapeOk(s) && Tree(s) && MappedOk(s) && FreeOk(s) && EntriesOk(s) && RefsOk(s)
  }

  /** No table is mapped either, whatever is on the swap manager's list. */
  ghost predicate Exact(s: State)
  {
    Counted(s) && TablesUnmapped(s)
  }

  /** So is the swap manager's list. */
  ghost predicate Sound(s: State)
  {
    Exact(s) && SwapOk(s)
  }

  /** The step from s to s' neither spoils nor repairs the swap manager's list. */
  ghost predicate SwapKept(s: State, s': State)
    requires Tree(s) && Tree(s')
  {
    SwapOk(s) <==> SwapOk(s')
  }

  /** Allocated, but not (yet) a table and not mapped anywhere. */
  ghost predicate Held(s: State, f: int)
    requires Tree(s)
  {
    IsFrame(s, f) && f !in s.free && !IsTable(s.tables, f) && Mappings(s, f) == {}
  }

  // ----- the plain memory a state stands for -----

  function Slot(disk: seq<nat>, n: nat): Frame
    requires |disk| == DISK_WORDS && n < MAX_SWAP_OFFSET
  {
    disk[n * 512..n * 512 + 512]
  }

  function WriteSlot(disk: seq<nat>, n: nat, x: Frame): seq<nat>
    requires |disk| == DISK_WORDS && n < MAX_SWAP_OFFSET
  {
    disk[..n * 512] + x + disk[n * 512 + 512..]
  }

  lemma WriteSlotRead(disk: seq<nat>, n: nat, x: Frame, m: nat)
    requires |disk| == DISK_WORDS && n < MAX_SWAP_OFFSET && m < MAX_SWAP_OFFSET && |x| == NPTEENTRY
    ensures |WriteSlot(disk, n, x)| == DISK_WORDS
    ensures Slot(WriteSlot(disk, n, x), m) == if m == n then x else Slot(disk, m)
  {
    var d := WriteSlot(disk, n, x);
    if m < n {
      assert d[..n * 512] == disk[..n * 512] && m * 512 + 512 <= n * 512;
      assert Slot(d, m) == d[..n * 512][m * 512..m * 512 + 512];
    } else if m > n {
      assert n * 512 + 512 <= m * 512;
      assert d[n * 512 + 512..] == disk[n * 512 + 512..];
      assert Slot(d, m) == d[n * 512 + 512..][(m - n - 1) * 512..(m - n - 1) * 512 + 512];
    }
  }

  /** The page has contents, in memory or on disk. */
  ghost predicate Present(s: State, v: Vpn)
    requires Tree(s) && InRange(v)
  {
    Entry(s, v) != 0
  }

  ghost function Contents(s: State, v: Vpn): Frame
    requires Counted(s) && InRange(v) && Present(s, v)
  {
    if IsValid(Entry(s, v)) then s.frames[PageOf(Entry(s, v))] else Slot(s.disk, Number(v) + 1)
  }

  /** The same virtual pages exist with the same contents, wherever these are kept. */
  ghost predicate SameMemory(s: State, s': State)
    requires Counted(s) && Counted(s')
  {
    forall v | InRange(v) ::
      (Present(s, v) <==> Present(s', v)) && (Present(s, v) ==> Contents(s', v) == Contents(s, v))
  }
}
