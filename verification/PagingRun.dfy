/**
 Whole runs of loads and stores over demand paging: whatever gets evicted when, they see a plain
 memory.
 */
module PagingRun {
  import opened Sv39
  import opened PageState
  import opened PageOps
  import opened PageGrowth
  import opened PageMapping
  import opened PageWalk
  import opened Paging
  import PageCounts
  import opened LinkedList
  import opened Vma

  // ----- plain memory -----

  /** The memory a program believes it has: page contents, whatever they were at the start. */
  type Plain = map<Vpn, Frame>

  datatype Op = LoadOp(addr: nat) | StoreOp(addr: nat, word: nat)

  function WordAt(addr: nat): nat
  {
    addr % PGSIZE / 8
  }

  ghost predicate PlainOk(m: Plain)
  {
    forall v <- m :: |m[v]| == NPTEENTRY
  }

  /** The values that a sequence of operations loads from plain memory; stores yield 0. */
  ghost function PlainRun(m: Plain, ops: seq<Op>): seq<nat>
    requires PlainOk(m) && forall op <- ops :: IndexOf(op.addr) in m
    decreases |ops|
  {
    if ops == [] then []
    else
      var v, k := IndexOf(ops[0].addr), WordAt(ops[0].addr);
      match ops[0]
      case LoadOp(_) => [m[v][k]] + PlainRun(m, ops[1..])
      case StoreOp(_, word) => [0] + PlainRun(Stored(m, v, k, word), ops[1..])
  }

  /** Plain memory after the operations. */
  ghost function PlainAfter(m: Plain, ops: seq<Op>): Plain
    requires PlainOk(m) && forall op <- ops :: IndexOf(op.addr) in m
    decreases |ops|
  {
    if ops == [] then m
    else
      match ops[0]
      case LoadOp(_) => PlainAfter(m, ops[1..])
      case StoreOp(addr, word) => PlainAfter(Stored(m, IndexOf(addr), WordAt(addr), word), ops[1..])
  }

  ghost function Stored(m: Plain, v: Vpn, k: nat, word: nat): (m': Plain)
    requires PlainOk(m) && v in m && k < NPTEENTRY
    ensures PlainOk(m') && m'.Keys == m.Keys
  {
    var x: Frame := m[v][k := word];
    m[v := x]
  }

  // ----- the same memory, word by word -----

  /** Words by address / 8. */
  type Words = imap<nat, nat>

  /** Page number, word and byte make up the address. */
  lemma AddressParts(a: nat)
    requires a < VA_LIMIT
    ensures InRange(IndexOf(a)) && WordAt(a) < NPTEENTRY
    ensures Number(IndexOf(a)) * 4096 + WordAt(a) * 8 + a % 8 == a
    ensures Number(IndexOf(a)) * 512 + WordAt(a) == a / 8
  {
    IndexNumber(a);
    assert a == a / 4096 * 4096 + a % 4096;
    assert a % 4096 == a % 4096 / 8 * 8 + a % 8;
  }

  /** Two addresses name the same word of the same page exactly when they agree but for the last three bits. */
  lemma SameWord(a: nat, b: nat)
    requires a < VA_LIMIT && b < VA_LIMIT
    ensures IndexOf(a) == IndexOf(b) && WordAt(a) == WordAt(b) <==> a / 8 == b / 8
  {
    AddressParts(a);
    AddressParts(b);
    hide IndexOf, WordAt;
    if a / 8 == b / 8 {
      LastDigit(Number(IndexOf(a)), WordAt(a), Number(IndexOf(b)), WordAt(b));
      NumberInjective(IndexOf(a), IndexOf(b));
    }
  }

  /** The words of a plain memory. */
  ghost function WordsOf(m: Plain): Words
    requires PlainOk(m)
  {
    imap n: nat | n * 8 < VA_LIMIT && IndexOf(n * 8) in m :: m[IndexOf(n * 8)][WordAt(n * 8)]
  }

  ghost predicate WordsCover(w: Words, ops: seq<Op>)
  {
    forall op <- ops :: op.addr / 8 in w
  }

  /** What the operations load from a memory of words. */
  ghost function WordRun(w: Words, ops: seq<Op>): seq<nat>
    requires WordsCover(w, ops)
    decreases |ops|
  {
    if ops == [] then []
    else
      match ops[0]
      case LoadOp(addr) => [w[addr / 8]] + WordRun(w, ops[1..])
      case StoreOp(addr, word) => [0] + WordRun(w[addr / 8 := word], ops[1..])
  }

  ghost function WordsAfter(w: Words, ops: seq<Op>): Words
    decreases |ops|
  {
    if ops == [] then w
    else
      match ops[0]
      case LoadOp(_) => WordsAfter(w, ops[1..])
      case StoreOp(addr, word) => WordsAfter(w[addr / 8 := word], ops[1..])
  }

  /** The word stored last at word address n before operation i, or the one there at the start. */
  ghost function LastStored(w: Words, ops: seq<Op>, i: nat, n: nat): nat
    requires i <= |ops| && n in w
  {
    if i == 0 then w[n]
    else if ops[i - 1].StoreOp? && ops[i - 1].addr / 8 == n then ops[i - 1].word
    else LastStored(w, ops, i - 1, n)
  }

  /** A load yields what was stored last at the same address, its last three bits aside. */
  lemma {:induction false} LoadsLastStored(w: Words, ops: seq<Op>, i: nat)
    requires WordsCover(w, ops) && i < |ops|
    ensures |WordRun(w, ops)| == |ops|
    ensures WordRun(w, ops)[i] == if ops[i].LoadOp? then LastStored(w, ops, i, ops[i].addr / 8) else 0
    decreases |ops|
  {
    var rest := ops[1..];
    var w' := if ops[0].LoadOp? then w else w[ops[0].addr / 8 := ops[0].word];
    assert WordsCover(w', rest);
    if i > 0 {
      LoadsLastStored(w', rest, i - 1);
      if ops[i].LoadOp? {
        LastStoredLater(w, ops, i, ops[i].addr / 8);
      }
    } else if rest != [] {
      LoadsLastStored(w', rest, 0);
    }
  }

  lemma {:induction false} LastStoredLater(w: Words, ops: seq<Op>, i: nat, n: nat)
    requires 0 < i <= |ops| && n in w
    ensures var w' := if ops[0].LoadOp? then w else w[ops[0].addr / 8 := ops[0].word];
            n in w' && LastStored(w, ops, i, n) == LastStored(w', ops[1..], i - 1, n)
  {
    if i > 1 {
      LastStoredLater(w, ops, i - 1, n);
      assert ops[1..][i - 2] == ops[i - 1];
    }
  }

  /** Storing a word of a page is storing at one word address. */
  lemma StoredWords(m: Plain, addr: nat, word: nat)
    requires PlainOk(m) && addr < VA_LIMIT && IndexOf(addr) in m
    ensures WordAt(addr) < NPTEENTRY && addr / 8 in WordsOf(m)
    ensures m[IndexOf(addr)][WordAt(addr)] == WordsOf(m)[addr / 8]
    ensures WordsOf(Stored(m, IndexOf(addr), WordAt(addr), word)) == WordsOf(m)[addr / 8 := word]
  {
    AddressParts(addr);
    var m' := Stored(m, IndexOf(addr), WordAt(addr), word);
    SameWord(addr / 8 * 8, addr);
    forall n: nat | n * 8 < VA_LIMIT && IndexOf(n * 8) in m
      ensures m'[IndexOf(n * 8)][WordAt(n * 8)] == if n == addr / 8 then word else m[IndexOf(n * 8)][WordAt(n * 8)]
    {
      AddressParts(n * 8);
      SameWord(n * 8, addr);
    }
    hide IndexOf, WordAt;
    assert WordsOf(m') == WordsOf(m)[addr / 8 := word];
  }

  /** The plain memory of pages is the memory of words. */
  lemma {:induction false} WordsRun(m: Plain, ops: seq<Op>)
    requires PlainOk(m) && forall op <- ops :: op.addr < VA_LIMIT && IndexOf(op.addr) in m
    ensures WordsCover(WordsOf(m), ops) && PlainRun(m, ops) == WordRun(WordsOf(m), ops)
    ensures PlainOk(PlainAfter(m, ops)) && WordsOf(PlainAfter(m, ops)) == WordsAfter(WordsOf(m), ops)
    decreases |ops|
  {
    hide WordsOf, IndexOf, WordAt;
    if ops != [] {
      forall op <- ops ensures op.addr / 8 in WordsOf(m) {
        StoredWords(m, op.addr, 0);
      }
      var addr := ops[0].addr;
      if ops[0].LoadOp? {
        StoredWords(m, addr, 0);
        WordsRun(m, ops[1..]);
      } else {
        StoredWords(m, addr, ops[0].word);
        WordsRun(Stored(m, IndexOf(addr), WordAt(addr), ops[0].word), ops[1..]);
      }
    }
  }

  // ----- what runs keep -----

  /** Every mapped page may be read and written, and is mapped once. */
  ghost predicate UserPages(s: State)
    requires Sound(s)
  {
    forall v | InRange(v) && IsValid(Entry(s, v)) :: UserPage(s, v)
  }

  ghost predicate UserPage(s: State, v: Vpn)
    requires Tree(s) && InRange(v)
  {
    && HasFlag(Entry(s, v), PTE_R) && HasFlag(Entry(s, v), PTE_W)
    && Mappings(s, PageOf(Entry(s, v))) == {v}
  }

  /** UserPages, closed. */
  ghost predicate RunOk(s: State)
  {
    forall t {:trigger Open(t)} :: t == s ==> Sound(t) && UserPages(t)
  }

  /** m gives every present page its contents. */
  ghost predicate Agree(s: State, m: Plain)
    requires Sound(s)
  {
    forall v | InRange(v) && Present(s, v) :: v in m && m[v] == Contents(s, v)
  }

  ghost predicate Agrees(s: State, m: Plain)
  {
    forall t {:trigger Open(t)} :: t == s ==> Sound(t) && Agree(t, m)
  }

  /** v is mapped to f, alone. */
  ghost predicate MappedAt(s: State, v: Vpn, f: nat)
  {
    forall t {:trigger Open(t)} :: t == s ==> Sound(t) && Maps(t, v, f) && Mappings(t, f) == {v} && IsFrame(t, f)
  }

  ghost predicate Kept(s: State, s': State)
    requires Sound(s) && Sound(s')
  {
    forall v | InRange(v) && Present(s, v) :: Present(s', v) && Contents(s', v) == Contents(s, v)
  }

  /** No page present in s changes its contents; more pages may be present. */
  ghost predicate Keeps(s: State, s': State)
  {
    forall t, t' {:trigger OpenBrought(t, t')} :: t == s && t' == s' ==> Sound(t) && Sound(t') && Kept(t, t')
  }

  lemma KeptAgrees(s: State, s': State, m: Plain)
    requires Keeps(s, s') && Agrees(s', m)
    ensures Agrees(s, m)
  {
    assert OpenBrought(s, s') && Open(s');
    forall t | t == s ensures Sound(t) && Agree(t, m) {
      assert Kept(s, s');
    }
  }

  /** After v was brought in, another mapped page has its old entry. */
  lemma BroughtOther(s: State, s': State, v: Vpn, f: nat, perm: nat, u: Vpn)
    requires BroughtEntries(s, s', v, f, perm, true) && InRange(u) && u != v && IsValid(Entry(s', u))
    ensures Entry(s', u) == Entry(s, u) && PageOf(Entry(s', u)) != f
  {
    SwapEntryFacts(u);
    assert u in Mappings(s', PageOf(Entry(s', u)));
  }

  lemma BroughtAlone(s: State, s': State, v: Vpn, f: nat, perm: nat, u: Vpn)
    requires BroughtEntries(s, s', v, f, perm, true) && UserPages(s)
    requires InRange(u) && u != v && IsValid(Entry(s', u))
    ensures Mappings(s', PageOf(Entry(s', u))) == {u}
  {
    hide MappedOk, TablesUnmapped, FreeOk, SwapOk, EntriesOk, RefsOk, BroughtContents;
    var g := PageOf(Entry(s', u));
    BroughtOther(s, s', v, f, perm, u);
    PteRoundTrip(f, perm);
    assert UserPage(s, u);
    assert u in Mappings(s', g) && u in Mappings(s, g);
    forall w | w in Mappings(s', g) ensures w == u {
      if w != v {
        BroughtOther(s, s', v, f, perm, w);
        assert w in Mappings(s, g);
      }
    }
  }

  lemma BroughtPages(s: State, s': State, v: Vpn, f: nat, a: Area)
    requires Sound(s) && UserPages(s) && BroughtEntries(s, s', v, f, PermOf(a), true) && Writable(a)
    ensures UserPages(s')
  {
    forall u | InRange(u) && IsValid(Entry(s', u)) ensures UserPage(s', u) {
      if u == v {
        FaultFlags(a, f);
        PteRoundTrip(f, PermOf(a));
      } else {
        BroughtOther(s, s', v, f, PermOf(a), u);
        BroughtAlone(s, s', v, f, PermOf(a), u);
        assert UserPage(s, u);
      }
    }
  }

  lemma FaultStep(s: State, s': State, v: Vpn, f: nat, a: Area)
    requires RunOk(s) && Brought(s, s', v, f, PermOf(a), true) && Writable(a)
    ensures RunOk(s') && Keeps(s, s') && MappedAt(s', v, f)
  {
    assert Open(s) && OpenBrought(s, s');
    PteRoundTrip(f, PermOf(a));
    BroughtPages(s, s', v, f, a);
    assert Kept(s, s');
  }

  lemma StoreStep(s: State, v: Vpn, f: nat, k: nat, word: nat)
    requires RunOk(s) && MappedAt(s, v, f) && k < NPTEENTRY
    ensures InRange(v) && f < |s.frames| && k < |s.frames[f]|
    ensures var s' := s.(frames := Poke(s.frames, f, k, word));
            && RunOk(s') && Inv(s')
            && forall m: Plain :: Agrees(s', m) ==>
                 v in m && Agrees(s, m[v := s.frames[f]]) && m[v] == s.frames[f][k := word]
  {
    assert Open(s);
    var x: Frame := s.frames[f][k := word];
    var s' := s.(frames := s.frames[f := x]);
    StoreContents(s, v, f, x);
    DataWriteInv(s, f, x);
    assert UserPages(s');
    forall m: Plain | Agrees(s', m) ensures v in m && Agrees(s, m[v := s.frames[f]]) && m[v] == x {
      assert Open(s');
      assert Present(s', v);
      assert Agree(s, m[v := s.frames[f]]);
    }
  }

  lemma LoadStepAgrees(s: State, v: Vpn, f: nat, m: Plain)
    requires MappedAt(s, v, f) && Agrees(s, m)
    ensures f < |s.frames| && |s.frames[f]| == NPTEENTRY && v in m && m[v] == s.frames[f]
  {
    assert Open(s);
    assert Present(s, v);
  }

  // ----- running -----

  /** Address addr lies in a writable area of mm and its page has a disk slot. */
  ghost predicate UserAddress(r: seq<ListEntry<Area>>, addr: nat)
  {
    && addr < VA_LIMIT && HasSlot(IndexOf(addr))
    && !NoneContains(r, addr)
    && forall i | 1 <= i < |r| && Contains(r[i].owner, addr) :: Writable(r[i].owner)
  }

  /** Pages enough for the missing tables and one page more. */
  ghost predicate EnoughPages(s: State)
  {
    |s.free| + |s.swappable| > MissingTables(s, Vpn(0, 0, 0))
  }

  /** All pages with a disk slot share one leaf table. */
  lemma CanFaultNow(s: State, v: Vpn)
    requires Sound(s) && InRange(v) && HasSlot(v) && !IsValid(Entry(s, v)) && EnoughPages(s)
    ensures CanFault(s, v, true) && MissingTables(s, v) == MissingTables(s, Vpn(0, 0, 0))
  {
    assert v.i == 0 && v.j == 0;
  }

  /** A fault makes the missing tables and exchanges a page, so enough pages remain. */
  lemma StillEnough(s: State, s': State, v: Vpn, f: nat, perm: nat)
    requires EnoughPages(s) && HasSlot(v) && Brought(s, s', v, f, perm, true)
    requires |s'.tables| <= |s.tables| + MissingTables(s, v)
    ensures EnoughPages(s')
  {
    assert OpenBrought(s, s');
    PteRoundTrip(f, perm);
    NonZeroHasTable(s', v);
    assert v.i == 0 && v.j == 0;
  }

  /** A page found mapped stays as it is. */
  lemma SamePage(s: State, v: Vpn)
    requires RunOk(s) && Inv(s) && InRange(v) && Sound(s) && IsValid(Entry(s, v))
    ensures PageOf(Entry(s, v)) >= 0 && MappedAt(s, v, PageOf(Entry(s, v))) && Keeps(s, s)
  {
    assert Open(s);
    MappedRef(s, v);
    assert Kept(s, s);
  }

  lemma TranslatedTo(s: State, v: Vpn, f: nat)
    requires MappedAt(s, v, f)
    ensures Sound(s) && Maps(s, v, f)
  {
    assert Open(s);
  }

  /** What the hardware needs and keeps while a program runs. */
  ghost predicate Running(k: Kernel, mm: MmStruct)
    reads k, k.frames, k.ref, k.pra, k.disk, mm, mm.ring
  {
    && k.Valid() && k.swapInitOk && mm.Valid() && AreasBelow(mm.ring, VA_LIMIT)
    && RunOk(k.View()) && EnoughPages(k.View())
  }

  /** Runs can start as soon as paging is set up with three free pages: two tables and one page. */
  method Boot(memory: seq<Frame>, at: nat, first: nat, pras: seq<nat>, contents: seq<nat>)
    returns (k: Kernel, mm: MmStruct)
    requires forall f | 0 <= f < |memory| :: |memory[f]| == NPTEENTRY
    requires at < first && first + 3 <= |memory| && memory[at] == BootTable()
    requires |pras| == |memory| && |contents| == DISK_WORDS
    ensures Running(k, mm) && fresh(k) && fresh(k.frames) && fresh(k.ref) && fresh(k.pra) && fresh(k.disk)
    ensures fresh(mm) && fresh(mm.head)
    ensures k.swappable == {} && |k.free| == |memory| - first && k.tables == map[TopKey := at]
    ensures mm.ring == [mm.head] && forall v | InRange(v) :: NotMapped(k.View(), v)
  {
    k := new Kernel(memory, at, first, pras, contents);
    k.swapInitOk := true;
    mm := new MmStruct();
    BootRunOk(k.View());
    assert Open(k.View());
  }

  lemma BootRunOk(s: State)
    requires Sound(s) && forall v | InRange(v) :: Entry(s, v) == 0
    ensures RunOk(s)
  {
    assert UserPages(s);
  }

  /** Makes the page of addr mapped: the translation, and a page fault when it fails. */
  method Translate(k: Kernel, mm: MmStruct, addr: nat) returns (f: nat)
    requires Running(k, mm) && UserAddress(mm.ring, addr)
    modifies k`swappable, k`free, k`tables, k.ref, k.frames, k.disk, k.pra, mm`mmapCache
    ensures Running(k, mm)
    ensures MappedAt(k.View(), IndexOf(addr), f) && Keeps(old(k.View()), k.View())
  {
    ghost var s, v := k.View(), IndexOf(addr);
    InvOpen(s);
    var got := k.GetPage(addr);
    if got.None? {
      CanFaultNow(s, v);
      var ret;
      ghost var page, area;
      ret, page, area := k.DoPgfault(mm, addr);
      FaultStep(s, k.View(), v, page, area);
      StillEnough(s, k.View(), v, page, PermOf(area));
      got := k.GetPage(addr);
      TranslatedTo(k.View(), v, page);
    } else {
      SamePage(s, v);
    }
    f := got.value;
  }

  lemma Addressable(s: State, v: Vpn, f: nat)
    requires MappedAt(s, v, f)
    ensures f < |s.frames| && |s.frames[f]| == NPTEENTRY
  {
    assert Open(s);
  }

  /** A load instruction. */
  method Load(k: Kernel, mm: MmStruct, addr: nat) returns (word: nat)
    requires Running(k, mm) && UserAddress(mm.ring, addr)
    modifies k`swappable, k`free, k`tables, k.ref, k.frames, k.disk, k.pra, mm`mmapCache
    ensures Running(k, mm) && Keeps(old(k.View()), k.View())
    ensures forall m: Plain :: Agrees(k.View(), m) ==>
              var v := IndexOf(addr); v in m && |m[v]| == NPTEENTRY && word == m[v][addr % 4096 / 8]
  {
    var f := Translate(k, mm, addr);
    Addressable(k.View(), IndexOf(addr), f);
    word := k.frames[f][WordAt(addr)];
    forall m: Plain | Agrees(k.View(), m)
      ensures IndexOf(addr) in m && m[IndexOf(addr)] == k.frames[f]
    {
      LoadStepAgrees(k.View(), IndexOf(addr), f, m);
    }
  }

  /** A store instruction. */
  method Store(k: Kernel, mm: MmStruct, addr: nat, word: nat) returns (ghost was: Frame)
    requires Running(k, mm) && UserAddress(mm.ring, addr)
    modifies k`swappable, k`free, k`tables, k.ref, k.frames, k.disk, k.pra, mm`mmapCache
    ensures Running(k, mm)
    ensures |was| == NPTEENTRY
    ensures forall m: Plain :: Agrees(k.View(), m) ==>
              var v := IndexOf(addr);
              v in m && Agrees(old(k.View()), m[v := was]) && m[v] == was[addr % 4096 / 8 := word]
  {
    var f := Translate(k, mm, addr);
    ghost var s1 := k.View();
    Addressable(s1, IndexOf(addr), f);
    was := k.frames[f];
    StoreStep(s1, IndexOf(addr), f, WordAt(addr), word);
    k.WritePte(f, WordAt(addr), word);
    forall m: Plain | Agrees(k.View(), m) ensures Agrees(old(k.View()), m[IndexOf(addr) := was]) {
      KeptAgrees(old(k.View()), s1, m[IndexOf(addr) := was]);
    }
  }

  // ----- runs -----

  ghost function PresentPages(s: State): (r: set<Vpn>)
    requires Tree(s)
    ensures forall v :: v in r <==> InRange(v) && Present(s, v)
  {
    set i: nat, j: nat, k: nat |
      i < KERNEL_SLOT && j < NPTEENTRY && k < NPTEENTRY && Present(s, Vpn(i, j, k)) :: Vpn(i, j, k)
  }

  /** The contents of all present pages. */
  ghost function AllContents(s: State): Plain
    requires Sound(s)
  {
    map v | v in PresentPages(s) :: Contents(s, v)
  }

  lemma AllContentsAgree(s: State)
    requires Sound(s)
    ensures Agree(s, AllContents(s)) && PlainOk(AllContents(s))
  {
    forall v | v in PresentPages(s) ensures |Contents(s, v)| == NPTEENTRY {
      if IsValid(Entry(s, v)) {
        MappedRef(s, v);
      } else {
        SwapEntryFacts(v);
      }
    }
  }

  /**
   Any sequence of loads and stores, with page faults wherever the translation is missing and
   victims chosen in any way: each load yields the word stored last at the same address / 8, or
   the one there at the start, and the pages finally present hold the words stored last.  At the
   start the memory has the contents of the pages present then, and arbitrary other contents.
   */
  method Run(k: Kernel, mm: MmStruct, ops: seq<Op>) returns (outs: seq<nat>, ghost init: Plain)
    requires Running(k, mm) && forall op <- ops :: UserAddress(mm.ring, op.addr)
    modifies k`swappable, k`free, k`tables, k.ref, k.frames, k.disk, k.pra, mm`mmapCache
    ensures Running(k, mm) && PlainOk(init) && Agrees(old(k.View()), init)
    ensures WordsCover(WordsOf(init), ops) && outs == WordRun(WordsOf(init), ops)
    ensures forall i | 0 <= i < |ops| :: |outs| == |ops| &&
              outs[i] == if ops[i].LoadOp? then LastStored(WordsOf(init), ops, i, ops[i].addr / 8) else 0
    ensures exists m: Plain :: PlainOk(m) && Agrees(k.View(), m) && WordsOf(m) == WordsAfter(WordsOf(init), ops)
  {
    hide Agrees, WordsOf, Running;
    outs, init := RunPages(k, mm, ops);
    WordsRun(init, ops);
    forall i | 0 <= i < |ops|
      ensures |outs| == |ops| && outs[i] == if ops[i].LoadOp? then LastStored(WordsOf(init), ops, i, ops[i].addr / 8) else 0
    {
      LoadsLastStored(WordsOf(init), ops, i);
    }
  }

  /** The same over a plain memory of pages. */
  method RunPages(k: Kernel, mm: MmStruct, ops: seq<Op>) returns (outs: seq<nat>, ghost init: Plain)
    requires Running(k, mm) && forall op <- ops :: UserAddress(mm.ring, op.addr)
    modifies k`swappable, k`free, k`tables, k.ref, k.frames, k.disk, k.pra, mm`mmapCache
    ensures Running(k, mm)
    ensures PlainOk(init) && Agrees(old(k.View()), init) && forall op <- ops :: IndexOf(op.addr) in init
    ensures outs == PlainRun(init, ops) && Agrees(k.View(), PlainAfter(init, ops))
    decreases |ops|
  {
    hide Agrees, Keeps, RunOk, EnoughPages, IndexOf, UserAddress;
    if ops == [] {
      StartRun(k.View());
      return [], AllContents(k.View());
    }
    var word, rest := 0, [];
    match ops[0] {
      case LoadOp(addr) =>
        word := Load(k, mm, addr);
        ghost var s1 := k.View();
        rest, init := RunPages(k, mm, ops[1..]);
        KeptAgrees(old(k.View()), s1, init);
      case StoreOp(addr, w) =>
        ghost var was := Store(k, mm, addr, w);
        ghost var next;
        rest, next := RunPages(k, mm, ops[1..]);
        init := next[IndexOf(addr) := was];
        assert Stored(init, IndexOf(addr), WordAt(addr), w) == next;
    }
    outs := [word] + rest;
  }

  lemma StartRun(s: State)
    requires Inv(s)
    ensures Sound(s) && Agrees(s, AllContents(s)) && PlainOk(AllContents(s))
  {
    assert Open(s);
    AllContentsAgree(s);
  }

  // ----- runs that spoil the counts or map a table -----

  /**
   Reached from the boot state: one page fault puts a page on the swap manager's list; removing
   its mapping, faulting again and evicting the first page then leaves a count that is too high.
   */
  method StaleVictimReached(memory: seq<Frame>, at: nat, first: nat, pras: seq<nat>, contents: seq<nat>)
    returns (k: Kernel, ghost ops: seq<PageCounts.Op>)
    requires forall f | 0 <= f < |memory| :: |memory[f]| == NPTEENTRY
    requires at < first && first + 4 <= |memory| && memory[at] == BootTable()
    requires |pras| == |memory| && |contents| == DISK_WORDS
    ensures k.Valid() && Exact(k.View()) && PageCounts.Runs(k.View(), ops) && !PageCounts.StayExact(k.View(), ops)
    ensures |ops| == 5 && PageCounts.StayExact(k.View(), ops[..4])
  {
    ghost var f;
    k, f := FirstFault(memory, at, first, pras, contents);
    assert k.free != {};
    ghost var g :| g in k.free;
    FirstSound(k.View(), f);
    PageCounts.StaleVictim(k.View(), f, g, PTE_U);
    ops := PageCounts.Stale(IndexOf(k.View().pra[f]), k.View().pra[f], f, g, PTE_U);
    hide Sound, PageCounts.Runs, PageCounts.StayExact, PageCounts.VictimsGood, PageCounts.StaleAt;
  }

  /**
   Reached from the boot state, with three free pages: after one page fault page_insert of that
   page in front of a missing leaf table evicts the page, makes it the table and maps it.
   */
  method SelfEvictionReached(memory: seq<Frame>, at: nat, first: nat, pras: seq<nat>, contents: seq<nat>)
    returns (k: Kernel)
    requires forall f | 0 <= f < |memory| :: |memory[f]| == NPTEENTRY
    requires at < first && first + 3 == |memory| && memory[at] == BootTable()
    requires |pras| == |memory| && |contents| == DISK_WORDS
    ensures k.Counts() && !k.Usable()
  {
    hide Inv, Walked, IsTable, Sound, Running;
    ghost var f;
    k, f := FirstFault(memory, at, first, pras, contents);
    ghost var s := k.View();
    FirstSound(s, f);
    var page := k.GetPage(0);
    var r;
    ghost var mid;
    r, mid := k.PageInsert(page.value, 0x20_0000, PTE_U);
    OnlyVictim(s, mid, IndexOf(0x20_0000), f);
  }

  /** With one page that can be had, the walk takes that page. */
  lemma OnlyVictim(s: State, mid: State, v: Vpn, f: nat)
    requires Walked(s, mid, v) && s.free == {} && s.swappable == {f}
    requires MidKey(v.i) in s.tables && LeafKey(v.i, v.j) !in s.tables
    ensures IsTable(mid.tables, f)
  {
    assert TableMade(s, mid, LeafKey(v.i, v.j));
    var s1: State, g: nat :| MadeFrom(s, s1, mid, LeafKey(v.i, v.j), g);
    assert g in s.swappable && LeafKey(v.i, v.j) in mid.tables && mid.tables[LeafKey(v.i, v.j)] == g;
  }

  /** The boot state after a fault on page 0: page f is there, and three pages are gone. */
  ghost predicate FirstState(s: State, f: nat)
  {
    && Inv(s) && s.swappable == {f} && MappedAt(s, IndexOf(0), f)
    && MidKey(0) in s.tables && LeafKey(0, 1) !in s.tables
  }

  method FirstFault(memory: seq<Frame>, at: nat, first: nat, pras: seq<nat>, contents: seq<nat>)
    returns (k: Kernel, ghost f: nat)
    requires forall p | 0 <= p < |memory| :: |memory[p]| == NPTEENTRY
    requires at < first && first + 3 <= |memory| && memory[at] == BootTable()
    requires |pras| == |memory| && |contents| == DISK_WORDS
    ensures fresh(k) && fresh(k.frames) && fresh(k.ref) && fresh(k.pra) && fresh(k.disk)
    ensures k.Valid() && k.swapInitOk && FirstState(k.View(), f) && |k.free| == |memory| - first - 3
  {
    hide Inv, ExactInv, Sound, RunOk, Brought, NotMapped, CanFault, MissingTables, NoneContains, FaultFails, Grown, FirstState;
    var mm;
    k, mm := Boot(memory, at, first, pras, contents);
    AddPage(mm);
    ghost var s := k.View();
    BootFault(s);
    var ret;
    ghost var area;
    ret, f, area := k.DoPgfault(mm, 0);
    AfterFirst(s, k.View(), f, PermOf(area));
  }

  lemma BootFault(s: State)
    requires |s.free| >= 3 && |s.tables| == 1 && TopKey in s.tables && NotMapped(s, IndexOf(0))
    ensures CanFault(s, IndexOf(0), true) && MissingTables(s, IndexOf(0)) == 2 && !FaultFails(s, IndexOf(0), true)
  {
    assert s.tables.Keys == {TopKey} by { SameCard({TopKey}, s.tables.Keys); }
  }

  /** A writable area of one page. */
  method AddPage(mm: MmStruct)
    requires mm.Valid() && mm.ring == [mm.head]
    modifies mm`ring, mm`mapCount, mm.ring
    ensures mm.Valid() && !NoneContains(mm.ring, 0) && AreasBelow(mm.ring, VA_LIMIT)
  {
    var vma := new ListEntry(Area(0, PGSIZE, VM_WRITE));
    var ok := mm.InsertVmaStruct(vma);
    assert mm.ring[1] == vma;
  }

  lemma AfterFirst(s: State, s': State, f: nat, perm: nat)
    requires Brought(s, s', IndexOf(0), f, perm, true) && s.swappable == {} && |s.tables| == 1 && TopKey in s.tables
    requires |s'.tables| <= 3
    ensures FirstState(s', f) && |s'.free| == |s.free| - 3
  {
    hide Sound, Growth, BroughtContents, Present, Contents, MissingTables;
    assert OpenBrought(s, s');
    BroughtFirst(s, s', f, perm);
    FirstTables(s');
    assert s'.swappable == {f};
    assert |s'.tables| == |s'.tables.Keys| && |s'.swappable| == 1;
  }

  lemma BroughtFirst(s: State, s': State, f: nat, perm: nat)
    requires BroughtIn(s, s', IndexOf(0), f, perm, true)
    ensures Inv(s') && MappedAt(s', IndexOf(0), f) && Sound(s') && Entry(s', IndexOf(0)) != 0
    ensures s'.swappable <= s.swappable + {f} && f in s'.swappable && Supply(s') == Supply(s)
  {
    BroughtSound(s, s', IndexOf(0), f, perm, true);
    PteRoundTrip(f, perm);
    InvIsSound(s');
    hide Sound, BroughtContents;
  }

  lemma FirstTables(s: State)
    requires Sound(s) && Entry(s, IndexOf(0)) != 0 && |s.tables| <= 3
    ensures s.tables.Keys == {TopKey, MidKey(0), LeafKey(0, 0)} && |s.tables.Keys| == 3
  {
    hide MappedOk, TablesUnmapped, FreeOk, EntriesOk, RefsOk, SwapOk, IndexOf;
    FirstIndices();
    NonZeroHasTable(s, IndexOf(0));
    assert KeyOk(s.tables, LeafKey(0, 0)) && TopKey in s.tables;
    hide TreeOk, EntryIn, Counted;
    SameCard({TopKey, MidKey(0), LeafKey(0, 0)}, s.tables.Keys);
  }

  lemma SameCard<T>(a: set<T>, b: set<T>)
    requires a <= b && |b| <= |a|
    ensures a == b
  {
    assert |b - a| == |b| - |a|;
  }

  lemma FirstSound(s: State, f: nat)
    requires FirstState(s, f)
    ensures Sound(s) && f in s.swappable && Mappable(s, f)
    ensures InRange(IndexOf(0)) && IsValid(Entry(s, IndexOf(0))) && PageOf(Entry(s, IndexOf(0))) == f
    ensures var v := IndexOf(0x20_0000); v == Vpn(0, 1, 0) && MissingTables(s, v) == 1
  {
    hide Inv, SwapOk, EntriesOk, RefsOk, FreeOk, TreeOk, EntryIn, IndexOf;
    InvOpen(s);
    assert Open(s);
    FirstIndices();
  }

  lemma FirstIndices()
    ensures IndexOf(0) == Vpn(0, 0, 0) && IndexOf(0x20_0000) == Vpn(0, 1, 0)
  {
  }
}
