/**
 Reference counts over any sequence of insertions, removals and evictions: they are exact as long
 as every victim is mapped at its recorded address and nowhere else, and no longer.
 */
module PageCounts {
  import opened Sv39
  import opened PageState
  import opened PageOps
  import opened PageGrowth
  import opened PageMapping

  /** What the paging code does to counts, entries, free pages and the swap manager's list. */
  datatype Op =
    | AllocOp(f: nat)                           // alloc_page
    | TableOp(key: Key, f: nat)                 // the table made by get_pte
    | InsertOp(v: Vpn, f: nat, perm: nat)       // page_insert, its table being there
    | RemoveOp(v: Vpn)                          // page_remove
    | ListOp(f: nat, la: nat)                   // swap_map_swappable and pra_vaddr
    | OutOp(f: nat)                             // swap_out of f
    | FreeOp(f: nat)                            // free_page of a page that is mapped nowhere

  /**
   What the code needs: allocations come from the free pages, only allocated pages other than the
   top table are inserted, and the victim is on the list and passes the assertions of swap_out.
   Nothing keeps a page on the list from being inserted or removed, or a page that the walk of
   page_insert has evicted and made a table from being mapped.
   */
  ghost predicate Allowed(s: State, op: Op)
  {
    && Counted(s)
    && match op
       case AllocOp(f) => f in s.free
       case TableOp(key, f) =>
         Held(s, f) && key != TopKey && key !in s.tables && ParentKey(key) in s.tables && KeyOk(s.tables, key)
       case InsertOp(v, f, perm) => InRange(v) && LeafKey(v.i, v.j) in s.tables && Insertable(s, f) && perm < 1024
       case RemoveOp(v) => InRange(v) && LeafKey(v.i, v.j) in s.tables
       case ListOp(f, la) => IsFrame(s, f)
       case OutOp(f) => f in s.swappable && Evictable(s, f)
       case FreeOp(f) => Held(s, f)
  }

  ghost function Step(s: State, op: Op): State
    requires Allowed(s, op)
  {
    match op
    case AllocOp(f) => TakeFree(s, f)
    case TableOp(key, f) => AddTable(s, key, f)
    case InsertOp(v, f, perm) => InsertPage(s, v, f, perm)
    case RemoveOp(v) => Unmap(s, v)
    case ListOp(f, la) => MakeSwappable(s, f, la)
    case OutOp(f) => Evict(s, f)
    case FreeOp(f) => Release(s, f)
  }

  /** An eviction hits a page that is mapped at its recorded address and nowhere else. */
  ghost predicate Good(s: State, op: Op)
    requires Allowed(s, op)
  {
    op.OutOp? ==> GoodVictim(s, op.f)
  }

  ghost predicate CountsExact(s: State)
  {
    Tree(s) && ShapeOk(s) && RefsOk(s)
  }

  /** Only a bad eviction spoils the counts, and it always does. */
  lemma StepCounts(s: State, op: Op)
    requires Allowed(s, op)
    ensures CountsExact(Step(s, op)) <==> Good(s, op)
    ensures Good(s, op) ==> Counted(Step(s, op))
  {
    match op {
      case AllocOp(f) => TakeFreeInv(s, f);
      case TableOp(key, f) => AddTableInv(s, key, f);
      case InsertOp(v, f, perm) => InsertCounted(s, v, f, perm);
      case RemoveOp(v) => RemoveCounts(s, v);
      case ListOp(f, la) => MakeSwappableInv(s, f, la);
      case OutOp(f) =>
        EvictRefExact(s, f);
        EvictInv(s, f);
      case FreeOp(f) => ReleaseHeld(s, f);
    }
    hide MappedOk, FreeOk, EntriesOk, RefsOk;
  }

  /** No table gets mapped, but by the insertion of one. */
  lemma StepTables(s: State, op: Op)
    requires Allowed(s, op) && Exact(s) && Good(s, op)
    ensures Exact(Step(s, op)) <==> (op.InsertOp? ==> !IsTable(s.tables, op.f))
  {
    match op {
      case AllocOp(f) => TakeFreeInv(s, f);
      case TableOp(key, f) => AddTableInv(s, key, f);
      case InsertOp(v, f, perm) => InsertInv(s, v, f, perm);
      case RemoveOp(v) => RemoveCounts(s, v);
      case ListOp(f, la) => MakeSwappableInv(s, f, la);
      case OutOp(f) => EvictInv(s, f);
      case FreeOp(f) => ReleaseHeld(s, f);
    }
    hide Counted, Exact;
  }

  lemma RemoveCounts(s: State, v: Vpn)
    requires Counted(s) && InRange(v) && LeafKey(v.i, v.j) in s.tables
    ensures Counted(Unmap(s, v)) && (Exact(s) ==> Exact(Unmap(s, v)))
  {
    if IsValid(Entry(s, v)) {
      UnmapInv(s, v);
    }
  }

  // ----- runs -----

  /** The callers do their duty, at least up to the first bad eviction. */
  ghost predicate Runs(s: State, ops: seq<Op>)
    decreases |ops|
  {
    ops == [] || (Allowed(s, ops[0]) && (Good(s, ops[0]) ==> Runs(Step(s, ops[0]), ops[1..])))
  }

  ghost predicate VictimsGood(s: State, ops: seq<Op>)
    decreases |ops|
  {
    ops == [] || (Allowed(s, ops[0]) && Good(s, ops[0]) && VictimsGood(Step(s, ops[0]), ops[1..]))
  }

  /** The counts are exact in every state of the run. */
  ghost predicate StayExact(s: State, ops: seq<Op>)
    decreases |ops|
  {
    CountsExact(s) && (ops == [] || (Allowed(s, ops[0]) && StayExact(Step(s, ops[0]), ops[1..])))
  }

  /** Over any sequence of these operations the counts stay exact iff every victim is a good one. */
  lemma {:induction false} RunCounts(s: State, ops: seq<Op>)
    requires Counted(s) && Runs(s, ops)
    ensures StayExact(s, ops) <==> VictimsGood(s, ops)
    decreases |ops|
  {
    hide Allowed, Good, Step, ShapeOk, Tree, MappedOk, TablesUnmapped, FreeOk, EntriesOk, RefsOk;
    if ops != [] {
      StepCounts(s, ops[0]);
      var s' := Step(s, ops[0]);
      if Good(s, ops[0]) {
        RunCounts(s', ops[1..]);
      } else {
        assert !StayExact(s', ops[1..]);
      }
    }
  }

  /** A run without evictions keeps the counts exact, whatever becomes of the list. */
  lemma {:induction false} NoEvictions(s: State, ops: seq<Op>)
    requires Counted(s) && Runs(s, ops) && forall op <- ops :: !op.OutOp?
    ensures StayExact(s, ops)
    decreases |ops|
  {
    hide Allowed, Step, ShapeOk, Tree, MappedOk, TablesUnmapped, FreeOk, EntriesOk, RefsOk;
    if ops != [] {
      StepCounts(s, ops[0]);
      NoEvictions(Step(s, ops[0]), ops[1..]);
    }
  }

  /** The state after the operations. */
  ghost function After(s: State, ops: seq<Op>): State
    requires VictimsGood(s, ops)
    decreases |ops|
  {
    if ops == [] then s else After(Step(s, ops[0]), ops[1..])
  }

  // ----- the stale victim -----

  /**
   A page f on the list is removed from v and another page g is faulted in at v.  Then f is free
   and on the list still, and its recorded address has a valid entry.
   */
  function Stale(v: Vpn, la: nat, f: nat, g: nat, perm: nat): seq<Op>
  {
    [RemoveOp(v), AllocOp(g), InsertOp(v, g, perm), ListOp(g, la), OutOp(f)]
  }

  /** The state in which swap_out picks the stale victim. */
  ghost predicate StaleAt(s: State, v: Vpn, f: nat, g: nat)
  {
    && Exact(s) && f in s.swappable && f in s.free && g != f && IsFrame(s, g)
    && Evictable(s, f) && IndexOf(s.pra[f]) == v && Maps(s, v, g)
  }

  /** swap_out then frees f again, and takes g's mapping but not its reference. */
  lemma StaleEvicted(s: State, v: Vpn, f: nat, g: nat)
    requires StaleAt(s, v, f, g)
    ensures Tree(Evict(s, f)) && ShapeOk(Evict(s, f)) && |Evict(s, f).ref| == |s.ref|
    ensures Evict(s, f).ref[g] == s.ref[g] && |Mappings(Evict(s, f), g)| == |Mappings(s, g)| - 1
    ensures !CountsExact(Evict(s, f))
    ensures Slot(Evict(s, f).disk, Number(v) + 1) == s.frames[f]
  {
    EvictRefExact(s, f);
    EvictEntries(s, f);
    EvictSlots(s, f, Number(v) + 1);
    assert Evict(s, f).ref == s.ref[f := 0];
    hide Evict, TreeOk, EntryIn, MappedOk, TablesUnmapped, FreeOk, EntriesOk, RefsOk;
    assert v in Mappings(s, g);
    LastMapping(Mappings(s, g), v);
  }

  /** The states on the way: the mapping removed, g allocated, inserted and handed to the swap manager. */
  lemma StaleStart(s: State, v: Vpn, f: nat, g: nat)
    requires Sound(s) && f in s.swappable && v == IndexOf(s.pra[f]) && g in s.free
    ensures f != g && InRange(v) && LeafKey(v.i, v.j) in s.tables
    ensures var s1 := Unmap(s, v);
            && Exact(s1) && f in s1.free && f in s1.swappable && g in s1.free && !IsValid(Entry(s1, v))
            && s1.pra == s.pra && s1.tables == s.tables && |s1.frames| == |s.frames|
  {
    SwappableEvictable(s, f);
    MappedRef(s, v);
    UnmapInv(s, v);
    hide Unmap, MappedOk, TablesUnmapped, FreeOk, EntriesOk, RefsOk, SwapOk;
  }

  lemma StaleTaken(s: State, v: Vpn, f: nat, g: nat)
    requires Exact(s) && f in s.free && g in s.free && f != g && InRange(v) && !IsValid(Entry(s, v))
    ensures var s' := TakeFree(s, g);
            Exact(s') && f in s'.free && Mappable(s', g) && !IsValid(Entry(s', v))
  {
    TakeFreeInv(s, g);
  }

  lemma StaleInserted(s: State, v: Vpn, f: nat, g: nat, perm: nat)
    requires Exact(s) && f in s.free && f in s.swappable && Mappable(s, g)
    requires InRange(v) && LeafKey(v.i, v.j) in s.tables && !IsValid(Entry(s, v)) && perm < 1024
    requires s.pra[f] < VA_LIMIT && HasSlot(v) && IndexOf(s.pra[f]) == v
    ensures var s' := InsertPage(s, v, g, perm);
            StaleAt(s', v, f, g) && s'.pra == s.pra
  {
    InsertCounted(s, v, g, perm);
    InsertEntries(s, v, g, perm);
    InsertFrees(s, v, g, perm, f);
    PteRoundTrip(g, perm);
    hide InsertPage, MappedOk, TablesUnmapped, EntriesOk, RefsOk;
  }

  lemma StaleListed(s: State, v: Vpn, f: nat, g: nat, la: nat)
    requires StaleAt(s, v, f, g)
    ensures StaleAt(MakeSwappable(s, g, la), v, f, g)
  {
    MakeSwappableInv(s, g, la);
    hide MappedOk, TablesUnmapped, FreeOk, EntriesOk, RefsOk;
  }

  /**
   From any sound state with a page on the list and another page free, page_remove, a second
   fault at the same address and a swap_out that picks the first page spoil the counts; up to
   that eviction they are exact.
   */
  lemma StaleVictim(s: State, f: nat, g: nat, perm: nat)
    requires Sound(s) && f in s.swappable && g in s.free && perm < 1024
    ensures f < |s.pra|
    ensures var v := IndexOf(s.pra[f]);
            var ops := Stale(v, s.pra[f], f, g, perm);
            && Runs(s, ops) && !StayExact(s, ops)
            && VictimsGood(s, ops[..4]) && StayExact(s, ops[..4]) && StaleAt(After(s, ops[..4]), v, f, g)
  {
    var s1, s2, s3 := StaleSteps(s, f, g, perm);
    var la, v := s.pra[f], IndexOf(s.pra[f]);
    hide Allowed, Step, StaleAt, Sound, Runs, VictimsGood, StayExact, After, Stale;
    StaleRun(s, s1, s2, s3, MakeSwappable(s3, g, la), v, la, f, g, perm);
  }

  lemma StaleSteps(s: State, f: nat, g: nat, perm: nat) returns (s1: State, s2: State, s3: State)
    requires Sound(s) && f in s.swappable && g in s.free && perm < 1024
    ensures f < |s.pra| && g < |s3.pra|
    ensures var la, v := s.pra[f], IndexOf(s.pra[f]);
            && Allowed(s, RemoveOp(v)) && s1 == Step(s, RemoveOp(v))
            && Allowed(s1, AllocOp(g)) && s2 == Step(s1, AllocOp(g))
            && Allowed(s2, InsertOp(v, g, perm)) && s3 == Step(s2, InsertOp(v, g, perm))
            && Allowed(s3, ListOp(g, la)) && MakeSwappable(s3, g, la) == Step(s3, ListOp(g, la))
            && StaleAt(MakeSwappable(s3, g, la), v, f, g)
  {
    SwappableEvictable(s, f);
    var la, v := s.pra[f], IndexOf(s.pra[f]);
    StaleStart(s, v, f, g);
    hide MappedOk, TablesUnmapped, FreeOk, EntriesOk, RefsOk, SwapOk, Tree, Unmap, InsertPage;
    s1 := Unmap(s, v);
    StaleTaken(s1, v, f, g);
    s2 := TakeFree(s1, g);
    StaleInserted(s2, v, f, g, perm);
    s3 := InsertPage(s2, v, g, perm);
    StaleListed(s3, v, f, g, la);
  }

  lemma StaleRun(s: State, s1: State, s2: State, s3: State, s4: State, v: Vpn, la: nat, f: nat, g: nat, perm: nat)
    requires Allowed(s, RemoveOp(v)) && s1 == Step(s, RemoveOp(v))
    requires Allowed(s1, AllocOp(g)) && s2 == Step(s1, AllocOp(g))
    requires Allowed(s2, InsertOp(v, g, perm)) && s3 == Step(s2, InsertOp(v, g, perm))
    requires Allowed(s3, ListOp(g, la)) && s4 == Step(s3, ListOp(g, la))
    requires StaleAt(s4, v, f, g)
    ensures var ops := Stale(v, la, f, g, perm);
            && Runs(s, ops) && !StayExact(s, ops)
            && VictimsGood(s, ops[..4]) && StayExact(s, ops[..4]) && After(s, ops[..4]) == s4
  {
    hide Allowed, Step, StaleAt, Runs, VictimsGood, StayExact, After;
    StaleOut(s4, v, f, g);
    var a, b, c, d := RemoveOp(v), AllocOp(g), InsertOp(v, g, perm), ListOp(g, la);
    RunsLast(s4, f);
    RunsOne(s3, d, [OutOp(f)]);
    RunsOne(s2, c, [d] + [OutOp(f)]);
    RunsOne(s1, b, [c] + ([d] + [OutOp(f)]));
    RunsOne(s, a, [b] + ([c] + ([d] + [OutOp(f)])));
    GoodOne(s3, d, []);
    GoodOne(s2, c, [d] + []);
    GoodOne(s1, b, [c] + ([d] + []));
    GoodOne(s, a, [b] + ([c] + ([d] + [])));
    var ops := Stale(v, la, f, g, perm);
    assert ops == [a] + ([b] + ([c] + ([d] + [OutOp(f)])));
    assert ops[..4] == [a] + ([b] + ([c] + ([d] + [])));
    AllowedCounted(s, a);
    RunCounts(s, ops);
    RunCounts(s, ops[..4]);
  }

  lemma StaleOut(s: State, v: Vpn, f: nat, g: nat)
    requires StaleAt(s, v, f, g)
    ensures Allowed(s, OutOp(f)) && !GoodVictim(s, f)
    ensures Runs(s, []) && VictimsGood(s, []) && After(s, []) == s
  {
  }

  lemma AllowedCounted(s: State, op: Op)
    requires Allowed(s, op)
    ensures Counted(s)
  {
  }

  lemma RunsLast(s: State, f: nat)
    requires Allowed(s, OutOp(f)) && !GoodVictim(s, f)
    ensures Runs(s, [OutOp(f)]) && !VictimsGood(s, [OutOp(f)])
  {
  }

  lemma RunsOne(s: State, op: Op, rest: seq<Op>)
    requires Allowed(s, op) && !op.OutOp? && Runs(Step(s, op), rest) && !VictimsGood(Step(s, op), rest)
    ensures Runs(s, [op] + rest) && !VictimsGood(s, [op] + rest)
  {
    assert ([op] + rest)[1..] == rest;
  }

  lemma GoodOne(s: State, op: Op, rest: seq<Op>)
    requires Allowed(s, op) && Good(s, op) && VictimsGood(Step(s, op), rest)
    ensures VictimsGood(s, [op] + rest) && After(s, [op] + rest) == After(Step(s, op), rest)
    ensures Runs(Step(s, op), rest) ==> Runs(s, [op] + rest)
  {
    assert ([op] + rest)[1..] == rest;
  }

  // ----- a page that evicts itself -----

  /** What page_insert of f at v does when its walk picks f as the victim for the leaf table. */
  function SelfInsertion(v: Vpn, f: nat, perm: nat): seq<Op>
  {
    [OutOp(f), AllocOp(f), TableOp(LeafKey(v.i, v.j), f), InsertOp(v, f, perm)]
  }

  /** The counts stay exact, but the new leaf table ends up mapped as a user page. */
  lemma SelfEvicted(s: State, v: Vpn, f: nat, perm: nat)
    requires Sound(s) && f in s.swappable && s.free == {} && InRange(v) && perm < 1024
    requires MidKey(v.i) in s.tables && LeafKey(v.i, v.j) !in s.tables
    ensures var ops := SelfInsertion(v, f, perm);
            && VictimsGood(s, ops) && Runs(s, ops) && StayExact(s, ops)
            && Counted(After(s, ops)) && !TablesUnmapped(After(s, ops))
  {
    hide Allowed, Good, Step, Sound, Runs, VictimsGood, StayExact, After, TablesUnmapped, Counted, Exact;
    var a, b, c, d := OutOp(f), AllocOp(f), TableOp(LeafKey(v.i, v.j), f), InsertOp(v, f, perm);
    SelfKey(s, v);
    SelfOut(s, f);
    var s1 := Step(s, a);
    SelfAlloc(s1, f);
    var s2 := Step(s1, b);
    SelfTable(s2, v, f, perm);
    var s3 := Step(s2, c);
    SelfLast(s3, v, f, perm);
    GoodOne(s3, d, []);
    GoodOne(s2, c, [d] + []);
    GoodOne(s1, b, [c] + ([d] + []));
    GoodOne(s, a, [b] + ([c] + ([d] + [])));
    assert SelfInsertion(v, f, perm) == [a] + ([b] + ([c] + ([d] + [])));
    AllowedCounted(s, a);
    RunCounts(s, SelfInsertion(v, f, perm));
  }

  lemma SelfKey(s: State, v: Vpn)
    requires Sound(s) && InRange(v) && MidKey(v.i) in s.tables
    ensures KeyOk(s.tables, LeafKey(v.i, v.j))
  {
  }

  lemma SelfOut(s: State, f: nat)
    requires Sound(s) && f in s.swappable && s.free == {}
    ensures Allowed(s, OutOp(f)) && Good(s, OutOp(f))
    ensures var s' := Step(s, OutOp(f));
            Exact(s') && s'.free == {f} && s'.tables == s.tables && TopKey in s.tables && f != s.tables[TopKey]
  {
    SwappableEvictable(s, f);
    EvictInv(s, f);
  }

  lemma SelfAlloc(s: State, f: nat)
    requires Exact(s) && s.free == {f}
    ensures Allowed(s, AllocOp(f)) && Good(s, AllocOp(f))
    ensures var s' := Step(s, AllocOp(f));
            Exact(s') && Held(s', f) && s'.free == {} && s'.tables == s.tables
  {
    TakeFreeInv(s, f);
  }

  lemma SelfTable(s: State, v: Vpn, f: nat, perm: nat)
    requires Exact(s) && Held(s, f) && s.free == {} && InRange(v) && perm < 1024
    requires MidKey(v.i) in s.tables && LeafKey(v.i, v.j) !in s.tables && KeyOk(s.tables, LeafKey(v.i, v.j))
    requires TopKey in s.tables && f != s.tables[TopKey]
    ensures var t := TableOp(LeafKey(v.i, v.j), f);
            && Allowed(s, t) && Good(s, t)
            && Allowed(Step(s, t), InsertOp(v, f, perm)) && Exact(Step(s, t)) && IsTable(Step(s, t).tables, f)
  {
    var l := LeafKey(v.i, v.j);
    AddTableInv(s, l, f);
    AddTableSet(s, l, f);
    hide MappedOk, TablesUnmapped, EntriesOk, RefsOk, FreeOk;
  }

  lemma SelfLast(s: State, v: Vpn, f: nat, perm: nat)
    requires Allowed(s, InsertOp(v, f, perm)) && Exact(s) && IsTable(s.tables, f)
    ensures var d := InsertOp(v, f, perm);
            && Good(s, d) && Counted(Step(s, d)) && !TablesUnmapped(Step(s, d))
            && Runs(Step(s, d), []) && VictimsGood(Step(s, d), []) && After(Step(s, d), []) == Step(s, d)
  {
    StepCounts(s, InsertOp(v, f, perm));
    StepTables(s, InsertOp(v, f, perm));
    hide Step, Allowed, Good, Counted;
  }
}
