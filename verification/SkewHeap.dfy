/**
 The skew heap on linked entries with parent pointers, proved against SkewTree.
 */
module SkewHeap {
  import opened Bits
  import opened SkewTree

  /** The root of c, if any, has parent p. */
  ghost predicate ParentIs<K>(c: Tree<K>, p: Entry?<K>)
    reads Nodes(c)
  {
    c.Br? ==> c.node.parent == p
  }

  /** The entries of t are linked as t says; the root's own parent link is left open. */
  ghost predicate Linked<K>(t: Tree<K>)
    reads Nodes(t)
  {
    t.Br? ==>
      && t.node.left == Root(t.l) && t.node.right == Root(t.r)
      && ParentIs(t.l, t.node) && ParentIs(t.r, t.node)
      && Linked(t.l) && Linked(t.r)
  }

  lemma {:induction false} NodesAllocated<K>(t: Tree<K>)
    ensures forall e <- Nodes(t) :: allocated(e)
  {
    if t.Br? {
      NodesAllocated(t.l);
      NodesAllocated(t.r);
    }
  }

  /** Entries whose links did not change are still linked the same way. */
  twostate lemma {:induction false} LinkedFrame<K>(t: Tree<K>)
    requires old(Linked(t))
    requires forall e <- Nodes(t) :: old(allocated(e)) && e.left == old(e.left) && e.right == old(e.right) && e.parent == old(e.parent)
    ensures Linked(t)
  {
    if t.Br? {
      LinkedFrame(t.l);
      LinkedFrame(t.r);
    }
  }

  /** A complete heap: linked, proper, and with no parent above the root. */
  ghost predicate Heap<K>(root: Entry?<K>, t: Tree<K>)
    reads Nodes(t)
  {
    root == Root(t) && Proper(t) && Linked(t) && ParentIs(t, null)
  }

  method Init<K>(a: Entry<K>)
    modifies a
    ensures a.left == a.right == a.parent == null
  {
    a.left, a.right, a.parent := null, null, null;
  }

  /** Hangs the merged heap m on the left of w and w's old left subtree on the right. */
  method Attach<K>(w: Entry<K>, l: Entry?<K>, r: Entry?<K>, ghost m: Tree<K>, ghost tr: Tree<K>)
    requires Proper(Br(w, m, tr)) && Linked(m) && Linked(tr) && l == Root(m) && r == Root(tr) && ParentIs(tr, w)
    modifies w`left, w`right, Nodes(m)
    ensures Linked(Br(w, m, tr))
  {
    w.left := l;
    w.right := r;
    if l != null {
      l.parent := w;
    }
  }

  method Merge<K>(a: Entry?<K>, b: Entry?<K>, comp: (K, K) -> int, ghost ta: Tree<K>, ghost tb: Tree<K>)
    returns (root: Entry?<K>, ghost calls: nat)
    requires Proper(ta) && Proper(tb) && Nodes(ta) !! Nodes(tb)
    requires a == Root(ta) && b == Root(tb) && Linked(ta) && Linked(tb)
    modifies Nodes(ta), Nodes(tb)
    ensures root == Root(MergeTree(comp, ta, tb)) && Linked(MergeTree(comp, ta, tb))
    ensures root == if a == null then b else if b == null || comp(a.key, b.key) == -1 then a else b
    ensures root != null ==> root.parent == old(root.parent)
    ensures calls == MergeCalls(comp, ta, tb)
    decreases Size(ta) + Size(tb)
  {
    if a == null {
      return b, 1;
    } else if b == null {
      return a, 1;
    }
    var l, r;
    if comp(a.key, b.key) == -1 {
      r := a.left;
      MergeNodes(comp, ta.r, tb);
      NodesAllocated(ta);
      NodesAllocated(tb);
      label Before:
      l, calls := Merge(a.right, b, comp, ta.r, tb);
      LinkedFrame@Before(ta.l);
      Attach(a, l, r, MergeTree(comp, ta.r, tb), ta.l);
      return a, calls + 1;
    } else {
      r := b.left;
      MergeNodes(comp, ta, tb.r);
      NodesAllocated(ta);
      NodesAllocated(tb);
      label Before:
      l, calls := Merge(a, b.right, comp, ta, tb.r);
      LinkedFrame@Before(tb.l);
      Attach(b, l, r, MergeTree(comp, ta, tb.r), tb.l);
      return b, calls + 1;
    }
  }

  method Insert<K>(a: Entry?<K>, b: Entry<K>, comp: (K, K) -> int, ghost t: Tree<K>)
    returns (root: Entry?<K>, ghost calls: nat)
    requires Heap(a, t) && b !in Nodes(t)
    modifies Nodes(t), b
    ensures Heap(root, MergeTree(comp, t, Br(b, Leaf, Leaf)))
    ensures calls == MergeCalls(comp, t, Br(b, Leaf, Leaf))
  {
    NodesAllocated(t);
    label Before:
    Init(b);
    LinkedFrame@Before(t);
    ghost var one := Br(b, Leaf, Leaf);
    MergeNodes(comp, t, one);
    root, calls := Merge(a, b, comp, t, one);
    MergeRoot(comp, t, one);
  }

  lemma {:induction false} MergeRoot<K>(comp: (K, K) -> int, a: Tree<K>, b: Tree<K>)
    ensures Root(MergeTree(comp, a, b)) == Root(a) || Root(MergeTree(comp, a, b)) == Root(b)
    ensures a.Br? || b.Br? ==> MergeTree(comp, a, b).Br?
  {
  }

  // ----- removal -----

  datatype Links<K> = Links(parent: Entry?<K>, left: Entry?<K>, right: Entry?<K>)

  /** The links of a set of entries at one moment. */
  ghost function Snapshot<K>(s: set<Entry<K>>): map<Entry<K>, Links<K>>
    reads s
  {
    map e | e in s :: Links(e.parent, e.left, e.right)
  }

  ghost predicate ParentIn<K>(h: map<Entry<K>, Links<K>>, c: Tree<K>, p: Entry?<K>)
  {
    c.Br? ==> c.node in h && h[c.node].parent == p
  }

  /** The recorded links are those of t. */
  ghost predicate LinkedIn<K>(h: map<Entry<K>, Links<K>>, t: Tree<K>)
  {
    t.Br? ==>
      && t.node in h && h[t.node].left == Root(t.l) && h[t.node].right == Root(t.r)
      && ParentIn(h, t.l, t.node) && ParentIn(h, t.r, t.node)
      && LinkedIn(h, t.l) && LinkedIn(h, t.r)
  }

  lemma {:induction false} LinkedSnapshot<K>(t: Tree<K>, s: set<Entry<K>>)
    requires Nodes(t) <= s
    ensures Linked(t) <==> LinkedIn(Snapshot(s), t)
  {
    if t.Br? {
      LinkedSnapshot(t.l, s);
      LinkedSnapshot(t.r, s);
    }
  }

  /** The links of a tree's entries stay inside it and never lead to its root. */
  lemma {:induction false} LinksInside<K>(h: map<Entry<K>, Links<K>>, t: Tree<K>)
    requires LinkedIn(h, t) && Proper(t)
    ensures forall e <- Nodes(t) :: e in h
                                 && (h[e].left == null || (h[e].left in Nodes(t) && h[e].left != t.node))
                                 && (h[e].right == null || (h[e].right in Nodes(t) && h[e].right != t.node))
  {
    if t.Br? {
      LinksInside(h, t.l);
      LinksInside(h, t.r);
    }
  }

  /** What the links say about the entry b inside t: its parent, and who points to it. */
  lemma {:induction false} ParentOf<K>(h: map<Entry<K>, Links<K>>, t: Tree<K>, b: Entry<K>)
    requires LinkedIn(h, t) && Proper(t) && b in Nodes(t)
    ensures LinkedIn(h, Subtree(t, b)) && b in h && forall e <- Nodes(t) :: e in h
    ensures b != t.node ==>
              && h[b].parent != null && h[b].parent in Nodes(t) - Nodes(Subtree(t, b))
              && (h[h[b].parent].left == b || h[h[b].parent].right == b)
    ensures forall e <- Nodes(t) :: h[e].left == b || h[e].right == b ==> b != t.node && e == h[b].parent
    ensures forall e <- Nodes(t) :: h[e].left == b ==> h[e].right != b
  {
    LinksInside(h, t);
    if b != t.node {
      LinksInside(h, t.l);
      LinksInside(h, t.r);
      if b in Nodes(t.l) {
        ParentOf(h, t.l, b);
      } else {
        ParentOf(h, t.r, b);
      }
    }
  }

  function Redirect<K>(e: Entry?<K>, b: Entry<K>, rep: Entry?<K>): Entry?<K>
  {
    if e == b then rep else e
  }

  /** Entry e keeps its links from h to h', except that a link to b now leads to rep. */
  ghost predicate Redirected<K>(h: map<Entry<K>, Links<K>>, h': map<Entry<K>, Links<K>>, e: Entry<K>,
                                b: Entry<K>, rep: Entry?<K>)
  {
    e in h && e in h' &&
    h'[e] == Links(h[e].parent, Redirect(h[e].left, b, rep), Redirect(h[e].right, b, rep))
  }

  lemma {:induction false} RedirectedAbsent<K>(h: map<Entry<K>, Links<K>>, h': map<Entry<K>, Links<K>>, t: Tree<K>,
                                               b: Entry<K>, rep: Entry?<K>)
    requires LinkedIn(h, t) && b !in Nodes(t)
    requires forall e <- Nodes(t) :: Redirected(h, h', e, b, rep)
    ensures LinkedIn(h', t)
  {
    if t.Br? {
      RedirectedAbsent(h, h', t.l, b, rep);
      RedirectedAbsent(h, h', t.r, b, rep);
    }
  }

  /** Redirecting the links to b towards the merge m of its subtrees removes b from the tree. */
  lemma {:induction false} Replanted<K>(h: map<Entry<K>, Links<K>>, h': map<Entry<K>, Links<K>>, comp: (K, K) -> int,
                                        t: Tree<K>, b: Entry<K>, m: Tree<K>)
    requires LinkedIn(h, t) && Proper(t) && b in Nodes(t) && b in h
    requires m == MergeTree(comp, Subtree(t, b).l, Subtree(t, b).r) && LinkedIn(h', m)
    requires ParentIn(h', m, h[b].parent)
    requires forall e <- Nodes(t) - Nodes(Subtree(t, b)) :: Redirected(h, h', e, b, Root(m))
    ensures LinkedIn(h', RemoveTree(comp, t, b))
    ensures t.node != b ==> RemoveTree(comp, t, b).Br? && RemoveTree(comp, t, b).node == t.node
  {
    if t.node != b {
      RootOutside(t, b);
      assert Redirected(h, h', t.node, b, Root(m));
      var c := if b in Nodes(t.l) then t.l else t.r;   // the side that changes
      if c.node != b {
        RootOutside(c, b);
        assert Redirected(h, h', c.node, b, Root(m));
      }
      if b in Nodes(t.l) {
        Replanted(h, h', comp, t.l, b, m);
        RemoveAbsent(comp, t.r, b);
        RedirectedAbsent(h, h', t.r, b, Root(m));
      } else {
        assert Subtree(t, b) == Subtree(t.r, b);
        Replanted(h, h', comp, t.r, b, m);
        RemoveAbsent(comp, t.l, b);
        RedirectedAbsent(h, h', t.l, b, Root(m));
      }
    }
  }

  method Remove<K>(a: Entry<K>, b: Entry<K>, comp: (K, K) -> int, ghost t: Tree<K>)
    returns (root: Entry?<K>, ghost calls: nat)
    requires Heap(a, t) && b in Nodes(t)
    modifies Nodes(t)
    ensures Heap(root, RemoveTree(comp, t, b))
    ensures calls == MergeCalls(comp, Subtree(t, b).l, Subtree(t, b).r)
  {
    ghost var s := Subtree(t, b);
    ghost var m := MergeTree(comp, s.l, s.r);
    ghost var h := Snapshot(Nodes(t));
    NodesAllocated(t);
    LinkedSnapshot(t, Nodes(t));
    ParentOf(h, t, b);
    LinkedSnapshot(s, Nodes(t));
    var p := b.parent;
    var rep;
    MergeNodes(comp, s.l, s.r);
    rep, calls := MergeBelow(b, p, comp, s, m);
    ghost var outer := Nodes(t) - Nodes(s);
    Splice(p, b, rep, outer, m, h);
    root := if p != null then a else rep;
    RemovedHeap(h, comp, t, b, m);
  }

  /** Makes p's link to b lead to rep. */
  method Splice<K>(p: Entry?<K>, b: Entry<K>, rep: Entry?<K>, ghost outer: set<Entry<K>>, ghost m: Tree<K>,
                   ghost h: map<Entry<K>, Links<K>>)
    requires forall e <- outer :: e in h && h[e] == Links(e.parent, e.left, e.right)
    requires p != null ==> p in outer && (p.left == b || p.right == b)
    requires forall e <- outer :: (e.left == b || e.right == b ==> e == p) && (e.left == b ==> e.right != b)
    requires Linked(m) && ParentIs(m, p) && Nodes(m) !! outer
    modifies if p == null then {} else {p}
    ensures Linked(m) && ParentIs(m, p)
    ensures forall e <- outer :: h[e].parent == e.parent &&
              e.left == Redirect(h[e].left, b, rep) && e.right == Redirect(h[e].right, b, rep)
  {
    if p != null {
      if p.left == b {
        p.left := rep;
      } else {
        p.right := rep;
      }
    }
  }

  /** Merges the subtrees of b and makes p the parent of the result. */
  method MergeBelow<K>(b: Entry<K>, p: Entry?<K>, comp: (K, K) -> int, ghost s: Tree<K>, ghost m: Tree<K>)
    returns (rep: Entry?<K>, ghost calls: nat)
    requires s.Br? && s.node == b && Proper(s) && Linked(s) && m == MergeTree(comp, s.l, s.r)
    modifies Nodes(s.l), Nodes(s.r)
    ensures rep == Root(m) && Linked(m) && ParentIs(m, p) && calls == MergeCalls(comp, s.l, s.r)
  {
    MergeNodes(comp, s.l, s.r);
    rep, calls := Merge(b.left, b.right, comp, s.l, s.r);
    if rep != null {
      rep.parent := p;
    }
  }

  lemma RemovedHeap<K>(h: map<Entry<K>, Links<K>>, comp: (K, K) -> int, t: Tree<K>, b: Entry<K>, m: Tree<K>)
    requires LinkedIn(h, t) && Proper(t) && b in Nodes(t) && b in h
    requires m == MergeTree(comp, Subtree(t, b).l, Subtree(t, b).r) && Linked(m)
    requires ParentIs(m, h[b].parent) && (b == t.node ==> h[b].parent == null) && ParentIn(h, t, null)
    requires forall e <- Nodes(t) - Nodes(Subtree(t, b)) :: Redirected(h, Snapshot(Nodes(t)), e, b, Root(m))
    ensures Heap(Root(RemoveTree(comp, t, b)), RemoveTree(comp, t, b))
    ensures b != t.node ==> Root(RemoveTree(comp, t, b)) == t.node
  {
    var h' := Snapshot(Nodes(t));
    var s := Subtree(t, b);
    MergeNodes(comp, s.l, s.r);
    LinkedSnapshot(m, Nodes(t));
    Replanted(h, h', comp, t, b, m);
    RemoveNodes(comp, t, b);
    LinkedSnapshot(RemoveTree(comp, t, b), Nodes(t));
    if b != t.node {
      assert t.node in Nodes(t) - Nodes(s) by { RootOutside(t, b); }
    }
  }

  lemma RootOutside<K>(t: Tree<K>, b: Entry<K>)
    requires Proper(t) && b in Nodes(t) && b != t.node
    ensures t.node !in Nodes(Subtree(t, b))
  {
  }

  // ----- runs from the empty heap -----

  datatype Op<K> = InsertOp(e: Entry<K>) | RemoveRootOp

  /** Entries are inserted while outside the heap, and the root is removed only when there is one. */
  ghost predicate Runnable<K>(comp: (K, K) -> int, ops: seq<Op<K>>, t: Tree<K>)
    decreases |ops|
  {
    ops != [] ==>
      && (ops[0].InsertOp? ==> ops[0].e !in Nodes(t))
      && (ops[0].RemoveRootOp? ==> t.Br?)
      && Runnable(comp, ops[1..], After(comp, ops[0], t))
  }

  ghost function After<K>(comp: (K, K) -> int, op: Op<K>, t: Tree<K>): Tree<K>
  {
    match op
    case InsertOp(e) => MergeTree(comp, t, Br(e, Leaf, Leaf))
    case RemoveRootOp => if t.Br? then MergeTree(comp, t.l, t.r) else Leaf
  }

  ghost function Calls<K>(comp: (K, K) -> int, op: Op<K>, t: Tree<K>): nat
  {
    match op
    case InsertOp(e) => MergeCalls(comp, t, Br(e, Leaf, Leaf))
    case RemoveRootOp => if t.Br? then MergeCalls(comp, t.l, t.r) else 0
  }

  lemma OpBound<K>(comp: (K, K) -> int, op: Op<K>, t: Tree<K>, k: nat)
    requires Proper(t) && Size(t) + 3 <= Exp2(k)
    requires op.InsertOp? ==> op.e !in Nodes(t)
    ensures Proper(After(comp, op, t)) && Size(After(comp, op, t)) <= Size(t) + 1
    ensures Calls(comp, op, t) + Potential(After(comp, op, t)) <= Potential(t) + 3 * k + 1
  {
    match op
    case InsertOp(e) =>
      var one := Br(e, Leaf, Leaf);
      MergeNodes(comp, t, one);
      MergeBound(comp, t, one, k);
    case RemoveRootOp =>
      if t.Br? {
        MergeNodes(comp, t.l, t.r);
        MergeBound(comp, t.l, t.r, k);
      }
  }

  /** The tree after all operations. */
  ghost function AfterAll<K>(comp: (K, K) -> int, ops: seq<Op<K>>, t: Tree<K>): Tree<K>
    decreases |ops|
  {
    if ops == [] then t else AfterAll(comp, ops[1..], After(comp, ops[0], t))
  }

  /** A run keeps heap order, so each root removal takes an entry that no other one comes before. */
  lemma {:induction false} RunOrdered<K(!new)>(comp: (K, K) -> int, ops: seq<Op<K>>, t: Tree<K>)
    requires TotalPreorder(comp) && Ordered(comp, t)
    ensures Ordered(comp, AfterAll(comp, ops, t))
    decreases |ops|
  {
    if ops != [] {
      match ops[0] {
        case InsertOp(e) => MergeOrdered(comp, t, Br(e, Leaf, Leaf));
        case RemoveRootOp =>
          if t.Br? {
            MergeOrdered(comp, t.l, t.r);
          }
      }
      RunOrdered(comp, ops[1..], After(comp, ops[0], t));
    }
  }

  /** After a run from the empty heap no entry compares as -1 against the root. */
  lemma RunRootFirst<K(!new)>(comp: (K, K) -> int, ops: seq<Op<K>>)
    requires Comparison(comp)
    ensures var t := AfterAll(comp, ops, Leaf);
            t.Br? ==> forall e <- Nodes(t) :: comp(e.key, t.node.key) != -1
  {
    ComparisonOrders(comp);
    RunOrdered(comp, ops, Leaf);
    if AfterAll(comp, ops, Leaf).Br? {
      RootFirst(comp, AfterAll(comp, ops, Leaf));
    }
  }

  /** Nor after an insertion into such a heap, or a removal of any entry from it. */
  lemma StepRootFirst<K(!new)>(comp: (K, K) -> int, t: Tree<K>, b: Entry<K>)
    requires Comparison(comp) && Ordered(comp, t) && Proper(t)
    ensures var i := MergeTree(comp, t, Br(b, Leaf, Leaf));
            i.Br? && forall e <- Nodes(i) :: comp(e.key, i.node.key) != -1
    ensures var d := RemoveTree(comp, t, b);
            d.Br? ==> forall e <- Nodes(d) :: comp(e.key, d.node.key) != -1
  {
    ComparisonOrders(comp);
    MergeOrdered(comp, t, Br(b, Leaf, Leaf));
    MergeRoot(comp, t, Br(b, Leaf, Leaf));
    RootFirst(comp, MergeTree(comp, t, Br(b, Leaf, Leaf)));
    RemoveOrdered(comp, t, b);
    if RemoveTree(comp, t, b).Br? {
      RootFirst(comp, RemoveTree(comp, t, b));
    }
  }

  /**
   Runs a sequence of insertions and root removals.  From the empty heap, n operations make at
   most n * (3k + 1) merge calls, where 2^k is at least n + 2.
   */
  method Run<K>(comp: (K, K) -> int, ops: seq<Op<K>>, a: Entry?<K>, ghost t: Tree<K>, ghost k: nat)
    returns (root: Entry?<K>, ghost t': Tree<K>, ghost calls: nat)
    requires Heap(a, t) && Runnable(comp, ops, t) && Size(t) + |ops| + 2 <= Exp2(k)
    modifies Nodes(t), set op <- ops | op.InsertOp? :: op.e
    ensures t' == AfterAll(comp, ops, t)
    ensures Heap(root, t') && Nodes(t') <= Nodes(t) + (set op <- ops | op.InsertOp? :: op.e)
    ensures calls + Potential(t') <= Potential(t) + |ops| * (3 * k + 1)
    ensures t == Leaf ==> calls <= |ops| * (3 * k + 1)
    decreases |ops|
  {
    if ops == [] {
      return a, t, 0;
    }
    assert t == Leaf ==> Potential(t) == 0;
    hide Exp2, Potential, MergeTree, Heap;
    OpBound(comp, ops[0], t, k);
    ghost var first;
    root, first := RunOne(comp, ops[0], a, t);
    ghost var more;
    root, t', more := Run(comp, ops[1..], root, After(comp, ops[0], t), k);
    calls := first + more;
    OneMore(|ops|, 3 * k + 1);
  }

  lemma OneMore(n: nat, c: nat)
    requires n > 0
    ensures n * c == (n - 1) * c + c
  {
  }

  ghost function Inserted<K>(op: Op<K>): set<Entry<K>>
  {
    if op.InsertOp? then {op.e} else {}
  }

  method RunOne<K>(comp: (K, K) -> int, op: Op<K>, a: Entry?<K>, ghost t: Tree<K>)
    returns (root: Entry?<K>, ghost calls: nat)
    requires Heap(a, t) && (op.InsertOp? ==> op.e !in Nodes(t)) && (op.RemoveRootOp? ==> t.Br?)
    modifies Nodes(t), Inserted(op)
    ensures Heap(root, After(comp, op, t)) && calls == Calls(comp, op, t)
    ensures Nodes(After(comp, op, t)) <= Nodes(t) + Inserted(op)
  {
    match op {
      case InsertOp(e) =>
        MergeNodes(comp, t, Br(e, Leaf, Leaf));
        root, calls := Insert(a, e, comp, t);
      case RemoveRootOp =>
        MergeNodes(comp, t.l, t.r);
        root, calls := Remove(a, a, comp, t);
    }
  }
}
