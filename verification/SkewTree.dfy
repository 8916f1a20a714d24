/**
 Skew heaps as trees of heap entries: what merge, insert and remove compute, that they keep
 heap order, and how many merge calls they cost over time.
 */
module SkewTree {
  import opened Bits

  /** A node of the pointer structure; the key stands for whatever the caller's comparison reads. */
  class Entry<K> {
    var parent: Entry?<K>
    var left: Entry?<K>
    var right: Entry?<K>
    const key: K

    constructor (k: K)
      ensures key == k
    {
      key := k;
      parent, left, right := null, null, null;
    }
  }

  datatype Tree<K> = Leaf | Br(node: Entry<K>, l: Tree<K>, r: Tree<K>)

  ghost function Nodes<K>(t: Tree<K>): set<Entry<K>>
  {
    if t.Leaf? then {} else {t.node} + Nodes(t.l) + Nodes(t.r)
  }

  function Root<K>(t: Tree<K>): Entry?<K>
  {
    if t.Leaf? then null else t.node
  }

  /** No entry occurs twice: the structure is a tree. */
  ghost predicate Proper<K>(t: Tree<K>)
  {
    t.Br? ==> t.node !in Nodes(t.l) + Nodes(t.r) && Nodes(t.l) !! Nodes(t.r) && Proper(t.l) && Proper(t.r)
  }

  ghost function Size<K>(t: Tree<K>): nat
  {
    if t.Leaf? then 0 else 1 + Size(t.l) + Size(t.r)
  }

  lemma {:induction false} SizeCounts<K>(t: Tree<K>)
    requires Proper(t)
    ensures |Nodes(t)| == Size(t)
  {
    if t.Br? {
      SizeCounts(t.l);
      SizeCounts(t.r);
      DisjointSizes({t.node}, Nodes(t.l));
      DisjointSizes({t.node} + Nodes(t.l), Nodes(t.r));
    }
  }

  lemma DisjointSizes<T>(a: set<T>, b: set<T>)
    requires a !! b
    ensures |a + b| == |a| + |b|
  {
    assert (a + b) - a == b;
  }

  // ----- order -----

  /** comp(a, b) answers -1 exactly when a must come before b. */
  predicate Before<K>(comp: (K, K) -> int, a: K, b: K)
  {
    comp(a, b) == -1
  }

  /** "Not after" is a total preorder. */
  ghost predicate TotalPreorder<K(!new)>(comp: (K, K) -> int)
  {
    && (forall a, b :: Before(comp, a, b) ==> !Before(comp, b, a))
    && (forall a, b, c :: !Before(comp, b, a) && !Before(comp, c, b) ==> !Before(comp, c, a))
  }

  ghost predicate Below<K>(comp: (K, K) -> int, t: Tree<K>, k: K)
  {
    t.Br? ==> !Before(comp, t.node.key, k)
  }

  /** No child comes before its parent. */
  ghost predicate Ordered<K>(comp: (K, K) -> int, t: Tree<K>)
  {
    t.Br? ==>
      Below(comp, t.l, t.node.key) && Below(comp, t.r, t.node.key) && Ordered(comp, t.l) && Ordered(comp, t.r)
  }

  /** Nothing in a heap comes before its root. */
  lemma {:induction false} MinimumAtRoot<K(!new)>(comp: (K, K) -> int, t: Tree<K>, k: K)
    requires TotalPreorder(comp) && Ordered(comp, t) && Below(comp, t, k)
    ensures forall e <- Nodes(t) :: !Before(comp, e.key, k)
  {
    if t.Br? {
      MinimumAtRoot(comp, t.l, t.node.key);
      MinimumAtRoot(comp, t.r, t.node.key);
    }
  }

  /**
   What a comparison owes, in its own answers: -1 one way is 1 the other way, and what is not -1
   carries over.
   */
  ghost predicate Comparison<K(!new)>(comp: (K, K) -> int)
  {
    && (forall a, b :: comp(a, b) == -1 <==> comp(b, a) == 1)
    && (forall a, b, c :: comp(a, b) != -1 && comp(b, c) != -1 ==> comp(a, c) != -1)
  }

  lemma ComparisonOrders<K(!new)>(comp: (K, K) -> int)
    requires Comparison(comp)
    ensures TotalPreorder(comp)
  {
    assert forall a, b :: Before(comp, a, b) <==> comp(a, b) == -1;
    forall a, b, c | !Before(comp, b, a) && !Before(comp, c, b) ensures !Before(comp, c, a) {
      assert comp(c, b) != -1 && comp(b, a) != -1;
    }
  }

  /** In a heap the comparison never answers -1 for an entry against the root. */
  lemma RootFirst<K(!new)>(comp: (K, K) -> int, t: Tree<K>)
    requires Comparison(comp) && Ordered(comp, t) && t.Br?
    ensures forall e <- Nodes(t) :: comp(e.key, t.node.key) != -1
  {
    ComparisonOrders(comp);
    assert Below(comp, t, t.node.key);
    MinimumAtRoot(comp, t, t.node.key);
    assert forall e <- Nodes(t) :: !Before(comp, e.key, t.node.key);
  }

  // ----- merge -----

  ghost function MergeTree<K>(comp: (K, K) -> int, a: Tree<K>, b: Tree<K>): Tree<K>
    decreases Size(a) + Size(b)
  {
    if a.Leaf? then b
    else if b.Leaf? then a
    else if Before(comp, a.node.key, b.node.key) then Br(a.node, MergeTree(comp, a.r, b), a.l)
    else Br(b.node, MergeTree(comp, a, b.r), b.l)
  }

  /** Number of calls of merge, the outermost one included. */
  ghost function MergeCalls<K>(comp: (K, K) -> int, a: Tree<K>, b: Tree<K>): nat
    decreases Size(a) + Size(b)
  {
    if a.Leaf? || b.Leaf? then 1
    else if Before(comp, a.node.key, b.node.key) then 1 + MergeCalls(comp, a.r, b)
    else 1 + MergeCalls(comp, a, b.r)
  }

  /** Entries on the way down to the right. */
  ghost function Spine<K>(t: Tree<K>): nat
  {
    if t.Leaf? then 0 else 1 + Spine(t.r)
  }

  /** One call for each entry of the right spines that is passed, and one at the end of a spine. */
  lemma {:induction false} CallsOnSpines<K>(comp: (K, K) -> int, a: Tree<K>, b: Tree<K>)
    ensures 1 + (if Spine(a) <= Spine(b) then Spine(a) else Spine(b)) <= MergeCalls(comp, a, b) <= 1 + Spine(a) + Spine(b)
    decreases Size(a) + Size(b)
  {
    if a.Br? && b.Br? {
      if Before(comp, a.node.key, b.node.key) {
        CallsOnSpines(comp, a.r, b);
      } else {
        CallsOnSpines(comp, a, b.r);
      }
    }
  }

  lemma {:induction false} MergeNodes<K>(comp: (K, K) -> int, a: Tree<K>, b: Tree<K>)
    requires Proper(a) && Proper(b) && Nodes(a) !! Nodes(b)
    ensures var m := MergeTree(comp, a, b);
            Proper(m) && Nodes(m) == Nodes(a) + Nodes(b) && Size(m) == Size(a) + Size(b)
    decreases Size(a) + Size(b)
  {
    if a.Br? && b.Br? {
      if Before(comp, a.node.key, b.node.key) {
        MergeNodes(comp, a.r, b);
      } else {
        MergeNodes(comp, a, b.r);
      }
    }
  }

  lemma {:induction false} MergeOrdered<K(!new)>(comp: (K, K) -> int, a: Tree<K>, b: Tree<K>)
    requires TotalPreorder(comp) && Ordered(comp, a) && Ordered(comp, b)
    ensures Ordered(comp, MergeTree(comp, a, b))
    ensures Root(MergeTree(comp, a, b)) == Root(a) || Root(MergeTree(comp, a, b)) == Root(b)
    decreases Size(a) + Size(b)
  {
    if a.Br? && b.Br? {
      if Before(comp, a.node.key, b.node.key) {
        MergeOrdered(comp, a.r, b);
      } else {
        MergeOrdered(comp, a, b.r);
      }
    }
  }

  // ----- removal of an arbitrary entry -----

  ghost function RemoveTree<K>(comp: (K, K) -> int, t: Tree<K>, e: Entry<K>): Tree<K>
  {
    if t.Leaf? then Leaf
    else if t.node == e then MergeTree(comp, t.l, t.r)
    else Br(t.node, RemoveTree(comp, t.l, e), RemoveTree(comp, t.r, e))
  }

  /** The subtree whose root is e. */
  ghost function Subtree<K>(t: Tree<K>, e: Entry<K>): (s: Tree<K>)
    requires e in Nodes(t)
    ensures s.Br? && s.node == e && Nodes(s) <= Nodes(t)
    ensures Proper(t) ==> Proper(s)
  {
    if t.node == e then t else if e in Nodes(t.l) then Subtree(t.l, e) else Subtree(t.r, e)
  }

  lemma {:induction false} RemoveAbsent<K>(comp: (K, K) -> int, t: Tree<K>, e: Entry<K>)
    requires e !in Nodes(t)
    ensures RemoveTree(comp, t, e) == t
  {
    if t.Br? {
      RemoveAbsent(comp, t.l, e);
      RemoveAbsent(comp, t.r, e);
    }
  }

  lemma {:induction false} RemoveNodes<K>(comp: (K, K) -> int, t: Tree<K>, e: Entry<K>)
    requires Proper(t)
    ensures var m := RemoveTree(comp, t, e);
            Proper(m) && Nodes(m) == Nodes(t) - {e}
  {
    if t.Br? {
      if t.node == e {
        MergeNodes(comp, t.l, t.r);
      } else {
        RemoveNodes(comp, t.l, e);
        RemoveNodes(comp, t.r, e);
      }
    }
  }

  lemma {:induction false} RemoveOrdered<K(!new)>(comp: (K, K) -> int, t: Tree<K>, e: Entry<K>)
    requires TotalPreorder(comp) && Proper(t) && Ordered(comp, t)
    ensures Ordered(comp, RemoveTree(comp, t, e))
  {
    if t.Br? {
      if t.node == e {
        MergeOrdered(comp, t.l, t.r);
      } else {
        RemoveOrdered(comp, t.l, e);
        RemoveOrdered(comp, t.r, e);
        RemoveNodes(comp, t.l, e);
        RemoveNodes(comp, t.r, e);
        MinimumAtRoot(comp, t.l, t.node.key);
        MinimumAtRoot(comp, t.r, t.node.key);
      }
    }
  }

  // ----- amortised cost -----

  /** The potential: nodes whose right subtree is larger than the left. */
  ghost function Potential<K>(t: Tree<K>): nat
  {
    if t.Leaf? then 0 else (if Size(t.r) > Size(t.l) then 1 else 0) + Potential(t.l) + Potential(t.r)
  }

  /** The binary logarithm, rounded down. */
  function Log2(n: nat): nat
    requires n > 0
  {
    if n == 1 then 0 else 1 + Log2(n / 2)
  }

  lemma {:induction false} Log2Monotone(m: nat, n: nat)
    requires 0 < m <= n
    ensures Log2(m) <= Log2(n)
  {
    if m > 1 {
      Log2Monotone(m / 2, n / 2);
    }
  }

  lemma {:induction false} Log2Below(n: nat, k: nat)
    requires 0 < n < Exp2(k)
    ensures Log2(n) < k
  {
    if n > 1 {
      Log2Below(n / 2, k - 1);
    }
  }

  /** What merging heaps of sizes m and n may cost, net of potential. */
  ghost function Credit(m: nat, n: nat): nat
  {
    1 + Log2(m + 1) + Log2(n + 1) + Log2(m + n + 1)
  }

  /**
   One step of the merge path: l and r are the sizes of the winner's subtrees, o that of the
   other heap.  The step costs one call and leaves the winner with subtrees of sizes r + o, l.
   */
  lemma CreditStep(l: nat, r: nat, o: nat, n: nat)
    requires n == 1 + l + r
    ensures 1 + (if l > r + o then 1 else 0) + Credit(r, o) <= (if r > l then 1 else 0) + Credit(n, o)
  {
    Log2Monotone(r + 1, l + r + 2);
    Log2Monotone(r + o + 1, l + r + o + 2);
    if r <= l {
      Log2Monotone(r + 1, (l + r + 2) / 2);
    }
    if l > r + o {
      Log2Monotone(r + o + 1, (l + r + o + 2) / 2);
    }
  }

  lemma CreditSymmetric(m: nat, n: nat)
    ensures Credit(m, n) == Credit(n, m)
  {
  }

  /** The cost of a merge won by w, from the cost of the recursive merge of w.r with the rest. */
  lemma WinnerCost<K>(w: Tree<K>, m: Tree<K>, calls: nat, o: nat, p: nat)
    requires w.Br? && Size(m) == Size(w.r) + o
    requires calls + Potential(m) <= Potential(w.r) + p + Credit(Size(w.r), o)
    ensures 1 + calls + Potential(Br(w.node, m, w.l)) <= Potential(w) + p + Credit(Size(w), o)
  {
    var l, r := Size(w.l), Size(w.r);
    CreditStep(l, r, o, Size(w));
    var before, after := Potential(w), Potential(Br(w.node, m, w.l));
    assert before == (if r > l then 1 else 0) + Potential(w.l) + Potential(w.r);
    assert after == (if l > r + o then 1 else 0) + Potential(m) + Potential(w.l);
  }

  /** Calls plus the growth of the potential stay below three logarithms of the sizes. */
  lemma {:induction false} MergeAmortised<K>(comp: (K, K) -> int, a: Tree<K>, b: Tree<K>)
    requires Proper(a) && Proper(b) && Nodes(a) !! Nodes(b)
    ensures MergeCalls(comp, a, b) + Potential(MergeTree(comp, a, b))
            <= Potential(a) + Potential(b) + Credit(Size(a), Size(b))
    decreases Size(a) + Size(b)
  {
    CreditSymmetric(Size(a), Size(b));
    if a.Leaf? || b.Leaf? {
    } else if Before(comp, a.node.key, b.node.key) {
      MergeAmortised(comp, a.r, b);
      MergeNodes(comp, a.r, b);
      WinnerCost(a, MergeTree(comp, a.r, b), MergeCalls(comp, a.r, b), Size(b), Potential(b));
    } else {
      MergeAmortised(comp, a, b.r);
      MergeNodes(comp, a, b.r);
      CreditSymmetric(Size(a), Size(b.r));
      WinnerCost(b, MergeTree(comp, a, b.r), MergeCalls(comp, a, b.r), Size(a), Potential(a));
    }
  }

  /** The amortised bound in terms of the total size. */
  lemma MergeBound<K>(comp: (K, K) -> int, a: Tree<K>, b: Tree<K>, k: nat)
    requires Proper(a) && Proper(b) && Nodes(a) !! Nodes(b)
    requires Size(a) + Size(b) + 2 <= Exp2(k)
    ensures MergeCalls(comp, a, b) + Potential(MergeTree(comp, a, b)) <= Potential(a) + Potential(b) + 3 * k + 1
  {
    MergeAmortised(comp, a, b);
    CreditBound(Size(a), Size(b), k);
  }

  lemma CreditBound(m: nat, n: nat, k: nat)
    requires m + n + 2 <= Exp2(k)
    ensures Credit(m, n) <= 3 * k + 1
  {
    Log2Below(m + 1, k);
    Log2Below(n + 1, k);
    Log2Below(m + n + 1, k);
  }
}
