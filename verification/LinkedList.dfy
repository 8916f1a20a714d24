/**
 The circular doubly linked list with a head entry.  An entry is embedded in a larger struct;
 `owner` stands for that struct.
 */
module LinkedList {

  class ListEntry<T> {
    var prev: ListEntry<T>
    var next: ListEntry<T>
    const owner: T

    /** list_init */
    constructor (o: T)
      ensures owner == o && prev == next == this
    {
      owner := o;
      prev, next := this, this;
    }
  }

  /** The positions after and before k in a ring of n entries. */
  function After(k: nat, n: nat): nat
    requires k < n
  {
    if k + 1 < n then k + 1 else 0
  }

  function Before(k: nat, n: nat): nat
    requires k < n
  {
    if k > 0 then k - 1 else n - 1
  }

  /** The ring starting at its head entry. */
  ghost predicate Ring<T>(r: seq<ListEntry<T>>)
    reads r
  {
    && |r| > 0
    && (forall i, j | 0 <= i < j < |r| :: r[i] != r[j])
    && (forall i {:trigger r[i].next} | 0 <= i < |r| :: r[i].next == r[After(i, |r|)])
    && (forall i {:trigger r[i].prev} | 0 <= i < |r| :: r[i].prev == r[Before(i, |r|)])
  }

  function Inserted<T>(r: seq<ListEntry<T>>, i: nat, elm: ListEntry<T>): seq<ListEntry<T>>
    requires i < |r|
  {
    r[..i + 1] + [elm] + r[i + 1..]
  }

  function Removed<T>(r: seq<ListEntry<T>>, i: nat): seq<ListEntry<T>>
    requires i < |r|
  {
    r[..i] + r[i + 1..]
  }

  /** prev and next are the consecutive entries at position i of a ring, and elm is not in it. */
  ghost predicate Consecutive<T>(elm: ListEntry<T>, prev: ListEntry<T>, next: ListEntry<T>, r: seq<ListEntry<T>>, i: nat)
    reads r
  {
    Ring(r) && i < |r| && r[i] == prev && next == prev.next && elm !in r
  }

  /** __list_add: between two known consecutive entries it makes one ring. */
  method InsertBetween<T>(elm: ListEntry<T>, prev: ListEntry<T>, next: ListEntry<T>,
                          ghost r: seq<ListEntry<T>>, ghost i: nat)
    modifies prev`next, next`prev, elm
    ensures elm.next == next && elm.prev == prev
    ensures prev != elm ==> prev.next == elm
    ensures next != elm ==> next.prev == elm
    ensures old(Consecutive(elm, prev, next, r, i)) ==> Ring(Inserted(r, i, elm))
  {
    next.prev := elm;
    prev.next := elm;
    elm.next := next;
    elm.prev := prev;
    if old(Consecutive(elm, prev, next, r, i)) {
      ghost var q := Inserted(r, i, elm);
      ghost var n := |r|;
      assert next == r[After(i, n)];
      forall k | 0 <= k < n ensures r[k].next == if k == i then elm else r[After(k, n)] {
        assert k != i ==> r[k] != r[i];
      }
      forall k | 0 <= k < n ensures r[k].prev == if k == After(i, n) then elm else r[Before(k, n)] {
        assert k != After(i, n) ==> r[k] != next;
      }
      InsertedLinks(q, r, i, elm);
    }
  }

  lemma InsertedLinks<T>(q: seq<ListEntry<T>>, r: seq<ListEntry<T>>, i: nat, elm: ListEntry<T>)
    requires i < |r| && q == Inserted(r, i, elm) && elm !in r
    requires forall a, b | 0 <= a < b < |r| :: r[a] != r[b]
    requires forall k | 0 <= k < |r| :: r[k].next == if k == i then elm else r[After(k, |r|)]
    requires var at := After(i, |r|);
             && elm.next == r[at] && elm.prev == r[i]
             && forall k | 0 <= k < |r| :: r[k].prev == if k == at then elm else r[Before(k, |r|)]
    ensures Ring(q)
  {
    forall k | 0 <= k < |q| ensures q[k].next == q[After(k, |q|)] {
      var x := if k <= i then k else k - 1;
      assert k != i + 1 ==> q[k] == r[x];
    }
    forall k | 0 <= k < |q| ensures q[k].prev == q[Before(k, |q|)] {
      var x := if k <= i then k else k - 1;
      assert k != i + 1 ==> q[k] == r[x];
    }
  }

  /** Inserts elm after the entry at position i of the ring. */
  method ListAdd<T>(at: ListEntry<T>, elm: ListEntry<T>, ghost r: seq<ListEntry<T>>, ghost i: nat)
    requires Ring(r) && i < |r| && r[i] == at && elm !in r
    modifies r, elm
    ensures Ring(Inserted(r, i, elm))
  {
    assert at.next in r;
    InsertBetween(elm, at, at.next, r, i);
  }

  /** Inserts elm before the entry at position i of the ring; before the head means at the end. */
  method ListAddBefore<T>(at: ListEntry<T>, elm: ListEntry<T>, ghost r: seq<ListEntry<T>>, ghost i: nat)
    requires Ring(r) && i < |r| && r[i] == at && elm !in r
    modifies r, elm
    ensures Ring(Inserted(r, Before(i, |r|), elm))
  {
    assert at.prev in r && at.prev.next == at;
    InsertBetween(elm, at.prev, at, r, Before(i, |r|));
  }

  /** Takes the entry at position i, not the head, out of the ring. */
  method ListDel<T>(elm: ListEntry<T>, ghost r: seq<ListEntry<T>>, ghost i: nat)
    requires Ring(r) && 0 < i < |r| && r[i] == elm
    modifies elm.prev`next, elm.next`prev
    ensures Ring(Removed(r, i))
  {
    var prev, next := elm.prev, elm.next;
    prev.next := next;
    next.prev := prev;
    ghost var n := |r|;
    ghost var after := After(i, n);
    assert prev == r[i - 1] && next == r[after];
    forall k | 0 <= k < n && k != i
      ensures r[k].next == if k == i - 1 then r[after] else r[After(k, n)]
    {
      assert k != i - 1 ==> r[k] != r[i - 1];
    }
    forall k | 0 <= k < n && k != i
      ensures r[k].prev == if k == after then r[i - 1] else r[Before(k, n)]
    {
      assert k != after ==> r[k] != r[after];
    }
    RemovedLinks(Removed(r, i), r, i);
  }

  lemma RemovedLinks<T>(q: seq<ListEntry<T>>, r: seq<ListEntry<T>>, i: nat)
    requires 0 < i < |r| && q == Removed(r, i)
    requires forall a, b | 0 <= a < b < |r| :: r[a] != r[b]
    requires var after := After(i, |r|);
             && (forall k | 0 <= k < |r| && k != i ::
                   r[k].next == if k == i - 1 then r[after] else r[After(k, |r|)])
             && (forall k | 0 <= k < |r| && k != i ::
                   r[k].prev == if k == after then r[i - 1] else r[Before(k, |r|)])
    ensures Ring(q)
  {
    assert forall k | 0 <= k < |q| :: q[k] == r[if k < i then k else k + 1];
    forall k | 0 <= k < |q| ensures q[k].next == q[After(k, |q|)] {
      var x := if k < i then k else k + 1;
      assert r[x].next == if x == i - 1 then r[After(i, |r|)] else r[After(x, |r|)];
    }
    forall k | 0 <= k < |q| ensures q[k].prev == q[Before(k, |q|)] {
      var x := if k < i then k else k + 1;
      assert r[x].prev == if x == After(i, |r|) then r[i - 1] else r[Before(x, |r|)];
    }
  }
}
