/**
 The block tree of an SFS inode: twelve direct entries, one indirect block, and one
 double-indirect block that leads to further index blocks.
 */
module BlockTree {
  import opened Wrappers

  const SFS_BLKSIZE := 4096
  const SFS_NDIRECT := 12
  const NENTRY := 1024                       // SFS_BLK_NENTRY: block numbers in an index block
  const L1_NBLKS := NENTRY + SFS_NDIRECT
  const LN_NBLKS := 32768                    // the largest file, 128 MB

  /** An index block with its number. */
  datatype IndexBlock = IndexBlock(ino: nat, words: seq<nat>)

  datatype Tree = Tree(direct: seq<nat>, single: Option<IndexBlock>, double: Option<IndexBlock>, leaves: seq<IndexBlock>)

  function ZeroBlock(): (z: seq<nat>)
    ensures |z| == NENTRY && forall k | 0 <= k < NENTRY :: z[k] == 0
  {
    seq(NENTRY, _ => 0)
  }

  /** Where the n-th block of a file, n >= L1_NBLKS, is entered: which leaf, and where in it. */
  function LeafIndex(n: nat): nat
    requires n >= L1_NBLKS
  {
    (n - L1_NBLKS) / NENTRY
  }

  function LeafSlot(n: nat): nat
    requires n >= L1_NBLKS
  {
    (n - L1_NBLKS) % NENTRY
  }

  /** Number of leaves below the double-indirect block of a file of n blocks. */
  function LeafCount(n: nat): nat
  {
    if n <= L1_NBLKS then 0 else LeafIndex(n - 1) + 1
  }

  // ----- the tree holds the appended blocks -----

  ghost predicate DirectOk(direct: seq<nat>, data: seq<nat>)
  {
    |direct| == SFS_NDIRECT && forall i | 0 <= i < |data| && i < SFS_NDIRECT :: direct[i] == data[i]
  }

  /** Words of an index block that stands for the blocks from number `from` on. */
  ghost predicate WordsOk(words: seq<nat>, data: seq<nat>, from: nat)
  {
    |words| == NENTRY && forall i | 0 <= i < NENTRY && from + i < |data| :: words[i] == data[from + i]
  }

  ghost predicate SingleOk(single: Option<IndexBlock>, data: seq<nat>)
  {
    && (single.Some? <==> |data| > SFS_NDIRECT)
    && (single.Some? ==> single.value.ino != 0 && WordsOk(single.value.words, data, SFS_NDIRECT))
  }

  /** The double-indirect block lists the leaves, and nothing behind them. */
  ghost predicate DoubleOk(double: Option<IndexBlock>, leaves: seq<IndexBlock>, data: seq<nat>)
  {
    && (double.Some? <==> |data| > L1_NBLKS)
    && (double.Some? ==>
          && double.value.ino != 0 && |double.value.words| == NENTRY
          && forall j | 0 <= j < NENTRY :: double.value.words[j] == if j < |leaves| then leaves[j].ino else 0)
  }

  ghost predicate LeavesOk(leaves: seq<IndexBlock>, data: seq<nat>)
  {
    && |leaves| == LeafCount(|data|)
    && forall j | 0 <= j < |leaves| ::
         leaves[j].ino != 0 && WordsOk(leaves[j].words, data, L1_NBLKS + j * NENTRY)
  }

  ghost predicate TreeOk(t: Tree, data: seq<nat>)
  {
    && |data| <= LN_NBLKS
    && DirectOk(t.direct, data) && SingleOk(t.single, data)
    && DoubleOk(t.double, t.leaves, data) && LeavesOk(t.leaves, data)
  }

  // ----- reading a block number back from the image -----

  /** The block number that index block `ino` holds at position k. */
  function Indexed(disk: map<nat, seq<nat>>, ino: nat, k: nat): nat
  {
    if ino in disk && k < |disk[ino]| then disk[ino][k] else 0
  }

  /** The number of a file's i-th block, from the inode and the index blocks on disk. */
  function Lookup(disk: map<nat, seq<nat>>, direct: seq<nat>, indirect: nat, dbIndirect: nat, i: nat): nat
    requires |direct| == SFS_NDIRECT
  {
    if i < SFS_NDIRECT then direct[i]
    else if i < L1_NBLKS then Indexed(disk, indirect, i - SFS_NDIRECT)
    else Indexed(disk, Indexed(disk, dbIndirect, LeafIndex(i)), LeafSlot(i))
  }

  ghost predicate OnDisk(disk: map<nat, seq<nat>>, b: IndexBlock)
  {
    b.ino in disk && disk[b.ino] == b.words
  }

  /** Every index block of the tree is on disk. */
  ghost predicate AllOnDisk(disk: map<nat, seq<nat>>, t: Tree)
  {
    && (t.single.Some? ==> OnDisk(disk, t.single.value))
    && (t.double.Some? ==> OnDisk(disk, t.double.value))
    && forall b <- t.leaves :: OnDisk(disk, b)
  }

  function InoOf(b: Option<IndexBlock>): nat
  {
    if b.Some? then b.value.ino else 0
  }

  /** The on-disk format in numbers: 12 direct entries, 1024 behind the indirect block, the rest two levels down. */
  lemma LookupMeaning(disk: map<nat, seq<nat>>, direct: seq<nat>, indirect: nat, dbIndirect: nat, i: nat)
    requires |direct| == 12 && forall n <- disk :: |disk[n]| == 1024
    ensures i < 12 ==> Lookup(disk, direct, indirect, dbIndirect, i) == direct[i]
    ensures 12 <= i < 1036 && indirect in disk ==> Lookup(disk, direct, indirect, dbIndirect, i) == disk[indirect][i - 12]
    ensures 1036 <= i < 1036 + 1024 * 1024 && dbIndirect in disk ==>
              var leaf := disk[dbIndirect][(i - 1036) / 1024];
              leaf in disk ==> Lookup(disk, direct, indirect, dbIndirect, i) == disk[leaf][(i - 1036) % 1024]
  {
  }

  lemma LeafBounds(i: nat, n: nat)
    requires L1_NBLKS <= i < n
    ensures LeafIndex(i) < LeafCount(n) && LeafSlot(i) < NENTRY
    ensures L1_NBLKS + LeafIndex(i) * NENTRY + LeafSlot(i) == i
  {
  }

  /** Looking up any appended block gives its number. */
  lemma LookupFinds(t: Tree, data: seq<nat>, disk: map<nat, seq<nat>>, i: nat)
    requires TreeOk(t, data) && AllOnDisk(disk, t) && i < |data|
    ensures Lookup(disk, t.direct, InoOf(t.single), InoOf(t.double), i) == data[i]
  {
    if i >= L1_NBLKS {
      LeafBounds(i, |data|);
      var j := LeafIndex(i);
      assert j < NENTRY;
      assert t.double.value.words[j] == t.leaves[j].ino;
      assert t.leaves[j] in t.leaves;
      assert WordsOk(t.leaves[j].words, data, L1_NBLKS + j * NENTRY);
    }
  }

  // ----- appending -----

  /** The places in the tree. */
  datatype Pos = Single | Double | Leaf(j: nat)

  /** The index blocks that appending block n of a file creates, in the order of creation. */
  function NewIndex(n: nat): seq<Pos>
  {
    if n == SFS_NDIRECT then [Single]
    else if n == L1_NBLKS then [Double, Leaf(0)]
    else if n > L1_NBLKS && LeafSlot(n) == 0 then [Leaf(LeafIndex(n))]
    else []
  }

  lemma AppendDirect(t: Tree, data: seq<nat>, ino: nat)
    requires TreeOk(t, data) && |data| < SFS_NDIRECT
    ensures TreeOk(t.(direct := t.direct[|data| := ino]), data + [ino])
  {
  }

  lemma WordsAppended(words: seq<nat>, data: seq<nat>, from: nat, ino: nat)
    requires WordsOk(words, data, from) && from <= |data| < from + NENTRY
    ensures WordsOk(words[|data| - from := ino], data + [ino], from)
  {
  }

  /** Through the indirect block s, new when this is the first block behind the direct ones. */
  lemma AppendSingle(t: Tree, data: seq<nat>, s: IndexBlock, ino: nat)
    requires TreeOk(t, data) && SFS_NDIRECT <= |data| < L1_NBLKS && s.ino != 0
    requires if |data| == SFS_NDIRECT then s.words == ZeroBlock() else t.single == Some(s)
    ensures |s.words| == NENTRY
    ensures TreeOk(t.(single := Some(s.(words := s.words[|data| - SFS_NDIRECT := ino]))), data + [ino])
  {
    WordsAppended(s.words, data, SFS_NDIRECT, ino);
  }

  /** The leaf for block n comes next after the existing ones, or is the last of them. */
  lemma LeafPlace(n: nat)
    requires L1_NBLKS <= n < LN_NBLKS
    ensures LeafIndex(n) < NENTRY && LeafSlot(n) < NENTRY
    ensures LeafCount(n + 1) == LeafIndex(n) + 1
    ensures LeafCount(n) == if LeafSlot(n) == 0 then LeafIndex(n) else LeafIndex(n) + 1
    ensures n - (L1_NBLKS + LeafIndex(n) * NENTRY) == LeafSlot(n)
  {
  }

  /** Full words stay full. */
  lemma WordsKept(words: seq<nat>, data: seq<nat>, from: nat, ino: nat)
    requires WordsOk(words, data, from) && from + NENTRY <= |data|
    ensures WordsOk(words, data + [ino], from)
  {
  }

  /** Index block d is the double-indirect one for block n of the file. */
  ghost predicate DoubleOpen(t: Tree, n: nat, d: IndexBlock)
    requires n >= L1_NBLKS
  {
    && d.ino != 0 && |d.words| == NENTRY && LeafIndex(n) < NENTRY
    && (if n == L1_NBLKS then d.words == ZeroBlock() else t.double == Some(d))
    && d.words[LeafIndex(n)] == if LeafIndex(n) < |t.leaves| then t.leaves[LeafIndex(n)].ino else 0
  }

  /** Index blocks d and l are the ones for block n of the file, before the number is entered. */
  ghost predicate LeafOpen(t: Tree, n: nat, d: IndexBlock, l: IndexBlock)
    requires n >= L1_NBLKS
  {
    && d.ino != 0 && l.ino != 0 && |d.words| == NENTRY == |l.words|
    && (if n == L1_NBLKS then d.words == ZeroBlock() else t.double == Some(d))
    && (if LeafSlot(n) == 0 then l.words == ZeroBlock() else t.leaves != [] && l == t.leaves[|t.leaves| - 1])
  }

  /** The tree with the double-indirect block d and its leaf l for entry q in place. */
  function OpenTree(t: Tree, q: nat, d: IndexBlock, l: IndexBlock): Tree
    requires q < |d.words| && q <= |t.leaves|
  {
    t.(double := Some(d.(words := d.words[q := l.ino])), leaves := t.leaves[..q] + [l])
  }

  /**
   Through leaf l of the double-indirect block d; d is new for the first block that needs it, l
   whenever the previous leaf is full.
   */
  lemma AppendLeaf(t: Tree, data: seq<nat>, d: IndexBlock, l: IndexBlock, ino: nat)
    requires TreeOk(t, data) && L1_NBLKS <= |data| < LN_NBLKS && LeafOpen(t, |data|, d, l)
    ensures var n, q := |data|, LeafIndex(|data|);
            && q < NENTRY == |d.words| == |l.words| && q <= |t.leaves| <= q + 1 && LeafSlot(n) < NENTRY
            && TreeOk(t.(double := Some(d.(words := d.words[q := l.ino])),
                         leaves := t.leaves[..q] + [l.(words := l.words[LeafSlot(n) := ino])]), data + [ino])
  {
    var n, q := |data|, LeafIndex(|data|);
    LeafPlace(n);
    var from := L1_NBLKS + q * NENTRY;
    assert WordsOk(l.words, data, from);
    WordsAppended(l.words, data, from, ino);
    forall j | 0 <= j < q ensures WordsOk(t.leaves[j].words, data + [ino], L1_NBLKS + j * NENTRY) {
      WordsKept(t.leaves[j].words, data, L1_NBLKS + j * NENTRY, ino);
    }
  }

  /** What append_block finds when it goes through the double-indirect block. */
  lemma LeafReady(t: Tree, data: seq<nat>)
    requires TreeOk(t, data) && L1_NBLKS <= |data| < LN_NBLKS
    ensures |t.leaves| == LeafCount(|data|) && (t.double.Some? <==> |data| > L1_NBLKS)
    ensures LeafIndex(|data|) < NENTRY
    ensures t.double.Some? ==> t.double.value.ino != 0 && |t.double.value.words| == NENTRY
    ensures t.double.Some? ==> t.double.value.words[LeafIndex(|data|)]
                               == if LeafIndex(|data|) < |t.leaves| then t.leaves[LeafIndex(|data|)].ino else 0
    ensures forall j | 0 <= j < |t.leaves| :: t.leaves[j].ino != 0 && |t.leaves[j].words| == NENTRY
  {
    LeafPlace(|data|);
  }

  lemma NewLeafCount(n: nat)
    requires n >= L1_NBLKS
    ensures |NewIndex(n)| == (if n == L1_NBLKS then 1 else 0) + (if LeafSlot(n) == 0 then 1 else 0)
  {
  }

  /** Index blocks are made for block 12, for block 1036, and for every 1024th block from there on. */
  lemma NewIndexCount(n: nat)
    ensures |NewIndex(n)| == (if n == 12 then 1 else 0) + (if n == 1036 then 1 else 0)
                             + (if n >= 1036 && (n - 1036) % 1024 == 0 then 1 else 0)
  {
  }
}
