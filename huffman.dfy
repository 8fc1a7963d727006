/**
 * The Huffman tree that `SkipGramModel.__init__` builds in word2vec.py, as
 * values: the node record, the arena `self.huffman` (list index == node id),
 * and the greedy merge loop as a function on (arena, pending queue). The
 * imperative builder in module SkipGram is proved equal to these functions;
 * the properties of the tree are proved here about them.
 */
module Huffman {
  import opened HeapQueue

  datatype Option<T> = None | Some(value: T)

  type Bit = b: int | 0 <= b <= 1

  /** `HuffmanNode`: links to other nodes are ids into the arena. */
  datatype HuffmanNode = HuffmanNode(
    wordid: nat,
    freq: nat,
    parent: Option<nat>,
    checkLchild: Option<bool>,
    rchild: Option<nat>,
    lchild: Option<nat>,
    code: seq<Bit>,
    path: seq<nat>)

  /** `HuffmanNode(wordid, freq)`: no links, empty code and path. */
  function NewNode(wordid: nat, freq: nat): (n: HuffmanNode)
    ensures n.wordid == wordid && n.freq == freq
    ensures n.parent.None? && n.checkLchild.None? && n.lchild.None? && n.rchild.None?
    ensures n.code == [] && n.path == []
  {
    HuffmanNode(wordid, freq, None, None, None, None, [], [])
  }

  /** The builder's state: the arena `self.huffman` and the queue `um_node`. */
  datatype Builder = Builder(huffman: seq<HuffmanNode>, heap: seq<Entry>)

  /** Every queued entry names a node of the arena, and the queue is ordered. */
  predicate QueueInArena(s: Builder) {
    && Ordered(s.heap)
    && forall e :: e in s.heap ==> e.id < |s.huffman|
  }

  /** The arena after the leaf loop: leaf `i` has frequency `freqs[i]`. */
  function LeafArena(freqs: seq<nat>, k: nat): (a: seq<HuffmanNode>)
    requires k <= |freqs|
    ensures |a| == k && forall i :: 0 <= i < k ==> a[i] == NewNode(i, freqs[i])
  {
    if k == 0 then [] else LeafArena(freqs, k - 1) + [NewNode(k - 1, freqs[k - 1])]
  }

  /** The queue after pushing the first `k` leaves in id order. */
  function LeafQueue(freqs: seq<nat>, k: nat): (h: seq<Entry>)
    requires k <= |freqs|
    ensures Ordered(h) && |h| == k
    ensures forall e :: e in h <==> e.id < k && e.freq == freqs[e.id]
  {
    if k == 0 then []
    else
      var h0 := LeafQueue(freqs, k - 1);
      Push(h0, Entry(freqs[k - 1], k - 1))
  }

  /** The state before the merge loop (word2vec.py lines 51-54). */
  function Leaves(freqs: seq<nat>): (s: Builder)
    ensures QueueInArena(s) && ParentsAbove(s.huffman)
  {
    Builder(LeafArena(freqs, |freqs|), LeafQueue(freqs, |freqs|))
  }

  /**
   * One iteration of the merge loop (lines 57-68): pop the two least
   * entries, make a node whose id is the arena's length and whose frequency
   * is their sum, link the first popped as left child and the second as
   * right child, append the node and queue it.
   */
  function Merge(s: Builder): (r: Builder)
    requires QueueInArena(s) && |s.heap| >= 2
    ensures QueueInArena(r)
    ensures |r.heap| == |s.heap| - 1 && |r.huffman| == |s.huffman| + 1
    ensures ParentsAbove(s.huffman) ==> ParentsAbove(r.huffman)
  {
    var pop1 := Pop(s.heap);
    var e1, h1 := pop1.0, pop1.1;
    var pop2 := Pop(h1);
    var e2, h2 := pop2.0, pop2.1;
    var a := s.huffman;
    var node1 := e1.id;
    var node2 := e2.id;
    var nextId := |a|;
    var nnode := NewNode(nextId, a[node1].freq + a[node2].freq);
    var a1 := a[node1 := a[node1].(parent := Some(nnode.wordid))];
    var a2 := a1[node2 := a1[node2].(parent := Some(nnode.wordid))];
    var nnode1 := nnode.(lchild := Some(node1));
    var a3 := a2[node1 := a2[node1].(checkLchild := Some(true))];
    var nnode2 := nnode1.(rchild := Some(node2));
    var a4 := a3[node2 := a3[node2].(checkLchild := Some(false))];
    var a5 := a4 + [nnode2];
    var h3 := Push(h2, Entry(nnode2.freq, nnode2.wordid));
    Builder(a5, h3)
  }

  /** The merge loop `while len(um_node) > 1` (line 56). */
  function Build(s: Builder): (r: Builder)
    requires QueueInArena(s)
    ensures QueueInArena(r)
    ensures |r.heap| == if |s.heap| == 0 then 0 else 1
    ensures |r.huffman| == if |s.heap| == 0 then |s.huffman| else |s.huffman| + |s.heap| - 1
    ensures ParentsAbove(s.huffman) ==> ParentsAbove(r.huffman)
    decreases |s.heap|
  {
    if |s.heap| > 1 then Build(Merge(s)) else s
  }

  /** Every parent has a larger id than its child (it was created later). */
  predicate ParentsAbove(a: seq<HuffmanNode>) {
    forall i :: 0 <= i < |a| && a[i].parent.Some? ==> i < a[i].parent.value < |a|
  }

  /** `p` holds `i` on the side that `i.check_lchild` records. */
  predicate ChildOf(a: seq<HuffmanNode>, i: nat, p: nat)
    requires i < |a| && p < |a|
  {
    || (a[i].checkLchild == Some(true) && a[p].lchild == Some(i))
    || (a[i].checkLchild == Some(false) && a[p].rchild == Some(i))
  }

  /**
   * The parent/child links agree: a parent has a larger id than its child
   * and holds it as the child on the recorded side, and each child link
   * points back by `parent`.
   */
  predicate Links(a: seq<HuffmanNode>) {
    && ParentsAbove(a)
    && (forall i :: 0 <= i < |a| && a[i].parent.Some? && a[i].parent.value < |a| ==>
          ChildOf(a, i, a[i].parent.value))
    && (forall w :: 0 <= w < |a| && a[w].lchild.Some? ==>
          a[w].lchild.value < w && a[a[w].lchild.value].parent == Some(w)
          && a[a[w].lchild.value].checkLchild == Some(true))
    && (forall w :: 0 <= w < |a| && a[w].rchild.Some? ==>
          a[w].rchild.value < w && a[a[w].rchild.value].parent == Some(w)
          && a[a[w].rchild.value].checkLchild == Some(false))
  }

  /** An internal node has two children and their total frequency. */
  predicate Internal(a: seq<HuffmanNode>, i: nat)
    requires i < |a|
  {
    && a[i].lchild.Some? && a[i].rchild.Some?
    && a[i].lchild.value < |a| && a[i].rchild.value < |a|
    && a[i].freq == a[a[i].lchild.value].freq + a[a[i].rchild.value].freq
  }

  /**
   * The invariant of the merge loop over leaf frequencies `freqs`: ids are
   * dense, the first |freqs| nodes are the leaves, every later node is an
   * internal merge node, links agree, codes and paths are still empty, and
   * the queue holds exactly the parentless nodes with their frequencies.
   */
  ghost predicate Forest(freqs: seq<nat>, s: Builder) {
    var a := s.huffman;
    && QueueInArena(s)
    && |freqs| <= |a| && |a| + |s.heap| == 2 * |freqs|
    && (forall i :: 0 <= i < |a| ==> a[i].wordid == i && a[i].code == [] && a[i].path == [])
    && (forall i :: 0 <= i < |freqs| ==>
          a[i].freq == freqs[i] && a[i].lchild.None? && a[i].rchild.None?)
    && (forall i :: |freqs| <= i < |a| ==> Internal(a, i))
    && Links(a)
    && (forall e :: e in s.heap ==> e.freq == a[e.id].freq && a[e.id].parent.None?)
    && (forall i :: 0 <= i < |a| && a[i].parent.None? ==>
          Entry(a[i].freq, i) in s.heap && a[i].checkLchild.None?)
  }

  lemma LeavesForest(freqs: seq<nat>)
    ensures Forest(freqs, Leaves(freqs))
  {
  }

  /**
   * How one merge changes the arena `a` into `b`: nodes `n1` and `n2` get
   * the new node as parent, on the left and on the right, the new node is
   * appended, and nothing else changes.
   */
  predicate Step(a: seq<HuffmanNode>, b: seq<HuffmanNode>, n1: nat, n2: nat) {
    && n1 < |a| && n2 < |a| && n1 != n2 && |b| == |a| + 1
    && b[|a|] == NewNode(|a|, a[n1].freq + a[n2].freq).(lchild := Some(n1), rchild := Some(n2))
    && b[n1] == a[n1].(parent := Some(|a|), checkLchild := Some(true))
    && b[n2] == a[n2].(parent := Some(|a|), checkLchild := Some(false))
    && forall i :: 0 <= i < |a| && i != n1 && i != n2 ==> b[i] == a[i]
  }

  /** What `Merge` does, in terms of `Step` and the queue's contents. */
  lemma MergeIsStep(s: Builder)
    requires QueueInArena(s) && |s.heap| >= 2 && s.heap[0].id != s.heap[1].id
    ensures Step(s.huffman, Merge(s).huffman, s.heap[0].id, s.heap[1].id)
    ensures var n := |s.huffman|;
      forall y :: y in Merge(s).heap <==>
        y in s.heap[2..] || y == Entry(Merge(s).huffman[n].freq, n)
  {
    var r := Merge(s);
    var n := |s.huffman|;
    var h2 := s.heap[2..];
    assert r.heap == Push(h2, Entry(r.huffman[n].freq, n));
  }

  lemma StepKeepsLinks(a: seq<HuffmanNode>, b: seq<HuffmanNode>, n1: nat, n2: nat)
    requires Step(a, b, n1, n2) && Links(a)
    requires a[n1].parent.None? && a[n2].parent.None?
    ensures Links(b)
  {
    var n := |a|;
    forall i | 0 <= i < |b| && b[i].parent.Some?
      ensures i < b[i].parent.value < |b| && ChildOf(b, i, b[i].parent.value)
    {
      if i != n1 && i != n2 {
        assert b[i] == a[i];
      }
    }
    forall w | 0 <= w < |b| && b[w].lchild.Some?
      ensures b[w].lchild.value < w && b[b[w].lchild.value].parent == Some(w)
        && b[b[w].lchild.value].checkLchild == Some(true)
    {
      if w < n {
        assert b[w].lchild == a[w].lchild;
        var c := a[w].lchild.value;
        assert c != n1 && c != n2;
      }
    }
    forall w | 0 <= w < |b| && b[w].rchild.Some?
      ensures b[w].rchild.value < w && b[b[w].rchild.value].parent == Some(w)
        && b[b[w].rchild.value].checkLchild == Some(false)
    {
      if w < n {
        assert b[w].rchild == a[w].rchild;
        var c := a[w].rchild.value;
        assert c != n1 && c != n2;
      }
    }
  }

  lemma StepKeepsNodes(freqs: seq<nat>, a: seq<HuffmanNode>, b: seq<HuffmanNode>, n1: nat, n2: nat)
    requires Step(a, b, n1, n2) && |freqs| <= |a|
    requires forall i :: 0 <= i < |a| ==> a[i].wordid == i && a[i].code == [] && a[i].path == []
    requires forall i :: 0 <= i < |freqs| ==>
      a[i].freq == freqs[i] && a[i].lchild.None? && a[i].rchild.None?
    requires forall i :: |freqs| <= i < |a| ==> Internal(a, i)
    ensures forall i :: 0 <= i < |b| ==> b[i].wordid == i && b[i].code == [] && b[i].path == []
    ensures forall i :: 0 <= i < |freqs| ==>
      b[i].freq == freqs[i] && b[i].lchild.None? && b[i].rchild.None?
    ensures forall i :: |freqs| <= i < |b| ==> Internal(b, i)
  {
    forall i | |freqs| <= i < |b| ensures Internal(b, i) {
      if i < |a| {
        assert Internal(a, i);
        var l, r := a[i].lchild.value, a[i].rchild.value;
        assert b[l].freq == a[l].freq && b[r].freq == a[r].freq;
      }
    }
  }

  /** The queue after a merge holds exactly the parentless nodes. */
  lemma StepKeepsQueue(a: seq<HuffmanNode>, b: seq<HuffmanNode>, h: seq<Entry>, h': seq<Entry>)
    requires Ordered(h) && |h| >= 2 && Step(a, b, h[0].id, h[1].id)
    requires forall e :: e in h ==> e.id < |a| && e.freq == a[e.id].freq && a[e.id].parent.None?
    requires forall i :: 0 <= i < |a| && a[i].parent.None? ==>
      Entry(a[i].freq, i) in h && a[i].checkLchild.None?
    requires forall y :: y in h' <==> y in h[2..] || y == Entry(b[|a|].freq, |a|)
    ensures forall e :: e in h' ==> e.freq == b[e.id].freq && b[e.id].parent.None?
    ensures forall i :: 0 <= i < |b| && b[i].parent.None? ==>
      Entry(b[i].freq, i) in h' && b[i].checkLchild.None?
  {
    var n := |a|;
    var e1, e2, h2 := h[0], h[1], h[2..];
    assert h == [e1, e2] + h2;
    forall y | y in h2 ensures y.id != e1.id && y.id != e2.id {
      assert y in h;
      assert Less(e1, y) && Less(e2, y);
    }
    forall i | 0 <= i < |b| && b[i].parent.None?
      ensures Entry(b[i].freq, i) in h' && b[i].checkLchild.None?
    {
      if i < n {
        assert b[i] == a[i];
        assert Entry(a[i].freq, i) in h;
      }
    }
  }

  /** A merge step keeps the loop invariant. */
  lemma MergeKeepsForest(freqs: seq<nat>, s: Builder)
    requires Forest(freqs, s) && |s.heap| >= 2
    ensures Forest(freqs, Merge(s))
  {
    var a := s.huffman;
    var e1, e2 := s.heap[0], s.heap[1];
    assert Less(e1, e2);
    assert e1 in s.heap && e2 in s.heap;
    MergeIsStep(s);
    var r := Merge(s);
    StepKeepsLinks(a, r.huffman, e1.id, e2.id);
    StepKeepsNodes(freqs, a, r.huffman, e1.id, e2.id);
    StepKeepsQueue(a, r.huffman, s.heap, r.heap);
  }

  lemma {:induction false} BuildKeepsForest(freqs: seq<nat>, s: Builder)
    requires Forest(freqs, s)
    ensures Forest(freqs, Build(s))
    decreases |s.heap|
  {
    if |s.heap| > 1 {
      MergeKeepsForest(freqs, s);
      BuildKeepsForest(freqs, Merge(s));
    }
  }

  /** The builder run on leaf frequencies `freqs`, before any code is assigned. */
  function Built(freqs: seq<nat>): (s: Builder) {
    Build(Leaves(freqs))
  }

  /**
   * The finished tree over V >= 1 leaves: 2V-1 nodes with dense ids, leaves
   * first, internal nodes carrying the sum of their children's frequencies,
   * consistent links, and a single parentless node, the root, created last
   * (id 2V-2), which is all that is left in the queue.
   */
  ghost predicate FinishedTree(freqs: seq<nat>, s: Builder) {
    var a := s.huffman; var v := |freqs|;
    && |a| == 2 * v - 1
    && (forall i :: 0 <= i < |a| ==> a[i].wordid == i && a[i].code == [] && a[i].path == [])
    && (forall i :: 0 <= i < v ==>
          a[i].freq == freqs[i] && a[i].lchild.None? && a[i].rchild.None?)
    && (forall i :: v <= i < |a| ==> Internal(a, i))
    && Links(a)
    && (forall i :: 0 <= i < |a| ==> (a[i].parent.None? <==> i == 2 * v - 2))
    && s.heap == [Entry(a[2 * v - 2].freq, 2 * v - 2)]
  }

  /** When the loop stops with one queued entry, the forest is one tree. */
  lemma ForestWithOneRoot(freqs: seq<nat>, s: Builder)
    requires Forest(freqs, s) && |s.heap| == 1
    ensures FinishedTree(freqs, s)
  {
    var a := s.huffman;
    var root := |a| - 1;
    assert a[root].parent.None?;
    assert Entry(a[root].freq, root) in s.heap;
    assert s.heap == [Entry(a[root].freq, root)];
    forall i | 0 <= i < |a| && a[i].parent.None? ensures i == root {
      assert Entry(a[i].freq, i) in s.heap;
    }
  }

  lemma BuiltTree(freqs: seq<nat>)
    requires |freqs| >= 1
    ensures FinishedTree(freqs, Built(freqs))
  {
    LeavesForest(freqs);
    BuildKeepsForest(freqs, Leaves(freqs));
    ForestWithOneRoot(freqs, Built(freqs));
  }

  /** Without leaves nothing is built. */
  lemma BuiltEmpty()
    ensures Built([]).huffman == [] && Built([]).heap == []
  {
  }

  /**
   * Greedy choice of a merge: the left child is the least queued entry by
   * (freq, id), the right child the least of the others; the new node gets
   * their total frequency and becomes the parent of both, on the sides its
   * child links record.
   */
  lemma MergeTakesTwoLeast(freqs: seq<nat>, s: Builder)
    requires Forest(freqs, s) && |s.heap| >= 2
    ensures var a := s.huffman; var b := Merge(s).huffman; var n := |a|;
      && b[n].wordid == n && b[n].lchild.Some? && b[n].rchild.Some?
      && var l := b[n].lchild.value; var r := b[n].rchild.value;
      && l < n && r < n
      && Entry(a[l].freq, l) in s.heap && Entry(a[r].freq, r) in s.heap
      && Less(Entry(a[l].freq, l), Entry(a[r].freq, r))
      && (forall x :: x in s.heap && x.id != l && x.id != r ==> Less(Entry(a[r].freq, r), x))
      && b[n].freq == a[l].freq + a[r].freq
      && b[l].parent == Some(n) && b[l].checkLchild == Some(true)
      && b[r].parent == Some(n) && b[r].checkLchild == Some(false)
  {
    var pop1 := Pop(s.heap);
    var pop2 := Pop(pop1.1);
    MergeIsStep(s);
  }

  /**
   * A merge leaves every node that already has a parent as it was, so a
   * parent, once set, is never set again.
   */
  lemma MergeSetsParentOnce(freqs: seq<nat>, s: Builder)
    requires Forest(freqs, s) && |s.heap| >= 2
    ensures forall i :: 0 <= i < |s.huffman| && s.huffman[i].parent.Some? ==>
      Merge(s).huffman[i] == s.huffman[i]
  {
    var e1, e2 := s.heap[0], s.heap[1];
    assert Less(e1, e2);
    assert e1 in s.heap && e2 in s.heap;
    MergeIsStep(s);
  }

  // ---------------------------------------------------------------------
  // Codes and paths (make_huffman, word2vec.py lines 75-88)
  // ---------------------------------------------------------------------

  /** The bit a node adds to its parent's code: 0 on the left, else 1. */
  function BitOf(n: HuffmanNode): (b: Bit)
    ensures b == 0 <==> n.checkLchild == Some(true)
  {
    if n.checkLchild == Some(true) then 0 else 1
  }

  /**
   * The code `make_huffman` gives node `i`: its parent's code plus its bit.
   * It has one bit per level below the top.
   */
  function CodeOf(a: seq<HuffmanNode>, i: nat): (c: seq<Bit>)
    requires ParentsAbove(a) && i < |a|
    ensures |c| == Depth(a, i)
    decreases |a| - i
  {
    match a[i].parent
    case None => []
    case Some(p) => CodeOf(a, p) + [BitOf(a[i])]
  }

  /**
   * The path `make_huffman` gives node `i`: its parent's path plus the
   * parent. It has one id per level below the top, each an id of the arena
   * above `i`.
   */
  function PathOf(a: seq<HuffmanNode>, i: nat): (p: seq<nat>)
    requires ParentsAbove(a) && i < |a|
    ensures |p| == Depth(a, i)
    ensures forall k :: 0 <= k < |p| ==> i < p[k] < |a|
    decreases |a| - i
  {
    match a[i].parent
    case None => []
    case Some(p) => PathOf(a, p) + [p]
  }

  /** Number of parent links from node `i` up to a parentless node. */
  function Depth(a: seq<HuffmanNode>, i: nat): (d: nat)
    requires ParentsAbove(a) && i < |a|
    decreases |a| - i
  {
    match a[i].parent
    case None => 0
    case Some(p) => Depth(a, p) + 1
  }

  /** The arena with every node's code and path filled in. */
  function Labelled(a: seq<HuffmanNode>): (b: seq<HuffmanNode>)
    requires ParentsAbove(a)
    ensures |b| == |a| && forall i :: 0 <= i < |a| ==> b[i] == a[i].(code := CodeOf(a, i), path := PathOf(a, i))
  {
    LabelledUpTo(a, |a|)
  }

  function LabelledUpTo(a: seq<HuffmanNode>, n: nat): (b: seq<HuffmanNode>)
    requires ParentsAbove(a) && n <= |a|
    ensures |b| == n && forall i :: 0 <= i < n ==> b[i] == a[i].(code := CodeOf(a, i), path := PathOf(a, i))
  {
    if n == 0 then [] else LabelledUpTo(a, n - 1) + [a[n - 1].(code := CodeOf(a, n - 1), path := PathOf(a, n - 1))]
  }

  /** A node with its code and path erased: everything the merge loop sets. */
  function Shape(n: HuffmanNode): (s: HuffmanNode) {
    n.(code := [], path := [])
  }

  /**
   * Labelling keeps every other field and makes the codes consistent: a
   * parentless node has an empty code and path, and every other node has
   * its parent's code plus its bit and its parent's path plus the parent.
   */
  lemma LabelledIsConsistent(a: seq<HuffmanNode>)
    requires ParentsAbove(a)
    ensures var b := Labelled(a);
      && |b| == |a|
      && (forall i :: 0 <= i < |a| ==> Shape(b[i]) == Shape(a[i]))
      && (forall i :: 0 <= i < |b| && b[i].parent.None? ==> b[i].code == [] && b[i].path == [])
      && (forall i :: 0 <= i < |b| && b[i].parent.Some? ==>
            b[i].parent.value < |b|
            && b[i].code == b[b[i].parent.value].code + [BitOf(b[i])]
            && b[i].path == b[b[i].parent.value].path + [b[i].parent.value])
  {
  }

  /**
   * A path lists internal nodes only (ids from `v` up), all above the
   * node's own id, strictly decreasing from the first, a parentless node,
   * downwards.
   */
  lemma {:induction false} PathFacts(a: seq<HuffmanNode>, v: nat, i: nat)
    requires Links(a) && v <= |a| && i < |a|
    requires forall j :: 0 <= j < v ==> a[j].lchild.None? && a[j].rchild.None?
    ensures forall k :: 0 <= k < |PathOf(a, i)| ==> i < PathOf(a, i)[k] && v <= PathOf(a, i)[k] < |a|
    ensures forall j, k :: 0 <= j < k < |PathOf(a, i)| ==> PathOf(a, i)[j] > PathOf(a, i)[k]
    ensures |PathOf(a, i)| > 0 ==> a[PathOf(a, i)[0]].parent.None?
    decreases |a| - i
  {
    match a[i].parent
    case None =>
    case Some(p) =>
      PathFacts(a, v, p);
      assert ChildOf(a, i, p);
      var pp := PathOf(a, p);
      assert PathOf(a, i) == pp + [p];
      if |pp| > 0 {
        assert PathOf(a, i)[0] == pp[0];
      }
  }

  /**
   * Codes identify nodes: in a tree with a single parentless node, two
   * nodes with the same code are the same node.
   */
  lemma {:induction false} CodesDistinct(a: seq<HuffmanNode>, root: nat, i: nat, j: nat)
    requires Links(a) && root < |a|
    requires forall k :: 0 <= k < |a| && a[k].parent.None? ==> k == root
    requires i < |a| && j < |a| && CodeOf(a, i) == CodeOf(a, j)
    ensures i == j
    decreases 2 * |a| - i - j
  {
    match (a[i].parent, a[j].parent)
    case (None, None) =>
    case (Some(p), None) =>
    case (None, Some(q)) =>
    case (Some(p), Some(q)) =>
      var ci, cj := CodeOf(a, i), CodeOf(a, j);
      assert CodeOf(a, p) == ci[..|ci| - 1] && CodeOf(a, q) == cj[..|cj| - 1];
      CodesDistinct(a, root, p, q);
      assert BitOf(a[i]) == ci[|ci| - 1] && BitOf(a[j]) == cj[|cj| - 1];
      assert ChildOf(a, i, p) && ChildOf(a, j, p);
  }

  // ---------------------------------------------------------------------
  // Subtrees, as walked by the recursion of make_huffman
  // ---------------------------------------------------------------------

  /** Node `i` lies in the subtree rooted at `w`: `w` is on its way up. */
  ghost predicate InSubtree(a: seq<HuffmanNode>, w: nat, i: nat)
    requires ParentsAbove(a)
    decreases |a| - i
  {
    i < |a| && (i == w || (a[i].parent.Some? && InSubtree(a, w, a[i].parent.value)))
  }

  lemma {:induction false} SubtreeBelow(a: seq<HuffmanNode>, w: nat, i: nat)
    requires ParentsAbove(a) && InSubtree(a, w, i)
    ensures i <= w
    decreases |a| - i
  {
    if i != w {
      SubtreeBelow(a, w, a[i].parent.value);
    }
  }

  lemma {:induction false} SubtreeOfChild(a: seq<HuffmanNode>, w: nat, c: nat, i: nat)
    requires ParentsAbove(a) && c < |a| && a[c].parent == Some(w) && InSubtree(a, c, i)
    ensures InSubtree(a, w, i)
    decreases |a| - i
  {
    if i != c {
      SubtreeOfChild(a, w, c, a[i].parent.value);
    }
  }

  /** Below `w`, every node other than `w` lies under one of its children. */
  lemma {:induction false} SubtreeSplit(a: seq<HuffmanNode>, w: nat, i: nat)
    requires Links(a) && w < |a| && InSubtree(a, w, i) && i != w
    ensures || (a[w].lchild.Some? && InSubtree(a, a[w].lchild.value, i))
            || (a[w].rchild.Some? && InSubtree(a, a[w].rchild.value, i))
    decreases |a| - i
  {
    var p := a[i].parent.value;
    if p == w {
      assert ChildOf(a, i, w);
    } else {
      SubtreeSplit(a, w, p);
    }
  }

  lemma {:induction false} SubtreesNested(a: seq<HuffmanNode>, x: nat, y: nat, i: nat)
    requires ParentsAbove(a) && InSubtree(a, x, i) && InSubtree(a, y, i)
    ensures InSubtree(a, x, y) || InSubtree(a, y, x)
    decreases |a| - i
  {
    if i != x && i != y {
      SubtreesNested(a, x, y, a[i].parent.value);
    }
  }

  /** The two subtrees under a node share no node. */
  lemma SiblingsDisjoint(a: seq<HuffmanNode>, w: nat, i: nat)
    requires Links(a) && w < |a| && a[w].lchild.Some? && a[w].rchild.Some?
    requires InSubtree(a, a[w].lchild.value, i)
    ensures !InSubtree(a, a[w].rchild.value, i)
  {
    var l, r := a[w].lchild.value, a[w].rchild.value;
    if InSubtree(a, r, i) {
      SubtreesNested(a, l, r, i);
      if InSubtree(a, l, r) {
        assert r != l;
        SubtreeBelow(a, l, w);
      } else {
        assert r != l;
        SubtreeBelow(a, r, w);
      }
    }
  }

  /** In a tree with one parentless node, every node lies under it. */
  lemma {:induction false} UnderRoot(a: seq<HuffmanNode>, root: nat, i: nat)
    requires ParentsAbove(a) && root < |a| && i < |a|
    requires forall k :: 0 <= k < |a| && a[k].parent.None? ==> k == root
    ensures InSubtree(a, root, i)
    decreases |a| - i
  {
    if a[i].parent.Some? {
      UnderRoot(a, root, a[i].parent.value);
    }
  }

  // ---------------------------------------------------------------------
  // The labelled tree
  // ---------------------------------------------------------------------

  /** The tree `__init__` leaves behind: the built arena, labelled. */
  function LabelledTree(freqs: seq<nat>): (t: seq<HuffmanNode>)
    ensures |t| == if |freqs| == 0 then 0 else 2 * |freqs| - 1
  {
    Labelled(Built(freqs).huffman)
  }

  /**
   * With at most one word the merge loop never runs and no code or path is
   * assigned: the tree is the leaf arena as it stands.
   */
  lemma FewLeavesNoCodes(freqs: seq<nat>)
    requires |freqs| <= 1
    ensures LabelledTree(freqs) == Built(freqs).huffman == LeafArena(freqs, |freqs|)
  {
    var a := LeafArena(freqs, |freqs|);
    assert Built(freqs) == Leaves(freqs);
    if |freqs| == 1 {
      assert CodeOf(a, 0) == [] && PathOf(a, 0) == [];
    }
  }

  /**
   * The labelled tree reached through the builder's states: `start` after
   * the leaf loop, `final` after the merge loop, and `h` the arena after
   * the codes are assigned (only when there are two words or more).
   */
  lemma LabelledTreeFrom(freqs: seq<nat>, start: Builder, final: Builder, h: seq<HuffmanNode>)
    requires start == Leaves(freqs) && final == Build(start)
    requires |freqs| > 1 ==> ParentsAbove(final.huffman) && h == Labelled(final.huffman)
    requires |freqs| <= 1 ==> h == final.huffman
    ensures h == LabelledTree(freqs)
  {
    if |freqs| <= 1 {
      FewLeavesNoCodes(freqs);
    }
  }

  /**
   * Over V >= 1 leaves the labelled tree has 2V-1 nodes with dense ids: the
   * leaves first, with their frequencies, then the merge nodes, each with
   * two children and their total frequency; the last node is the one and
   * only parentless node, the root.
   */
  lemma LabelledTreeShape(freqs: seq<nat>)
    requires |freqs| >= 1
    ensures var t := LabelledTree(freqs);
      && |t| == 2 * |freqs| - 1
      && (forall i :: 0 <= i < |t| ==> t[i].wordid == i)
      && (forall i :: 0 <= i < |freqs| ==>
            t[i].freq == freqs[i] && t[i].lchild.None? && t[i].rchild.None?)
      && (forall i :: |freqs| <= i < |t| ==> Internal(t, i))
      && (forall i :: 0 <= i < |t| ==> (t[i].parent.None? <==> i == |t| - 1))
  {
    BuiltTree(freqs);
    LabelledFinished(freqs, Built(freqs));
  }

  /** Labelling a finished tree keeps its shape. */
  lemma LabelledFinished(freqs: seq<nat>, s: Builder)
    requires FinishedTree(freqs, s)
    ensures var t := Labelled(s.huffman);
      && |t| == 2 * |freqs| - 1
      && (forall i :: 0 <= i < |t| ==> t[i].wordid == i)
      && (forall i :: 0 <= i < |freqs| ==>
            t[i].freq == freqs[i] && t[i].lchild.None? && t[i].rchild.None?)
      && (forall i :: |freqs| <= i < |t| ==> Internal(t, i))
      && (forall i :: 0 <= i < |t| ==> (t[i].parent.None? <==> i == |t| - 1))
  {
    var a := s.huffman;
    var t := Labelled(a);
    forall i | |freqs| <= i < |t| ensures Internal(t, i) {
      assert Internal(a, i);
    }
  }

  /**
   * The path of node `i` of the labelled tree starts at the root and lists
   * merge-node ids, in [V, 2V-1), strictly decreasing from the root down.
   */
  lemma LabelledTreePath(freqs: seq<nat>, i: nat)
    requires |freqs| >= 1 && i < |LabelledTree(freqs)|
    ensures var t := LabelledTree(freqs);
      && (|t[i].path| > 0 ==> t[i].path[0] == |t| - 1)
      && (forall k :: 0 <= k < |t[i].path| ==> |freqs| <= t[i].path[k] < |t|)
      && (forall j, k :: 0 <= j < k < |t[i].path| ==> t[i].path[j] > t[i].path[k])
  {
    BuiltTree(freqs);
    var a := Built(freqs).huffman;
    PathFacts(a, |freqs|, i);
    assert LabelledTree(freqs) == Labelled(a);
    assert |LabelledTree(freqs)| == |a| && LabelledTree(freqs)[i].path == PathOf(a, i);
  }

  /**
   * Code and path of node `i` of the labelled tree both have the node's
   * depth below the root as length.
   */
  lemma LabelledTreeCodeLength(freqs: seq<nat>, i: nat)
    requires |freqs| >= 1 && i < |LabelledTree(freqs)|
    ensures |LabelledTree(freqs)[i].code| == |LabelledTree(freqs)[i].path| == Depth(Built(freqs).huffman, i)
  {
    BuiltTree(freqs);
  }

  /**
   * In a tree with a single parentless node, a node whose code is a prefix
   * of another's lies above it.
   */
  lemma {:induction false} PrefixMeansAncestor(a: seq<HuffmanNode>, root: nat, i: nat, j: nat)
    requires Links(a) && root < |a|
    requires forall k :: 0 <= k < |a| && a[k].parent.None? ==> k == root
    requires i < |a| && j < |a| && CodeOf(a, i) <= CodeOf(a, j)
    ensures InSubtree(a, i, j)
    decreases |a| - j
  {
    var ci, cj := CodeOf(a, i), CodeOf(a, j);
    if |ci| == |cj| {
      CodesDistinct(a, root, i, j);
    } else {
      var p := a[j].parent.value;
      assert CodeOf(a, p) == cj[..|cj| - 1];
      PrefixMeansAncestor(a, root, i, p);
    }
  }

  /**
   * The leaves' codes form a prefix code: no leaf's code is a prefix of the
   * code of any other node of the tree, and so of any other leaf's.
   */
  lemma LeafCodesPrefixFree(freqs: seq<nat>, i: nat, j: nat)
    requires i < |freqs| && j < |LabelledTree(freqs)|
    requires LabelledTree(freqs)[i].code <= LabelledTree(freqs)[j].code
    ensures i == j
  {
    BuiltTree(freqs);
    FinishedLeafPrefixFree(freqs, Built(freqs), i, j);
  }

  lemma FinishedLeafPrefixFree(freqs: seq<nat>, s: Builder, i: nat, j: nat)
    requires FinishedTree(freqs, s) && i < |freqs| && j < |s.huffman|
    requires Labelled(s.huffman)[i].code <= Labelled(s.huffman)[j].code
    ensures i == j
  {
    LeafPrefixFree(s.huffman, |s.huffman| - 1, i, j);
  }

  /** A childless node's code is a prefix of no other node's code. */
  lemma LeafPrefixFree(a: seq<HuffmanNode>, root: nat, i: nat, j: nat)
    requires Links(a) && root < |a|
    requires forall k :: 0 <= k < |a| && a[k].parent.None? ==> k == root
    requires i < |a| && a[i].lchild.None? && a[i].rchild.None?
    requires j < |a| && CodeOf(a, i) <= CodeOf(a, j)
    ensures i == j
  {
    PrefixMeansAncestor(a, root, i, j);
    if i != j {
      SubtreeSplit(a, i, j);
    }
  }

  /**
   * One call `make_huffman(w)`: `before` is the arena it starts from, `here`
   * the arena once `w` has its code and path, `afterLeft` after the walk of
   * the left subtree and `after` after the walk of the right one (each walk
   * labels its subtree and changes nothing else). Then every node under `w`
   * is labelled and every other node is as in `before`.
   */
  lemma WalkLabelsSubtree(shape: seq<HuffmanNode>, w: nat, before: seq<HuffmanNode>,
                          here: seq<HuffmanNode>, afterLeft: seq<HuffmanNode>, after: seq<HuffmanNode>)
    requires Links(shape) && w < |shape|
    requires |before| == |shape| && |here| == |shape| && |afterLeft| == |shape| && |after| == |shape|
    requires here[w].code == CodeOf(shape, w) && here[w].path == PathOf(shape, w)
    requires forall i :: 0 <= i < |shape| && i != w ==> here[i] == before[i]
    requires shape[w].lchild.None? ==> afterLeft == here
    requires shape[w].lchild.Some? ==> forall i :: 0 <= i < |shape| ==>
      if InSubtree(shape, shape[w].lchild.value, i)
      then afterLeft[i].code == CodeOf(shape, i) && afterLeft[i].path == PathOf(shape, i)
      else afterLeft[i] == here[i]
    requires shape[w].rchild.None? ==> after == afterLeft
    requires shape[w].rchild.Some? ==> forall i :: 0 <= i < |shape| ==>
      if InSubtree(shape, shape[w].rchild.value, i)
      then after[i].code == CodeOf(shape, i) && after[i].path == PathOf(shape, i)
      else after[i] == afterLeft[i]
    ensures forall i :: 0 <= i < |shape| && InSubtree(shape, w, i) ==>
      after[i].code == CodeOf(shape, i) && after[i].path == PathOf(shape, i)
    ensures forall i :: 0 <= i < |shape| && !InSubtree(shape, w, i) ==> after[i] == before[i]
  {
    if shape[w].lchild.Some? {
      var l := shape[w].lchild.value;
      assert !InSubtree(shape, l, w) by {
        if InSubtree(shape, l, w) { SubtreeBelow(shape, l, w); }
      }
    }
    if shape[w].rchild.Some? {
      var r := shape[w].rchild.value;
      assert !InSubtree(shape, r, w) by {
        if InSubtree(shape, r, w) { SubtreeBelow(shape, r, w); }
      }
    }
    forall i | 0 <= i < |shape|
      ensures InSubtree(shape, w, i) ==>
        after[i].code == CodeOf(shape, i) && after[i].path == PathOf(shape, i)
      ensures !InSubtree(shape, w, i) ==> after[i] == before[i]
    {
      if InSubtree(shape, w, i) && i != w {
        SubtreeSplit(shape, w, i);
        if shape[w].lchild.Some? && shape[w].rchild.Some? && InSubtree(shape, shape[w].lchild.value, i) {
          SiblingsDisjoint(shape, w, i);
        }
      } else if !InSubtree(shape, w, i) {
        if shape[w].lchild.Some? && InSubtree(shape, shape[w].lchild.value, i) {
          SubtreeOfChild(shape, w, shape[w].lchild.value, i);
        }
        if shape[w].rchild.Some? && InSubtree(shape, shape[w].rchild.value, i) {
          SubtreeOfChild(shape, w, shape[w].rchild.value, i);
        }
      }
    }
  }

  /**
   * Walking the root's left subtree and then its right subtree labels the
   * whole tree: `mid` is the arena after the first walk, `after` after the
   * second, each stated as `make_huffman` leaves it.
   */
  lemma WalksFromRootLabelAll(a: seq<HuffmanNode>, root: nat, mid: seq<HuffmanNode>, after: seq<HuffmanNode>)
    requires Links(a) && root < |a| && a[root].parent.None? && a[root].code == [] && a[root].path == []
    requires forall k :: 0 <= k < |a| && a[k].parent.None? ==> k == root
    requires a[root].lchild.Some? && a[root].rchild.Some?
    requires |mid| == |a| && |after| == |a|
    requires forall i :: 0 <= i < |a| ==> Shape(after[i]) == Shape(a[i])
    requires forall i :: 0 <= i < |a| && InSubtree(a, a[root].lchild.value, i) ==>
      mid[i].code == CodeOf(a, i) && mid[i].path == PathOf(a, i)
    requires forall i :: 0 <= i < |a| && !InSubtree(a, a[root].lchild.value, i) ==> mid[i] == a[i]
    requires forall i :: 0 <= i < |a| && InSubtree(a, a[root].rchild.value, i) ==>
      after[i].code == CodeOf(a, i) && after[i].path == PathOf(a, i)
    requires forall i :: 0 <= i < |a| && !InSubtree(a, a[root].rchild.value, i) ==> after[i] == mid[i]
    ensures after == Labelled(a)
  {
    var l, r := a[root].lchild.value, a[root].rchild.value;
    forall i | 0 <= i < |a| ensures after[i] == Labelled(a)[i] {
      if i != root {
        UnderRoot(a, root, i);
        SubtreeSplit(a, root, i);
        if InSubtree(a, l, i) {
          SiblingsDisjoint(a, root, i);
        }
      } else {
        assert !InSubtree(a, l, root) by {
          if InSubtree(a, l, root) { SubtreeBelow(a, l, root); }
        }
        assert !InSubtree(a, r, root) by {
          if InSubtree(a, r, root) { SubtreeBelow(a, r, root); }
        }
      }
      assert Shape(after[i]) == Shape(a[i]);
    }
  }

  // ---------------------------------------------------------------------
  // The merge loop as written (word2vec.py lines 56-71)
  // ---------------------------------------------------------------------

  /**
   * The loop as written also calls `make_huffman(um_node[0][2].lchild)`
   * (line 70) on every pass, on whatever node heads the queue after the
   * push. When that node is a leaf its `lchild` is None and
   * `make_huffman(None)` fails on `self.huffman[None]`. True when some pass
   * of the loop from `s` finds a leaf at the head of the queue.
   */
  function LoopAsWrittenRaises(s: Builder): (r: bool)
    requires QueueInArena(s)
    ensures r ==> |s.heap| >= 3
    decreases |s.heap|
  {
    if |s.heap| <= 1 then false
    else
      var m := Merge(s);
      m.huffman[m.heap[0].id].lchild.None? || LoopAsWrittenRaises(m)
  }

  /**
   * Three words of frequency 1: the first pass merges words 0 and 1 into
   * node 3 of frequency 2, which leaves leaf 2 at the head of the queue.
   */
  lemma ThreeEqualWordsRaise()
    ensures LoopAsWrittenRaises(Leaves([1, 1, 1]))
  {
    ThreeEqualLeaves();
    FirstPassFindsLeaf(Leaves([1, 1, 1]));
  }

  /** The leaves and the queue after the leaf loop over three words of frequency 1. */
  lemma ThreeEqualLeaves()
    ensures var s := Leaves([1, 1, 1]);
      && s.heap == [Entry(1, 0), Entry(1, 1), Entry(1, 2)]
      && |s.huffman| == 3 && s.huffman[0].freq == 1 && s.huffman[1].freq == 1
      && s.huffman[2].lchild.None?
  {
    var freqs := [1, 1, 1];
    assert LeafQueue(freqs, 1) == [Entry(1, 0)];
    assert LeafQueue(freqs, 2) == [Entry(1, 0), Entry(1, 1)];
    assert LeafQueue(freqs, 3) == Push([Entry(1, 0), Entry(1, 1)], Entry(1, 2));
  }

  lemma FirstPassFindsLeaf(s: Builder)
    requires QueueInArena(s) && s.heap == [Entry(1, 0), Entry(1, 1), Entry(1, 2)]
    requires |s.huffman| == 3 && s.huffman[0].freq == 1 && s.huffman[1].freq == 1
    requires s.huffman[2].lchild.None?
    ensures LoopAsWrittenRaises(s)
  {
    MergeIsStep(s);
    var m := Merge(s);
    assert m.huffman[3].freq == 2;
    assert Entry(1, 2) in m.heap && Entry(2, 3) in m.heap;
    assert m.heap[0] in m.heap;
    assert m.heap[0] == Entry(1, 2);
  }
}
