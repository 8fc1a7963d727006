/**
 * `SkipGramModel` of word2vec.py, restricted to its Huffman tree: the
 * constructor grows the arena `self.huffman` and the queue `um_node` step by
 * step, and `MakeHuffman` writes codes and paths into the arena's entries.
 * The vocabulary is given by its frequencies, one per word id.
 */
module SkipGram {
  import opened HeapQueue
  import opened Huffman

  class SkipGramModel {
    /** `self.freq`: the vocabulary size. */
    var freq: nat
    /** `self.freq_list`: the frequency of each word, by id. */
    var freqList: seq<nat>
    /** `self.huffman`: the node arena; index == node id. */
    var huffman: seq<HuffmanNode>

    /** Every node agrees with `shape` on every field but code and path. */
    ghost predicate ShapedAs(shape: seq<HuffmanNode>)
      reads this
    {
      |huffman| == |shape| && forall i :: 0 <= i < |shape| ==> Shape(huffman[i]) == Shape(shape[i])
    }

    /**
     * The tree-building part of `__init__` (word2vec.py lines 37, 46-71):
     * the frequency list, one leaf per word, the greedy merge loop, then the
     * code and path assignment from the root. The arena ends as the built
     * tree with every code and path filled in.
     */
    constructor (freqs: seq<nat>)
      ensures freq == |freqs| && freqList == freqs
      ensures huffman == LabelledTree(freqs)
    {
      freq := |freqs|;
      freqList := [];
      huffman := [];
      new;
      var index := 0;
      while index < |freqs|
        invariant index <= |freqs| && freqList == freqs[..index]
        invariant huffman == [] && freq == |freqs|
      {
        freqList := freqList + [freqs[index]];
        index := index + 1;
      }
      var umNode := AddLeaves(freqs);
      ghost var start := Builder(huffman, umNode);
      umNode := MergeAll(umNode);
      LabelTree(umNode, freqs, start);
    }

    /**
     * The traversal of the merge loop's last pass (lines 70-71), made only
     * when the loop ran, that is with two words or more: from the state
     * the loop leaves, the arena becomes the labelled tree of `freqs`.
     */
    method LabelTree(umNode: seq<Entry>, ghost freqs: seq<nat>, ghost start: Builder)
      requires freq == |freqs| && start == Leaves(freqs) && Builder(huffman, umNode) == Build(start)
      modifies this`huffman
      ensures huffman == LabelledTree(freqs)
    {
      ghost var final := Builder(huffman, umNode);
      if freq > 1 {
        BuiltTree(freqs);
        AssignCodes(umNode, freqs);
      }
      LabelledTreeFrom(freqs, start, final, huffman);
    }

    /**
     * The leaf loop (lines 51-54): word `wordid` becomes node `wordid` of
     * the arena and its entry is pushed on the queue.
     */
    method AddLeaves(freqs: seq<nat>) returns (umNode: seq<Entry>)
      requires huffman == []
      modifies this`huffman
      ensures Builder(huffman, umNode) == Leaves(freqs)
    {
      umNode := [];
      var wordid := 0;
      while wordid < |freqs|
        invariant wordid <= |freqs|
        invariant huffman == LeafArena(freqs, wordid) && umNode == LeafQueue(freqs, wordid)
      {
        var c := freqs[wordid];
        var node := NewNode(wordid, c);
        assert Entry(c, wordid) !in umNode;
        umNode := Push(umNode, Entry(c, wordid));
        huffman := huffman + [node];
        wordid := wordid + 1;
        assert umNode == LeafQueue(freqs, wordid) && huffman == LeafArena(freqs, wordid);
      }
    }

    /**
     * The merge loop `while len(um_node) > 1` (lines 55-68), from the arena
     * and queue it is given to the state `Build` computes from them.
     */
    method MergeAll(umNode0: seq<Entry>) returns (umNode: seq<Entry>)
      requires QueueInArena(Builder(huffman, umNode0))
      modifies this`huffman
      ensures Builder(huffman, umNode) == Build(Builder(old(huffman), umNode0))
    {
      ghost var start := Builder(huffman, umNode0);
      umNode := umNode0;
      var nextId := |huffman|;
      while |umNode| > 1
        invariant QueueInArena(Builder(huffman, umNode)) && nextId == |huffman|
        invariant Build(Builder(huffman, umNode)) == Build(start)
        decreases |umNode|
      {
        umNode := MergeTwoLeast(umNode, nextId);
        nextId := |huffman|;
      }
    }

    /**
     * One pass of the merge loop's body (lines 57-68): pop the two least
     * entries, link them under a new node with id `nextId` (the arena's
     * length), append it and queue it. The arena and queue become `Merge` of
     * the old ones: this is the same pass as `Merge`, written as the source's
     * in-place updates of the arena and the queue.
     */
    method MergeTwoLeast(umNode: seq<Entry>, nextId: nat) returns (umNode': seq<Entry>)
      requires QueueInArena(Builder(huffman, umNode)) && |umNode| >= 2 && nextId == |huffman|
      modifies this`huffman
      ensures Builder(huffman, umNode') == Merge(Builder(old(huffman), umNode))
    {
      var pop1 := Pop(umNode);
      var node1 := pop1.0.id;
      var pop2 := Pop(pop1.1);
      var node2 := pop2.0.id;
      umNode' := pop2.1;
      var nnode := NewNode(nextId, huffman[node1].freq + huffman[node2].freq);
      huffman := huffman[node1 := huffman[node1].(parent := Some(nnode.wordid))];
      huffman := huffman[node2 := huffman[node2].(parent := Some(nnode.wordid))];
      nnode := nnode.(lchild := Some(node1));
      huffman := huffman[node1 := huffman[node1].(checkLchild := Some(true))];
      nnode := nnode.(rchild := Some(node2));
      huffman := huffman[node2 := huffman[node2].(checkLchild := Some(false))];
      huffman := huffman + [nnode];
      umNode' := Push(umNode', Entry(nnode.freq, nnode.wordid));
    }

    /**
     * The two calls `make_huffman(um_node[0][2].lchild)` and
     * `make_huffman(um_node[0][2].rchild)` (lines 70-71) as made on the merge
     * loop's last pass, when the queue holds only the root: every node gets
     * the code and path its position below the root gives it.
     */
    method AssignCodes(umNode: seq<Entry>, ghost freqs: seq<nat>)
      requires |freqs| >= 2 && FinishedTree(freqs, Builder(huffman, umNode))
      modifies this`huffman
      ensures ParentsAbove(old(huffman)) && huffman == Labelled(old(huffman))
    {
      ghost var shape := huffman;
      var root := umNode[0].id;
      assert root == |huffman| - 1 && Internal(huffman, root);
      var l, r := huffman[root].lchild.value, huffman[root].rchild.value;
      MakeHuffman(l, shape);
      ghost var mid := huffman;
      MakeHuffman(r, shape);
      WalksFromRootLabelAll(shape, root, mid, huffman);
    }

    /**
     * `make_huffman(wordid)` (lines 75-88): the node gets its parent's code
     * plus its own bit and its parent's path plus the parent, then its left
     * and right subtrees are walked. Afterwards every node under `wordid`
     * carries the code and path `shape` gives it; nothing else changes.
     */
    method MakeHuffman(wordid: nat, ghost shape: seq<HuffmanNode>)
      requires Links(shape) && ShapedAs(shape)
      requires wordid < |shape| && shape[wordid].parent.Some?
      requires huffman[shape[wordid].parent.value].code == CodeOf(shape, shape[wordid].parent.value)
      requires huffman[shape[wordid].parent.value].path == PathOf(shape, shape[wordid].parent.value)
      modifies this`huffman
      ensures ShapedAs(shape)
      ensures forall i :: 0 <= i < |shape| && InSubtree(shape, wordid, i) ==>
        huffman[i].code == CodeOf(shape, i) && huffman[i].path == PathOf(shape, i)
      ensures forall i :: 0 <= i < |shape| && !InSubtree(shape, wordid, i) ==>
        huffman[i] == old(huffman[i])
      decreases wordid
    {
      ghost var before := huffman;
      assert Shape(huffman[wordid]) == Shape(shape[wordid]);
      var code: seq<Bit> := if huffman[wordid].checkLchild == Some(true) then [0] else [1];
      huffman := huffman[wordid := huffman[wordid].(code := huffman[huffman[wordid].parent.value].code + code)];
      huffman := huffman[wordid := huffman[wordid].(path := huffman[huffman[wordid].parent.value].path + [huffman[wordid].parent.value])];
      ghost var here := huffman;
      assert Shape(huffman[wordid]) == Shape(shape[wordid]);
      if huffman[wordid].lchild.Some? {
        var l := huffman[wordid].lchild.value;
        MakeHuffman(l, shape);
        assert !InSubtree(shape, l, wordid) by {
          if InSubtree(shape, l, wordid) { SubtreeBelow(shape, l, wordid); }
        }
      }
      ghost var afterLeft := huffman;
      if huffman[wordid].rchild.Some? {
        var r := huffman[wordid].rchild.value;
        MakeHuffman(r, shape);
      }
      WalkLabelsSubtree(shape, wordid, before, here, afterLeft, huffman);
    }
  }
}
