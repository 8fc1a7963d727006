# Huffman tree of a skip-gram word2vec model

`word2vec.py` is a skip-gram word2vec model. Its `SkipGramModel.__init__`
builds a Huffman tree over the vocabulary, of the kind hierarchical softmax
uses; the training code as written uses a negative-sampling loss and never
reads the tree. The tree is built as follows:

- one `HuffmanNode` leaf per word, with ids `0..V-1`;
- a `heapq` queue of `(freq, wordid, node)` entries;
- a greedy merge loop that pops the two least entries, appends a new node
  with id `len(self.huffman)`, links the two under it (the first popped on
  the left, the second on the right) and queues it;
- then `make_huffman`, which walks down from the root and gives every node
  its parent's code plus one bit (0 on the left, 1 on the right) and its
  parent's path plus the parent's id.

Nodes live in an arena, the list `self.huffman`, where a node's index is its
id. Links between nodes are ids.

This project models that builder in three modules:

- `HeapQueue` (`heapq.dfy`) is the queue `um_node`. It is a strictly
  ascending sequence of `Entry(freq, id)` under the tuple order on
  (freq, id). Ids are unique, so Python never compares two node objects, and
  the head of the sequence is exactly what `heappop` returns.
- `Huffman` (`huffman.dfy`) holds the node record and the builder as pure
  functions:
  - `Leaves` is the state after the leaf loop;
  - `Merge` is one pass of the merge loop, and `Build` is the whole loop;
  - `Labelled` fills in the codes and paths;
  - `LabelledTree(freqs)` is the arena `self.huffman` as it stands after
    line 71 of `__init__`.
  
  It also holds the proofs about these functions: the loop invariant
  `Forest`, the shape of the finished tree, the code and path properties,
  and the subtree lemmas that the recursive walk needs.
- `SkipGram` (`skipgram.dfy`) holds `class SkipGramModel` with the fields
  `freq`, `freqList` and `huffman`. Its constructor runs the loops of
  `__init__` imperatively. `MakeHuffman` is the recursive walk; it rewrites
  entries of the `huffman` field in place. Each method is proved equal to
  the pure functions above, so the constructor ends with
  `huffman == LabelledTree(freqs)`.

The vocabulary is given as a sequence of natural-number frequencies, one
per word id.

## Model

| member | source | states |
|---|---|---|
| HeapQueue.Push | word2vec.py:53 | `heappush`: the queue stays ordered and gains exactly the pushed entry (same multiset plus it, same membership plus it) |
| HeapQueue.Pop | word2vec.py:57-58 | `heappop`: returns an entry below every remaining one; the rest stays ordered and together with it is the old queue |
| Huffman.NewNode | word2vec.py:21-29 | `HuffmanNode(wordid, freq)` carries the given id and frequency, no parent, side or children, and empty code and path |
| Huffman.LeafArena | word2vec.py:51-54 | after `k` passes of the leaf loop the arena holds `k` nodes, node `i` being a fresh `HuffmanNode(i, freqs[i])` |
| Huffman.LeafQueue | word2vec.py:51-53 | after `k` passes the queue is ordered, has `k` entries, and holds exactly the pairs (freqs[i], i) for i < k |
| Huffman.Leaves | word2vec.py:51-54 | the state before the merge loop: the queue is ordered, every queued id names a node of the arena, and links point upwards |
| Huffman.Merge | word2vec.py:56-68 | one merge pass shrinks the queue by exactly one and grows the arena by exactly one, and keeps every parent above its children |
| Huffman.Build | word2vec.py:56-68 | the merge loop ends with one queued entry (none for an empty vocabulary), after adding one node per extra queued entry |
| Huffman.LeavesForest | word2vec.py:51-55 | the loop invariant holds before the merge loop |
| Huffman.MergeIsStep | word2vec.py:57-67 | a pass makes the two popped nodes the left and right children of a new node with their total frequency, appends it, queues it, and changes nothing else |
| Huffman.MergeKeepsForest | word2vec.py:56-68 | each pass keeps the invariant: dense ids, leaves first, internal nodes with two children and their total frequency, consistent links, the queue holding exactly the parentless nodes |
| Huffman.BuildKeepsForest | word2vec.py:56-68 | the whole merge loop keeps the invariant |
| Huffman.ForestWithOneRoot | word2vec.py:56 | when the loop stops with one queued entry, that entry is the only parentless node, and it was created last |
| Huffman.BuiltTree | word2vec.py:46-68 | from V >= 1 words: 2V-1 nodes, node i has id i, leaves first with their frequencies, every later node internal, links consistent, root 2V-2 the one parentless node |
| Huffman.BuiltEmpty | word2vec.py:51-56 | with no words the arena and the queue stay empty |
| Huffman.MergeTakesTwoLeast | word2vec.py:57-65 | the new node's left child is the least queued entry by (freq, id) and its right child the least of the rest; the new node has their total frequency and is parent of both, with `check_lchild` True and False |
| Huffman.MergeSetsParentOnce | word2vec.py:60-61 | a pass changes no node that already has a parent, so each parent is set at most once |
| Huffman.Labelled | word2vec.py:75-88 | the labelled arena keeps its length, and each node gets the code and path of its position below the root |
| Huffman.LabelledIsConsistent | word2vec.py:78-83 | after labelling, every other field is unchanged, a parentless node has empty code and path, and every other node has its parent's code plus its bit and its parent's path plus the parent |
| Huffman.BitOf | word2vec.py:78-81 | the bit a node adds is 0 exactly when it is a left child (`check_lchild` True), else 1 |
| Huffman.CodeOf | word2vec.py:82 | the code written at a node has one bit per parent link from it up to the top |
| Huffman.PathOf | word2vec.py:83 | the path written at a node has one id per parent link up to the top, each an arena id above the node's own |
| Huffman.PathFacts | word2vec.py:83 | a path holds internal ids only, all above the node's own id, strictly decreasing, starting at a parentless node |
| Huffman.CodesDistinct | word2vec.py:78-82 | in a tree with one root, two nodes with the same code are the same node |
| Huffman.FewLeavesNoCodes | word2vec.py:55-56 | with at most one word no merge happens and no code or path is assigned |
| Huffman.LabelledTree | word2vec.py:46-71 | the arena after line 71 has 2V-1 nodes over V >= 1 words, and none over no words |
| Huffman.LabelledTreeFrom | word2vec.py:56-71 | the arena after the merge loop, labelled when the loop ran and as it stands otherwise, is `LabelledTree(freqs)` |
| Huffman.LabelledTreeShape | word2vec.py:46-68 | the final tree over V >= 1 words has 2V-1 nodes, node i has id i, leaves have their frequencies and no children, internal nodes carry their children's total frequency, and only the last node is parentless |
| Huffman.LabelledTreePath | word2vec.py:83 | in the final tree a path starts at the root and holds merge-node ids in [V, 2V-1), strictly decreasing from the root down |
| Huffman.LabelledTreeCodeLength | word2vec.py:78-83 | in the final tree a node's code and path both have its depth below the root as length |
| Huffman.LeafCodesPrefixFree | word2vec.py:78-83 | a leaf's code is a prefix of no other node's code, so the words' codes form a prefix code |
| Huffman.LeafPrefixFree | word2vec.py:78-88 | in any tree with one root, a childless node's code is a prefix of no other node's code |
| Huffman.WalkLabelsSubtree | word2vec.py:75-88 | one `make_huffman(w)` call labels exactly the subtree of `w` and leaves every other node alone |
| Huffman.WalksFromRootLabelAll | word2vec.py:70-71 | walking the root's left subtree and then its right subtree yields the labelled arena |
| Huffman.LoopAsWrittenRaises | word2vec.py:56-71 | true when some pass of the loop as written leaves a childless node at the head of the queue, where line 70 evaluates `self.huffman[None]`; never with fewer than three queued entries, since the last pass always finds the new root at the head |
| Huffman.ThreeEqualWordsRaise | word2vec.py:56-71 | with three words of integer frequency 1, some pass of the loop as written calls `make_huffman` on the missing left child of a leaf |
| Huffman.FirstPassFindsLeaf | word2vec.py:57-70 | from a queue (1,0), (1,1), (1,2) whose third node is a leaf, the loop as written fails on its first pass: the merged node has frequency 2, so leaf 2 heads the queue |
| SkipGram.SkipGramModel.constructor | word2vec.py:37-71 | `freq` is the vocabulary size, `freqList` the frequency list, and `huffman` the labelled Huffman tree `LabelledTree(freqs)` |
| SkipGram.SkipGramModel.AddLeaves | word2vec.py:51-54 | the leaf loop leaves the arena and queue that `Leaves` describes |
| SkipGram.SkipGramModel.MergeAll | word2vec.py:55-68 | the merge loop leaves the arena and queue that `Build` computes from its starting state |
| SkipGram.SkipGramModel.MergeTwoLeast | word2vec.py:57-68 | one pass of the loop body turns arena and queue into their `Merge` |
| SkipGram.SkipGramModel.LabelTree | word2vec.py:70-71 | after the merge loop, the root traversal (made when the loop ran) turns the arena into `LabelledTree(freqs)` |
| SkipGram.SkipGramModel.AssignCodes | word2vec.py:70-71 | the two calls from the root turn a finished arena into its labelled form |
| SkipGram.SkipGramModel.MakeHuffman | word2vec.py:75-88 | every node under `wordid` gets the code and path its position gives it; nodes outside that subtree, and every non-code field, are unchanged |

## Left out

- `CorpusList` (word2vec.py:10-17) and the `__main__` block: they read a file and clean raw text. The model takes the frequencies as input instead.
- `init_samples` (word2vec.py:90-99): it cannot run as written. It unpacks an `int` from `range` and appends to an undefined `sample_table`. It states nothing about the tree.
- SkipGram.SkipGramModel.constructor: models word2vec.py:37-71 only. The source's `__init__` goes on to call `init_samples` (line 72), which raises (`0/0` at line 95 with an empty vocabulary, otherwise the `TypeError` at line 97), so the source never returns this state to a caller.
- `init_emb`, `forward`, `train_model` and `save_embedding`: floating-point numerics over torch, random initialisation and file output.
- The `nn.Embedding` and `optim.SGD` setup (word2vec.py:38-39, 45) and the constructor parameters other than the vocabulary: library calls, unrelated to the tree.
- Frequencies: the source passes each set element (a character) as `freq`, so `node1.freq + node2.freq` concatenates strings and `heapq` compares them as strings. The model gives each word a natural-number frequency and sums them, which is what the intended word counts would do. The crash in Findings needs such integer counts: with distinct characters the newest merge node always heads the queue, because its string starts with the least remaining character.
- The vocabulary's order: the source numbers words in the iteration order of a Python `set`. The model takes the order as given in `freqs`.
- The traversals on the merge loop's intermediate passes (word2vec.py:70-71): the model makes one traversal from the root after the loop, when the loop ran (see Findings). A correct intermediate traversal only writes codes and paths, and the final traversal overwrites all of them, since `CodeOf` and `PathOf` depend only on the links.
- The guard `if len(self.huffman) < 1: return` (word2vec.py:76-77): it never fires, because `make_huffman` is only called with an id of the non-empty arena.
- SkipGram.SkipGramModel.MakeHuffman: requires a node that has a parent, links that agree, and a labelled parent. The source would fail on `self.huffman[None]` for the root. It is called only on children of the queue head, a parentless node whose code and path are still empty, and recursively on their children, so the requirement holds at every call it makes.
- `heapq` as a binary heap in a list: it is modelled as a sorted sequence. Entries are unique, so both give the same pops.
- Huffman optimality, that the built tree minimises the weighted code length, is not stated: it needs a global exchange argument over all code trees, beyond the invariants modelled here.

## Findings

| source | as written | input that shows it | evidently intended | confidence | as-written member | corrected member |
|---|---|---|---|---|---|---|
| word2vec.py:70-71 | `make_huffman(um_node[0][2].lchild)` and `.rchild` run on every pass of the merge loop, on whatever node then heads the queue | three words with integer counts 1, 1, 1 (the intended frequencies; the literal character frequencies never reach it): the first pass merges 0 and 1 into node 3 (frequency 2), leaf 2 heads the queue, its `lchild` is None and `self.huffman[None]` raises | one traversal from the root once the loop has finished | not executed | Huffman.ThreeEqualWordsRaise | SkipGram.SkipGramModel.LabelTree |
