/**
 * The pending-node queue of the Huffman builder (the list `um_node` driven by
 * Python's `heapq`). An entry is the pair (frequency, id); the node itself is
 * looked up in the arena by id. Entries are ordered lexicographically on
 * (frequency, id), and since ids are unique no two live entries compare equal,
 * so the queue is kept as a strictly ascending sequence: its head is exactly
 * the entry `heappop` returns.
 */
module HeapQueue {

  datatype Entry = Entry(freq: nat, id: nat)

  /** Tuple order on (freq, id), as `heapq` compares `(c, wordid, node)`. */
  predicate Less(x: Entry, y: Entry) {
    x.freq < y.freq || (x.freq == y.freq && x.id < y.id)
  }

  predicate Ordered(h: seq<Entry>) {
    forall i, j :: 0 <= i < j < |h| ==> Less(h[i], h[j])
  }

  /** `heappush`: the new entry joins the queue, which stays ordered. */
  function Push(h: seq<Entry>, x: Entry): (r: seq<Entry>)
    requires Ordered(h) && x !in h
    ensures Ordered(r) && |r| == |h| + 1
    ensures multiset(r) == multiset(h) + multiset{x}
    ensures forall y :: y in r <==> y in h || y == x
  {
    if h == [] || Less(x, h[0]) then
      OrderedCons(x, h);
      [x] + h
    else
      assert h == [h[0]] + h[1..];
      var rest := Push(h[1..], x);
      OrderedCons(h[0], rest);
      [h[0]] + rest
  }

  /** An entry below everything in an ordered queue may head it. */
  lemma OrderedCons(x: Entry, h: seq<Entry>)
    requires Ordered(h)
    requires forall y :: y in h ==> Less(x, y)
    ensures Ordered([x] + h)
  {
    forall i, j | 0 <= i < j < |[x] + h| ensures Less(([x] + h)[i], ([x] + h)[j]) {
      if i > 0 {
        assert ([x] + h)[i] == h[i - 1];
      }
      assert ([x] + h)[j] == h[j - 1];
    }
  }

  /** `heappop`: removes and returns the least entry. */
  function Pop(h: seq<Entry>): (r: (Entry, seq<Entry>))
    requires Ordered(h) && |h| > 0
    ensures multiset(r.1) + multiset{r.0} == multiset(h) && |r.1| == |h| - 1
    ensures Ordered(r.1)
    ensures forall y :: y in r.1 ==> Less(r.0, y)
    ensures forall y :: y in h <==> y == r.0 || y in r.1
  {
    assert h == [h[0]] + h[1..];
    (h[0], h[1..])
  }
}
