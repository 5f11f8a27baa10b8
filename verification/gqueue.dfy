/** The priority queue of the IFT (iftGQueue), abstracted.

    The bucket array itself is not modelled: a queue is the sequence of the
    GRAY nodes in the order they were inserted, and every node's key is read
    from a key array (the path-cost image, or a fixed value image).  Removing
    the minimum takes the first-inserted node among those of least key, which
    is the FIFO tie-break of the bucket queue.
 */
module GQueue {

  type Queue = seq<nat>

  /** Every queued node has a key. */
  predicate Keyed(q: Queue, key: seq<int>)
  {
    forall k :: 0 <= k < |q| ==> q[k] < |key|
  }

  /** No node sits in the queue twice. */
  predicate NoDuplicates(q: Queue)
  {
    forall i, j :: 0 <= i < j < |q| ==> q[i] != q[j]
  }

  /** Position of the node iftRemoveGQueue returns: least key, earliest among equals. */
  function FirstMin(q: Queue, key: seq<int>): (i: nat)
    requires q != [] && Keyed(q, key)
    ensures i < |q|
    ensures forall k :: 0 <= k < |q| ==> key[q[i]] <= key[q[k]]
    ensures forall k :: 0 <= k < i ==> key[q[k]] > key[q[i]]
  {
    if |q| == 1 then 0
    else
      var j := 1 + FirstMin(q[1..], key);
      if key[q[0]] <= key[q[j]] then 0 else j
  }

  /** The queue without the entry at position i; the others keep their order. */
  function RemoveAt(q: Queue, i: nat): (r: Queue)
    requires i < |q|
    ensures |r| == |q| - 1
    ensures multiset(r) + multiset{q[i]} == multiset(q)
    ensures forall n :: n in r ==> n in q
  {
    assert q == q[..i] + [q[i]] + q[i+1..];
    q[..i] + q[i+1..]
  }

  /** iftRemoveGQueue: the node of least key (FIFO among equals) and the queue without it. */
  function RemoveMin(q: Queue, key: seq<int>): (r: (nat, Queue))
    requires q != [] && Keyed(q, key)
    ensures r.0 in q
    ensures forall n :: n in q ==> key[r.0] <= key[n]
    ensures multiset(r.1) + multiset{r.0} == multiset(q)
    ensures forall n :: n in r.1 ==> n in q
    ensures exists i :: 0 <= i < |q| && q[i] == r.0 && r.1 == q[..i] + q[i+1..] &&
                        forall k :: 0 <= k < i ==> key[q[k]] > key[r.0]
  {
    var i := FirstMin(q, key);
    (q[i], RemoveAt(q, i))
  }

  /** Removing the entry at position i of a duplicate-free queue removes exactly that node. */
  lemma RemoveAtDistinct(q: Queue, i: nat)
    requires NoDuplicates(q) && i < |q|
    ensures NoDuplicates(q[..i] + q[i+1..])
    ensures forall n :: n in q[..i] + q[i+1..] <==> n in q && n != q[i]
  {
    var r := q[..i] + q[i+1..];
    assert forall k :: 0 <= k < |r| ==> r[k] == if k < i then q[k] else q[k + 1];
    forall n | n in q && n != q[i]
      ensures n in r
    {
      var j :| 0 <= j < |q| && q[j] == n;
      if j < i {
        assert r[j] == n;
      } else {
        assert r[j - 1] == n;
      }
    }
  }

  /** iftRemoveGQueueElem: the queue without node n; the others keep their order. */
  function RemoveElem(q: Queue, n: nat): (r: Queue)
    ensures |r| <= |q|
    ensures forall m :: m in r <==> m in q && m != n
    ensures multiset(r) == multiset(q)[n := 0]
  {
    if q == [] then []
    else
      assert q == [q[0]] + q[1..];
      if q[0] == n then RemoveElem(q[1..], n)
      else [q[0]] + RemoveElem(q[1..], n)
  }

  /** Removing a node that occurs once, at position i, leaves the entries before and
      after it in their order. */
  lemma RemoveElemAt(q: Queue, i: nat)
    requires i < |q| && q[i] !in q[..i] && q[i] !in q[i+1..]
    ensures RemoveElem(q, q[i]) == q[..i] + q[i+1..]
  {
    SplitAt(q, i);
    RemoveElemSplit(q[..i], q[i+1..], q[i]);
  }

  lemma SplitAt(q: Queue, i: nat)
    requires i < |q|
    ensures q == q[..i] + [q[i]] + q[i+1..]
  {
  }

  /** Removing the one occurrence of n between a and b leaves a followed by b. */
  lemma RemoveElemSplit(a: Queue, b: Queue, n: nat)
    requires n !in a && n !in b
    ensures RemoveElem(a + [n] + b, n) == a + b
  {
    assert RemoveElem(a + [n], n) == a by {
      RemoveElemConcat(a, [n], n);
      RemoveElemAbsent(a, n);
      assert RemoveElem([n], n) == [] by {
        assert [n][1..] == [];
      }
      assert a + [] == a;
    }
    RemoveElemConcat(a + [n], b, n);
    RemoveElemAbsent(b, n);
  }

  /** Removal distributes over concatenation. */
  lemma {:induction false} RemoveElemConcat(a: Queue, b: Queue, n: nat)
    ensures RemoveElem(a + b, n) == RemoveElem(a, n) + RemoveElem(b, n)
  {
    if a != [] {
      assert (a + b)[0] == a[0] && (a + b)[1..] == a[1..] + b;
      RemoveElemConcat(a[1..], b, n);
    } else {
      assert a + b == b;
    }
  }

  /** Removing an absent node changes nothing. */
  lemma {:induction false} RemoveElemAbsent(q: Queue, n: nat)
    requires n !in q
    ensures RemoveElem(q, n) == q
  {
    if q != [] {
      assert q == [q[0]] + q[1..];
      RemoveElemAbsent(q[1..], n);
    }
  }

  /** iftInsertGQueue: n joins the back of its bucket. */
  function Insert(q: Queue, n: nat): (r: Queue)
    ensures multiset(r) == multiset(q) + multiset{n}
  {
    q + [n]
  }

  /** Inserting a node puts it behind every queued node, whose order is kept; inserting an
      absent node and removing it again gives the queue back. */
  lemma RemoveInsert(q: Queue, n: nat)
    requires n !in q
    ensures |Insert(q, n)| == |q| + 1 && Insert(q, n)[..|q|] == q && Insert(q, n)[|q|] == n
    ensures RemoveElem(Insert(q, n), n) == q
  {
    assert Insert(q, n) == q + [n] + [];
    RemoveElemSplit(q, [], n);
    assert q + [] == q;
  }

  /** Removing a node keeps the queue free of duplicates. */
  lemma {:induction false} RemoveElemKeepsDistinct(q: Queue, n: nat)
    requires NoDuplicates(q)
    ensures NoDuplicates(RemoveElem(q, n))
  {
    if q != [] {
      RemoveElemKeepsDistinct(q[1..], n);
      var rest := RemoveElem(q[1..], n);
      assert q[0] !in q[1..];
      assert q[0] !in rest;
    }
  }

  /** Appending an absent node keeps the queue free of duplicates. */
  lemma AppendDistinct(q: Queue, n: nat)
    requires NoDuplicates(q) && n !in q
    ensures NoDuplicates(q + [n])
  {
    var r := q + [n];
    forall i, j | 0 <= i < j < |r|
      ensures r[i] != r[j]
    {
      if j == |q| {
        assert r[i] == q[i];
      }
    }
  }
}
