/** Tree construction: seed a min-weight priority queue with one leaf per
    table entry, then repeatedly pop the two lightest nodes and push their
    merge until one node, the root, is left. The queue is modelled as a
    sequence; "top" is a node of least weight (the first such node in the
    sequence, a fixed tie-break), and "pop" removes it. */
module Builder {
  import opened Common
  import opened Tree
  import opened Frequency

  /** Each leaf weighs its letter's count in the table, and each internal
      node weighs the sum of its children. */
  predicate WeightsConsistent(t: Node, table: map<byte, nat>)
  {
    match t
    case Leaf(c, w) => c in table && w == table[c]
    case Internal(w, z, o) =>
      w == z.weight + o.weight && WeightsConsistent(z, table) && WeightsConsistent(o, table)
  }

  /** A tree for `table`: exactly one leaf per table entry, weighted
      consistently with the table's counts. */
  predicate IsTreeFor(t: Node, table: map<byte, nat>)
  {
    Letters(t) == multiset(table.Keys) && WeightsConsistent(t, table)
  }

  /** Every node in the queue is weighted consistently with the table. */
  predicate AllConsistent(f: seq<Node>, table: map<byte, nat>)
  {
    forall j :: 0 <= j < |f| ==> WeightsConsistent(f[j], table)
  }

  /** The letters of all nodes in the queue. */
  function ForestLetters(f: seq<Node>): multiset<byte>
  {
    if f == [] then multiset{} else ForestLetters(f[..|f| - 1]) + Letters(f[|f| - 1])
  }

  /** The summed weight of all nodes in the queue. */
  function ForestWeight(f: seq<Node>): nat
  {
    if f == [] then 0 else ForestWeight(f[..|f| - 1]) + f[|f| - 1].weight
  }

  /** The queue with its i-th node popped. */
  function Remove(f: seq<Node>, i: nat): (r: seq<Node>)
    requires i < |f|
    ensures |r| == |f| - 1
  {
    f[..i] + f[i + 1..]
  }

  lemma {:induction false} ForestConcat(a: seq<Node>, b: seq<Node>)
    ensures ForestLetters(a + b) == ForestLetters(a) + ForestLetters(b)
    ensures ForestWeight(a + b) == ForestWeight(a) + ForestWeight(b)
    decreases |b|
  {
    if b == [] {
      assert a + b == a;
    } else {
      var b' := b[..|b| - 1];
      assert (a + b)[..|a + b| - 1] == a + b';
      ForestConcat(a, b');
    }
  }

  /** Popping a node takes exactly its letters and weight out of the
      queue, and leaves the other nodes as they were. */
  lemma ForestRemove(f: seq<Node>, i: nat, table: map<byte, nat>)
    requires i < |f|
    requires AllConsistent(f, table)
    ensures ForestLetters(f) == Letters(f[i]) + ForestLetters(Remove(f, i))
    ensures ForestWeight(f) == f[i].weight + ForestWeight(Remove(f, i))
    ensures AllConsistent(Remove(f, i), table)
  {
    var pre, post := f[..i], f[i + 1..];
    assert ForestLetters(f) == ForestLetters(pre) + Letters(f[i]) + ForestLetters(post)
        && ForestWeight(f) == ForestWeight(pre) + f[i].weight + ForestWeight(post) by {
      ForestSplit(f, i);
    }
    assert Remove(f, i) == pre + post;
    ForestConcat(pre, post);
    RemoveConsistent(f, i, table);
  }

  lemma ForestSplit(f: seq<Node>, i: nat)
    requires i < |f|
    ensures ForestLetters(f) == ForestLetters(f[..i]) + Letters(f[i]) + ForestLetters(f[i + 1..])
    ensures ForestWeight(f) == ForestWeight(f[..i]) + f[i].weight + ForestWeight(f[i + 1..])
  {
    var head := f[..i + 1];
    assert f == head + f[i + 1..];
    assert head[..i] == f[..i];
    ForestConcat(head, f[i + 1..]);
  }

  lemma RemoveConsistent(f: seq<Node>, i: nat, table: map<byte, nat>)
    requires i < |f| && AllConsistent(f, table)
    ensures AllConsistent(Remove(f, i), table)
  {
    forall k | 0 <= k < |f| - 1
      ensures WeightsConsistent(Remove(f, i)[k], table)
    {
      assert Remove(f, i)[k] == if k < i then f[k] else f[k + 1];
    }
  }

  /** Popping the i-th node keeps the other nodes, in order. */
  lemma RemoveKeeps(f: seq<Node>, i: nat)
    requires i < |f|
    ensures forall k :: 0 <= k < i ==> Remove(f, i)[k] == f[k]
    ensures forall k :: i <= k < |f| - 1 ==> Remove(f, i)[k] == f[k + 1]
  {
    forall k | i <= k < |f| - 1
      ensures Remove(f, i)[k] == f[k + 1]
    {
      assert Remove(f, i)[k] == f[i + 1..][k - i];
    }
  }

  /** Popping the i-th node takes exactly that node out of the queue. */
  lemma RemoveMultiset(f: seq<Node>, i: nat)
    requires i < |f|
    ensures multiset(Remove(f, i)) + multiset{f[i]} == multiset(f)
  {
    var pre, post := f[..i], f[i + 1..];
    assert f == pre + [f[i]] + post;
    assert multiset(f) == multiset(pre) + multiset{f[i]} + multiset(post);
    assert multiset(Remove(f, i)) == multiset(pre) + multiset(post);
  }

  /** Pushing a node adds exactly its letters and weight to the queue. */
  lemma ForestPush(f: seq<Node>, t: Node, table: map<byte, nat>)
    requires AllConsistent(f, table) && WeightsConsistent(t, table)
    ensures ForestLetters(f + [t]) == ForestLetters(f) + Letters(t)
    ensures ForestWeight(f + [t]) == ForestWeight(f) + t.weight
    ensures AllConsistent(f + [t], table)
  {
    assert (f + [t])[..|f|] == f;
  }

  lemma ForestSingle(t: Node)
    ensures ForestLetters([t]) == Letters(t)
    ensures ForestWeight([t]) == t.weight
  {
    assert [t][..0] == [];
  }

  lemma {:induction false} KeysMultisetSize(s: set<byte>)
    ensures |multiset(s)| == |s|
    decreases |s|
  {
    if s != {} {
      var x :| x in s;
      KeysMultisetSize(s - {x});
      assert s == (s - {x}) + {x};
      assert multiset(s) == multiset(s - {x}) + multiset{x};
    }
  }

  /** The top of the min-priority queue: a node of least weight, namely
      the first one in queue order. */
  method MinIndex(f: seq<Node>) returns (i: nat)
    requires |f| > 0
    ensures i < |f|
    ensures forall j :: 0 <= j < |f| ==> f[i].weight <= f[j].weight
    ensures forall j :: 0 <= j < i ==> f[i].weight < f[j].weight
  {
    i := 0;
    var k := 1;
    while k < |f|
      invariant i < k <= |f|
      invariant forall j :: 0 <= j < k ==> f[i].weight <= f[j].weight
      invariant forall j :: 0 <= j < i ==> f[i].weight < f[j].weight
    {
      if f[k].weight < f[i].weight {
        i := k;
      }
      k := k + 1;
    }
  }

  lemma KeysRemove(m: map<byte, nat>, k: byte)
    requires k in m
    ensures multiset((m - {k}).Keys) + multiset{k} == multiset(m.Keys)
    ensures |m - {k}| == |m| - 1
  {
    assert m.Keys == (m - {k}).Keys + {k};
  }

  /** Step one of construction: a queue holding one leaf per table entry,
      pushed in the table's (unspecified) iteration order. */
  method SeedQueue(table: map<byte, nat>) returns (pq: seq<Node>)
    ensures |pq| == |table|
    ensures forall j :: 0 <= j < |pq| ==> pq[j].Leaf?
    ensures AllConsistent(pq, table)
    ensures ForestLetters(pq) == multiset(table.Keys)
    ensures ForestWeight(pq) == Total(table)
  {
    pq := [];
    var pending := table;
    while pending != map[]
      invariant forall k :: k in pending ==> k in table && pending[k] == table[k]
      invariant |pq| + |pending| == |table|
      invariant forall j :: 0 <= j < |pq| ==> pq[j].Leaf?
      invariant AllConsistent(pq, table)
      invariant ForestLetters(pq) + multiset(pending.Keys) == multiset(table.Keys)
      invariant ForestWeight(pq) + Total(pending) == Total(table)
      decreases |pending|
    {
      var k :| k in pending;
      var leaf := Leaf(k, pending[k]);
      ForestPush(pq, leaf, table);
      TotalRemove(pending, k);
      KeysRemove(pending, k);
      pq := pq + [leaf];
      pending := pending - {k};
    }
    assert pending.Keys == {};
    assert multiset(pending.Keys) == multiset{};
    SumFromEmpty(0);
  }

  /** One round of construction: pop the two lightest nodes, the first
      popped becoming the zero child, and push their merge, which weighs
      their sum. The queue shrinks by one and keeps its letters, its total
      weight and the consistency of its weights. The two children of the
      merge are a lightest node of the queue and a lightest node of what
      remained, and the other nodes stay in the queue. */
  method MergeLightest(pq: seq<Node>, ghost table: map<byte, nat>) returns (next: seq<Node>)
    requires |pq| > 1 && AllConsistent(pq, table)
    ensures |next| == |pq| - 1
    ensures AllConsistent(next, table)
    ensures ForestLetters(next) == ForestLetters(pq)
    ensures ForestWeight(next) == ForestWeight(pq)
    ensures next[|next| - 1].Internal?
    ensures var p := next[|next| - 1];
      multiset(next[..|next| - 1]) + multiset{p.zero, p.one} == multiset(pq)
    ensures var p := next[|next| - 1];
      (forall k :: 0 <= k < |pq| ==> p.zero.weight <= pq[k].weight) &&
      (forall k :: 0 <= k < |next| - 1 ==> p.one.weight <= next[k].weight)
  {
    var i := MinIndex(pq);
    var j := MinIndex(Remove(pq, i));
    next := Merged(pq, i, j);
    MergedForest(pq, i, j, table);
    MergedQueue(pq, i, j);
  }

  /** The queue after popping node i and then node j of what remained,
      and pushing their merge with the first popped as zero child. */
  function Merged(pq: seq<Node>, i: nat, j: nat): (r: seq<Node>)
    requires i < |pq| && j < |pq| - 1
    ensures |r| == |pq| - 1
  {
    var zero, once := pq[i], Remove(pq, i);
    var one := once[j];
    Remove(once, j) + [Internal(zero.weight + one.weight, zero, one)]
  }

  /** Merging keeps the queue's letters, its total weight and the
      consistency of its weights. */
  lemma MergedForest(pq: seq<Node>, i: nat, j: nat, table: map<byte, nat>)
    requires i < |pq| && j < |pq| - 1 && AllConsistent(pq, table)
    ensures var next := Merged(pq, i, j);
      AllConsistent(next, table) && ForestLetters(next) == ForestLetters(pq) && ForestWeight(next) == ForestWeight(pq)
  {
    var zero, once := pq[i], Remove(pq, i);
    var one := once[j];
    var rest, parent := Remove(once, j), Internal(zero.weight + one.weight, zero, one);
    assert Merged(pq, i, j) == rest + [parent];
    ForestRemove(pq, i, table);
    ForestRemove(once, j, table);
    ForestPush(rest, parent, table);
  }

  /** After merging, the last node's children are the two popped nodes
      and the rest of the queue is what remained; when both pops took a
      lightest node, the zero child is no heavier than any node of the
      old queue and the one child no heavier than any node left. */
  lemma MergedQueue(pq: seq<Node>, i: nat, j: nat)
    requires i < |pq| && j < |pq| - 1
    requires forall k :: 0 <= k < |pq| ==> pq[i].weight <= pq[k].weight
    requires forall k :: 0 <= k < |pq| - 1 ==> Remove(pq, i)[j].weight <= Remove(pq, i)[k].weight
    ensures var next := Merged(pq, i, j); var p := next[|next| - 1];
      p.Internal? && p.zero == pq[i] && p.one == Remove(pq, i)[j] &&
      multiset(next[..|next| - 1]) + multiset{p.zero, p.one} == multiset(pq) &&
      (forall k :: 0 <= k < |pq| ==> p.zero.weight <= pq[k].weight) &&
      (forall k :: 0 <= k < |next| - 1 ==> p.one.weight <= next[k].weight)
  {
    var zero, once := pq[i], Remove(pq, i);
    var one := once[j];
    var rest := Remove(once, j);
    var next := Merged(pq, i, j);
    assert next[..|next| - 1] == rest;
    assert multiset(rest) + multiset{zero, one} == multiset(pq) by {
      RemoveMultiset(pq, i);
      RemoveMultiset(once, j);
      assert multiset{zero, one} == multiset{one} + multiset{zero};
    }
    assert forall k :: 0 <= k < |rest| ==> one.weight <= rest[k].weight by {
      RemoveKeeps(once, j);
    }
  }

  /** The Huffman tree for a non-empty table (an empty table leaves the
      queue empty, and its top is undefined): one leaf per entry, so n
      leaves and n - 1 internal nodes; every internal node weighs the sum
      of its children, so the root weighs the total count; a one-entry
      table yields a lone leaf and nothing else does. */
  method BuildHuffmanTree(table: map<byte, nat>) returns (root: Node)
    requires |table| > 0
    ensures IsTreeFor(root, table)
    ensures root.weight == Total(table)
    ensures LeafCount(root) == |table| && InternalCount(root) == |table| - 1
    ensures root.Leaf? <==> |table| == 1
  {
    var pq := SeedQueue(table);
    while |pq| > 1
      invariant |pq| >= 1
      invariant AllConsistent(pq, table)
      invariant ForestLetters(pq) == multiset(table.Keys)
      invariant ForestWeight(pq) == Total(table)
      decreases |pq|
    {
      pq := MergeLightest(pq, table);
    }
    root := pq[0];
    assert pq == [root];
    ForestSingle(root);
    LastNode(root, table);
  }

  /** What is left when the queue holds one node. */
  lemma LastNode(root: Node, table: map<byte, nat>)
    requires WeightsConsistent(root, table) && Letters(root) == multiset(table.Keys)
    ensures LeafCount(root) == |table| && InternalCount(root) == |table| - 1
    ensures root.Leaf? <==> |table| == 1
  {
    KeysMultisetSize(table.Keys);
    LeavesAndInternals(root);
    if root.Internal? {
      LeavesAndInternals(root.zero);
      LeavesAndInternals(root.one);
    }
  }
}
