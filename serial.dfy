/** Tree serialisation at the head of the compressed file: a preorder walk
    writing ONE and the letter for a leaf, and ZERO followed by the zero
    subtree and then the one subtree for an internal node. No length is
    written; the reader consumes exactly the octets the shape dictates. */
module Serial {
  import opened Common
  import opened Tree

  /** The outcome of reading a tree: the tree and the input left after
      it, or the error that stopped the reader. */
  datatype Parse = Parsed(tree: Node, rest: seq<byte>) | Failed(error: Error)

  /** The serialised tree: it begins with its root's marker. */
  function ShowTree(t: Node): (r: seq<byte>)
    ensures |r| >= 2
    ensures r[0] == if t.Leaf? then ONE else ZERO
  {
    match t
    case Leaf(c, _) => [ONE, c]
    case Internal(_, z, o) => [ZERO] + ShowTree(z) + ShowTree(o)
  }

  /** A tree with n leaves takes 3n - 1 octets: two per leaf and one per
      internal node. */
  lemma {:induction false} ShowTreeLength(t: Node)
    ensures |ShowTree(t)| == 3 * LeafCount(t) - 1
  {
    match t
    case Leaf(_, _) =>
    case Internal(_, z, o) =>
      ShowTreeLength(z);
      ShowTreeLength(o);
  }

  /** The tree read from the front of `data`, with the input left after
      it. A ZERO marker is an internal node whose zero and then one
      subtree follow; any other marker is a leaf whose letter is the next
      octet. Weights are not stored and read back as 0. Running out of
      input before the shape is complete is a truncated stream. Reading
      consumes at least one octet. */
  function ReadTree(data: seq<byte>): (r: Parse)
    ensures r.Parsed? ==> |r.rest| < |data|
    decreases |data|
  {
    if data == [] then Failed(TruncatedStream)
    else if data[0] == ZERO then
      var zero := ReadTree(data[1..]);
      if zero.Failed? then zero
      else
        var one := ReadTree(zero.rest);
        if one.Failed? then one
        else Parsed(Internal(0, zero.tree, one.tree), one.rest)
    else if |data| == 1 then Failed(TruncatedStream)
    else Parsed(Leaf(data[1], 0), data[2..])
  }

  /** Reading back a serialised tree rebuilds its shape and letters with
      all weights 0 and leaves exactly what followed it. */
  lemma {:induction false} ReadShowTree(t: Node, rest: seq<byte>)
    ensures ReadTree(ShowTree(t) + rest) == Parsed(Erase(t), rest)
    decreases t
  {
    var data := ShowTree(t) + rest;
    match t
    case Leaf(c, _) =>
      assert data[2..] == rest;
    case Internal(_, z, o) =>
      var sz, so := ShowTree(z), ShowTree(o);
      assert data[1..] == sz + (so + rest);
      ReadShowTree(z, so + rest);
      ReadShowTree(o, rest);
  }

  /** What the reader accepts from some input it also accepts with more
      input after it, leaving that extra input behind too. */
  lemma {:induction false} ReadExtends(data: seq<byte>, extra: seq<byte>)
    requires ReadTree(data).Parsed?
    ensures ReadTree(data + extra) == Parsed(ReadTree(data).tree, ReadTree(data).rest + extra)
    decreases |data|
  {
    var longer := data + extra;
    assert longer[0] == data[0];
    if data[0] == ZERO {
      assert longer[1..] == data[1..] + extra;
      ReadExtends(data[1..], extra);
      ReadExtends(ReadTree(data[1..]).rest, extra);
    } else {
      assert longer[1] == data[1];
      assert longer[2..] == data[2..] + extra;
    }
  }

  /** The reader reports no error other than a truncated stream. */
  lemma {:induction false} ReadFailure(data: seq<byte>)
    requires ReadTree(data).Failed?
    ensures ReadTree(data).error == TruncatedStream
    decreases |data|
  {
    if data != [] && data[0] == ZERO {
      if ReadTree(data[1..]).Parsed? {
        ReadFailure(ReadTree(data[1..]).rest);
      } else {
        ReadFailure(data[1..]);
      }
    }
  }

  /** `read` is `shown` except that where `shown` has a leaf marker ONE,
      `read` may hold any octet other than ZERO (only the letter octets
      and the ZERO markers must match exactly, so this relation is looser
      than the reader's exact acceptance). */
  predicate SameUpToLeafMarkers(read: seq<byte>, shown: seq<byte>)
  {
    |read| == |shown| &&
    forall k :: 0 <= k < |read| ==> read[k] == shown[k] || (shown[k] == ONE && read[k] != ZERO)
  }

  lemma SameUpToLeafMarkersConcat(a: seq<byte>, b: seq<byte>, c: seq<byte>, d: seq<byte>)
    requires SameUpToLeafMarkers(a, c) && SameUpToLeafMarkers(b, d)
    ensures SameUpToLeafMarkers(a + b, c + d)
  {
    forall k | 0 <= k < |a + b|
      ensures (a + b)[k] == (c + d)[k] || ((c + d)[k] == ONE && (a + b)[k] != ZERO)
    {
      if k >= |a| {
        assert (a + b)[k] == b[k - |a|] && (c + d)[k] == d[k - |a|];
      }
    }
  }

  /** The tree the reader returns carries weight 0 throughout, and it
      consumed exactly as many octets as that tree's serialisation takes. */
  lemma {:induction false} ReadTreeLength(data: seq<byte>)
    requires ReadTree(data).Parsed?
    ensures var Parsed(t, rest) := ReadTree(data);
      Erase(t) == t && |data| == |ShowTree(t)| + |rest| && data[|ShowTree(t)|..] == rest
    decreases |data|
  {
    var Parsed(t, rest) := ReadTree(data);
    if data[0] == ZERO {
      var tail := data[1..];
      ReadTreeLength(tail);
      var mid := ReadTree(tail).rest;
      ReadTreeLength(mid);
      assert data[|ShowTree(t)|..] == mid[|ShowTree(t.one)|..];
    }
  }

  /** Conversely to `ReadShowTree`: whatever the reader accepts is the
      serialisation of the tree it returns, up to the octet used as a leaf
      marker, followed by what it leaves. */
  lemma {:induction false} ReadTreeShown(data: seq<byte>)
    requires ReadTree(data).Parsed?
    ensures var t := ReadTree(data).tree;
      |ShowTree(t)| <= |data| && SameUpToLeafMarkers(data[..|ShowTree(t)|], ShowTree(t))
    decreases |data|, 1
  {
    ReadTreeLength(data);
    if data[0] == ZERO {
      ReadInternalShown(data);
    } else {
      assert data[..2] == [data[0], data[1]];
    }
  }

  /** The internal-node case of `ReadTreeShown`. */
  lemma {:induction false} ReadInternalShown(data: seq<byte>)
    requires ReadTree(data).Parsed? && data[0] == ZERO
    ensures var t := ReadTree(data).tree;
      |ShowTree(t)| <= |data| && SameUpToLeafMarkers(data[..|ShowTree(t)|], ShowTree(t))
    decreases |data|, 0
  {
    var t := ReadTree(data).tree;
    var tail := data[1..];
    var Parsed(zero, mid) := ReadTree(tail);
    ReadTreeLength(data);
    ReadTreeLength(tail);
    ReadTreeShown(tail);
    ReadTreeShown(mid);
    var sz, so := ShowTree(zero), ShowTree(t.one);
    var a, b := tail[..|sz|], mid[..|so|];
    assert mid == data[1 + |sz|..];
    SliceThree(data, |sz|, |so|);
    SameUpToLeafMarkersConcat([ZERO], a, [ZERO], sz);
    SameUpToLeafMarkersConcat([ZERO] + a, b, [ZERO] + sz, so);
  }

  lemma SliceThree(data: seq<byte>, i: nat, j: nat)
    requires 1 + i + j <= |data|
    ensures data[..1 + i + j] == [data[0]] + data[1..][..i] + data[1 + i..][..j]
  {
  }
}
