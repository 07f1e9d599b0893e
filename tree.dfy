/** The Huffman tree: a node is a leaf holding a letter and its weight, or an
    internal node holding a weight and exactly two children ("zero" and
    "one"). The original represents a leaf as a node whose two child
    pointers are both null; a node with exactly one child never arises. */
module Tree {
  import opened Common

  datatype Node =
    | Leaf(letter: byte, weight: nat)
    | Internal(weight: nat, zero: Node, one: Node)

  /** The letters at the leaves, with multiplicity. */
  function Letters(t: Node): multiset<byte>
  {
    match t
    case Leaf(c, _) => multiset{c}
    case Internal(_, z, o) => Letters(z) + Letters(o)
  }

  /** No letter sits at two leaves. */
  predicate DistinctLetters(t: Node)
  {
    forall b :: Letters(t)[b] <= 1
  }

  function LeafCount(t: Node): nat
  {
    match t
    case Leaf(_, _) => 1
    case Internal(_, z, o) => LeafCount(z) + LeafCount(o)
  }

  function InternalCount(t: Node): nat
  {
    match t
    case Leaf(_, _) => 0
    case Internal(_, z, o) => 1 + InternalCount(z) + InternalCount(o)
  }

  /** A tree in which every node has zero or two children has one leaf
      more than it has internal nodes. */
  lemma {:induction false} LeavesAndInternals(t: Node)
    ensures LeafCount(t) == InternalCount(t) + 1
    ensures |Letters(t)| == LeafCount(t)
  {
    match t
    case Leaf(_, _) =>
    case Internal(_, z, o) =>
      LeavesAndInternals(z);
      LeavesAndInternals(o);
  }

  /** The same shape and letters with every weight set to 0: what the
      deserialiser rebuilds, since weights are not written to the file. */
  function Erase(t: Node): (r: Node)
    ensures r.Leaf? <==> t.Leaf?
  {
    match t
    case Leaf(c, _) => Leaf(c, 0)
    case Internal(_, z, o) => Internal(0, Erase(z), Erase(o))
  }

  /** How the decoder reads `path` from `t`: ZERO descends to the zero
      child, every other octet to the one child; the walk names a letter
      exactly when it ends on a leaf with the path used up. */
  function Follow(t: Node, path: seq<byte>): Option<byte>
    decreases t
  {
    match t
    case Leaf(c, _) => if path == [] then Some(c) else None
    case Internal(_, z, o) =>
      if path == [] then None
      else if path[0] == ZERO then Follow(z, path[1..])
      else Follow(o, path[1..])
  }

  /** A path that reaches a leaf is never a proper prefix of another path
      that reaches a leaf: leaves have no descendants. */
  lemma {:induction false} FollowPrefixFree(t: Node, p: seq<byte>, q: seq<byte>)
    requires Follow(t, p).Some? && Follow(t, q).Some?
    requires IsPrefix(p, q)
    ensures p == q
    decreases t
  {
    match t
    case Leaf(_, _) =>
    case Internal(_, z, o) =>
      assert p[0] == q[0];
      assert q[1..][..|p| - 1] == p[1..];
      if p[0] == ZERO {
        FollowPrefixFree(z, p[1..], q[1..]);
      } else {
        FollowPrefixFree(o, p[1..], q[1..]);
      }
      assert p == [p[0]] + p[1..] && q == [q[0]] + q[1..];
  }

  /** The letter a walk reaches is a letter of the tree. */
  lemma {:induction false} FollowLetter(t: Node, p: seq<byte>)
    requires Follow(t, p).Some?
    ensures Follow(t, p).value in Letters(t)
    decreases t
  {
    match t
    case Leaf(_, _) =>
    case Internal(_, z, o) =>
      if p[0] == ZERO { FollowLetter(z, p[1..]); } else { FollowLetter(o, p[1..]); }
  }

  /** In a tree whose letters are distinct, a letter is reached by exactly
      one path of bit-characters. */
  lemma {:induction false} FollowUnique(t: Node, p: seq<byte>, q: seq<byte>)
    requires DistinctLetters(t)
    requires IsBits(p) && IsBits(q)
    requires Follow(t, p).Some? && Follow(t, p) == Follow(t, q)
    ensures p == q
    decreases t
  {
    match t
    case Leaf(_, _) =>
    case Internal(_, z, o) =>
      var b := Follow(t, p).value;
      assert Letters(t)[b] == Letters(z)[b] + Letters(o)[b] <= 1;
      assert IsBits(p[1..]) && IsBits(q[1..]);
      assert DistinctLetters(z) && DistinctLetters(o) by {
        forall c ensures Letters(z)[c] <= 1 && Letters(o)[c] <= 1 {
          assert Letters(t)[c] == Letters(z)[c] + Letters(o)[c];
        }
      }
      if p[0] == ZERO && q[0] == ZERO {
        FollowUnique(z, p[1..], q[1..]);
      } else if p[0] != ZERO && q[0] != ZERO {
        FollowUnique(o, p[1..], q[1..]);
        assert p[0] == ONE && q[0] == ONE;
      } else if p[0] == ZERO {
        FollowLetter(z, p[1..]);
        FollowLetter(o, q[1..]);
        assert false;
      } else {
        FollowLetter(o, p[1..]);
        FollowLetter(z, q[1..]);
        assert false;
      }
      assert p == [p[0]] + p[1..] && q == [q[0]] + q[1..];
  }

  /** Weights play no part in a walk. */
  lemma {:induction false} FollowErase(t: Node, p: seq<byte>)
    ensures Follow(Erase(t), p) == Follow(t, p)
    decreases t
  {
    match t
    case Leaf(_, _) =>
    case Internal(_, z, o) =>
      if p != [] {
        FollowErase(z, p[1..]);
        FollowErase(o, p[1..]);
      }
  }
}
