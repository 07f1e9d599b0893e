/** Code assignment: a depth-first walk that records, for every leaf, the
    path from the root to it, writing ZERO for each step into a zero child
    and ONE for each step into a one child. */
module Codes {
  import opened Common
  import opened Tree

  /** No code in the table is a prefix of another letter's code. */
  predicate PrefixFree(codes: map<byte, seq<byte>>)
  {
    forall a, b :: a in codes && b in codes && a != b ==> !IsPrefix(codes[a], codes[b])
  }

  /** The walk from `t`, reached by the path `code`, writing into `acc`:
      a leaf stores `code` under its letter (replacing an earlier entry),
      an internal node visits its zero child and then its one child. The
      result has an entry for exactly the letters of `acc` and of `t`, and
      keeps the entries of `acc` for letters that `t` does not hold. */
  function HuffmanCodes(t: Node, code: seq<byte>, acc: map<byte, seq<byte>>): (r: map<byte, seq<byte>>)
    ensures forall b :: b in r <==> b in acc || b in Letters(t)
    ensures forall b :: b in acc && b !in Letters(t) ==> r[b] == acc[b]
    decreases t
  {
    match t
    case Leaf(c, _) => acc[c := code]
    case Internal(_, z, o) => HuffmanCodes(o, code + [ONE], HuffmanCodes(z, code + [ZERO], acc))
  }

  /** Every letter of `t` ends up with `code` followed by a path of
      bit-characters that leads from `t` to a leaf holding that letter. */
  lemma {:induction false} HuffmanCodesPath(t: Node, code: seq<byte>, acc: map<byte, seq<byte>>, b: byte)
    requires b in Letters(t)
    ensures var r := HuffmanCodes(t, code, acc);
      IsPrefix(code, r[b]) && Follow(t, r[b][|code|..]) == Some(b) && IsBits(r[b][|code|..])
    decreases t, 1
  {
    var r := HuffmanCodes(t, code, acc);
    match t
    case Leaf(c, _) =>
      assert r[b][|code|..] == [];
    case Internal(_, z, o) =>
      var step := if b in Letters(o) then ONE else ZERO;
      var p := code + [step];
      ChildCodePath(t, code, acc, b);
      ExtendPrefix(r[b], code, step);
      StepDown(t, step, r[b][|p|..]);
  }

  /** The step of `HuffmanCodesPath` into the child holding the letter. */
  lemma {:induction false} ChildCodePath(t: Node, code: seq<byte>, acc: map<byte, seq<byte>>, b: byte)
    requires t.Internal? && b in Letters(t)
    ensures var inOne := b in Letters(t.one);
      var p := code + [if inOne then ONE else ZERO];
      var path := HuffmanCodes(t, code, acc)[b];
      IsPrefix(p, path) && Follow(if inOne then t.one else t.zero, path[|p|..]) == Some(b) && IsBits(path[|p|..])
    decreases t, 0
  {
    var r1 := HuffmanCodes(t.zero, code + [ZERO], acc);
    if b in Letters(t.one) {
      HuffmanCodesPath(t.one, code + [ONE], r1, b);
    } else {
      HuffmanCodesPath(t.zero, code + [ZERO], acc, b);
    }
  }

  /** Following a path from an internal node is following its tail from
      the child its first bit-character selects. */
  lemma StepDown(t: Node, step: byte, x: seq<byte>)
    requires t.Internal? && (step == ZERO || step == ONE)
    ensures Follow(t, [step] + x) == Follow(if step == ZERO then t.zero else t.one, x)
    ensures IsBits(x) ==> IsBits([step] + x)
  {
    assert ([step] + x)[0] == step;
    assert ([step] + x)[1..] == x;
  }

  lemma ExtendPrefix(s: seq<byte>, code: seq<byte>, step: byte)
    requires IsPrefix(code + [step], s)
    ensures IsPrefix(code, s)
    ensures s[|code|..] == [step] + s[|code| + 1..]
  {
    assert s[..|code|] == s[..|code| + 1][..|code|];
    assert s[|code|] == s[..|code| + 1][|code|];
  }

  /** The code table of a tree: the walk from the root with the empty path
      into an empty map. It holds a code for exactly the tree's letters,
      each code is a path of bit-characters to a leaf holding its letter,
      codes are non-empty when the root is internal, and a lone-leaf root
      gets the empty code. */
  function CodeTable(t: Node): (r: map<byte, seq<byte>>)
    ensures forall b :: b in r <==> b in Letters(t)
    ensures forall b :: b in r ==> Follow(t, r[b]) == Some(b) && IsBits(r[b])
    ensures t.Internal? ==> forall b :: b in r ==> r[b] != []
    ensures t.Leaf? ==> r == map[t.letter := []]
  {
    var r := HuffmanCodes(t, [], map[]);
    assert forall b :: b in r ==> Follow(t, r[b]) == Some(b) && IsBits(r[b]) by {
      forall b | b in r
        ensures Follow(t, r[b]) == Some(b) && IsBits(r[b])
      {
        HuffmanCodesPath(t, [], map[], b);
        assert r[b][0..] == r[b];
      }
    }
    r
  }

  /** No letter's code is a prefix of another letter's code. */
  lemma CodesPrefixFree(t: Node)
    ensures PrefixFree(CodeTable(t))
  {
    var codes := CodeTable(t);
    forall a, b | a in codes && b in codes && a != b
      ensures !IsPrefix(codes[a], codes[b])
    {
      if IsPrefix(codes[a], codes[b]) {
        FollowPrefixFree(t, codes[a], codes[b]);
      }
    }
  }

  /** A letter's code is the only path of bit-characters to its leaf, when
      the tree's letters are distinct. */
  lemma CodeIsOnlyPath(t: Node, p: seq<byte>)
    requires DistinctLetters(t) && IsBits(p) && Follow(t, p).Some?
    ensures Follow(t, p).value in CodeTable(t)
    ensures CodeTable(t)[Follow(t, p).value] == p
  {
    var b := Follow(t, p).value;
    FollowLetter(t, p);
    FollowUnique(t, p, CodeTable(t)[b]);
  }

  /** Weights play no part in code assignment. */
  lemma {:induction false} HuffmanCodesErase(t: Node, code: seq<byte>, acc: map<byte, seq<byte>>)
    ensures HuffmanCodes(Erase(t), code, acc) == HuffmanCodes(t, code, acc)
    decreases t
  {
    match t
    case Leaf(_, _) =>
    case Internal(_, z, o) =>
      HuffmanCodesErase(z, code + [ZERO], acc);
      HuffmanCodesErase(o, code + [ONE], HuffmanCodes(z, code + [ZERO], acc));
  }

  lemma CodeTableErase(t: Node)
    ensures CodeTable(Erase(t)) == CodeTable(t)
  {
    HuffmanCodesErase(t, [], map[]);
  }
}
