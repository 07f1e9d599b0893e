/** Encoding and decoding of the data region. The encoder writes, for each
    input octet in turn, that octet's code, one bit-character per octet.
    The decoder walks the tree from the root once per output letter, taking
    the zero child on ZERO and the one child on anything else, and its
    driver repeats that walk until the cursor reaches the end of the data. */
module Coder {
  import opened Common
  import opened Tree
  import opened Codes

  /** Every octet of `s` has a code. */
  predicate Covered(s: seq<byte>, codes: map<byte, seq<byte>>)
  {
    forall i :: 0 <= i < |s| ==> s[i] in codes
  }

  /** The codes of the octets of `s`, concatenated in input order. */
  function Concat(s: seq<byte>, codes: map<byte, seq<byte>>): seq<byte>
    requires Covered(s, codes)
  {
    if s == [] then [] else codes[s[0]] + Concat(s[1..], codes)
  }

  lemma {:induction false} ConcatSnoc(s: seq<byte>, c: byte, codes: map<byte, seq<byte>>)
    requires Covered(s, codes) && c in codes
    ensures Covered(s + [c], codes)
    ensures Concat(s + [c], codes) == Concat(s, codes) + codes[c]
    decreases |s|
  {
    if s == [] {
      assert [c][1..] == [];
    } else {
      assert (s + [c])[1..] == s[1..] + [c];
      ConcatSnoc(s[1..], c, codes);
    }
  }

  /** Reads the input octet by octet and appends each one's code. Looking
      up an octet without a code throws, so the result is an error exactly
      when some input octet has no code; otherwise it is the codes of the
      input in order. */
  method Encode(input: seq<byte>, codes: map<byte, seq<byte>>) returns (r: Result<seq<byte>>)
    ensures r.Ok? <==> Covered(input, codes)
    ensures r.Ok? ==> r.value == Concat(input, codes)
    ensures r.Err? ==> r.error == UnknownSymbol
  {
    var data := [];
    for i := 0 to |input|
      invariant Covered(input[..i], codes)
      invariant data == Concat(input[..i], codes)
    {
      var c := input[i];
      if c !in codes {
        return Err(UnknownSymbol);
      }
      ConcatSnoc(input[..i], c, codes);
      assert input[..i + 1] == input[..i] + [c];
      data := data + codes[c];
    }
    assert input[..|input|] == input;
    return Ok(data);
  }

  /** The outcome of one walk from the root: the letter emitted and the
      cursor after the bits consumed, or the error that stopped the walk. */
  datatype Step = Emitted(letter: byte, next: nat) | StepFailed(error: Error)

  /** One walk from `node` with the cursor at `index`: a leaf emits its
      letter without consuming anything; an internal node consumes one
      bit-character and continues in the zero child on ZERO, in the one
      child otherwise. Needing a bit-character at the end of the data is a
      truncated stream (the original reads the string's terminating NUL
      there, takes the one child, and reads past the string if that child
      is internal). The cursor never moves backwards or past the end. */
  function Decode(node: Node, data: seq<byte>, index: nat): (r: Step)
    requires index <= |data|
    ensures r.Emitted? ==> index <= r.next <= |data|
    ensures r.StepFailed? ==> r.error == TruncatedStream
    decreases node
  {
    match node
    case Leaf(c, _) => Emitted(c, index)
    case Internal(_, zero, one) =>
      if index == |data| then StepFailed(TruncatedStream)
      else if data[index] == ZERO then Decode(zero, data, index + 1)
      else Decode(one, data, index + 1)
  }

  /** When the walk emits a letter, the stretch of data it consumed leads
      from `node` to a leaf holding that letter. */
  lemma {:induction false} DecodeFollows(node: Node, data: seq<byte>, index: nat)
    requires index <= |data| && Decode(node, data, index).Emitted?
    ensures var Emitted(c, next) := Decode(node, data, index);
      Follow(node, data[index..next]) == Some(c)
    decreases node
  {
    if node.Internal? {
      FollowFirstStep(node, data, index);
      DecodeFollows(if data[index] == ZERO then node.zero else node.one, data, index + 1);
    }
  }

  /** The walk fails only when no stretch of the data from the cursor
      leads from `node` to a leaf. */
  lemma {:induction false} DecodeFails(node: Node, data: seq<byte>, index: nat)
    requires index <= |data| && Decode(node, data, index).StepFailed?
    ensures forall j :: index <= j <= |data| ==> Follow(node, data[index..j]) == None
    decreases node
  {
    if index < |data| {
      FollowFirstStep(node, data, index);
      DecodeFails(if data[index] == ZERO then node.zero else node.one, data, index + 1);
    }
  }

  /** Reading a stretch from an internal node is reading its first octet
      and then the rest from the child that octet selects. */
  lemma FollowFirstStep(node: Node, data: seq<byte>, index: nat)
    requires node.Internal? && index < |data|
    ensures forall j :: index < j <= |data| ==>
      Follow(node, data[index..j]) ==
        Follow(if data[index] == ZERO then node.zero else node.one, data[index + 1..j])
  {
    forall j | index < j <= |data|
      ensures Follow(node, data[index..j]) ==
        Follow(if data[index] == ZERO then node.zero else node.one, data[index + 1..j])
    {
      assert data[index..j][0] == data[index];
      assert data[index..j][1..] == data[index + 1..j];
    }
  }

  /** `out` put in front of a decoding result. */
  function Prepend(out: seq<byte>, r: Result<seq<byte>>): Result<seq<byte>>
  {
    match r
    case Ok(rest) => Ok(out + rest)
    case Err(e) => Err(e)
  }

  /** What the decode loop produces from cursor `index` to the end of the
      data: the letters of successive walks from the root. A walk that
      fails ends the loop with its error; a walk that does not move the
      cursor (a lone-leaf root) would repeat forever. */
  function DecodeFrom(root: Node, data: seq<byte>, index: nat): Result<seq<byte>>
    requires index <= |data|
    decreases |data| - index
  {
    if index == |data| then Ok([])
    else
      match Decode(root, data, index)
      case StepFailed(e) => Err(e)
      case Emitted(c, next) =>
        if next == index then Err(NonTerminating)
        else Prepend([c], DecodeFrom(root, data, next))
  }

  /** The decode loop: walk from the root while the cursor is inside the
      data, emitting one letter per walk. */
  method DecodeAll(root: Node, data: seq<byte>) returns (r: Result<seq<byte>>)
    ensures r == DecodeFrom(root, data, 0)
  {
    var index := 0;
    var out := [];
    PrependEmpty(DecodeFrom(root, data, 0));
    while index < |data|
      invariant index <= |data|
      invariant DecodeFrom(root, data, 0) == Prepend(out, DecodeFrom(root, data, index))
      decreases |data| - index
    {
      var step := Decode(root, data, index);
      if step.StepFailed? {
        return Err(step.error);
      }
      if step.next == index {
        // The original loops here forever: a leaf root consumes nothing.
        return Err(NonTerminating);
      }
      PrependPrepend(out, [step.letter], DecodeFrom(root, data, step.next));
      out := out + [step.letter];
      index := step.next;
    }
    r := Ok(out);
    assert out + [] == out;
  }

  lemma PrependEmpty(r: Result<seq<byte>>)
    ensures Prepend([], r) == r
  {
    if r.Ok? {
      assert [] + r.value == r.value;
    }
  }

  lemma PrependPrepend(a: seq<byte>, b: seq<byte>, r: Result<seq<byte>>)
    ensures Prepend(a, Prepend(b, r)) == Prepend(a + b, r)
  {
    if r.Ok? {
      assert a + (b + r.value) == (a + b) + r.value;
    }
  }

  /** A walk from the root over a stretch that is some letter's path
      emits that letter and moves the cursor past the stretch. */
  lemma DecodePath(t: Node, data: seq<byte>, index: nat, path: seq<byte>)
    requires index + |path| <= |data| && data[index..index + |path|] == path
    requires Follow(t, path).Some?
    ensures Decode(t, data, index) == Emitted(Follow(t, path).value, index + |path|)
  {
    var end := index + |path|;
    match Decode(t, data, index)
    case StepFailed(_) =>
      DecodeFails(t, data, index);
      assert false;
    case Emitted(c, next) =>
      DecodeFollows(t, data, index);
      var walked := data[index..next];
      if next <= end {
        assert walked == path[..next - index];
        FollowPrefixFree(t, walked, path);
      } else {
        assert path == walked[..|path|];
        FollowPrefixFree(t, path, walked);
      }
  }

  /** Every code in `codes` is a non-empty path from `t` to a leaf holding
      its letter: what the code table of an internal root provides. */
  predicate LeadsToLetters(t: Node, codes: map<byte, seq<byte>>)
  {
    forall b :: b in codes ==> codes[b] != [] && Follow(t, codes[b]) == Some(b)
  }

  /** One turn of the decode loop that emits a letter and moves on. */
  lemma DecodeFromStep(root: Node, data: seq<byte>, index: nat, c: byte, next: nat)
    requires index < |data| && Decode(root, data, index) == Emitted(c, next) && next != index
    ensures DecodeFrom(root, data, index) == Prepend([c], DecodeFrom(root, data, next))
  {
  }

  /** Decoding data that begins with the codes of `s` emits `s` first and
      then carries on after those codes. */
  lemma {:induction false} DecodeFromCodes(t: Node, codes: map<byte, seq<byte>>, s: seq<byte>, data: seq<byte>, index: nat)
    requires LeadsToLetters(t, codes) && Covered(s, codes)
    requires index + |Concat(s, codes)| <= |data|
    requires data[index..index + |Concat(s, codes)|] == Concat(s, codes)
    ensures DecodeFrom(t, data, index) == Prepend(s, DecodeFrom(t, data, index + |Concat(s, codes)|))
    decreases |s|
  {
    if s == [] {
      PrependEmpty(DecodeFrom(t, data, index));
    } else {
      var next := index + |codes[s[0]]|;
      var end := index + |Concat(s, codes)|;
      FirstCode(t, codes, s, data, index);
      DecodeFromCodes(t, codes, s[1..], data, next);
      PrependPrepend([s[0]], s[1..], DecodeFrom(t, data, end));
      assert [s[0]] + s[1..] == s;
    }
  }

  /** The first turn of the loop over the codes of `s`: it emits `s[0]`
      and leaves the cursor at the codes of the rest of `s`. */
  lemma FirstCode(t: Node, codes: map<byte, seq<byte>>, s: seq<byte>, data: seq<byte>, index: nat)
    requires LeadsToLetters(t, codes) && Covered(s, codes) && s != []
    requires index + |Concat(s, codes)| <= |data|
    requires data[index..index + |Concat(s, codes)|] == Concat(s, codes)
    ensures var next := index + |codes[s[0]]|;
      var rest := Concat(s[1..], codes);
      next + |rest| == index + |Concat(s, codes)| &&
      data[next..next + |rest|] == rest &&
      DecodeFrom(t, data, index) == Prepend([s[0]], DecodeFrom(t, data, next))
  {
    var code := codes[s[0]];
    var rest := Concat(s[1..], codes);
    var next := index + |code|;
    var end := next + |rest|;
    assert data[index..next] == code && data[next..end] == rest by {
      assert Concat(s, codes) == code + rest;
      assert data[index..next] == data[index..end][..|code|];
      assert data[next..end] == data[index..end][|code|..];
    }
    DecodePath(t, data, index, code);
    DecodeFromStep(t, data, index, s[0], next);
  }

  /** The round trip of the coder: for a root with at least two leaves,
      decoding the codes of any sequence of its letters yields exactly
      that sequence. */
  lemma DecodeEncode(t: Node, s: seq<byte>)
    requires t.Internal? && Covered(s, CodeTable(t))
    ensures DecodeFrom(t, Concat(s, CodeTable(t)), 0) == Ok(s)
  {
    var codes := CodeTable(t);
    var data := Concat(s, codes);
    assert data[0..|data|] == data;
    DecodeFromCodes(t, codes, s, data, 0);
    assert s + [] == s;
  }

  /** The converse: in a tree with distinct letters, whatever the decode
      loop emits from bit-characters re-encodes to exactly those
      bit-characters. */
  lemma {:induction false} DecodeReencodes(t: Node, data: seq<byte>, index: nat)
    requires DistinctLetters(t) && index <= |data| && IsBits(data[index..])
    requires DecodeFrom(t, data, index).Ok?
    ensures Covered(DecodeFrom(t, data, index).value, CodeTable(t))
    ensures Concat(DecodeFrom(t, data, index).value, CodeTable(t)) == data[index..]
    decreases |data| - index
  {
    if index < |data| {
      var Emitted(c, next) := Decode(t, data, index);
      ReencodeStep(t, data, index);
      DecodeReencodes(t, data, next);
      var out := DecodeFrom(t, data, index).value;
      assert out == [c] + DecodeFrom(t, data, next).value;
      assert out[1..] == DecodeFrom(t, data, next).value;
      assert data[index..] == data[index..next] + data[next..];
    }
  }

  /** One turn of `DecodeReencodes`: the walk consumes a letter's code
      and leaves bit-characters behind. */
  lemma ReencodeStep(t: Node, data: seq<byte>, index: nat)
    requires DistinctLetters(t) && index < |data| && IsBits(data[index..])
    requires DecodeFrom(t, data, index).Ok?
    ensures var Emitted(c, next) := Decode(t, data, index);
      index < next && c in CodeTable(t) && CodeTable(t)[c] == data[index..next] &&
      IsBits(data[next..]) && DecodeFrom(t, data, index) == Prepend([c], DecodeFrom(t, data, next))
  {
    var Emitted(c, next) := Decode(t, data, index);
    DecodeFollows(t, data, index);
    var stretch := data[index..next];
    assert IsBits(stretch) by {
      assert forall k :: 0 <= k < |stretch| ==> stretch[k] == data[index..][k];
    }
    CodeIsOnlyPath(t, stretch);
    assert IsBits(data[next..]) by {
      assert forall k :: 0 <= k < |data| - next ==> data[next..][k] == data[index..][k + next - index];
    }
  }

  /** A lone-leaf root emits its letter without consuming anything, so on
      any non-empty data region the decode loop never ends. */
  lemma LeafRootNeverEnds(t: Node, data: seq<byte>)
    requires t.Leaf? && |data| > 0
    ensures Decode(t, data, 0) == Emitted(t.letter, 0)
    ensures DecodeFrom(t, data, 0) == Err(NonTerminating)
  {
  }

  /** Dropping the last bit-character of the encoded data: when the last
      letter's code has two or more bits the decoder reports a truncated
      stream, but when it is a single bit the decoder silently returns the
      input without its last letter. */
  lemma DecodeTruncated(t: Node, s: seq<byte>)
    requires t.Internal? && Covered(s, CodeTable(t)) && s != []
    ensures var data := Concat(s, CodeTable(t));
      |data| > 0 &&
      DecodeFrom(t, data[..|data| - 1], 0) ==
        if |CodeTable(t)[s[|s| - 1]]| == 1 then Ok(s[..|s| - 1]) else Err(TruncatedStream)
  {
    DecodeTruncatedWith(t, CodeTable(t), s);
  }

  lemma DecodeTruncatedWith(t: Node, codes: map<byte, seq<byte>>, s: seq<byte>)
    requires LeadsToLetters(t, codes) && Covered(s, codes) && s != []
    ensures var data := Concat(s, codes);
      |data| > 0 &&
      DecodeFrom(t, data[..|data| - 1], 0) ==
        if |codes[s[|s| - 1]]| == 1 then Ok(s[..|s| - 1]) else Err(TruncatedStream)
  {
    var init, last := s[..|s| - 1], s[|s| - 1];
    assert s == init + [last];
    ConcatSnoc(init, last, codes);
    var code := codes[last];
    var prefix := Concat(init, codes);
    var data := Concat(s, codes);
    assert data == prefix + code;
    var cut := data[..|data| - 1];
    var mid := |prefix|;
    assert cut == prefix + code[..|code| - 1];
    assert cut[0..mid] == prefix;
    DecodeFromCodes(t, codes, init, cut, 0);
    if |code| == 1 {
      assert mid == |cut|;
      assert init + [] == init;
    } else {
      assert cut[mid..] == code[..|code| - 1];
      TruncatedCodeFails(t, cut, mid, code);
      assert Prepend(init, Err(TruncatedStream)) == Err(TruncatedStream);
    }
  }

  /** A walk over a proper prefix of a letter's path, running into the end
      of the data, fails as a truncated stream. */
  lemma TruncatedCodeFails(t: Node, data: seq<byte>, index: nat, path: seq<byte>)
    requires index < |data| && Follow(t, path).Some?
    requires |data| - index < |path| && data[index..] == path[..|data| - index]
    ensures Decode(t, data, index) == StepFailed(TruncatedStream)
    ensures DecodeFrom(t, data, index) == Err(TruncatedStream)
  {
    match Decode(t, data, index)
    case Emitted(c, next) =>
      DecodeFollows(t, data, index);
      var walked := data[index..next];
      assert walked == data[index..][..next - index];
      assert walked == path[..next - index];
      FollowPrefixFree(t, walked, path);
      assert false;
    case StepFailed(_) =>
  }

  /** `a` and `b` read the same to the decoder: the same length, and ZERO
      at the same places (every other octet counts as a one-bit). */
  predicate SameReading(a: seq<byte>, b: seq<byte>)
  {
    |a| == |b| && forall k :: 0 <= k < |a| ==> (a[k] == ZERO <==> b[k] == ZERO)
  }

  /** A walk sees only whether each octet is ZERO. */
  lemma {:induction false} DecodeSameReading(node: Node, a: seq<byte>, b: seq<byte>, index: nat)
    requires SameReading(a, b) && index <= |a|
    ensures Decode(node, a, index) == Decode(node, b, index)
    decreases node
  {
    if node.Internal? && index < |a| {
      DecodeSameReading(node.zero, a, b, index + 1);
      DecodeSameReading(node.one, a, b, index + 1);
    }
  }

  /** So does the decode loop. */
  lemma {:induction false} DecodeFromSameReading(root: Node, a: seq<byte>, b: seq<byte>, index: nat)
    requires SameReading(a, b) && index <= |a|
    ensures DecodeFrom(root, a, index) == DecodeFrom(root, b, index)
    decreases |a| - index
  {
    if index < |a| {
      DecodeSameReading(root, a, b, index);
      match Decode(root, a, index)
      case StepFailed(_) =>
      case Emitted(_, next) =>
        if next != index {
          DecodeFromSameReading(root, a, b, next);
        }
    }
  }
}
