/** The two top-level operations. Compression counts the input octets,
    builds the tree, assigns the codes and writes the serialised tree
    followed by the codes of the input. Decompression reads the tree back
    from the head of the file and runs the decode loop over the rest. */
module Pipeline {
  import opened Common
  import opened Tree
  import opened Frequency
  import opened Builder
  import opened Codes
  import opened Serial
  import opened Coder

  /** The distinct octets of the input. */
  function Symbols(input: seq<byte>): set<byte>
  {
    set b | b in input
  }

  /** The frequency table the input calls for: each distinct octet with
      its number of occurrences. */
  function Counts(input: seq<byte>): map<byte, nat>
  {
    map b | b in input :: multiset(input)[b]
  }

  /** The compressed file for a tree: the serialised tree, then the codes
      of the input octets. */
  function Layout(t: Node, input: seq<byte>): seq<byte>
    requires Covered(input, CodeTable(t))
  {
    ShowTree(t) + Concat(input, CodeTable(t))
  }

  /** What decompression yields from a whole file: the tree read from its
      head, and the decode loop run over every octet after the tree. */
  function Decompressed(file: seq<byte>): Result<seq<byte>>
  {
    match ReadTree(file)
    case Failed(e) => Err(e)
    case Parsed(t, rest) => DecodeFrom(t, rest, 0)
  }

  /** Compression. An empty input has an empty frequency table, from which
      no tree can be built, so it is refused. Otherwise the file is the
      layout for some tree built from the input's counts, and reading it
      back yields the input again, except that an input made of a single
      distinct octet has an empty code and comes back empty. */
  method Compress(input: seq<byte>) returns (r: Result<seq<byte>>)
    ensures r.Err? <==> input == []
    ensures r.Err? ==> r.error == EmptyInput
    ensures r.Ok? ==> exists t :: IsTreeFor(t, Counts(input)) && Covered(input, CodeTable(t)) && r.value == Layout(t, input)
    ensures r.Ok? ==> Decompressed(r.value) == Ok(if |Symbols(input)| == 1 then [] else input)
  {
    if input == [] {
      return Err(EmptyInput);
    }
    var table := BuildFrequencyTable(input);
    assert table == Counts(input);
    assert table.Keys == Symbols(input);
    assert input[0] in table;
    var root := BuildHuffmanTree(table);
    var codes := CodeTable(root);
    assert Covered(input, codes) by {
      forall i | 0 <= i < |input|
        ensures input[i] in codes
      {
        assert input[i] in table;
        assert input[i] in multiset(table.Keys);
      }
    }
    var body := Encode(input, codes);
    r := Ok(ShowTree(root) + body.value);
    assert r.value == Layout(root, input);
    CompressedRoundTrip(root, input);
  }

  /** Decompression: read the tree, then run the decode loop over the
      rest of the file. */
  method Decompress(file: seq<byte>) returns (r: Result<seq<byte>>)
    ensures r == Decompressed(file)
  {
    var parse := ReadTree(file);
    if parse.Failed? {
      return Err(parse.error);
    }
    r := DecodeAll(parse.tree, parse.rest);
  }

  /** The end-to-end round trip, for any tree holding every input octet:
      with two or more leaves the input comes back exactly; a lone-leaf
      root has the empty code, so the data region is empty and nothing
      comes back. */
  lemma CompressedRoundTrip(t: Node, input: seq<byte>)
    requires Covered(input, CodeTable(t))
    ensures Decompressed(Layout(t, input)) == Ok(if t.Leaf? then [] else input)
  {
    var codes := CodeTable(t);
    LayoutHead(t, Concat(input, codes));
    if t.Leaf? {
      EmptyCodes(input, codes);
    } else {
      CodeTableErase(t);
      DecodeEncode(Erase(t), input);
    }
  }

  /** Any file that starts with a serialised tree is decoded, with or
      without the reassembly, by that tree with its weights erased. */
  lemma LayoutHead(t: Node, d: seq<byte>)
    ensures Decompressed(ShowTree(t) + d) == DecodeFrom(Erase(t), d, 0)
    ensures DecompressedAsWritten(ShowTree(t) + d) == DecodeFrom(Erase(t), Reassemble(d), 0)
  {
    ReadShowTree(t, d);
  }

  /** When every code is empty, so is the encoded data. */
  lemma {:induction false} EmptyCodes(s: seq<byte>, codes: map<byte, seq<byte>>)
    requires Covered(s, codes) && forall b :: b in codes ==> codes[b] == []
    ensures Concat(s, codes) == []
    decreases |s|
  {
    if s != [] {
      EmptyCodes(s[1..], codes);
    }
  }

  /** A file whose tree is cut short, the empty file included, fails as a
      truncated stream. */
  lemma TruncatedTree(t: Node, k: nat)
    requires k < |ShowTree(t)|
    ensures Decompressed(ShowTree(t)[..k]) == Err(TruncatedStream)
  {
    var shown := ShowTree(t);
    var cut := shown[..k];
    if ReadTree(cut).Parsed? {
      var extra := shown[k..];
      assert cut + extra == shown;
      assert shown + [] == shown;
      ReadExtends(cut, extra);
      ReadShowTree(t, []);
      assert false;
    }
    ReadFailure(cut);
  }

  /** Dropping the last octet of the file produced for two or more
      distinct symbols, which is the last octet of its data region: when
      the last input octet's code is a single bit the file decompresses to
      the input without its last octet; otherwise it fails as a truncated
      stream. */
  lemma CompressedTruncated(t: Node, input: seq<byte>)
    requires t.Internal? && Covered(input, CodeTable(t)) && input != []
    ensures var codes := CodeTable(t); var body := Concat(input, codes); var file := ShowTree(t) + body;
      |body| > 0 && file[..|file| - 1] == ShowTree(t) + body[..|body| - 1] &&
      Decompressed(ShowTree(t) + body[..|body| - 1]) ==
        if |codes[input[|input| - 1]]| == 1 then Ok(input[..|input| - 1]) else Err(TruncatedStream)
  {
    var codes := CodeTable(t);
    assert LeadsToLetters(Erase(t), codes) by {
      CodeTableErase(t);
    }
    TruncatedLayout(t, codes, input);
  }

  lemma TruncatedLayout(t: Node, codes: map<byte, seq<byte>>, input: seq<byte>)
    requires LeadsToLetters(Erase(t), codes) && Covered(input, codes) && input != []
    ensures var body := Concat(input, codes); var file := ShowTree(t) + body;
      |body| > 0 && file[..|file| - 1] == ShowTree(t) + body[..|body| - 1] &&
      Decompressed(ShowTree(t) + body[..|body| - 1]) ==
        if |codes[input[|input| - 1]]| == 1 then Ok(input[..|input| - 1]) else Err(TruncatedStream)
  {
    var body := Concat(input, codes);
    DecodeTruncatedWith(Erase(t), codes, input);
    LayoutHead(t, body[..|body| - 1]);
    var shown := ShowTree(t);
    assert (shown + body)[..|shown + body| - 1] == shown + body[..|body| - 1];
  }

  /** The data region as the original decompressor reassembles it: it
      reads the rest of the file line by line and appends a newline after
      each line, so a last line without one gains a newline. */
  function Reassemble(rest: seq<byte>): (r: seq<byte>)
    ensures rest == [] ==> r == []
    ensures rest != [] ==> |rest| <= |r| && r[|r| - 1] == NEWLINE && r[..|rest|] == rest
  {
    if rest == [] || rest[|rest| - 1] == NEWLINE then rest else rest + [NEWLINE]
  }

  /** Decompression as written: the decode loop runs over the reassembled
      data region, newline included. It agrees with `Decompressed` when the
      tree cannot be read, when nothing follows the tree, and when the data
      region already ends in a newline. */
  function DecompressedAsWritten(file: seq<byte>): (r: Result<seq<byte>>)
    ensures ReadTree(file).Failed? ==> r == Decompressed(file)
    ensures ReadTree(file).Parsed? && ReadTree(file).rest == [] ==> r == Decompressed(file) == Ok([])
    ensures ReadTree(file).Parsed? && ReadTree(file).rest != [] && ReadTree(file).rest[|ReadTree(file).rest| - 1] == NEWLINE
      ==> r == Decompressed(file)
  {
    match ReadTree(file)
    case Failed(e) => Err(e)
    case Parsed(t, rest) => DecodeFrom(t, Reassemble(rest), 0)
  }

  /** Bit-characters are never a newline, so an encoded data region never
      ends in one. */
  lemma {:induction false} ConcatBits(s: seq<byte>, codes: map<byte, seq<byte>>)
    requires Covered(s, codes) && forall b :: b in codes ==> IsBits(codes[b])
    ensures IsBits(Concat(s, codes))
    decreases |s|
  {
    if s != [] {
      ConcatBits(s[1..], codes);
      var c, rest := codes[s[0]], Concat(s[1..], codes);
      assert forall k :: 0 <= k < |c| + |rest| ==> (c + rest)[k] == if k < |c| then c[k] else rest[k - |c|];
    }
  }

  /** The newline the original appends is read as a one-bit: after the
      input, the decoder either emits the letter of the root's one child
      when that child is a leaf, or runs off the end of the data. */
  lemma NewlineReadAsBit(t: Node, input: seq<byte>)
    requires t.Internal? && Covered(input, CodeTable(t)) && input != []
    ensures DecompressedAsWritten(Layout(t, input)) ==
      if t.one.Leaf? then Ok(input + [t.one.letter]) else Err(TruncatedStream)
  {
    var codes := CodeTable(t);
    var body := Concat(input, codes);
    LayoutHead(t, body);
    assert |body| > 0;
    ConcatBits(input, codes);
    assert Reassemble(body) == body + [NEWLINE];
    CodeTableErase(t);
    NewlineAfterCodes(Erase(t), codes, input);
  }

  /** The decode loop over the codes of `s` followed by a newline. */
  lemma NewlineAfterCodes(t: Node, codes: map<byte, seq<byte>>, s: seq<byte>)
    requires t.Internal? && LeadsToLetters(t, codes) && Covered(s, codes)
    ensures var data := Concat(s, codes) + [NEWLINE];
      DecodeFrom(t, data, 0) == if t.one.Leaf? then Ok(s + [t.one.letter]) else Err(TruncatedStream)
  {
    var body := Concat(s, codes);
    var data := body + [NEWLINE];
    assert DecodeFrom(t, data, 0) == Prepend(s, DecodeFrom(t, data, |body|)) by {
      assert data[0..|body|] == body;
      DecodeFromCodes(t, codes, s, data, 0);
    }
    NewlineStep(t, data);
  }

  /** The walk that starts at the final newline. */
  lemma NewlineStep(t: Node, data: seq<byte>)
    requires t.Internal? && |data| > 0 && data[|data| - 1] == NEWLINE
    ensures DecodeFrom(t, data, |data| - 1) == if t.one.Leaf? then Ok([t.one.letter]) else Err(TruncatedStream)
  {
    var i := |data| - 1;
    if t.one.Leaf? {
      assert Decode(t, data, i) == Emitted(t.one.letter, |data|);
      DecodeFromStep(t, data, i, t.one.letter, |data|);
      assert [t.one.letter] + [] == [t.one.letter];
    } else {
      assert Decode(t, data, i) == StepFailed(TruncatedStream);
    }
  }

  /** The file for input "AB" with A coded ZERO and B coded ONE: reading it
      as the original does yields "ABB"; the data region alone yields "AB". */
  lemma NewlineExample()
    ensures var file := [ZERO, ONE, 65, ONE, 66, ZERO, ONE];
      DecompressedAsWritten(file) == Ok([65, 66, 66]) && Decompressed(file) == Ok([65, 66])
  {
    var file: seq<byte> := [ZERO, ONE, 65, ONE, 66, ZERO, ONE];
    var t := Internal(0, Leaf(65, 0), Leaf(66, 0));
    var d: seq<byte> := [ZERO, ONE];
    assert file[1..][2..] == [ONE, 66] + d;
    assert ReadTree(file[1..]) == Parsed(Leaf(65, 0), [ONE, 66] + d);
    assert ([ONE, 66] + d)[2..] == d;
    assert ReadTree([ONE, 66] + d) == Parsed(Leaf(66, 0), d);
    assert ReadTree(file) == Parsed(t, d);
    var data: seq<byte> := [ZERO, ONE, NEWLINE];
    assert Reassemble(d) == data;
    assert Decode(t, data, 2) == Emitted(66, 3);
    assert Decode(t, data, 1) == Emitted(66, 2);
    assert Decode(t, data, 0) == Emitted(65, 1);
    DecodeFromStep(t, data, 2, 66, 3);
    assert [66 as byte] + [] == [66];
    DecodeFromStep(t, data, 1, 66, 2);
    assert [66 as byte] + [66] == [66, 66];
    DecodeFromStep(t, data, 0, 65, 1);
    assert [65 as byte] + [66, 66] == [65, 66, 66];
    assert Decode(t, d, 1) == Emitted(66, 2);
    assert Decode(t, d, 0) == Emitted(65, 1);
    DecodeFromStep(t, d, 1, 66, 2);
    DecodeFromStep(t, d, 0, 65, 1);
    assert [65 as byte] + [66] == [65, 66];
  }

  /** Dropping the last octet of the file, as the original decompresses
      it: the newline appended to the shortened data region stands in for
      the dropped bit as a one-bit. So the data region is decoded with its
      last bit set to ONE: when that bit was ONE, the cut goes unnoticed and
      the whole input comes back; when only one bit was written, nothing
      is left to decode. */
  lemma TruncatedAsWritten(t: Node, input: seq<byte>)
    requires t.Internal? && Covered(input, CodeTable(t)) && input != []
    ensures var body := Concat(input, CodeTable(t)); var cut := ShowTree(t) + body[..|body| - 1];
      |body| > 0 &&
      (|body| == 1 ==> DecompressedAsWritten(cut) == Ok([])) &&
      (|body| >= 2 ==> DecompressedAsWritten(cut) == DecodeFrom(Erase(t), body[..|body| - 1] + [ONE], 0)) &&
      (|body| >= 2 && body[|body| - 1] == ONE ==> DecompressedAsWritten(cut) == Ok(input))
  {
    EncodedBody(t, input);
    CutBody(t, Concat(input, CodeTable(t)), input);
  }

  /** The encoded data region of a non-empty input under an internal root
      is a non-empty run of bit-characters that decodes to the input. */
  lemma EncodedBody(t: Node, input: seq<byte>)
    requires t.Internal? && Covered(input, CodeTable(t)) && input != []
    ensures var body := Concat(input, CodeTable(t));
      |body| > 0 && IsBits(body) && DecodeFrom(Erase(t), body, 0) == Ok(input)
  {
    var codes := CodeTable(t);
    var body := Concat(input, codes);
    assert |body| > 0 by {
      assert body == codes[input[0]] + Concat(input[1..], codes);
    }
    ConcatBits(input, codes);
    LayoutHead(t, body);
    CompressedRoundTrip(t, input);
  }

  /** `TruncatedAsWritten` for any encoded data region that decodes to
      `input`. */
  lemma CutBody(t: Node, body: seq<byte>, input: seq<byte>)
    requires |body| > 0 && IsBits(body) && DecodeFrom(Erase(t), body, 0) == Ok(input)
    ensures var cut := ShowTree(t) + body[..|body| - 1];
      (|body| == 1 ==> DecompressedAsWritten(cut) == Ok([])) &&
      (|body| >= 2 ==> DecompressedAsWritten(cut) == DecodeFrom(Erase(t), body[..|body| - 1] + [ONE], 0)) &&
      (|body| >= 2 && body[|body| - 1] == ONE ==> DecompressedAsWritten(cut) == Ok(input))
  {
    var data := body[..|body| - 1];
    var cut := ShowTree(t) + data;
    if |body| == 1 {
      LayoutHead(t, data);
    } else {
      assert DecompressedAsWritten(cut) == DecodeFrom(Erase(t), data + [ONE], 0) by {
        LayoutHead(t, data);
        CutReassembled(body);
        DecodeFromSameReading(Erase(t), data + [NEWLINE], data + [ONE], 0);
      }
      if body[|body| - 1] == ONE {
        assert data + [ONE] == body;
      }
    }
  }

  /** A data region of bit-characters cut by its last octet gains a
      newline, which reads as a one-bit in place of the dropped bit. */
  lemma CutReassembled(body: seq<byte>)
    requires |body| >= 2 && IsBits(body)
    ensures var data := body[..|body| - 1];
      Reassemble(data) == data + [NEWLINE] && SameReading(data + [NEWLINE], data + [ONE])
  {
    var data := body[..|body| - 1];
    assert data[|data| - 1] == body[|data| - 1];
    forall k | 0 <= k < |data| + 1
      ensures (data + [NEWLINE])[k] == ZERO <==> (data + [ONE])[k] == ZERO
    {
      if k < |data| {
        assert (data + [NEWLINE])[k] == data[k] == (data + [ONE])[k];
      }
    }
  }

  /** The file of `NewlineExample` without its last octet: as the original
      reads it, the appended newline replaces the dropped one-bit and "AB"
      comes back whole; the data region alone yields "A". */
  lemma TruncatedExample()
    ensures var file := [ZERO, ONE, 65, ONE, 66, ZERO];
      DecompressedAsWritten(file) == Ok([65, 66]) && Decompressed(file) == Ok([65])
  {
    var file: seq<byte> := [ZERO, ONE, 65, ONE, 66, ZERO];
    var t := Internal(0, Leaf(65, 0), Leaf(66, 0));
    var d: seq<byte> := [ZERO];
    assert file[1..][2..] == [ONE, 66] + d;
    assert ReadTree(file[1..]) == Parsed(Leaf(65, 0), [ONE, 66] + d);
    assert ([ONE, 66] + d)[2..] == d;
    assert ReadTree([ONE, 66] + d) == Parsed(Leaf(66, 0), d);
    assert ReadTree(file) == Parsed(t, d);
    var data: seq<byte> := [ZERO, NEWLINE];
    assert Reassemble(d) == data;
    assert Decode(t, data, 1) == Emitted(66, 2);
    assert Decode(t, data, 0) == Emitted(65, 1);
    DecodeFromStep(t, data, 1, 66, 2);
    assert [66 as byte] + [] == [66];
    DecodeFromStep(t, data, 0, 65, 1);
    assert [65 as byte] + [66] == [65, 66];
    assert Decode(t, d, 0) == Emitted(65, 1);
    DecodeFromStep(t, d, 0, 65, 1);
    assert [65 as byte] + [] == [65];
  }
}
