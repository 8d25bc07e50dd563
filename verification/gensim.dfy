/**
  The Gensim decoder (`src/wordvector/gensim.rs`): the input is framed on
  `]` by std's `BufRead::split` (the same read-to-delimiter-and-drop-it
  step as the shared splitter); in each block the word is the second
  whitespace token of the text up to and including the first `[`, and the
  weights are the tokens after it. It has no progress signal.
 */
module Gensim {
  import opened Optional
  import opened Io
  import opened Search
  import opened Tokens
  import opened WordVector

  /** `b']'`, the block delimiter. */
  const CloseBracket: byte := 93

  /** `Gensim<T>`: the remaining input of the `]` split. */
  datatype Decoder = Decoder(reader: Reader)

  /** `Gensim::new`: no header, no signal. */
  function New(reader: Reader): (g: Decoder)
    ensures g.reader == reader
  {
    Decoder(reader)
  }

  /** `Gensim::parse_word`: the second whitespace token, trimmed, or "". */
  function ParseWord(header: string): (word: string)
    ensures |Split(header)| >= 2 ==> word == Split(header)[1]
    ensures |Split(header)| < 2 ==> word == ""
  {
    var tokens := Split(header);
    var second := if |tokens| >= 2 then tokens[1] else "";
    TrimToken(second);
    Trim(second)
  }

  /** `Gensim::parse_weights`: every whitespace token as a weight. */
  function ParseBlockWeights(codec: Codec, text: string): seq<Weight>
  {
    ParseWeights(codec, Split(text))
  }

  /** The block after lossy decoding: `read_until(b'[')` cuts the header
      (the `[` included) from the weights text. */
  function ParseText(codec: Codec, line: string): (r: Record)
    ensures var k := Find(line, '[');
      && r.word == ParseWord(if k < |line| then line[..k + 1] else line)
      && r.vec == ParseWeights(codec, Split(line[(if k < |line| then k + 1 else |line|)..]))
  {
    var k := Find(line, '[');
    var header := if k < |line| then line[..k + 1] else line;
    var position := if k < |line| then k + 1 else |line|;
    NewRecord(ParseWord(header), ParseBlockWeights(codec, line[position..]))
  }

  /** `Gensim::parse`. */
  function Parse(codec: Codec, block: Bytes): (r: Record)
    ensures var line := codec.utf8Lossy(block);
      var k := Find(line, '[');
      && r.word == ParseWord(if k < |line| then line[..k + 1] else line)
      && r.vec == ParseWeights(codec, Split(line[(if k < |line| then k + 1 else |line|)..]))
  {
    ParseText(codec, codec.utf8Lossy(block))
  }

  /** `Iterator::next`: the next `]`-framed block parsed; a read error or
      the end of input ends the sequence. */
  function Next(g: Decoder, codec: Codec): (o: Option<Step<Decoder>>)
    ensures o.None? <==> NextPiece(g.reader, CloseBracket).None?
    ensures o.Some? ==>
      var c := NextPiece(g.reader, CloseBracket).value;
      o.value == Step(Parse(codec, c.piece.bytes), Decoder(c.rest))
    ensures o.Some? ==> |o.value.rest.reader.data| < |g.reader.data|
  {
    match NextPiece(g.reader, CloseBracket)
    case None => None
    case Some(c) => Some(Step(Parse(codec, c.piece.bytes), Decoder(c.rest)))
  }

  /** The records of a sequence of blocks, one per block. */
  function BlockRecords(codec: Codec, ps: seq<Piece>): (rs: seq<Record>)
    ensures |rs| == |ps|
    ensures forall i :: 0 <= i < |ps| ==> rs[i] == Parse(codec, ps[i].bytes)
  {
    if ps == [] then [] else [Parse(codec, ps[0].bytes)] + BlockRecords(codec, ps[1..])
  }

  /** The decoder iterated until `next` returns `None`. */
  function Drain(g: Decoder, codec: Codec): Drained<Decoder>
    decreases |g.reader.data|
  {
    match Next(g, codec)
    case None => Drained([], g)
    case Some(s) =>
      var d := Drain(s.rest, codec);
      Drained([s.record] + d.records, d.last)
  }

  /** Iterating yields one parsed record per remaining block, in order,
      and leaves the input exhausted. */
  lemma {:induction false} DrainRecords(g: Decoder, codec: Codec)
    ensures Drain(g, codec).records == BlockRecords(codec, Pieces(g.reader, CloseBracket))
    ensures Next(Drain(g, codec).last, codec).None?
    decreases |g.reader.data|
  {
    match NextPiece(g.reader, CloseBracket)
    case None =>
    case Some(c) =>
      DrainRecords(Decoder(c.rest), codec);
      assert Pieces(g.reader, CloseBracket)[1..] == Pieces(c.rest, CloseBracket);
  }

  /** A whole Gensim input decoded: one record per `]`-framed block, in
      order, so as many records as the input has `]` bytes, plus one for
      unterminated trailing text. */
  lemma Decode(reader: Reader, codec: Codec)
    ensures Drain(New(reader), codec).records == BlockRecords(codec, Pieces(reader, CloseBracket))
    ensures |Drain(New(reader), codec).records| == FrameCount(reader, CloseBracket)
  {
    DrainRecords(New(reader), codec);
    PiecesCount(reader, CloseBracket);
  }

  /** A block without `[` has no weights; its word is the second token of
      the whole text. */
  lemma NoBracketNoWeights(codec: Codec, line: string)
    requires '[' !in line
    ensures ParseText(codec, line).vec == []
    ensures ParseText(codec, line).word == ParseWord(line)
  {
    var k := Find(line, '[');
    assert k == |line|;
    assert line[|line|..] == [];
  }

  /** Blank text between blocks (such as the newline after the last `]`)
      still yields a record, with an empty word and no weights. */
  lemma BlankBlock(codec: Codec, line: string)
    requires Blank(line)
    ensures ParseText(codec, line) == Record("", [])
  {
    assert '[' !in line by {
      assert !IsWhitespace('[');
    }
    NoBracketNoWeights(codec, line);
    SplitAllWhitespace(line);
  }

  /** The same at the byte level: an input of `]`-terminated blocks
      followed by bytes with no `]` that decode to whitespace yields one
      record per block, then one more with an empty word and no weights. */
  lemma BlankTail(codec: Codec, ps: seq<Piece>, tail: Bytes)
    requires Framed(ps, CloseBracket) && CloseBracket !in tail && tail != []
    requires Blank(codec.utf8Lossy(tail))
    ensures var rs := Drain(New(Reader(Joined(ps, CloseBracket) + tail, false)), codec).records;
      |rs| == |ps| + 1 && rs[|ps|] == Record("", [])
  {
    var r := Reader(Joined(ps, CloseBracket) + tail, false);
    DrainRecords(New(r), codec);
    PiecesJoined(ps, tail, CloseBracket);
    BlankBlock(codec, codec.utf8Lossy(tail));
    assert (ps + [Piece(|tail|, tail)])[|ps|] == Piece(|tail|, tail);
  }

  /** A dump ending in `]\n` yields that extra empty record, given that a
      lone newline byte decodes to a newline. */
  lemma TrailingNewline(codec: Codec, ps: seq<Piece>)
    requires Framed(ps, CloseBracket)
    requires codec.utf8Lossy([Newline]) == "\n"
    ensures var rs := Drain(New(Reader(Joined(ps, CloseBracket) + [Newline], false)), codec).records;
      |rs| == |ps| + 1 && rs[|ps|] == Record("", [])
  {
    BlankTail(codec, ps, [Newline]);
  }

  /** A well-formed block decodes to its word and the values of its
      weight tokens, in order, however many there are: `key`, whitespace,
      `word`, whitespace, `[`, then the weight tokens laid out with any
      whitespace (the tabs and wrapped lines of a gensim dump). */
  lemma ParseWellFormed(codec: Codec, lead: string, key: string, g1: string, word: string, g2: string,
                        wlead: string, weights: seq<string>, gaps: seq<string>)
    requires Blank(lead) && Blank(wlead)
    requires IsToken(key) && IsToken(word) && '[' !in key && '[' !in word
    requires Blank(g1) && g1 != [] && Blank(g2) && g2 != []
    requires Separated(weights, gaps)
    ensures ParseText(codec, lead + key + g1 + word + g2 + "[" + (wlead + Layout(weights, gaps)))
         == Record(word, ParseWeights(codec, weights))
  {
    var pre := lead + key + g1 + word + g2;
    var header := pre + "[";
    var text := wlead + Layout(weights, gaps);
    var line := header + text;
    assert Find(line, '[') == |pre| by {
      assert !IsWhitespace('[');
      assert '[' !in lead && '[' !in g1 && '[' !in g2;
      assert '[' !in pre;
      FindPast(pre, '[', text);
    }
    assert line[..|pre| + 1] == header && line[|pre| + 1..] == text;
    assert ParseWord(header) == word by {
      HeaderTokens(lead, key, g1, word, g2);
    }
    SplitLayout(wlead, weights, gaps);
  }

  /** The header `key word [` splits into `key`, `word` and `[`, whatever
      whitespace surrounds them. */
  lemma HeaderTokens(lead: string, key: string, g1: string, word: string, g2: string)
    requires Blank(lead) && IsToken(key) && IsToken(word)
    requires Blank(g1) && g1 != [] && Blank(g2) && g2 != []
    ensures Split(lead + key + g1 + word + g2 + "[") == [key, word, "["]
  {
    var ts := [key, word, "["];
    var gaps := [g1, g2, ""];
    assert Layout(ts[2..], gaps[2..]) == "[" + "" + [];
    assert Layout(ts[1..], gaps[1..]) == word + g2 + ("[" + "" + []);
    assert Layout(ts, gaps) == key + g1 + (word + g2 + ("[" + "" + []));
    assert lead + key + g1 + word + g2 + "[" == lead + Layout(ts, gaps);
    assert IsToken("[");
    SplitLayout(lead, ts, gaps);
  }
}
