/**
  Shared vocabulary of the decoders (`src/wordvector/mod.rs`): the decoded
  `Record`, the declared file formats, the one tokenizer-based line parser
  the FastText, GloVe and Word2Vec decoders all use, and the progress
  signal a decoder may report byte counts to.
 */
module WordVector {
  import opened Optional
  import opened Io
  import opened Tokens

  /** An `f32` weight, kept as its IEEE-754 bit pattern: weights are only
      parsed and passed through, never computed on. */
  type Weight = bv32

  /** `f32::default()`, the value an unparsable token becomes. */
  const Zero: Weight := 0

  /** The two conversions the decoders call but the model does not define:
      `String::from_utf8_lossy` and `str::parse::<f32>`. */
  datatype Codec = Codec(utf8Lossy: Bytes -> string, parseF32: string -> Option<Weight>)

  /** A decoded word with its weight vector. */
  datatype Record = Record(word: string, vec: seq<Weight>)

  /** The declared input files: a path per supported format, or `Unknown`. */
  datatype VectorFile =
    | FastTextFile(path: string)
    | GloveFile(path: string)
    | Word2VecFile(path: string)
    | GensimFile(path: string)
    | Unknown

  /** `Record::new`: the given word and an element-wise copy of the slice. */
  function NewRecord(word: string, vec: seq<Weight>): (r: Record)
    ensures r.word == word
    ensures |r.vec| == |vec|
    ensures forall i :: 0 <= i < |vec| ==> r.vec[i] == vec[i]
  {
    Record(word, seq(|vec|, i requires 0 <= i < |vec| => vec[i]))
  }

  /** `value.parse::<f32>().unwrap_or_default()`. */
  function ParseWeight(codec: Codec, token: string): Weight
  {
    codec.parseF32(token).GetOr(Zero)
  }

  /** Every token parsed as a weight, in order; none is dropped. */
  function ParseWeights(codec: Codec, tokens: seq<string>): (ws: seq<Weight>)
    ensures |ws| == |tokens|
    ensures forall i :: 0 <= i < |tokens| ==> ws[i] == ParseWeight(codec, tokens[i])
  {
    if tokens == [] then [] else [ParseWeight(codec, tokens[0])] + ParseWeights(codec, tokens[1..])
  }

  /** The `parse` of FastText, GloVe and Word2Vec: the first whitespace
      token (trimmed) is the word, or "" when there is none; every later
      token is a weight. */
  function ParseLine(codec: Codec, line: string): (r: Record)
    ensures r.word == "" || IsToken(r.word)
    ensures r.word == "" <==> Split(line) == []
    ensures |r.vec| == if Split(line) == [] then 0 else |Split(line)| - 1
    ensures Split(line) != [] ==> r.word == Split(line)[0] && r.vec == ParseWeights(codec, Split(line)[1..])
  {
    var tokens := Split(line);
    var first := if tokens == [] then "" else tokens[0];
    TrimToken(first);
    NewRecord(Trim(first), ParseWeights(codec, if tokens == [] then [] else tokens[1..]))
  }

  /** What the shared parse makes of a line: the first token as the word
      and every later token's weight, in order, or an empty word and no
      weights when the line has no token. */
  predicate ParsedFrom(codec: Codec, line: string, r: Record)
  {
    var ts := Split(line);
    if ts == [] then r == Record("", []) else r.word == ts[0] && r.vec == ParseWeights(codec, ts[1..])
  }

  /** A line that is a word followed by weight tokens parses to that word
      and exactly those tokens' weights, in order, whatever whitespace
      surrounds and separates them (the trailing space FastText and
      Word2Vec writers leave, tabs, runs of spaces). */
  lemma ParseLineOfTokens(codec: Codec, lead: string, word: string, weights: seq<string>, gaps: seq<string>)
    requires Blank(lead)
    requires Separated([word] + weights, gaps)
    ensures ParseLine(codec, lead + Layout([word] + weights, gaps)) == Record(word, ParseWeights(codec, weights))
  {
    SplitLayout(lead, [word] + weights, gaps);
    assert ([word] + weights)[1..] == weights;
  }

  /** A blank or all-whitespace line still yields a record: empty word, no
      weights. */
  lemma ParseBlankLine(codec: Codec, line: string)
    requires Blank(line)
    ensures ParseLine(codec, line) == Record("", [])
  {
    SplitAllWhitespace(line);
  }

  /** An unparsable token becomes `Zero` in its own position; the tokens
      around it still parse. */
  lemma UnparsableIsZero(codec: Codec, tokens: seq<string>, k: nat)
    requires k < |tokens|
    requires codec.parseF32(tokens[k]).None?
    ensures |ParseWeights(codec, tokens)| == |tokens|
    ensures ParseWeights(codec, tokens)[k] == Zero
    ensures forall i :: 0 <= i < |tokens| && i != k ==> ParseWeights(codec, tokens)[i] == ParseWeight(codec, tokens[i])
  {
  }

  /** The records of a sequence of line pieces, one per piece. */
  function LineRecords(codec: Codec, ps: seq<Piece>): (rs: seq<Record>)
    ensures |rs| == |ps|
    ensures forall i :: 0 <= i < |ps| ==> rs[i] == ParseLine(codec, codec.utf8Lossy(ps[i].bytes))
  {
    if ps == [] then [] else [ParseLine(codec, codec.utf8Lossy(ps[0].bytes))] + LineRecords(codec, ps[1..])
  }

  /** An attached progress signal (`Option<Rc<IncSignal>>`), modelled by the
      byte counts it has been sent; `None` when no signal is attached. */
  type Signal = Option<seq<nat>>

  /** The decoders' `inc(delta)`: forwards to the signal if there is one. */
  function Report(s: Signal, delta: nat): (r: Signal)
    ensures r.None? <==> s.None?
    ensures s.Some? ==> r.value == s.value + [delta]
  {
    match s
    case None => None
    case Some(sent) => Some(sent + [delta])
  }

  /** Several reports in order. */
  function ReportAll(s: Signal, deltas: seq<nat>): Signal
  {
    match s
    case None => None
    case Some(sent) => Some(sent + deltas)
  }

  lemma ReportNothing(s: Signal)
    ensures ReportAll(s, []) == s
  {
    if s.Some? {
      assert s.value + [] == s.value;
    }
  }

  lemma ReportThenAll(s: Signal, delta: nat, deltas: seq<nat>)
    ensures ReportAll(Report(s, delta), deltas) == ReportAll(s, [delta] + deltas)
  {
    if s.Some? {
      assert s.value + [delta] + deltas == s.value + ([delta] + deltas);
    }
  }

  /** A freshly attached signal has been sent exactly what was reported. */
  lemma ReportFresh(deltas: seq<nat>)
    ensures ReportAll(Some([]), deltas) == Some(deltas)
  {
    assert [] + deltas == deltas;
  }

  /** What a counting signal (`TestIncCounter`) reads after these reports. */
  function Total(deltas: seq<nat>): nat
  {
    if deltas == [] then 0 else deltas[0] + Total(deltas[1..])
  }

  lemma {:induction false} TotalCounts(ps: seq<Piece>)
    ensures Total(Counts(ps)) == Consumed(ps)
  {
    if ps != [] {
      assert Counts(ps)[1..] == Counts(ps[1..]);
      TotalCounts(ps[1..]);
    }
  }

  /** One `Iterator::next` that yields: the record and the decoder after it. */
  datatype Step<S> = Step(record: Record, rest: S)

  /** A decoder run to exhaustion: every record, and the final decoder. */
  datatype Drained<S> = Drained(records: seq<Record>, last: S)
}
