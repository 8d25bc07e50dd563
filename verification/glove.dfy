/**
  The GloVe text decoder (`src/wordvector/glove.rs`): newline framed by the
  shared splitter, with no header, each line's raw byte count reported to
  the signal before the line is parsed.
 */
module Glove {
  import opened Optional
  import opened Io
  import opened WordVector

  /** `Glove<T>`: the newline splitter and the optional progress signal. */
  datatype Decoder = Decoder(lines: Splitter, signal: Signal)

  /** `Glove::new`: no header is read. */
  function New(reader: Reader, signal: Signal): (g: Decoder)
    ensures g.lines.reader == reader && g.lines.delimiter == Newline
    ensures g.signal == signal
  {
    Decoder(Splitter(reader, Newline), signal)
  }

  /** `Glove::parse`. */
  function Parse(codec: Codec, line: string): (r: Record)
    ensures ParsedFrom(codec, line, r)
  {
    ParseLine(codec, line)
  }

  /** `Iterator::next`: ends exactly when the splitter ends; otherwise the
      piece's byte count is reported once and the piece parsed. */
  function Next(g: Decoder, codec: Codec): (o: Option<Step<Decoder>>)
    ensures o.None? <==> NextPiece(g.lines.reader, g.lines.delimiter).None?
    ensures o.Some? ==>
      var c := NextPiece(g.lines.reader, g.lines.delimiter).value;
      && o.value.record == ParseLine(codec, codec.utf8Lossy(c.piece.bytes))
      && o.value.rest == Decoder(Splitter(c.rest, g.lines.delimiter), Report(g.signal, c.piece.consumed))
    ensures o.Some? ==> |o.value.rest.lines.reader.data| < |g.lines.reader.data|
  {
    match ReadLine(g.lines, codec.utf8Lossy)
    case None => None
    case Some(line) =>
      var reported := Report(g.signal, line.consumed);
      Some(Step(Parse(codec, line.text), Decoder(line.rest, reported)))
  }

  /** The decoder iterated until `next` returns `None`. */
  function Drain(g: Decoder, codec: Codec): Drained<Decoder>
    decreases |g.lines.reader.data|
  {
    match Next(g, codec)
    case None => Drained([], g)
    case Some(s) =>
      var d := Drain(s.rest, codec);
      Drained([s.record] + d.records, d.last)
  }

  /** Iterating yields one parsed record per remaining piece, in order. */
  lemma {:induction false} DrainRecords(g: Decoder, codec: Codec)
    ensures Drain(g, codec).records == LineRecords(codec, Pieces(g.lines.reader, g.lines.delimiter))
    decreases |g.lines.reader.data|
  {
    match NextPiece(g.lines.reader, g.lines.delimiter)
    case None =>
    case Some(c) =>
      DrainRecords(Next(g, codec).value.rest, codec);
      assert Pieces(g.lines.reader, g.lines.delimiter)[1..] == Pieces(c.rest, g.lines.delimiter);
  }

  /** Iterating reports each remaining piece's byte count exactly once, in
      order, and leaves the input exhausted. */
  lemma {:induction false} DrainReports(g: Decoder, codec: Codec)
    ensures Drain(g, codec).last.signal == ReportAll(g.signal, Counts(Pieces(g.lines.reader, g.lines.delimiter)))
    ensures Next(Drain(g, codec).last, codec).None?
    decreases |g.lines.reader.data|
  {
    match NextPiece(g.lines.reader, g.lines.delimiter)
    case None =>
      ReportNothing(g.signal);
    case Some(c) =>
      DrainReports(Next(g, codec).value.rest, codec);
      var ps := Pieces(g.lines.reader, g.lines.delimiter);
      assert ps[1..] == Pieces(c.rest, g.lines.delimiter);
      ReportThenAll(g.signal, c.piece.consumed, Counts(ps[1..]));
  }

  /** A whole GloVe input decoded: the first line is the first record and
      every line is one, in order; the records number the splitter's
      pieces; an attached counter ends at the input length. */
  lemma Decode(reader: Reader, signal: Signal, codec: Codec)
    ensures Drain(New(reader, signal), codec).records == LineRecords(codec, Pieces(reader, Newline))
    ensures |Drain(New(reader, signal), codec).records| == FrameCount(reader, Newline)
    ensures Drain(New(reader, signal), codec).last.signal == ReportAll(signal, Counts(Pieces(reader, Newline)))
    ensures signal == Some([]) && !reader.failing ==>
      Total(Drain(New(reader, signal), codec).last.signal.value) == |reader.data|
  {
    var g := New(reader, signal);
    var ps := Pieces(reader, Newline);
    DrainRecords(g, codec);
    DrainReports(g, codec);
    PiecesCount(reader, Newline);
    PiecesTotal(reader, Newline);
    TotalCounts(ps);
    if signal == Some([]) {
      assert [] + Counts(ps) == Counts(ps);
    }
  }

  /** The signal only observes: with or without one attached, the decoded
      records are the same. */
  lemma SignalIsObserver(reader: Reader, sent: seq<nat>, codec: Codec)
    ensures Drain(New(reader, None), codec).records == Drain(New(reader, Some(sent)), codec).records
    ensures Drain(New(reader, None), codec).last.signal == None
  {
    Decode(reader, None, codec);
    Decode(reader, Some(sent), codec);
  }
}
