/**
  The Word2Vec text decoder (`src/wordvector/word2vec.rs`): newline framed
  by the shared splitter (the `io::Pieces` it names is `IteratorWithSignal`
  of `src/io.rs`), with a header line that `new` skips after reporting its
  byte count.
 */
module Word2Vec {
  import opened Optional
  import opened Io
  import opened WordVector

  /** `Word2Vec<T>`: the newline splitter and the optional progress signal. */
  datatype Decoder = Decoder(lines: Splitter, signal: Signal)

  /** `Word2Vec::new`: the first piece, if any, is skipped and its byte
      count reported. */
  function New(reader: Reader, signal: Signal, codec: Codec): (w: Decoder)
    ensures w.lines.delimiter == Newline
    ensures var ps := Pieces(reader, Newline);
      && Pieces(w.lines.reader, Newline) == (if ps == [] then [] else ps[1..])
      && w.signal == (if ps == [] then signal else Report(signal, ps[0].consumed))
  {
    var lines := Splitter(reader, Newline);
    match ReadLine(lines, codec.utf8Lossy)
    case None => Decoder(lines, signal)
    case Some(header) => Decoder(header.rest, Report(signal, header.consumed))
  }

  /** `Word2Vec::parse`. */
  function Parse(codec: Codec, line: string): (r: Record)
    ensures ParsedFrom(codec, line, r)
  {
    ParseLine(codec, line)
  }

  /** `Iterator::next`: ends when the splitter ends; otherwise reports the
      piece's byte count and parses it. */
  function Next(w: Decoder, codec: Codec): (o: Option<Step<Decoder>>)
    ensures o.None? <==> NextPiece(w.lines.reader, w.lines.delimiter).None?
    ensures o.Some? ==>
      var c := NextPiece(w.lines.reader, w.lines.delimiter).value;
      && o.value.record == ParseLine(codec, codec.utf8Lossy(c.piece.bytes))
      && o.value.rest == Decoder(Splitter(c.rest, w.lines.delimiter), Report(w.signal, c.piece.consumed))
    ensures o.Some? ==> |o.value.rest.lines.reader.data| < |w.lines.reader.data|
  {
    match ReadLine(w.lines, codec.utf8Lossy)
    case None => None
    case Some(line) =>
      var reported := Report(w.signal, line.consumed);
      Some(Step(Parse(codec, line.text), Decoder(line.rest, reported)))
  }

  /** The decoder iterated until `next` returns `None`. */
  function Drain(w: Decoder, codec: Codec): Drained<Decoder>
    decreases |w.lines.reader.data|
  {
    match Next(w, codec)
    case None => Drained([], w)
    case Some(s) =>
      var d := Drain(s.rest, codec);
      Drained([s.record] + d.records, d.last)
  }

  /** Iterating yields one parsed record per remaining piece, in order. */
  lemma {:induction false} DrainRecords(w: Decoder, codec: Codec)
    ensures Drain(w, codec).records == LineRecords(codec, Pieces(w.lines.reader, w.lines.delimiter))
    decreases |w.lines.reader.data|
  {
    match NextPiece(w.lines.reader, w.lines.delimiter)
    case None =>
    case Some(c) =>
      DrainRecords(Next(w, codec).value.rest, codec);
      assert Pieces(w.lines.reader, w.lines.delimiter)[1..] == Pieces(c.rest, w.lines.delimiter);
  }

  /** Iterating reports each remaining piece's byte count, in order, and
      leaves the input exhausted. */
  lemma {:induction false} DrainReports(w: Decoder, codec: Codec)
    ensures Drain(w, codec).last.signal == ReportAll(w.signal, Counts(Pieces(w.lines.reader, w.lines.delimiter)))
    ensures Next(Drain(w, codec).last, codec).None?
    decreases |w.lines.reader.data|
  {
    match NextPiece(w.lines.reader, w.lines.delimiter)
    case None =>
      ReportNothing(w.signal);
    case Some(c) =>
      DrainReports(Next(w, codec).value.rest, codec);
      var ps := Pieces(w.lines.reader, w.lines.delimiter);
      assert ps[1..] == Pieces(c.rest, w.lines.delimiter);
      ReportThenAll(w.signal, c.piece.consumed, Counts(ps[1..]));
  }

  /** A whole Word2Vec input decoded: the header line is never a record,
      every later line is, in order; the records number the lines minus
      one; the header's bytes are reported with the rest, so an attached
      counter ends at the input length. */
  lemma Decode(reader: Reader, signal: Signal, codec: Codec)
    ensures Drain(New(reader, signal, codec), codec).records
      == LineRecords(codec, if Pieces(reader, Newline) == [] then [] else Pieces(reader, Newline)[1..])
    ensures |Drain(New(reader, signal, codec), codec).records|
      == if FrameCount(reader, Newline) == 0 then 0 else FrameCount(reader, Newline) - 1
    ensures Drain(New(reader, signal, codec), codec).last.signal == ReportAll(signal, Counts(Pieces(reader, Newline)))
    ensures signal == Some([]) && !reader.failing ==>
      Total(Drain(New(reader, signal, codec), codec).last.signal.value) == |reader.data|
  {
    DecodeRecords(reader, signal, codec);
    DecodeSignal(reader, signal, codec);
    if signal == Some([]) && !reader.failing {
      DecodeTotal(reader, signal, codec);
    }
  }

  lemma DecodeRecords(reader: Reader, signal: Signal, codec: Codec)
    ensures Drain(New(reader, signal, codec), codec).records
      == LineRecords(codec, if Pieces(reader, Newline) == [] then [] else Pieces(reader, Newline)[1..])
    ensures |Drain(New(reader, signal, codec), codec).records|
      == if FrameCount(reader, Newline) == 0 then 0 else FrameCount(reader, Newline) - 1
  {
    DrainRecords(New(reader, signal, codec), codec);
    PiecesCount(reader, Newline);
  }

  lemma DecodeSignal(reader: Reader, signal: Signal, codec: Codec)
    ensures Drain(New(reader, signal, codec), codec).last.signal == ReportAll(signal, Counts(Pieces(reader, Newline)))
  {
    var ps := Pieces(reader, Newline);
    var w := New(reader, signal, codec);
    DrainReports(w, codec);
    if ps != [] {
      assert Pieces(w.lines.reader, Newline) == ps[1..] && w.signal == Report(signal, ps[0].consumed);
      assert Counts(ps) == [ps[0].consumed] + Counts(ps[1..]);
      ReportThenAll(signal, ps[0].consumed, Counts(ps[1..]));
    }
  }

  lemma DecodeTotal(reader: Reader, signal: Signal, codec: Codec)
    requires !reader.failing && signal == Some([])
    ensures Drain(New(reader, signal, codec), codec).last.signal.Some?
    ensures Total(Drain(New(reader, signal, codec), codec).last.signal.value) == |reader.data|
  {
    var ps := Pieces(reader, Newline);
    DecodeSignal(reader, signal, codec);
    ReportFresh(Counts(ps));
    TotalCounts(ps);
    PiecesTotal(reader, Newline);
  }

  /** The signal only observes: with or without one attached, the decoded
      records are the same. */
  lemma SignalIsObserver(reader: Reader, sent: seq<nat>, codec: Codec)
    ensures Drain(New(reader, None, codec), codec).records == Drain(New(reader, Some(sent), codec), codec).records
    ensures Drain(New(reader, None, codec), codec).last.signal == None
  {
    Decode(reader, None, codec);
    Decode(reader, Some(sent), codec);
  }
}
