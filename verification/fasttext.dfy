/**
  The FastText text decoder (`src/wordvector/fasttext.rs`): newline framed,
  with a vocabulary-size/dimension header line that `new` reads and
  discards. It reads lines with its own `read_until` loop and reports each
  line's raw byte count to the signal, the header's included.
 */
module FastText {
  import opened Optional
  import opened Io
  import opened WordVector

  /** `FastText<T>`: the remaining input and the optional progress signal. */
  datatype Decoder = Decoder(reader: Reader, signal: Signal)

  /** `FastText::parse`: the line decoded lossily, then the shared parse. */
  function Parse(codec: Codec, line: Bytes): (r: Record)
    ensures ParsedFrom(codec, codec.utf8Lossy(line), r)
  {
    ParseLine(codec, codec.utf8Lossy(line))
  }

  /** `FastText::read_line`: read to the next newline, report the raw count,
      drop the newline, parse. It is exactly one splitter piece, parsed,
      with that piece's byte count reported. */
  function ReadLine(ft: Decoder, codec: Codec): (o: Option<Step<Decoder>>)
    ensures o.None? <==> NextPiece(ft.reader, Newline).None?
    ensures o.Some? ==>
      var c := NextPiece(ft.reader, Newline).value;
      && o.value.record == Parse(codec, c.piece.bytes)
      && o.value.rest == Decoder(c.rest, Report(ft.signal, c.piece.consumed))
    ensures o.Some? ==> |o.value.rest.reader.data| < |ft.reader.data|
  {
    match ReadUntil(ft.reader, Newline)
    case ReadError => None
    case Read(delta, buf, rest) =>
      if delta == 0 then None
      else
        var reported := Report(ft.signal, delta);
        var line := if buf[|buf| - 1] == Newline then buf[..|buf| - 1] else buf;
        Some(Step(Parse(codec, line), Decoder(rest, reported)))
  }

  /** `FastText::new`: the first line is read (and its bytes reported) and
      dropped. */
  function New(reader: Reader, signal: Signal, codec: Codec): (ft: Decoder)
    ensures var ps := Pieces(reader, Newline);
      && Pieces(ft.reader, Newline) == (if ps == [] then [] else ps[1..])
      && ft.signal == (if ps == [] then signal else Report(signal, ps[0].consumed))
  {
    var ft := Decoder(reader, signal);
    match ReadLine(ft, codec)
    case None => ft
    case Some(header) => header.rest
  }

  /** `Iterator::next`. */
  function Next(ft: Decoder, codec: Codec): (o: Option<Step<Decoder>>)
    ensures o.None? <==> NextPiece(ft.reader, Newline).None?
    ensures o.Some? ==>
      var c := NextPiece(ft.reader, Newline).value;
      && ParsedFrom(codec, codec.utf8Lossy(c.piece.bytes), o.value.record)
      && o.value.rest == Decoder(c.rest, Report(ft.signal, c.piece.consumed))
  {
    ReadLine(ft, codec)
  }

  /** The decoder iterated until `next` returns `None`. */
  function Drain(ft: Decoder, codec: Codec): Drained<Decoder>
    decreases |ft.reader.data|
  {
    match Next(ft, codec)
    case None => Drained([], ft)
    case Some(s) =>
      var d := Drain(s.rest, codec);
      Drained([s.record] + d.records, d.last)
  }

  /** Iterating from any point yields one parsed record per remaining
      line, in order. */
  lemma {:induction false} DrainRecords(ft: Decoder, codec: Codec)
    ensures Drain(ft, codec).records == LineRecords(codec, Pieces(ft.reader, Newline))
    decreases |ft.reader.data|
  {
    match NextPiece(ft.reader, Newline)
    case None =>
    case Some(c) =>
      DrainRecords(Next(ft, codec).value.rest, codec);
      assert Pieces(ft.reader, Newline)[1..] == Pieces(c.rest, Newline);
  }

  /** Iterating from any point reports every remaining line's byte count,
      in order, and leaves the input exhausted. */
  lemma {:induction false} DrainReports(ft: Decoder, codec: Codec)
    ensures Drain(ft, codec).last.signal == ReportAll(ft.signal, Counts(Pieces(ft.reader, Newline)))
    ensures Next(Drain(ft, codec).last, codec).None?
    decreases |ft.reader.data|
  {
    match NextPiece(ft.reader, Newline)
    case None =>
      ReportNothing(ft.signal);
    case Some(c) =>
      DrainReports(Next(ft, codec).value.rest, codec);
      var ps := Pieces(ft.reader, Newline);
      assert ps[1..] == Pieces(c.rest, Newline);
      ReportThenAll(ft.signal, c.piece.consumed, Counts(ps[1..]));
  }

  /** A whole FastText input decoded: the header line is never a record,
      every later line is, in order; the records number the lines minus
      one; every line's bytes, the header's included, reach the signal,
      so an attached counter ends at the input length. */
  lemma Decode(reader: Reader, signal: Signal, codec: Codec)
    ensures Drain(New(reader, signal, codec), codec).records
      == LineRecords(codec, if Pieces(reader, Newline) == [] then [] else Pieces(reader, Newline)[1..])
    ensures |Drain(New(reader, signal, codec), codec).records|
      == if FrameCount(reader, Newline) == 0 then 0 else FrameCount(reader, Newline) - 1
    ensures Drain(New(reader, signal, codec), codec).last.signal == ReportAll(signal, Counts(Pieces(reader, Newline)))
    ensures signal == Some([]) && !reader.failing ==>
      Total(Drain(New(reader, signal, codec), codec).last.signal.value) == |reader.data|
  {
    DecodeRecords(reader, signal, codec);
    DecodeSignal(reader, signal, codec);
    if signal == Some([]) && !reader.failing {
      DecodeTotal(reader, signal, codec);
    }
  }

  lemma DecodeRecords(reader: Reader, signal: Signal, codec: Codec)
    ensures Drain(New(reader, signal, codec), codec).records
      == LineRecords(codec, if Pieces(reader, Newline) == [] then [] else Pieces(reader, Newline)[1..])
    ensures |Drain(New(reader, signal, codec), codec).records|
      == if FrameCount(reader, Newline) == 0 then 0 else FrameCount(reader, Newline) - 1
  {
    DrainRecords(New(reader, signal, codec), codec);
    PiecesCount(reader, Newline);
  }

  lemma DecodeSignal(reader: Reader, signal: Signal, codec: Codec)
    ensures Drain(New(reader, signal, codec), codec).last.signal == ReportAll(signal, Counts(Pieces(reader, Newline)))
  {
    var ps := Pieces(reader, Newline);
    var ft := New(reader, signal, codec);
    DrainReports(ft, codec);
    if ps != [] {
      assert Pieces(ft.reader, Newline) == ps[1..] && ft.signal == Report(signal, ps[0].consumed);
      assert Counts(ps) == [ps[0].consumed] + Counts(ps[1..]);
      ReportThenAll(signal, ps[0].consumed, Counts(ps[1..]));
    }
  }

  lemma DecodeTotal(reader: Reader, signal: Signal, codec: Codec)
    requires !reader.failing && signal == Some([])
    ensures Drain(New(reader, signal, codec), codec).last.signal.Some?
    ensures Total(Drain(New(reader, signal, codec), codec).last.signal.value) == |reader.data|
  {
    var ps := Pieces(reader, Newline);
    DecodeSignal(reader, signal, codec);
    ReportFresh(Counts(ps));
    TotalCounts(ps);
    PiecesTotal(reader, Newline);
  }

  /** The signal only observes: with or without one attached, the decoded
      records are the same. */
  lemma SignalIsObserver(reader: Reader, sent: seq<nat>, codec: Codec)
    ensures Drain(New(reader, None, codec), codec).records == Drain(New(reader, Some(sent), codec), codec).records
    ensures Drain(New(reader, None, codec), codec).last.signal == None
  {
    Decode(reader, None, codec);
    Decode(reader, Some(sent), codec);
  }
}
