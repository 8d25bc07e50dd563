/**
  `DataIterator::make_vec` (`src/wordvector/dataiterator.rs`): each declared
  file becomes a decoder tagged with its kind name and the file's byte
  length, unless its format is unknown or the file cannot be opened.
  Opening a path is an oracle: the reader over the file's bytes, or `None`
  when `File::open` fails.
 */
module DataIterator {
  import opened Optional
  import opened Io
  import opened WordVector
  import opened WordVectorIter
  import FastText
  import Glove
  import Word2Vec
  import Gensim

  /** `File::open`, from a path to a reader over the file's bytes. */
  type FileSystem = string -> Option<Reader>

  /** `DataIterator`: the kind name, the progress maximum, the records. */
  datatype DataIterator = DataIterator(kind: string, max: nat, iter: Iter)

  /** The kind name each format is stored under. */
  function KindName(file: VectorFile): string
  {
    match file
    case FastTextFile(_) => "fasttext"
    case GloveFile(_) => "glove"
    case Word2VecFile(_) => "word2vec"
    case GensimFile(_) => "gensim"
    case Unknown => ""
  }

  /** The decoder a format tag selects, built over an opened reader. All
      decoders share one progress signal; each is given a log of what it
      itself sends to it, starting empty (Gensim takes none). Since the
      decoders are built, then drained, one after another, the shared
      channel receives these logs in that order. */
  function Build(file: VectorFile, reader: Reader, codec: Codec): Decoder
    requires !file.Unknown?
  {
    match file
    case FastTextFile(_) => FastTextDecoder(FastText.New(reader, Some([]), codec))
    case GloveFile(_) => GloveDecoder(Glove.New(reader, Some([])))
    case Word2VecFile(_) => Word2VecDecoder(Word2Vec.New(reader, Some([]), codec))
    case GensimFile(_) => GensimDecoder(Gensim.New(reader))
  }

  /** What a decoder has sent to the shared signal so far. */
  function Sent(d: Decoder): seq<nat>
  {
    match d
    case FastTextDecoder(ft) => ft.signal.GetOr([])
    case GloveDecoder(g) => g.signal.GetOr([])
    case Word2VecDecoder(w) => w.signal.GetOr([])
    case GensimDecoder(_) => []
  }

  /** The byte count of a file's first line, if it has one. */
  function HeaderSent(reader: Reader): (sent: seq<nat>)
    ensures Pieces(reader, Newline) == [] <==> sent == []
    ensures sent != [] ==> sent == [Pieces(reader, Newline)[0].consumed]
  {
    var ps := Pieces(reader, Newline);
    if ps == [] then [] else [ps[0].consumed]
  }

  /** Building a decoder already talks to the signal: `FastText::new` and
      `Word2Vec::new` read the header line and send its byte count (when
      the file has a line at all); GloVe and Gensim send nothing. */
  lemma BuildSends(file: VectorFile, reader: Reader, codec: Codec)
    requires !file.Unknown?
    ensures Sent(Build(file, reader, codec))
      == if file.FastTextFile? || file.Word2VecFile? then HeaderSent(reader) else []
  {
    match file
    case FastTextFile(_) =>
      FreshHeader(reader);
      assert Build(file, reader, codec) == FastTextDecoder(FastText.New(reader, Some([]), codec));
    case Word2VecFile(_) =>
      FreshHeader(reader);
      assert Build(file, reader, codec) == Word2VecDecoder(Word2Vec.New(reader, Some([]), codec));
    case GloveFile(_) =>
      assert Build(file, reader, codec) == GloveDecoder(Glove.New(reader, Some([])));
    case GensimFile(_) =>
  }

  /** A fresh log after the header step holds just the header's count. */
  lemma FreshHeader(reader: Reader)
    ensures var ps := Pieces(reader, Newline);
      (if ps == [] then Some([]) else Report(Some([]), ps[0].consumed)) == Some(HeaderSent(reader))
  {
    var ps := Pieces(reader, Newline);
    if ps != [] {
      assert [] + [ps[0].consumed] == [ps[0].consumed];
    }
  }

  /** The byte counts the entries sent while `make_vec` built them, in
      entry order: everything that reaches the signal before `init`. */
  function BuildReports(its: seq<DataIterator>): (sent: seq<nat>)
    ensures its == [] ==> sent == []
  {
    if its == [] then [] else Sent(its[0].iter.decoder) + BuildReports(its[1..])
  }

  /** One entry of `make_vec` (the `file_iterator!` macro and its match):
      `None` for `Unknown` and for a file that fails to open; otherwise the
      kind name of the format, the file's length, and its decoder behind a
      uniquely owned handle. */
  function Open(fs: FileSystem, file: VectorFile, codec: Codec): (o: Option<DataIterator>)
    ensures file.Unknown? ==> o.None?
    ensures !file.Unknown? ==> (o.None? <==> fs(file.path).None?)
    ensures o.Some? ==>
      && o.value.kind == KindName(file)
      && o.value.max == |fs(file.path).value.data|
      && o.value.iter == IntoIter(Build(file, fs(file.path).value, codec))
  {
    if file.Unknown? then None
    else
      match fs(file.path)
      case None => None
      case Some(reader) => Some(DataIterator(KindName(file), |reader.data|, IntoIter(Build(file, reader, codec))))
  }

  /** `DataIterator::make_vec`: the entries that open, in input order. */
  function MakeVec(fs: FileSystem, files: seq<VectorFile>, codec: Codec): (its: seq<DataIterator>)
    ensures |its| <= |files|
  {
    if files == [] then []
    else
      var head := match Open(fs, files[0], codec) case None => [] case Some(it) => [it];
      head + MakeVec(fs, files[1..], codec)
  }

  /** The kind names a known format maps to are the four distinct tags. */
  lemma KindNamesDistinct(a: VectorFile, b: VectorFile)
    requires !a.Unknown? && !b.Unknown?
    ensures KindName(a) == KindName(b) <==> (a.FastTextFile? == b.FastTextFile? && a.GloveFile? == b.GloveFile? && a.Word2VecFile? == b.Word2VecFile?)
  {
  }

  /** Order is kept: the entries of a concatenation are the entries of each
      part, in turn. */
  lemma {:induction false} MakeVecAppend(fs: FileSystem, a: seq<VectorFile>, b: seq<VectorFile>, codec: Codec)
    ensures MakeVec(fs, a + b, codec) == MakeVec(fs, a, codec) + MakeVec(fs, b, codec)
  {
    if a == [] {
      assert a + b == b;
    } else {
      assert (a + b)[1..] == a[1..] + b;
      MakeVecAppend(fs, a[1..], b, codec);
    }
  }

  /** When every entry is a known format whose file opens, none is dropped
      and entry `i` is file `i`'s decoder. */
  lemma {:induction false} MakeVecAllOpen(fs: FileSystem, files: seq<VectorFile>, codec: Codec)
    requires forall i :: 0 <= i < |files| ==> !files[i].Unknown? && fs(files[i].path).Some?
    ensures |MakeVec(fs, files, codec)| == |files|
    ensures forall i :: 0 <= i < |files| ==> Open(fs, files[i], codec) == Some(MakeVec(fs, files, codec)[i])
  {
    if files != [] {
      var its := MakeVec(fs, files, codec);
      var rest := MakeVec(fs, files[1..], codec);
      MakeVecAllOpen(fs, files[1..], codec);
      MakeVecCons(fs, files, codec);
      ShiftAll(file => Open(fs, file, codec), files, Open(fs, files[0], codec).value, rest);
    }
  }

  /** Index bookkeeping for a sequence built head-first. */
  lemma ShiftAll<A, B>(f: A -> Option<B>, xs: seq<A>, first: B, rest: seq<B>)
    requires xs != [] && f(xs[0]) == Some(first) && |rest| == |xs| - 1
    requires forall i :: 0 <= i < |rest| ==> f(xs[1..][i]) == Some(rest[i])
    ensures forall i :: 0 <= i < |xs| ==> f(xs[i]) == Some(([first] + rest)[i])
  {
    forall i | 0 < i < |xs|
      ensures f(xs[i]) == Some(([first] + rest)[i])
    {
      assert xs[i] == xs[1..][i - 1] && ([first] + rest)[i] == rest[i - 1];
    }
  }

  lemma MakeVecCons(fs: FileSystem, files: seq<VectorFile>, codec: Codec)
    requires files != [] && Open(fs, files[0], codec).Some?
    ensures MakeVec(fs, files, codec) == [Open(fs, files[0], codec).value] + MakeVec(fs, files[1..], codec)
  {
  }

  /** Unknown entries and entries whose file fails to open are dropped
      without trace: removing them changes nothing. */
  lemma {:induction false} MakeVecDropsFailures(fs: FileSystem, a: seq<VectorFile>, file: VectorFile, b: seq<VectorFile>, codec: Codec)
    requires file.Unknown? || fs(file.path).None?
    ensures MakeVec(fs, a + [file] + b, codec) == MakeVec(fs, a + b, codec)
  {
    var none := MakeVec(fs, [file], codec);
    assert none == [] by {
      assert Open(fs, file, codec).None?;
      assert [file][1..] == [];
      assert MakeVec(fs, [], codec) == [];
    }
    MakeVecAppend(fs, a + [file], b, codec);
    MakeVecAppend(fs, a, [file], codec);
    MakeVecAppend(fs, a, b, codec);
    calc {
      MakeVec(fs, a + [file] + b, codec);
      MakeVec(fs, a + [file], codec) + MakeVec(fs, b, codec);
      MakeVec(fs, a, codec) + none + MakeVec(fs, b, codec);
      { assert MakeVec(fs, a, codec) + [] == MakeVec(fs, a, codec); }
      MakeVec(fs, a, codec) + MakeVec(fs, b, codec);
    }
  }
}
