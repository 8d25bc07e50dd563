/**
  `wordvector::Iter` (`src/wordvector/mod.rs`): the four decoders behind one
  iterator handle. The source erases the decoder type behind an `Rc`; the
  model keeps the closed union of decoders and whether the handle is
  shared, since `Rc::get_mut` only reaches a uniquely owned decoder.
 */
module WordVectorIter {
  import opened Optional
  import opened Io
  import opened WordVector
  import FastText
  import Glove
  import Word2Vec
  import Gensim

  datatype Decoder =
    | FastTextDecoder(fasttext: FastText.Decoder)
    | GloveDecoder(glove: Glove.Decoder)
    | Word2VecDecoder(word2vec: Word2Vec.Decoder)
    | GensimDecoder(gensim: Gensim.Decoder)

  /** Bytes the decoder has not read yet. */
  function Remaining(d: Decoder): nat
  {
    match d
    case FastTextDecoder(ft) => |ft.reader.data|
    case GloveDecoder(g) => |g.lines.reader.data|
    case Word2VecDecoder(w) => |w.lines.reader.data|
    case GensimDecoder(g) => |g.reader.data|
  }

  /** The wrapped decoder's own `next`, re-wrapped. */
  function DecoderNext(d: Decoder, codec: Codec): (o: Option<Step<Decoder>>)
    ensures o.Some? ==> Remaining(o.value.rest) < Remaining(d)
  {
    match d
    case FastTextDecoder(ft) =>
      (match FastText.Next(ft, codec)
       case None => None
       case Some(s) => Some(Step(s.record, FastTextDecoder(s.rest))))
    case GloveDecoder(g) =>
      (match Glove.Next(g, codec)
       case None => None
       case Some(s) => Some(Step(s.record, GloveDecoder(s.rest))))
    case Word2VecDecoder(w) =>
      (match Word2Vec.Next(w, codec)
       case None => None
       case Some(s) => Some(Step(s.record, Word2VecDecoder(s.rest))))
    case GensimDecoder(g) =>
      (match Gensim.Next(g, codec)
       case None => None
       case Some(s) => Some(Step(s.record, GensimDecoder(s.rest))))
  }

  /** `Iter { iter: Rc<Iterator<Item = Record>> }`; `shared` is whether
      another `Rc` to the decoder exists. */
  datatype Iter = Iter(decoder: Decoder, shared: bool)

  /** `into_iter`: the decoder moved into a fresh `Rc`, which it alone
      owns. */
  function IntoIter(d: Decoder): (it: Iter)
    ensures it.decoder == d && !it.shared
  {
    Iter(d, false)
  }

  /** `Iter::next`: delegates to the decoder while the handle is uniquely
      owned, and yields `None` otherwise. */
  function Next(it: Iter, codec: Codec): (o: Option<Step<Iter>>)
    ensures it.shared ==> o.None?
    ensures !it.shared ==> (o.None? <==> DecoderNext(it.decoder, codec).None?)
    ensures o.Some? ==>
      && o.value.record == DecoderNext(it.decoder, codec).value.record
      && o.value.rest == Iter(DecoderNext(it.decoder, codec).value.rest, false)
  {
    if it.shared then None
    else
      match DecoderNext(it.decoder, codec)
      case None => None
      case Some(s) => Some(Step(s.record, Iter(s.rest, false)))
  }

  /** The handle iterated until `next` returns `None` (`Iterator::count`,
      `last`, or a `for` loop). */
  function Drain(it: Iter, codec: Codec): Drained<Iter>
    decreases Remaining(it.decoder)
  {
    match Next(it, codec)
    case None => Drained([], it)
    case Some(s) =>
      var d := Drain(s.rest, codec);
      Drained([s.record] + d.records, d.last)
  }

  /** Through a uniquely owned handle, a FastText decoder yields exactly
      its own records and reports exactly its own byte counts. */
  lemma {:induction false} DelegatesFastText(ft: FastText.Decoder, codec: Codec)
    ensures Drain(IntoIter(FastTextDecoder(ft)), codec).records == FastText.Drain(ft, codec).records
    ensures Drain(IntoIter(FastTextDecoder(ft)), codec).last == IntoIter(FastTextDecoder(FastText.Drain(ft, codec).last))
    decreases |ft.reader.data|
  {
    match FastText.Next(ft, codec)
    case None =>
    case Some(s) =>
      assert Next(IntoIter(FastTextDecoder(ft)), codec) == Some(Step(s.record, IntoIter(FastTextDecoder(s.rest))));
      DelegatesFastText(s.rest, codec);
  }

  /** Through a uniquely owned handle, a GloVe decoder yields exactly its own
      records and reports exactly its own byte counts. */
  lemma {:induction false} DelegatesGlove(g: Glove.Decoder, codec: Codec)
    ensures Drain(IntoIter(GloveDecoder(g)), codec).records == Glove.Drain(g, codec).records
    ensures Drain(IntoIter(GloveDecoder(g)), codec).last == IntoIter(GloveDecoder(Glove.Drain(g, codec).last))
    decreases |g.lines.reader.data|
  {
    match Glove.Next(g, codec)
    case None =>
    case Some(s) =>
      assert Next(IntoIter(GloveDecoder(g)), codec) == Some(Step(s.record, IntoIter(GloveDecoder(s.rest))));
      DelegatesGlove(s.rest, codec);
  }

  /** Through a uniquely owned handle, a Word2Vec decoder yields exactly its
      own records and reports exactly its own byte counts. */
  lemma {:induction false} DelegatesWord2Vec(w: Word2Vec.Decoder, codec: Codec)
    ensures Drain(IntoIter(Word2VecDecoder(w)), codec).records == Word2Vec.Drain(w, codec).records
    ensures Drain(IntoIter(Word2VecDecoder(w)), codec).last == IntoIter(Word2VecDecoder(Word2Vec.Drain(w, codec).last))
    decreases |w.lines.reader.data|
  {
    match Word2Vec.Next(w, codec)
    case None =>
    case Some(s) =>
      assert Next(IntoIter(Word2VecDecoder(w)), codec) == Some(Step(s.record, IntoIter(Word2VecDecoder(s.rest))));
      DelegatesWord2Vec(s.rest, codec);
  }

  /** Through a uniquely owned handle, a Gensim decoder yields exactly its
      own records. */
  lemma {:induction false} DelegatesGensim(g: Gensim.Decoder, codec: Codec)
    ensures Drain(IntoIter(GensimDecoder(g)), codec).records == Gensim.Drain(g, codec).records
    ensures Drain(IntoIter(GensimDecoder(g)), codec).last == IntoIter(GensimDecoder(Gensim.Drain(g, codec).last))
    decreases |g.reader.data|
  {
    match Gensim.Next(g, codec)
    case None =>
    case Some(s) =>
      assert Next(IntoIter(GensimDecoder(g)), codec) == Some(Step(s.record, IntoIter(GensimDecoder(s.rest))));
      DelegatesGensim(s.rest, codec);
  }

  /** A shared handle yields nothing and stays as it is. */
  lemma SharedYieldsNothing(d: Decoder, codec: Codec)
    ensures Drain(Iter(d, true), codec) == Drained([], Iter(d, true))
  {
  }

  /** Draining leaves a handle whose `next` yields nothing. */
  lemma {:induction false} DrainEnds(it: Iter, codec: Codec)
    ensures Next(Drain(it, codec).last, codec).None?
    decreases Remaining(it.decoder)
  {
    match Next(it, codec)
    case None =>
    case Some(s) =>
      DrainEnds(s.rest, codec);
  }
}
