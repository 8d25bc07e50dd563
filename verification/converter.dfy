/**
  `Converter::convert` (`src/converter.rs`): create the source's kind, then
  for each record create its word and store its weights under that word
  and kind. Every store failure is swallowed and `convert` always returns
  `Ok(())`.
 */
module Converter {
  import opened Optional
  import opened WordVector
  import opened WordVectorIter
  import opened DataIterator
  import opened Storage
  import Named
  import Vectors

  /** `Result<(), String>`. */
  datatype Outcome = Ok | Err(message: string)

  /** What `convert` returns, with the store and the source after it. */
  datatype Converted = Converted(outcome: Outcome, db: Db, source: DataIterator)

  /** The number of weights over all the records: how many vector rows
      `from_vec` makes for them together. */
  function Weights(records: seq<Record>): nat
  {
    if records == [] then 0 else |records[0].vec| + Weights(records[1..])
  }

  /** The loop body: `create_word`, then, if a word came back,
      `add_vectors(from_vec(word, kind, record.vec))`. Old vector rows are
      kept and kinds are untouched; when no call fails the word is in the
      table afterwards and one row per weight is added. */
  function Store(db: Db, faults: Faults, kind: Row, record: Record): (db': Db)
    ensures db'.kinds == db.kinds
    ensures db.vectors <= db'.vectors
    ensures var w := Named.Create(db, faults, Named.Words, record.word);
      && (w.value.None? ==> db'.vectors == db.vectors)
      && (w.value.Some? && !faults(w.db.calls) ==>
            db'.vectors == db.vectors + Vectors.FromVec(w.value.value, kind, record.vec))
      && (w.value.Some? && faults(w.db.calls) ==> db'.vectors == db.vectors)
    ensures Valid(db) ==> Valid(db')
    ensures Linked(db) && kind.id in Ids(db.kinds.rows) ==> Linked(db')
    ensures Reliable(faults) ==> record.word in Names(db'.words.rows)
    ensures Reliable(faults) ==> |db'.vectors| == |db.vectors| + |record.vec|
  {
    var w := Named.Create(db, faults, Named.Words, record.word);
    match w.value
    case None =>
      LinkedGrow(db, w.db);
      w.db
    case Some(word) =>
      var added := Vectors.AddVectors(w.db, faults, Vectors.FromVec(word, kind, record.vec)).db;
      StoreLinked(db, w.db, added, word, kind, record.vec);
      added
  }

  /** Adding word rows orphans nothing. */
  lemma LinkedGrow(db: Db, db': Db)
    requires db'.kinds == db.kinds && db'.vectors == db.vectors
    requires db.words.rows <= db'.words.rows
    ensures Linked(db) ==> Linked(db')
  {
    IdsGrow(db.words.rows, db'.words.rows[|db.words.rows|..]);
    assert db.words.rows + db'.words.rows[|db.words.rows|..] == db'.words.rows;
  }

  lemma StoreLinked(db: Db, mid: Db, db': Db, word: Row, kind: Row, points: seq<Weight>)
    requires mid.kinds == db.kinds && mid.vectors == db.vectors
    requires db.words.rows <= mid.words.rows
    requires word in mid.words.rows
    requires db'.kinds == mid.kinds && db'.words == mid.words
    requires db'.vectors == mid.vectors || db'.vectors == mid.vectors + Vectors.FromVec(word, kind, points)
    ensures Linked(db) && kind.id in Ids(db.kinds.rows) ==> Linked(db')
  {
    if Linked(db) && kind.id in Ids(db.kinds.rows) {
      LinkedGrow(db, mid);
      var k :| 0 <= k < |mid.words.rows| && mid.words.rows[k] == word;
      assert word.id in Ids(mid.words.rows);
    }
  }

  /** The records stored one after another. */
  function StoreAll(db: Db, faults: Faults, kind: Row, records: seq<Record>): Db
    decreases |records|
  {
    if records == [] then db else StoreAll(Store(db, faults, kind, records[0]), faults, kind, records[1..])
  }

  /** Storing a run of records keeps the kinds table and every earlier
      vector row, and keeps the store valid and free of orphans. */
  lemma {:induction false} StoreAllKeeps(db: Db, faults: Faults, kind: Row, records: seq<Record>)
    ensures StoreAll(db, faults, kind, records).kinds == db.kinds
    ensures db.vectors <= StoreAll(db, faults, kind, records).vectors
    ensures Valid(db) ==> Valid(StoreAll(db, faults, kind, records))
    ensures Linked(db) && kind.id in Ids(db.kinds.rows) ==> Linked(StoreAll(db, faults, kind, records))
    decreases |records|
  {
    if records != [] {
      StoreAllKeeps(Store(db, faults, kind, records[0]), faults, kind, records[1..]);
    }
  }

  /** When no call fails, every record's word ends up in the words table
      and every weight of every record gets its own vector row. */
  lemma {:induction false} StoreAllReliable(db: Db, faults: Faults, kind: Row, records: seq<Record>)
    requires Reliable(faults)
    ensures forall i :: 0 <= i < |records| ==> records[i].word in Names(StoreAll(db, faults, kind, records).words.rows)
    ensures |StoreAll(db, faults, kind, records).vectors| == |db.vectors| + Weights(records)
    decreases |records|
  {
    if records != [] {
      var next := Store(db, faults, kind, records[0]);
      var last := StoreAll(db, faults, kind, records);
      assert last == StoreAll(next, faults, kind, records[1..]);
      StoreAllReliable(next, faults, kind, records[1..]);
      assert |next.vectors| == |db.vectors| + |records[0].vec|;
      assert records[0].word in Names(last.words.rows) by {
        assert records[0].word in Names(next.words.rows);
        WordsKept(next, faults, kind, records[1..]);
      }
      forall i | 0 <= i < |records|
        ensures records[i].word in Names(last.words.rows)
      {
        if i > 0 {
          assert records[i] == records[1..][i - 1];
        }
      }
    }
  }

  /** Words are only ever added, so a name present stays present. */
  lemma {:induction false} WordsKept(db: Db, faults: Faults, kind: Row, records: seq<Record>)
    ensures db.words.rows <= StoreAll(db, faults, kind, records).words.rows
    ensures forall n :: n in Names(db.words.rows) ==> n in Names(StoreAll(db, faults, kind, records).words.rows)
    decreases |records|
  {
    if records != [] {
      var next := Store(db, faults, kind, records[0]);
      WordsKept(next, faults, kind, records[1..]);
    }
    var rows := db.words.rows;
    var rows' := StoreAll(db, faults, kind, records).words.rows;
    forall n | n in Names(rows)
      ensures n in Names(rows')
    {
      var i :| 0 <= i < |rows| && Names(rows)[i] == n;
      assert Names(rows')[i] == n;
    }
  }

  /** The result of the `for` loop: the store and the exhausted iterator. */
  datatype Ingested = Ingested(db: Db, iter: Iter)

  /** `for record in data_iterator.iter() { .. }`. */
  function Ingest(db: Db, faults: Faults, kind: Row, it: Iter, codec: Codec): Ingested
    decreases Remaining(it.decoder)
  {
    match WordVectorIter.Next(it, codec)
    case None => Ingested(db, it)
    case Some(s) => Ingest(Store(db, faults, kind, s.record), faults, kind, s.rest, codec)
  }

  /** The loop stores exactly the records the iterator yields, in order,
      and leaves the iterator drained. */
  lemma {:induction false} IngestStoresDrained(db: Db, faults: Faults, kind: Row, it: Iter, codec: Codec)
    ensures Ingest(db, faults, kind, it, codec).db == StoreAll(db, faults, kind, WordVectorIter.Drain(it, codec).records)
    ensures Ingest(db, faults, kind, it, codec).iter == WordVectorIter.Drain(it, codec).last
    decreases Remaining(it.decoder)
  {
    match WordVectorIter.Next(it, codec)
    case None =>
    case Some(s) =>
      IngestStoresDrained(Store(db, faults, kind, s.record), faults, kind, s.rest, codec);
      var records := WordVectorIter.Drain(it, codec).records;
      assert records[0] == s.record && records[1..] == WordVectorIter.Drain(s.rest, codec).records;
  }

  /** `Converter::convert`. */
  function Convert(db: Db, faults: Faults, source: DataIterator, codec: Codec): (r: Converted)
    ensures r.outcome == Ok
    ensures r.source.kind == source.kind && r.source.max == source.max
    ensures var k := Named.Create(db, faults, Named.Kinds, source.kind);
      && (k.value.None? ==> r.source == source && r.db == k.db)
      && r.db.kinds == k.db.kinds
      && (k.value.Some? ==> WordVectorIter.Next(r.source.iter, codec).None?)
  {
    var k := Named.Create(db, faults, Named.Kinds, source.kind);
    match k.value
    case None => Converted(Ok, k.db, source)
    case Some(kind) =>
      var done := Ingest(k.db, faults, kind, source.iter, codec);
      IngestStoresDrained(k.db, faults, kind, source.iter, codec);
      StoreAllKeeps(k.db, faults, kind, WordVectorIter.Drain(source.iter, codec).records);
      WordVectorIter.DrainEnds(source.iter, codec);
      Converted(Ok, done.db, source.(iter := done.iter))
  }

  /** `convert` stores, under the kind `create_kind` returned, exactly the
      records the source yields. */
  lemma ConvertStoresRecords(db: Db, faults: Faults, source: DataIterator, codec: Codec)
    ensures var k := Named.Create(db, faults, Named.Kinds, source.kind);
      k.value.Some? ==>
        Convert(db, faults, source, codec).db
          == StoreAll(k.db, faults, k.value.value, WordVectorIter.Drain(source.iter, codec).records)
  {
    var k := Named.Create(db, faults, Named.Kinds, source.kind);
    if k.value.Some? {
      IngestStoresDrained(k.db, faults, k.value.value, source.iter, codec);
    }
  }

  /** `convert` keeps the store valid, keeps every vector row already
      stored, and adds no orphan vector rows. */
  lemma ConvertKeepsInvariants(db: Db, faults: Faults, source: DataIterator, codec: Codec)
    requires Valid(db) && Linked(db)
    ensures var r := Convert(db, faults, source, codec);
      && Valid(r.db) && Linked(r.db)
      && db.vectors <= r.db.vectors
      && db.words.rows <= r.db.words.rows
  {
    var k := Named.Create(db, faults, Named.Kinds, source.kind);
    CreateKindKeeps(db, faults, source.kind);
    if k.value.Some? {
      var kind := k.value.value;
      var records := WordVectorIter.Drain(source.iter, codec).records;
      ConvertStoresRecords(db, faults, source, codec);
      StoreAllKeeps(k.db, faults, kind, records);
      WordsKept(k.db, faults, kind, records);
    }
  }

  /** `create_kind` keeps the store valid and free of orphans, touches no
      word or vector row, and returns a kind that is in the table. */
  lemma CreateKindKeeps(db: Db, faults: Faults, name: string)
    requires Valid(db) && Linked(db)
    ensures var k := Named.Create(db, faults, Named.Kinds, name);
      && Valid(k.db) && Linked(k.db)
      && k.db.words == db.words && k.db.vectors == db.vectors
      && (k.value.Some? ==> k.value.value.id in Ids(k.db.kinds.rows))
  {
    var k := Named.Create(db, faults, Named.Kinds, name);
    var added := k.db.kinds.rows[|db.kinds.rows|..];
    assert db.kinds.rows + added == k.db.kinds.rows;
    IdsGrow(db.kinds.rows, added);
    if k.value.Some? {
      var i :| 0 <= i < |k.db.kinds.rows| && k.db.kinds.rows[i] == k.value.value;
    }
  }

  /** When no call fails, `convert` stores every word the source yields and
      one vector row per weight. */
  lemma ConvertReliable(db: Db, faults: Faults, source: DataIterator, codec: Codec)
    requires Reliable(faults)
    ensures var r := Convert(db, faults, source, codec);
      var records := WordVectorIter.Drain(source.iter, codec).records;
      && (forall i :: 0 <= i < |records| ==> records[i].word in Names(r.db.words.rows))
      && |r.db.vectors| == |db.vectors| + Weights(records)
  {
    var k := Named.Create(db, faults, Named.Kinds, source.kind);
    assert !faults(db.calls + 1);
    var records := WordVectorIter.Drain(source.iter, codec).records;
    ConvertStoresRecords(db, faults, source, codec);
    StoreAllReliable(k.db, faults, k.value.value, records);
  }

  /** With a uniqueness constraint on kind names, converting a second source
      of a kind already present adds no kind row. */
  lemma ConvertKindOnce(db: Db, faults: Faults, source: DataIterator, codec: Codec)
    requires db.kinds.unique
    requires source.kind in Names(db.kinds.rows)
    ensures Convert(db, faults, source, codec).db.kinds.rows == db.kinds.rows
  {
    var i :| 0 <= i < |db.kinds.rows| && Names(db.kinds.rows)[i] == source.kind;
    assert db.kinds.rows[i].name == source.kind;
  }
}
