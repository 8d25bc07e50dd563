# dsj word-embedding loader, modelled in Dafny

dsj reads word-embedding files and loads them into a relational store. The
files come in four text formats: FastText, GloVe, Word2Vec and Gensim. Each
word becomes a row in `words`, each embedding family a row in `kinds`, and
each weight of a word's vector a row in `vectors`. A progress bar counts the
bytes read.

This project models that core as pure functions over immutable data. It
covers the following parts.

- **Splitter** (`Io`). The delimiter splitter `IteratorWithSignal` is built
  on `BufRead::read_until`. A stream is its remaining bytes plus a flag for
  whether it ends in an I/O error rather than end of file. The one
  first-occurrence search (`Search.Find`) serves the splitter, the Gensim
  header and the progress-bar prefix.
- **Tokenizer** (`Tokens`, `WordVector`). `split_whitespace` and `trim` use
  Rust's `char::is_whitespace` set. `Split` is pinned down on every string
  by three facts: a whitespace character separates (`SplitSep`), a lone
  token is itself, and blank text has no tokens. Any whitespace layout of
  tokens therefore splits back to them (`SplitLayout`). The shared line
  parser takes the first token as the word and every later token as a
  weight.
- **Decoders** (`FastText`, `Glove`, `Word2Vec`, `Gensim`). Each decoder is
  a state value with `New`, `Next` and `Drain`, where `Drain` means
  iterating to exhaustion. The progress signal is modelled as the list of
  byte counts it has received.
- **Dispatch** (`WordVectorIter`, `DataIterator`). `Iter` is a uniquely
  owned or shared handle. `make_vec` maps format tags to decoders.
- **Store** (`Storage`, `Named`, `Vectors`). The store is a set of
  insertion-ordered tables. Which calls fail is an oracle indexed by a call
  counter. Get-or-create is defined once, in `Named`, for both `kinds` and
  `words`; the two source files repeat the same logic.
- **Conversion** (`Converter`). The `convert` loop.
- **Progress** (`ProgressBar`). The `thread_loop` fold over the messages
  sent. `make_vec` runs before `init`, so the header lines that FastText
  and Word2Vec read while being built are counted by `inc`s that arrive
  before `Init`. `Session` sends them in that order.

Four conversions are oracles, passed in as function-typed parameters:
lossy UTF-8 decoding, `f32` parsing, `File::open` and store failures.
Weights are `f32` bit patterns that are only passed through, with
`Zero` as the value of an unparsable token.

Where the sources disagree, the model follows the implementation:

- `word2vec.rs` imports `io::Pieces`, which `src/io.rs` does not define. It
  is modelled as the `IteratorWithSignal` splitter.
- `dataiterator.rs` passes a signal to `Gensim::new`, which takes only a
  reader. Gensim is modelled without a signal.
- The tests read `.name` on a `Kind`, whose field is `kind`. Both `Kind`
  and `Word` are modelled as one `Row(id, name)`.

Some behaviour follows from the code as written and is proved, not
assumed:

- Input ending in the delimiter yields no trailing empty piece.
- Gensim splits on `]`. Bytes after the last `]` that decode to
  whitespace therefore yield one last record with an empty word and no
  weights (`Gensim.BlankTail`). In particular, an input ending in `]\n`
  does so whenever a lone newline byte decodes to a newline
  (`Gensim.TrailingNewline`). The decoding is an oracle, so the model
  needs that assumption.

## Model

| member | source | states |
|---|---|---|
| Io.ReadUntil | src/io.rs:27 | `read_until` returns the bytes up to and including the first delimiter, with the rest left unread. Only the final read may lack a delimiter, and only at a clean end of file. It returns an error exactly when the stream fails before any delimiter. It reads 0 bytes exactly at a clean end of input. |
| Io.NextPiece | src/io.rs:27-39 | One splitter step. It yields nothing exactly at a clean end of input, or on an error before any delimiter. A piece never holds the delimiter and its count is positive. Putting the stripped delimiter back and appending the rest gives the input. |
| Io.ReadLine | src/io.rs:22-40 | `read_line` returns the piece's raw byte count and its lossily decoded text. It ends exactly when the splitter step ends, and each item consumes input. |
| Io.EmptyStreamYieldsNothing | src/io.rs:27-28 | An empty stream yields no pieces, because reading 0 bytes ends the sequence. |
| Io.PiecesShape | src/io.rs:27-36 | Across a whole iteration: no piece holds the delimiter and every count is positive. Each count is the piece length plus one exactly when a delimiter was stripped. Only the last piece may keep no stripped delimiter, and after an I/O error none does. |
| Io.PiecesRestore | src/io.rs:27-33 | Re-inserting each stripped delimiter and concatenating the pieces gives the whole input when it ends cleanly. After an I/O error it gives the input up to the last delimiter, and the lost tail holds no delimiter. |
| Io.PiecesTotal | src/io.rs:27-36 | The byte counts sum to at most the input length, and to exactly the input length when there is no I/O error. |
| Io.PiecesJoined | src/io.rs:27-39 | The inverse of `PiecesRestore`. A clean stream made of framed pieces, each followed by the delimiter, then delimiter-free trailing bytes, splits into exactly those pieces. One more piece is added for the trailing bytes when there are any. |
| Io.PiecesCount | src/io.rs:27-39 | The number of pieces is the number of delimiters, plus one for an unterminated last line at a clean end. |
| Tokens.Split | src/wordvector/fasttext.rs:54-55 | `split_whitespace` yields only non-empty tokens free of whitespace. |
| Tokens.SplitSep | src/wordvector/fasttext.rs:54-55 | One whitespace character separates: the tokens of `a`, a whitespace character, then `b` are the tokens of `a` followed by those of `b`. With `SplitToken` and `SplitAllWhitespace`, this determines `split_whitespace` on every string. |
| Tokens.SplitBlank | src/wordvector/fasttext.rs:54-55 | Leading whitespace adds no token. |
| Tokens.SplitToken | src/wordvector/fasttext.rs:54-55 | A lone token splits to itself. |
| Tokens.SplitAllWhitespace | src/wordvector/fasttext.rs:54-55 | Text that is all whitespace has no tokens. |
| Tokens.SplitLayout | src/wordvector/fasttext.rs:54-64 | Tokens laid out with any whitespace split back to exactly those tokens, in order. This covers leading whitespace, non-empty runs of any whitespace between tokens (spaces, tabs, newlines) and any trailing whitespace. |
| Tokens.SplitJoin | src/wordvector/fasttext.rs:54-64 | Splitting tokens joined by single spaces gives back the same tokens in order. |
| Tokens.TrimmedEnds | src/wordvector/fasttext.rs:57-58 | `trim` leaves no whitespace at either end. |
| Tokens.TrimToken | src/wordvector/fasttext.rs:57-58 | The `.trim()` applied to a token never changes it. |
| WordVector.NewRecord | src/wordvector/mod.rs:24-29 | `Record::new` keeps the word. Its vector has the slice's length and an element-wise copy of it. |
| WordVector.ParseWeights | src/wordvector/fasttext.rs:60-64 | One weight per token, in order. Each is the parsed value, or `Zero` when parsing fails. |
| WordVector.ParseLine | src/wordvector/glove.rs:25-39 | When the line has tokens, the word is the first of them and the weights are the parsed values of all the others, in order. The word is empty exactly when the line has no tokens, and the weights number the tokens minus one. |
| WordVector.ParseLineOfTokens | src/wordvector/word2vec.rs:32-46 | A word followed by weight tokens, in any whitespace layout, parses to exactly that word and those tokens' weights, in order. The layout may have leading whitespace, tabs or runs of spaces between tokens, and the trailing space that FastText and Word2Vec files carry. |
| WordVector.ParseBlankLine | src/wordvector/fasttext.rs:57-58 | A blank or all-whitespace line still yields a record, with word "" and no weights. |
| WordVector.UnparsableIsZero | src/wordvector/fasttext.rs:60-64 | An unparsable token becomes `Zero` in its own position. No token is dropped and the others still parse. |
| WordVector.Report | src/wordvector/fasttext.rs:69-73 | `inc` forwards the count when a signal is attached, and does nothing otherwise. |
| WordVector.TotalCounts | src/wordvector/testing.rs:24-28 | A counting signal's total equals the sum of the piece byte counts. |
| FastText.Parse | src/wordvector/fasttext.rs:51-67 | `parse` decodes the bytes lossily. The word is the first token and the weights are the values of every later token, in order; a line with no token gives an empty word and no weights. |
| FastText.ReadLine | src/wordvector/fasttext.rs:33-49 | The decoder's own `read_line` equals one splitter step, parsed, with that step's raw byte count reported. |
| FastText.New | src/wordvector/fasttext.rs:19-31 | `new` consumes the first line and reports its byte count. What remains is exactly the input's pieces after the first. |
| FastText.Next | src/wordvector/fasttext.rs:87-89 | `next` ends exactly when the newline splitter ends. Otherwise it yields the parse of the next piece and reports that piece's byte count. |
| FastText.DrainRecords | src/wordvector/fasttext.rs:82-90 | Iterating from any point yields one parsed record per remaining line, in order. |
| FastText.DrainReports | src/wordvector/fasttext.rs:38-39 | Iterating reports every remaining line's byte count in order, and ends with the input exhausted. |
| FastText.Decode | src/wordvector/fasttext.rs:151-175 | Over a whole input, the header is never a record and there are lines minus one records. Every line's bytes, the header's included, reach the signal, so a counter ends at the input length. |
| FastText.SignalIsObserver | src/wordvector/fasttext.rs:171-174 | With or without a signal attached, the records are the same. |
| Glove.New | src/wordvector/glove.rs:18-23 | `new` skips no header. |
| Glove.Parse | src/wordvector/glove.rs:25-39 | The word is the first token and the weights are the values of every later token, in order; a line with no token gives an empty word and no weights. |
| Glove.Next | src/wordvector/glove.rs:59-65 | `next` ends exactly when the splitter ends. Otherwise it reports the piece's count and parses its text. |
| Glove.DrainRecords | src/wordvector/glove.rs:54-66 | Iterating yields one record per remaining newline-framed piece, in order. |
| Glove.DrainReports | src/wordvector/glove.rs:60-64 | Each piece's byte count is reported exactly once, in order, and the input ends exhausted. |
| Glove.Decode | src/wordvector/glove.rs:127-145 | The first line is the first record and there is one record per line. The reported bytes add up to the input length. |
| Glove.SignalIsObserver | src/wordvector/glove.rs:41-45 | The records do not depend on whether a signal is attached. |
| Word2Vec.New | src/wordvector/word2vec.rs:18-30 | `new` skips the first line and reports its byte count. |
| Word2Vec.Parse | src/wordvector/word2vec.rs:32-46 | The word is the first token and the weights are the values of every later token, in order; a line with no token gives an empty word and no weights. |
| Word2Vec.Next | src/wordvector/word2vec.rs:66-72 | `next` ends when the splitter ends. Otherwise it reports the count and parses the text. |
| Word2Vec.DrainRecords | src/wordvector/word2vec.rs:61-73 | Iterating yields one record per remaining line, in order. |
| Word2Vec.DrainReports | src/wordvector/word2vec.rs:66-72 | Iterating reports every remaining line's count, in order. |
| Word2Vec.Decode | src/wordvector/word2vec.rs:134-152 | Over a whole input there are lines minus one records, none of them the header. The counter ends at the input length. |
| Word2Vec.SignalIsObserver | src/wordvector/word2vec.rs:48-52 | The records do not depend on whether a signal is attached. |
| Gensim.New | src/wordvector/gensim.rs:15-19 | `new` reads nothing: splitting starts at the first byte of the input, with no header skipped and no signal. |
| Gensim.ParseWord | src/wordvector/gensim.rs:21-28 | The word is the second whitespace token, or "" when there are fewer than two. |
| Gensim.ParseText | src/wordvector/gensim.rs:37-54 | The header runs up to and including the first `[`, or is the whole text when there is none. The word comes from the header, and the weights are the tokens after the `[`. |
| Gensim.Parse | src/wordvector/gensim.rs:37-54 | `parse` decodes the block lossily. The word comes from the text up to and including the first `[`, and the weights from the tokens after it. |
| Gensim.Next | src/wordvector/gensim.rs:63-74 | `next` is one `]`-framed step, parsed. It ends at the end of input or on a read error. |
| Gensim.DrainRecords | src/wordvector/gensim.rs:68-73 | Iterating yields one record per remaining block, in order, and ends exhausted. |
| Gensim.Decode | src/wordvector/gensim.rs:63-74 | There is one record per `]`-framed block: as many as the `]` bytes, plus unterminated trailing text. No byte count is reported anywhere. |
| Gensim.NoBracketNoWeights | src/wordvector/gensim.rs:45-51 | A block without `[` has no weights. |
| Gensim.BlankBlock | src/wordvector/gensim.rs:37-54 | Block text that is all whitespace still yields a record with an empty word and no weights. |
| Gensim.BlankTail | src/wordvector/gensim.rs:63-74 | On bytes: `]`-terminated blocks followed by bytes with no `]` that decode to whitespace give one record per block, then one more with an empty word and no weights. |
| Gensim.TrailingNewline | src/wordvector/gensim.rs:63-74 | An input of `]`-terminated blocks ending in a newline byte gives that extra empty record, provided a lone newline byte decodes to a newline. |
| Gensim.ParseWellFormed | src/wordvector/gensim.rs:37-54 | A block `key word [w1 w2 …` decodes to `word` and the values of the weight tokens, in order. Any whitespace may surround and separate the parts: leading whitespace, tabs, wrapped lines and a trailing newline. |
| WordVectorIter.Next | src/wordvector/mod.rs:39-41 | A shared handle yields `None`. A uniquely owned one yields exactly what its decoder's `next` yields. |
| WordVectorIter.IntoIter | src/wordvector/fasttext.rs:75-79 | `into_iter` wraps the decoder in a uniquely owned handle. |
| WordVectorIter.DelegatesFastText | src/wordvector/mod.rs:39-41 | Drained through the handle, a FastText decoder yields exactly its own records and final state. |
| WordVectorIter.DelegatesGlove | src/wordvector/mod.rs:39-41 | The same for GloVe. |
| WordVectorIter.DelegatesWord2Vec | src/wordvector/mod.rs:39-41 | The same for Word2Vec. |
| WordVectorIter.DelegatesGensim | src/wordvector/mod.rs:39-41 | The same for Gensim. |
| WordVectorIter.SharedYieldsNothing | src/wordvector/mod.rs:40 | A shared handle yields nothing at all. |
| WordVectorIter.DrainEnds | src/wordvector/mod.rs:36-42 | After draining, `next` yields `None`. |
| DataIterator.Open | src/wordvector/dataiterator.rs:11-19 | `Unknown` gives nothing, and so does a file that does not open. Otherwise the result carries the format's kind name, the file's byte length as `max`, and the decoder behind a uniquely owned handle. |
| DataIterator.BuildSends | src/wordvector/dataiterator.rs:32-35 | Building a decoder already sends to the shared signal. FastText and Word2Vec send their header line's byte count (src/wordvector/fasttext.rs:27-28, src/wordvector/word2vec.rs:25-27) when the file has a line at all. GloVe and Gensim send nothing. |
| DataIterator.MakeVec | src/wordvector/dataiterator.rs:29-47 | There are at most as many entries as declared files. |
| DataIterator.KindNamesDistinct | src/wordvector/dataiterator.rs:32-35 | Each known format gets its own kind name, distinct from the others. |
| DataIterator.MakeVecAppend | src/wordvector/dataiterator.rs:30-46 | Input order is kept: the entries of a concatenation are the entries of each part, in turn. |
| DataIterator.MakeVecAllOpen | src/wordvector/dataiterator.rs:30-46 | When every file is known and opens, none is dropped and entry `i` is file `i`. |
| DataIterator.MakeVecDropsFailures | src/wordvector/dataiterator.rs:36-39 | Unknown entries and files that fail to open are dropped silently. Removing them changes nothing. |
| Storage.First | src/db/models/kind.rs:47-49 | The lookup returns a row with the name that is in the table. It returns `None` exactly when no row has the name. |
| Storage.Insert | src/db/models/kind.rs:35-39 | The insert appends the row with the next id, unless the call fails or a uniqueness constraint rejects the name. In those cases the table is unchanged. |
| Storage.FirstStable | src/db/models/kind.rs:49 | Appending rows never changes which row is first for a name already present. |
| Storage.InsertThenFirst | src/db/models/kind.rs:35-41 | After the insert, a lookup finds the earlier row if there was one. Otherwise it finds the new row, unless the insert failed. |
| Named.Get | src/db/models/kind.rs:44-55 | `get_kind` returns the first row with the name. It returns `None` when there is no such row or the query fails. `get_word` (src/db/models/word.rs:44-54) is the same lookup over `words`. |
| Named.Create | src/db/models/kind.rs:28-42 | `create_kind` swallows an insert failure. It returns the pre-existing row, or else the new row with the next id, and `None` only when the lookup fails, or the insert fails with no row present. It adds at most one row, touches no other table and keeps the ids valid. `create_word` (src/db/models/word.rs:28-41) is the same get-or-create over `words`. |
| Named.List | src/db/models/kind.rs:57-64 | `kinds_list` returns every row in insertion order, or `None` on error; `words_list` (src/db/models/word.rs:57-63) does the same over `words`. |
| Named.Attempt | src/db/models/kind.rs:35-39 | The insert inside `create_kind` is one call against the store. The named table goes through `Insert`; the other table and the vector rows stay as they were, and valid ids stay valid. |
| Named.CreateTwice | src/db/models/word.rs:41 | Creating the same name twice returns the same row both times. Under a uniqueness constraint the second call adds no row. |
| Named.CreatedIsFound | src/db/models/testing.rs:54-59 | A created row is found again by the lookup, with id > 0. |
| Named.CreateNew | src/db/models/testing.rs:47-52 | On a store with no failures, creating a new name returns the appended row with that name. |
| Named.CreateAllReturned | src/db/models/testing.rs:87-99 | Creating distinct new names returns each as a row with that name and a positive id. |
| Named.CreateAllListed | src/db/models/testing.rs:61-70 | After creating distinct new names, the listing's names are the old ones followed by exactly the new ones, in order. |
| Vectors.AsI32 | src/db/models/vector.rs:32 | `position as i32` is in the `i32` range and congruent to the index modulo 2^32. |
| Vectors.AsI32Small | src/db/models/vector.rs:32 | Indices below 2^31 are kept unchanged. |
| Vectors.FromVec | src/db/models/vector.rs:28-35 | There is one row per point. Row `i` carries the word id, the kind id, position `i as i32` and `points[i]`. |
| Vectors.AddVectors | src/db/models/vector.rs:38-49 | On success the rows are appended and their count returned. On failure it returns 0 and the table is unchanged. No other table is touched. |
| Vectors.Matching | src/db/models/vector.rs:54-56 | The filter keeps only the word's rows under the kind, and it keeps all of them. |
| Vectors.SortByPosition | src/db/models/vector.rs:57 | `order(position)` returns a position-ordered permutation of the rows. |
| Vectors.SortSorted | src/db/models/vector.rs:57 | Rows already in position order are left as they are. |
| Vectors.WordToVector | src/db/models/vector.rs:51-62 | The result is `None` exactly on error. Otherwise it is the points of a position-ordered permutation of the matching rows. |
| Vectors.FromVecSorted | src/db/models/vector.rs:28-35 | With at most 2^31 points, the rows are in position order. |
| Vectors.RoundTrip | src/db/models/testing.rs:142-173 | Storing `from_vec(w, k, v)` for a word and kind with no rows yet, then reading back with `word_2_vector(w, k)`, returns `v`. This holds when both calls succeed. |
| Vectors.FromVecWraps | src/db/models/vector.rs:32 | Past 2^31 points the cast wraps to a negative position, and the rows are no longer in position order. |
| Converter.Store | src/converter.rs:27-29 | A record whose word does not resolve adds nothing. One that resolves adds exactly `from_vec(word, kind, record.vec)`, unless the insert fails. Kinds are untouched and old rows are kept. Validity and the absence of orphans are preserved. |
| Converter.StoreAllKeeps | src/converter.rs:26-29 | Across the loop the kinds table and every earlier vector row are kept, and the store stays valid and free of orphans. |
| Converter.StoreAllReliable | src/converter.rs:26-29 | With no failures, every record's word ends up in `words` and every weight gets one vector row. |
| Converter.IngestStoresDrained | src/converter.rs:26 | The loop stores exactly the records the iterator yields, in order, and leaves the iterator drained. |
| Converter.Convert | src/converter.rs:24-34 | `convert` always returns `Ok`. If the kind does not resolve, no record is consumed and nothing else is written. After the kind step the kinds table is never touched, and the iterator ends exhausted. |
| Converter.ConvertStoresRecords | src/converter.rs:25-29 | Under the resolved kind, `convert` stores exactly the records the source yields. |
| Converter.CreateKindKeeps | src/converter.rs:25 | The `create_kind` that opens `convert` keeps the store valid and free of orphans and touches no word or vector row. A kind it returns is a row of the kinds table. |
| Converter.ConvertKeepsInvariants | src/converter.rs:24-34 | `convert` keeps the ids valid, keeps every earlier word and vector row, and leaves no vector row without its word or kind. |
| Converter.ConvertReliable | src/converter.rs:24-34 | With no failures, every word the source yields is stored, plus one vector row per weight. |
| Converter.ConvertKindOnce | src/converter.rs:25 | Under a uniqueness constraint, converting another source of an existing kind adds no kind row. |
| ProgressBar.SendInit | src/progressbar.rs:22-24 | `init` appends one `Init(stages)` message. After it, the loop's state has `stages` equal to that argument, whatever came before, and the `Start` count is unchanged. |
| ProgressBar.SendStart | src/progressbar.rs:26-28 | `start` appends one `Start` message. The `Start` count goes up by exactly one, and the last `Init` is unchanged. |
| ProgressBar.SendInc | src/progressbar.rs:30-32 | `inc` appends one `Inc` message, which changes neither the `Start` count nor the last `Init`. |
| ProgressBar.SendFinish | src/progressbar.rs:34-36 | `finish` appends one `Finish` message, which changes neither the `Start` count nor the last `Init`. |
| ProgressBar.SendStop | src/progressbar.rs:38-40 | `stop` appends `Stop`. When nothing sent earlier was a `Stop`, the loop stops exactly after everything sent before it. |
| ProgressBar.Drop | src/progressbar.rs:49-53 | Dropping the signal sends `Stop`, so the loop ends right after everything sent earlier. |
| ProgressBar.Apply | src/progressbar.rs:85-103 | `Init(n)` sets `stages` to `n` and keeps `index`. `Start` adds exactly 1 to `index`. `Inc` and `Finish` change nothing. |
| ProgressBar.ThreadLoop | src/progressbar.rs:80-109 | The loop ends on the first `Stop` and receives nothing after it, or ends with `RecvError` once the queue is exhausted. From the initial state, `index` counts the `Start`s and `stages` is the last `Init`. There is one bar per `Start`, and bar `k` shows index `k + 1`. |
| ProgressBar.RunSession | src/main.rs:40-50 | A whole run sends messages in this order: the header `inc`s that `make_vec` sends while building the decoders, then `init(files)`, then each file's `start` and `inc`s, then the drop's `Stop`. The loop receives all of it and ends on `Stop`. It finishes with `stages` and `index` both equal to the number of files; the `inc`s sent before `init` change nothing. |
| ProgressBar.DecimalRoundTrip | src/progressbar.rs:92 | The decimal digits printed for a number read back as that number. |
| ProgressBar.PrefixRoundTrip | src/progressbar.rs:92 | The prefix `[index/stages]` shows exactly the state it was rendered from. |

## Left out

- Threads, the `mpsc` channel and the indicatif bar. The channel is the
  list of messages sent, and the receiving loop runs over it.
- `RecvError` from the channel. It is modelled as running past the end of
  the sent list.
- `SendError` results of the `ProgressSignal` methods. They are discarded
  by every caller.
- The terminal bar's own state. This covers `ProgressBar::new`, `inc`,
  `finish_with_message` and the style template, which are rendering only.
- Lossy UTF-8 decoding and `str::parse::<f32>`. They are uninterpreted
  functions of a `Codec`, and weights are opaque 32-bit patterns.
- `File::open` and `metadata().len()`. They are a `FileSystem` oracle, and
  the `unwrap` on the metadata is assumed not to panic.
- `Cursor::read_until` inside Gensim's `parse`. A cursor over a string
  never fails, so its `Err` branch (word "") is unreachable and not
  modelled.
- Integer widths of counts and lengths (`usize`, `u64`). Counts are
  unbounded naturals. `i32` ids are unbounded integers, since the store
  assigns them.
- `position as i32` is the one conversion modelled as written
  (`Vectors.AsI32`).
- SQL semantics. Tables are insertion-ordered sequences. Every failure
  (connection loss, constraint violation) is the `faults` oracle, and an
  optional uniqueness flag on names stands for a schema constraint.
- Vectors.SortByPosition: `ORDER BY position` leaves ties unordered. The
  model keeps tied rows in storage order, which is one of the orders SQL
  may return.
- Vectors.RoundTrip: proved only for a word and kind with no earlier rows.
  Re-storing a pair interleaves the old and new rows by position.
- The fixture counts in the tests (9, 10, 11 and 5 records). The fixture
  files are not part of this model. The general statements (lines minus
  one, one per line, one per block) are proved instead.
- "The count is reported before the line is parsed". Parsing is total and
  pure here, so the order of the two within one step is not observable.
  The model proves the count is reported exactly once per step.
- `Converter::new`, `prepare`, `main`, argument parsing, the database
  back-ends and migrations. These are process glue and I/O.
- The console messages printed on a failed insert or lookup.
- `Kind::default` and `Word::default`. No modelled operation uses them.
- Tokens.Split: its own contract says only that every element is a token.
  The full characterisation is in the lemmas `SplitSep`, `SplitBlank`,
  `SplitToken` and `SplitAllWhitespace`, which keeps the function's
  contract cheap to use.
- The one `Rc<IncSignal>` that all decoders share. Each decoder carries
  the list of counts it has sent, starting empty (`DataIterator.Build`).
  Decoders are built, then drained, one after another, so the shared
  channel sees these lists in that order. `Session` takes that order as
  given rather than deriving it from the decoders.
