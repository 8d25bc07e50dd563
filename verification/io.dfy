/**
  The delimiter splitter of `src/io.rs` (`IteratorWithSignal`) and the
  `BufRead::read_until` primitive every decoder is built on.

  A byte stream is modelled by the bytes it will deliver and whether it
  delivers end-of-file or an I/O error once those bytes are used up.
 */
module Io {
  import opened Optional
  import opened Search

  newtype byte = b: int | 0 <= b < 256

  type Bytes = seq<byte>

  /** `b'\n'`, the delimiter of the line-oriented formats. */
  const Newline: byte := 10

  /** A buffered reader: the bytes still to come, and whether the stream
      fails with an I/O error (rather than reporting end of file) once
      they are exhausted. */
  datatype Reader = Reader(data: Bytes, failing: bool)

  /** Number of occurrences of `d` in `s`. */
  function Occurrences(s: Bytes, d: byte): nat
  {
    if s == [] then 0 else (if s[0] == d then 1 else 0) + Occurrences(s[1..], d)
  }

  /** Result of `read_until` into a cleared buffer: `Ok(count)` with the
      bytes appended, or `Err`. */
  datatype ReadOutcome = Read(count: nat, buf: Bytes, rest: Reader) | ReadError

  /** `BufRead::read_until(d, buf)`: reads up to and including the next `d`,
      or to end of file; an I/O error met before a delimiter is an `Err`. */
  function ReadUntil(r: Reader, d: byte): (o: ReadOutcome)
    ensures o.Read? ==> o.count == |o.buf| && o.buf + o.rest.data == r.data
    ensures o.Read? ==> o.rest.failing == r.failing
    ensures o.Read? ==> forall i :: 0 <= i < |o.buf| - 1 ==> o.buf[i] != d
    ensures o.Read? && o.buf != [] && o.buf[|o.buf| - 1] != d ==> o.rest.data == [] && !r.failing
    ensures o.ReadError? <==> r.failing && d !in r.data
    ensures o.Read? && o.count == 0 <==> r.data == [] && !r.failing
  {
    var k := Find(r.data, d);
    if k < |r.data| then
      assert r.data[..k + 1] + r.data[k + 1..] == r.data;
      Read(k + 1, r.data[..k + 1], Reader(r.data[k + 1..], r.failing))
    else if r.failing then
      ReadError
    else
      Read(|r.data|, r.data, Reader([], false))
  }

  /** One delimiter-framed piece: the raw bytes it consumed from the stream
      and its content with a trailing delimiter removed. */
  datatype Piece = Piece(consumed: nat, bytes: Bytes)

  /** Whether a trailing delimiter was removed from the piece. */
  predicate Stripped(p: Piece)
  {
    p.consumed == |p.bytes| + 1
  }

  /** The raw bytes the piece was cut from: its content with the stripped
      delimiter put back. */
  function Restore(p: Piece, d: byte): Bytes
  {
    if Stripped(p) then p.bytes + [d] else p.bytes
  }

  datatype Cut = Cut(piece: Piece, rest: Reader)

  /** The byte level of `IteratorWithSignal::read_line` (and of std's
      `BufRead::split`): read to the next delimiter, end the sequence on
      zero bytes or on an I/O error, otherwise drop a trailing delimiter. */
  function NextPiece(r: Reader, d: byte): (o: Option<Cut>)
    ensures o.None? <==> (r.data == [] && !r.failing) || (r.failing && d !in r.data)
    ensures o.Some? ==> d !in o.value.piece.bytes
    ensures o.Some? ==> o.value.piece.consumed > 0
    ensures o.Some? ==> o.value.piece.consumed == |Restore(o.value.piece, d)|
    ensures o.Some? ==> Restore(o.value.piece, d) + o.value.rest.data == r.data
    ensures o.Some? ==> o.value.rest.failing == r.failing
    ensures o.Some? && !Stripped(o.value.piece) ==> o.value.rest.data == [] && !r.failing
  {
    match ReadUntil(r, d)
    case ReadError => None
    case Read(n, buf, rest) =>
      if n == 0 then None
      else if buf[|buf| - 1] == d then
        assert buf[..|buf| - 1] + [d] == buf;
        Some(Cut(Piece(n, buf[..|buf| - 1]), rest))
      else
        Some(Cut(Piece(n, buf), rest))
  }

  /** Every piece the splitter yields before its sequence ends. */
  function Pieces(r: Reader, d: byte): seq<Piece>
    decreases |r.data|
  {
    match NextPiece(r, d)
    case None => []
    case Some(c) => [c.piece] + Pieces(c.rest, d)
  }

  /** Sum of the byte counts of a sequence of pieces. */
  function Consumed(ps: seq<Piece>): nat
  {
    if ps == [] then 0 else ps[0].consumed + Consumed(ps[1..])
  }

  /** The byte counts of the pieces, in order. */
  function Counts(ps: seq<Piece>): (cs: seq<nat>)
    ensures |cs| == |ps|
    ensures forall i :: 0 <= i < |ps| ==> cs[i] == ps[i].consumed
  {
    if ps == [] then [] else [ps[0].consumed] + Counts(ps[1..])
  }

  /** The pieces joined back together, each stripped delimiter re-inserted. */
  function Joined(ps: seq<Piece>, d: byte): Bytes
  {
    if ps == [] then [] else Restore(ps[0], d) + Joined(ps[1..], d)
  }

  /** Number of pieces a stream yields, counted on its bytes: one per
      delimiter, plus an unterminated last line when the stream ends cleanly
      on a byte other than the delimiter. */
  function FrameCount(r: Reader, d: byte): nat
  {
    Occurrences(r.data, d)
      + (if !r.failing && r.data != [] && r.data[|r.data| - 1] != d then 1 else 0)
  }

  /** Zero bytes read ends the sequence: an empty stream yields nothing. */
  lemma EmptyStreamYieldsNothing(d: byte)
    ensures Pieces(Reader([], false), d) == []
  {
  }

  /** No piece holds the delimiter; each count is positive and is the piece
      length plus one exactly when a delimiter was stripped; only the last
      piece may lack a stripped delimiter, and after an I/O error none does. */
  lemma {:induction false} PiecesShape(r: Reader, d: byte)
    ensures forall i :: 0 <= i < |Pieces(r, d)| ==>
      && d !in Pieces(r, d)[i].bytes
      && Pieces(r, d)[i].consumed > 0
      && Pieces(r, d)[i].consumed == |Restore(Pieces(r, d)[i], d)|
      && (i < |Pieces(r, d)| - 1 ==> Stripped(Pieces(r, d)[i]))
      && (r.failing ==> Stripped(Pieces(r, d)[i]))
    decreases |r.data|
  {
    match NextPiece(r, d)
    case None =>
    case Some(c) =>
      PiecesShape(c.rest, d);
      var ps := Pieces(r, d);
      var tail := Pieces(c.rest, d);
      assert ps == [c.piece] + tail;
      if !Stripped(c.piece) {
        assert tail == [];
      }
      forall i | 0 <= i < |ps|
        ensures && d !in ps[i].bytes
                && ps[i].consumed > 0
                && ps[i].consumed == |Restore(ps[i], d)|
                && (i < |ps| - 1 ==> Stripped(ps[i]))
                && (r.failing ==> Stripped(ps[i]))
      {
        if i > 0 {
          assert ps[i] == tail[i - 1];
        }
      }
  }

  lemma {:induction false} JoinedLength(ps: seq<Piece>, d: byte)
    requires forall i :: 0 <= i < |ps| ==> ps[i].consumed == |Restore(ps[i], d)|
    ensures |Joined(ps, d)| == Consumed(ps)
  {
    if ps != [] {
      JoinedLength(ps[1..], d);
    }
  }

  /** Re-inserting each stripped delimiter and concatenating reproduces the
      stream: all of it when the stream ends cleanly, and up to the last
      delimiter (with no delimiter in the lost tail) after an I/O error. */
  lemma {:induction false} PiecesRestore(r: Reader, d: byte)
    ensures Joined(Pieces(r, d), d) <= r.data
    ensures !r.failing ==> Joined(Pieces(r, d), d) == r.data
    ensures r.failing ==> d !in r.data[|Joined(Pieces(r, d), d)|..]
    decreases |r.data|
  {
    match NextPiece(r, d)
    case None =>
    case Some(c) =>
      PiecesRestore(c.rest, d);
      var ps := Pieces(r, d);
      assert ps[0] == c.piece && ps[1..] == Pieces(c.rest, d);
      var head := Restore(c.piece, d);
      var tail := Joined(Pieces(c.rest, d), d);
      assert Joined(ps, d) == head + tail;
      PrefixExtend(head, tail, c.rest.data);
  }

  lemma PrefixExtend(head: Bytes, tail: Bytes, rest: Bytes)
    requires tail <= rest
    ensures head + tail <= head + rest
    ensures (head + rest)[|head + tail|..] == rest[|tail|..]
  {
    assert (head + rest)[..|head + tail|] == head + rest[..|tail|];
  }

  /** The byte counts add up to the bytes the stream delivered; with no I/O
      error that is the whole input. */
  lemma PiecesTotal(r: Reader, d: byte)
    ensures Consumed(Pieces(r, d)) <= |r.data|
    ensures !r.failing ==> Consumed(Pieces(r, d)) == |r.data|
  {
    PiecesShape(r, d);
    JoinedLength(Pieces(r, d), d);
    PiecesRestore(r, d);
  }

  lemma {:induction false} OccurrencesAppend(a: Bytes, b: Bytes, d: byte)
    ensures Occurrences(a + b, d) == Occurrences(a, d) + Occurrences(b, d)
  {
    if a == [] {
      assert a + b == b;
    } else {
      assert (a + b)[1..] == a[1..] + b;
      OccurrencesAppend(a[1..], b, d);
    }
  }

  lemma OccurrencesAbsent(s: Bytes, d: byte)
    requires d !in s
    ensures Occurrences(s, d) == 0
  {
    if s != [] {
      OccurrencesAbsent(s[1..], d);
    }
  }

  /** The splitter yields one piece per delimiter in the stream, plus one
      for an unterminated final line when the stream ends cleanly. */
  lemma {:induction false} PiecesCount(r: Reader, d: byte)
    ensures |Pieces(r, d)| == FrameCount(r, d)
    decreases |r.data|
  {
    match NextPiece(r, d)
    case None =>
      if r.failing {
        OccurrencesAbsent(r.data, d);
      }
    case Some(c) =>
      PiecesCount(c.rest, d);
      FrameCountCut(r, d, c);
  }

  /** Cutting one piece off the stream takes exactly one frame. */
  lemma FrameCountCut(r: Reader, d: byte, c: Cut)
    requires NextPiece(r, d) == Some(c)
    ensures FrameCount(r, d) == 1 + FrameCount(c.rest, d)
  {
    var head := Restore(c.piece, d);
    OccurrencesAppend(head, c.rest.data, d);
    OccurrencesAbsent(c.piece.bytes, d);
    if Stripped(c.piece) {
      assert Occurrences(head, d) == 1 by {
        OccurrencesAppend(c.piece.bytes, [d], d);
      }
      if c.rest.data == [] {
        assert r.data[|r.data| - 1] == d;
      } else {
        assert r.data[|r.data| - 1] == c.rest.data[|c.rest.data| - 1];
      }
    } else {
      assert r.data == c.piece.bytes;
      assert r.data[|r.data| - 1] in c.piece.bytes;
    }
  }

  /** Pieces as a well-framed stream holds them: each had its delimiter
      stripped and holds no other. */
  predicate Framed(ps: seq<Piece>, d: byte)
  {
    forall i :: 0 <= i < |ps| ==> Stripped(ps[i]) && d !in ps[i].bytes
  }

  /** The piece unterminated trailing bytes yield, if there are any. */
  function Trailing(tail: Bytes): seq<Piece>
  {
    if tail == [] then [] else [Piece(|tail|, tail)]
  }

  /** The inverse of `PiecesRestore`: a clean stream written as framed
      pieces, each followed by its delimiter, then delimiter-free trailing
      bytes, splits back into exactly those pieces, plus one piece for the
      trailing bytes when there are any. */
  lemma PiecesJoined(ps: seq<Piece>, tail: Bytes, d: byte)
    requires Framed(ps, d) && d !in tail
    ensures Pieces(Reader(Joined(ps, d) + tail, false), d) == ps + Trailing(tail)
  {
    PiecesOfFramed(Reader(Joined(ps, d) + tail, false), ps, tail, d);
  }

  lemma {:induction false} PiecesOfFramed(r: Reader, ps: seq<Piece>, tail: Bytes, d: byte)
    requires Framed(ps, d) && d !in tail
    requires r.data == Joined(ps, d) + tail && !r.failing
    ensures Pieces(r, d) == ps + Trailing(tail)
    decreases |ps|
  {
    if ps == [] {
      assert r == Reader(tail, false);
      if tail != [] {
        CutTrailing(tail, d);
        PiecesCut(r, d, Cut(Piece(|tail|, tail), Reader([], false)));
        EmptyStreamYieldsNothing(d);
      }
    } else {
      var rest := Reader(Joined(ps[1..], d) + tail, false);
      assert r.data == ps[0].bytes + [d] + rest.data;
      CutFramed(ps[0], d, rest.data);
      PiecesCut(r, d, Cut(ps[0], rest));
      PiecesOfFramed(rest, ps[1..], tail, d);
      ConsAppend(ps, Trailing(tail));
    }
  }

  lemma ConsAppend<T>(xs: seq<T>, ys: seq<T>)
    requires xs != []
    ensures xs + ys == [xs[0]] + (xs[1..] + ys)
  {
    assert xs == [xs[0]] + xs[1..];
  }

  /** `Pieces` unfolded once. */
  lemma PiecesCut(r: Reader, d: byte, c: Cut)
    requires NextPiece(r, d) == Some(c)
    ensures Pieces(r, d) == [c.piece] + Pieces(c.rest, d)
  {
  }

  /** A framed piece and its delimiter are cut off as that piece. */
  lemma CutFramed(p: Piece, d: byte, rest: Bytes)
    requires Stripped(p) && d !in p.bytes
    ensures NextPiece(Reader(p.bytes + [d] + rest, false), d) == Some(Cut(p, Reader(rest, false)))
  {
    var data := p.bytes + [d] + rest;
    var k := |p.bytes|;
    FindPast(p.bytes, d, rest);
    assert data[..k + 1][..k] == p.bytes && data[k + 1..] == rest;
  }

  /** Delimiter-free bytes at the end of a clean stream are one last piece. */
  lemma CutTrailing(tail: Bytes, d: byte)
    requires tail != [] && d !in tail
    ensures NextPiece(Reader(tail, false), d) == Some(Cut(Piece(|tail|, tail), Reader([], false)))
  {
    assert Find(tail, d) == |tail|;
  }

  /** `IteratorWithSignal`: a reader together with its delimiter. */
  datatype Splitter = Splitter(reader: Reader, delimiter: byte)

  /** One item of the splitter: the raw byte count and the lossily decoded
      text of the piece, with the splitter that remains. */
  datatype Line = Line(consumed: nat, text: string, rest: Splitter)

  /** `IteratorWithSignal::next` (`read_line`): the next piece, decoded with
      `utf8Lossy`, or `None` at end of input or on an I/O error. */
  function ReadLine(it: Splitter, utf8Lossy: Bytes -> string): (o: Option<Line>)
    ensures o.None? <==> NextPiece(it.reader, it.delimiter).None?
    ensures o.Some? ==>
      var c := NextPiece(it.reader, it.delimiter).value;
      && o.value.consumed == c.piece.consumed
      && o.value.text == utf8Lossy(c.piece.bytes)
      && o.value.rest == Splitter(c.rest, it.delimiter)
    ensures o.Some? ==> |o.value.rest.reader.data| < |it.reader.data|
  {
    match NextPiece(it.reader, it.delimiter)
    case None => None
    case Some(c) => Some(Line(c.piece.consumed, utf8Lossy(c.piece.bytes), Splitter(c.rest, it.delimiter)))
  }
}
