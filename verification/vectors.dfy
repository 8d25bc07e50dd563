/**
  `src/db/models/vector.rs`: a word's vector stored one weight per row,
  keyed by word id, kind id and position, and read back in position order.
 */
module Vectors {
  import opened Optional
  import opened Storage
  import opened WordVector

  const TwoTo31: int := 0x8000_0000
  const TwoTo32: int := 0x1_0000_0000

  /** `position as i32` for a `usize` index: the low 32 bits, read as two's
      complement. */
  function AsI32(n: nat): (v: int)
    ensures -TwoTo31 <= v < TwoTo31
    ensures (n - v) % TwoTo32 == 0
  {
    var m := n % TwoTo32;
    if m < TwoTo31 then m else m - TwoTo32
  }

  /** Indices that fit in an `i32` are kept as they are. */
  lemma AsI32Small(n: nat)
    requires n < TwoTo31
    ensures AsI32(n) == n
  {
  }

  /** `Vector::from_vec`: row `i` holds weight `i` at position `i as i32`,
      under the given word and kind. */
  function FromVec(word: Row, kind: Row, points: seq<Weight>): (vs: seq<Vector>)
    ensures |vs| == |points|
    ensures forall i :: 0 <= i < |points| ==> vs[i] == Vector(word.id, kind.id, AsI32(i), points[i])
  {
    seq(|points|, i requires 0 <= i < |points| => Vector(word.id, kind.id, AsI32(i), points[i]))
  }

  /** `add_vectors`: one batch insert; the row count on success, and 0
      with nothing stored when the call fails. */
  function AddVectors(db: Db, faults: Faults, vs: seq<Vector>): (r: Answer<nat>)
    ensures faults(db.calls) ==> r.value == 0 && r.db.vectors == db.vectors
    ensures !faults(db.calls) ==> r.value == |vs| && r.db.vectors == db.vectors + vs
    ensures r.db.kinds == db.kinds && r.db.words == db.words && r.db.calls == db.calls + 1
  {
    if faults(db.calls) then Answer(0, Tick(db))
    else Answer(|vs|, Tick(db).(vectors := db.vectors + vs))
  }

  /** The rows of one word under one kind (`filter(word_id.eq(..))
      .filter(kind_id.eq(..))`), in storage order. */
  function Matching(vs: seq<Vector>, wordId: int, kindId: int): (ms: seq<Vector>)
    ensures forall i :: 0 <= i < |ms| ==> ms[i].wordId == wordId && ms[i].kindId == kindId
    ensures multiset(ms) <= multiset(vs)
    ensures forall v :: v in vs && v.wordId == wordId && v.kindId == kindId ==> v in ms
  {
    if vs == [] then []
    else
      var rest := Matching(vs[1..], wordId, kindId);
      assert vs == [vs[0]] + vs[1..];
      if vs[0].wordId == wordId && vs[0].kindId == kindId then [vs[0]] + rest else rest
  }

  lemma {:induction false} MatchingAppend(a: seq<Vector>, b: seq<Vector>, wordId: int, kindId: int)
    ensures Matching(a + b, wordId, kindId) == Matching(a, wordId, kindId) + Matching(b, wordId, kindId)
  {
    if a == [] {
      assert a + b == b;
    } else {
      assert (a + b)[1..] == a[1..] + b;
      MatchingAppend(a[1..], b, wordId, kindId);
    }
  }

  lemma {:induction false} MatchingAll(vs: seq<Vector>, wordId: int, kindId: int)
    requires forall i :: 0 <= i < |vs| ==> vs[i].wordId == wordId && vs[i].kindId == kindId
    ensures Matching(vs, wordId, kindId) == vs
  {
    if vs != [] {
      MatchingAll(vs[1..], wordId, kindId);
    }
  }

  lemma {:induction false} MatchingNone(vs: seq<Vector>, wordId: int, kindId: int)
    requires forall i :: 0 <= i < |vs| ==> !(vs[i].wordId == wordId && vs[i].kindId == kindId)
    ensures Matching(vs, wordId, kindId) == []
  {
    if vs != [] {
      MatchingNone(vs[1..], wordId, kindId);
    }
  }

  predicate SortedByPosition(vs: seq<Vector>)
  {
    forall i, j :: 0 <= i < j < |vs| ==> vs[i].position <= vs[j].position
  }

  /** `v` placed before the first row of `s` whose position is not
      smaller. */
  function InsertByPosition(v: Vector, s: seq<Vector>): (r: seq<Vector>)
    requires SortedByPosition(s)
    ensures SortedByPosition(r)
    ensures multiset(r) == multiset(s) + multiset{v}
    ensures |r| == |s| + 1
    ensures r[0] == v || (s != [] && r[0] == s[0])
    ensures s != [] && v.position <= s[0].position ==> r == [v] + s
  {
    if s == [] || v.position <= s[0].position then
      SortedCons(v, s);
      [v] + s
    else
      assert SortedByPosition(s[1..]) by {
        SortedTail(s);
      }
      var rest := InsertByPosition(v, s[1..]);
      var r := [s[0]] + rest;
      assert SortedByPosition(r) by {
        SortedCons(s[0], rest);
      }
      assert multiset(r) == multiset(s) + multiset{v} by {
        assert s == [s[0]] + s[1..];
      }
      r
  }

  lemma SortedTail(s: seq<Vector>)
    requires SortedByPosition(s) && s != []
    ensures SortedByPosition(s[1..])
  {
    forall i, j | 0 <= i < j < |s| - 1
      ensures s[1..][i].position <= s[1..][j].position
    {
      assert s[1..][i] == s[i + 1] && s[1..][j] == s[j + 1];
    }
  }

  /** A row no later than the head of a sorted sequence can go in front. */
  lemma SortedCons(x: Vector, rest: seq<Vector>)
    requires SortedByPosition(rest)
    requires rest != [] ==> x.position <= rest[0].position
    ensures SortedByPosition([x] + rest)
  {
    var r := [x] + rest;
    forall i, j | 0 <= i < j < |r|
      ensures r[i].position <= r[j].position
    {
      assert r[j] == rest[j - 1];
      if i > 0 {
        assert r[i] == rest[i - 1];
      } else {
        assert rest[0].position <= rest[j - 1].position;
      }
    }
  }

  /** `order(position)`: the rows sorted by position; rows with equal
      positions keep their storage order. */
  function SortByPosition(vs: seq<Vector>): (s: seq<Vector>)
    ensures SortedByPosition(s)
    ensures multiset(s) == multiset(vs)
    ensures |s| == |vs|
  {
    if vs == [] then []
    else
      assert vs == [vs[0]] + vs[1..];
      InsertByPosition(vs[0], SortByPosition(vs[1..]))
  }

  /** Sorting rows already in position order changes nothing. */
  lemma {:induction false} SortSorted(vs: seq<Vector>)
    requires SortedByPosition(vs)
    ensures SortByPosition(vs) == vs
  {
    if vs != [] {
      SortSorted(vs[1..]);
      if |vs| > 1 {
        assert vs[0].position <= vs[1].position;
      }
      assert [vs[0]] + vs[1..] == vs;
    }
  }

  /** `.map(|vec| vec.point)`. */
  function Points(vs: seq<Vector>): (ps: seq<Weight>)
    ensures |ps| == |vs|
    ensures forall i :: 0 <= i < |vs| ==> ps[i] == vs[i].point
  {
    seq(|vs|, i requires 0 <= i < |vs| => vs[i].point)
  }

  /** `word_2_vector`: the weights stored for the word under the kind, in
      position order, or `None` when the query fails. */
  function WordToVector(db: Db, faults: Faults, word: Row, kind: Row): (r: Answer<Option<seq<Weight>>>)
    ensures r.db == Tick(db)
    ensures r.value.None? <==> faults(db.calls)
    ensures r.value.Some? ==> |r.value.value| == |Matching(db.vectors, word.id, kind.id)|
    ensures r.value.Some? ==> exists s ::
      && multiset(s) == multiset(Matching(db.vectors, word.id, kind.id))
      && SortedByPosition(s) && r.value.value == Points(s)
  {
    if faults(db.calls) then Answer(None, Tick(db))
    else
      var s := SortByPosition(Matching(db.vectors, word.id, kind.id));
      Answer(Some(Points(s)), Tick(db))
  }

  /** The rows `from_vec` builds are in position order as long as the
      vector fits in `i32` positions. */
  lemma FromVecSorted(word: Row, kind: Row, points: seq<Weight>)
    requires |points| <= TwoTo31
    ensures SortedByPosition(FromVec(word, kind, points))
  {
    var vs := FromVec(word, kind, points);
    forall i, j | 0 <= i < j < |vs|
      ensures vs[i].position <= vs[j].position
    {
      AsI32Small(i);
      AsI32Small(j);
    }
  }

  /** Round trip: a vector stored with `add_vectors(from_vec(..))` for a
      word and kind with no rows yet is read back unchanged by
      `word_2_vector`, provided both calls succeed and the vector has at
      most 2^31 weights. */
  lemma RoundTrip(db: Db, faults: Faults, word: Row, kind: Row, points: seq<Weight>)
    requires forall i :: 0 <= i < |db.vectors| ==> !(db.vectors[i].wordId == word.id && db.vectors[i].kindId == kind.id)
    requires |points| <= TwoTo31
    requires !faults(db.calls) && !faults(db.calls + 1)
    ensures var added := AddVectors(db, faults, FromVec(word, kind, points));
      && added.value == |points|
      && WordToVector(added.db, faults, word, kind).value == Some(points)
  {
    var vs := FromVec(word, kind, points);
    var added := AddVectors(db, faults, vs);
    assert added.db.vectors == db.vectors + vs;
    assert Matching(added.db.vectors, word.id, kind.id) == vs by {
      MatchingAppend(db.vectors, vs, word.id, kind.id);
      MatchingNone(db.vectors, word.id, kind.id);
      MatchingAll(vs, word.id, kind.id);
      assert [] + vs == vs;
    }
    assert SortByPosition(vs) == vs by {
      FromVecSorted(word, kind, points);
      SortSorted(vs);
    }
    assert Points(vs) == points;
    assert !faults(added.db.calls);
  }

  /** Past 2^31 weights the cast wraps: the next position is negative and
      sorts before every earlier one. */
  lemma FromVecWraps(word: Row, kind: Row, points: seq<Weight>)
    requires |points| > TwoTo31
    ensures FromVec(word, kind, points)[TwoTo31].position == -TwoTo31
    ensures !SortedByPosition(FromVec(word, kind, points))
  {
    var vs := FromVec(word, kind, points);
    assert vs[0].position == 0;
  }
}
