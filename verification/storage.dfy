/**
  The store behind `src/db/models`, as plain data: insertion-ordered tables
  in place of SQL tables, with autoincrement ids, an optional uniqueness
  constraint on names, and a count of the calls made so far. Which calls
  fail (connection loss, constraint violation, anything diesel reports as
  an error) is an oracle indexed by that count.
 */
module Storage {
  import opened Optional
  import opened WordVector

  /** A row of `kinds` or `words`: the store-assigned id and the text (the
      Rust field is `kind` for a `Kind` and `word` for a `Word`). */
  datatype Row = Row(id: int, name: string)

  /** An insertion-ordered table of named rows; `unique` is whether the
      schema rejects a second row with the same name. */
  datatype Table = Table(rows: seq<Row>, nextId: int, unique: bool)

  /** A row of `vectors`: one weight of one word's vector under one kind. */
  datatype Vector = Vector(wordId: int, kindId: int, position: int, point: Weight)

  /** The connection's view of the store. */
  datatype Db = Db(kinds: Table, words: Table, vectors: seq<Vector>, calls: nat)

  /** Whether the n-th call on the connection fails. */
  type Faults = nat -> bool

  /** A store call's result together with the store after it. */
  datatype Answer<T> = Answer(value: T, db: Db)

  /** A store in which no call fails. */
  ghost predicate Reliable(faults: Faults)
  {
    forall n :: !faults(n)
  }

  /** A fresh, migrated database. */
  function EmptyTable(unique: bool): Table
  {
    Table([], 1, unique)
  }

  function EmptyDb(unique: bool): Db
  {
    Db(EmptyTable(unique), EmptyTable(unique), [], 0)
  }

  /** The store after one more call. */
  function Tick(db: Db): Db
  {
    db.(calls := db.calls + 1)
  }

  /** Ids are positive, below the next id and increasing in insertion order;
      names are distinct when the table is unique. */
  ghost predicate ValidTable(t: Table)
  {
    && t.nextId >= 1
    && (forall i :: 0 <= i < |t.rows| ==> 1 <= t.rows[i].id < t.nextId)
    && (forall i, j :: 0 <= i < j < |t.rows| ==> t.rows[i].id < t.rows[j].id)
    && (t.unique ==> forall i, j :: 0 <= i < j < |t.rows| ==> t.rows[i].name != t.rows[j].name)
  }

  ghost predicate Valid(db: Db)
  {
    ValidTable(db.kinds) && ValidTable(db.words)
  }

  /** Position of the earliest row with the given name, or `|rows|`. */
  function FirstIndex(rows: seq<Row>, name: string): (k: nat)
    ensures k <= |rows|
    ensures forall i :: 0 <= i < k ==> rows[i].name != name
    ensures k < |rows| ==> rows[k].name == name
  {
    if rows == [] then 0
    else if rows[0].name == name then 0
    else 1 + FirstIndex(rows[1..], name)
  }

  /** `filter(name.eq(text)).load()` followed by `first()`: the earliest row
      with that name, if there is one. */
  function First(rows: seq<Row>, name: string): (r: Option<Row>)
    ensures r.Some? ==> r.value.name == name && r.value in rows
    ensures r.None? <==> forall i :: 0 <= i < |rows| ==> rows[i].name != name
  {
    var k := FirstIndex(rows, name);
    if k < |rows| then Some(rows[k]) else None
  }

  /** `insert_into(table).values(&new).execute()`: the row is appended with
      the next id, unless the call fails or the uniqueness constraint
      rejects it, in which case the table is left as it was. */
  function Insert(t: Table, name: string, fail: bool): (t': Table)
    ensures t'.unique == t.unique
    ensures t'.rows == t.rows || (t'.rows == t.rows + [Row(t.nextId, name)] && t'.nextId == t.nextId + 1)
    ensures t'.rows == t.rows ==> t' == t
    ensures !fail && !(t.unique && First(t.rows, name).Some?) ==> t'.rows == t.rows + [Row(t.nextId, name)]
    ensures fail ==> t' == t
    ensures t.unique && First(t.rows, name).Some? ==> t' == t
  {
    if fail || (t.unique && First(t.rows, name).Some?) then t
    else Table(t.rows + [Row(t.nextId, name)], t.nextId + 1, t.unique)
  }

  lemma InsertValid(t: Table, name: string, fail: bool)
    ensures ValidTable(t) ==> ValidTable(Insert(t, name, fail))
  {
  }

  /** Appending rows never changes which row is the first with a name that
      was already present. */
  lemma {:induction false} FirstStable(rows: seq<Row>, more: seq<Row>, name: string)
    requires First(rows, name).Some?
    ensures First(rows + more, name) == First(rows, name)
  {
    FirstIndexStable(rows, more, name);
  }

  lemma {:induction false} FirstIndexStable(rows: seq<Row>, more: seq<Row>, name: string)
    requires FirstIndex(rows, name) < |rows|
    ensures FirstIndex(rows + more, name) == FirstIndex(rows, name)
  {
    if rows[0].name != name {
      assert (rows + more)[1..] == rows[1..] + more;
      FirstIndexStable(rows[1..], more, name);
    }
  }

  /** After the insert of a get-or-create, a row with the name exists unless
      the insert failed and none existed before; the first such row is the
      one that was there before, if any. */
  lemma InsertThenFirst(t: Table, name: string, fail: bool)
    ensures First(t.rows, name).Some? ==> First(Insert(t, name, fail).rows, name) == First(t.rows, name)
    ensures First(t.rows, name).None? && !fail ==> First(Insert(t, name, fail).rows, name) == Some(Row(t.nextId, name))
    ensures First(t.rows, name).None? && fail ==> First(Insert(t, name, fail).rows, name).None?
  {
    var t' := Insert(t, name, fail);
    if First(t.rows, name).Some? {
      if t'.rows != t.rows {
        FirstStable(t.rows, [Row(t.nextId, name)], name);
      }
    } else if !fail {
      var rows' := t.rows + [Row(t.nextId, name)];
      assert rows'[|t.rows|].name == name;
      FirstAfterAbsent(t.rows, Row(t.nextId, name), name);
    }
  }

  lemma {:induction false} FirstAfterAbsent(rows: seq<Row>, row: Row, name: string)
    requires First(rows, name).None? && row.name == name
    ensures First(rows + [row], name) == Some(row)
  {
    if rows == [] {
      assert rows + [row] == [row];
    } else {
      assert (rows + [row])[1..] == rows[1..] + [row];
      FirstAfterAbsent(rows[1..], row, name);
    }
  }

  /** The names of a table's rows, in insertion order. */
  function Names(rows: seq<Row>): (ns: seq<string>)
    ensures |ns| == |rows|
    ensures forall i :: 0 <= i < |rows| ==> ns[i] == rows[i].name
  {
    if rows == [] then [] else [rows[0].name] + Names(rows[1..])
  }

  lemma NamesAppend(rows: seq<Row>, row: Row)
    ensures Names(rows + [row]) == Names(rows) + [row.name]
  {
    var ns := Names(rows + [row]);
    assert forall i :: 0 <= i < |rows| ==> ns[i] == (rows + [row])[i].name == rows[i].name;
  }

  /** The ids of a table's rows. */
  function Ids(rows: seq<Row>): set<int>
  {
    set i | 0 <= i < |rows| :: rows[i].id
  }

  lemma IdsGrow(rows: seq<Row>, more: seq<Row>)
    ensures Ids(rows) <= Ids(rows + more)
  {
    forall id | id in Ids(rows)
      ensures id in Ids(rows + more)
    {
      var i :| 0 <= i < |rows| && rows[i].id == id;
      assert (rows + more)[i].id == id;
    }
  }

  /** No orphan rows: every vector row names a word and a kind that exist. */
  ghost predicate Linked(db: Db)
  {
    forall i :: 0 <= i < |db.vectors| ==>
      db.vectors[i].wordId in Ids(db.words.rows) && db.vectors[i].kindId in Ids(db.kinds.rows)
  }
}
