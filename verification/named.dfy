/**
  Get-or-create of a named row, the logic `src/db/models/kind.rs` and
  `src/db/models/word.rs` each spell out for their own table: the insert is
  attempted unconditionally and its error only logged; the row returned is
  whatever a lookup by name then finds first.
 */
module Named {
  import opened Optional
  import opened Storage

  /** The two tables of named rows: `kinds` (`Kind { id, kind }`) and
      `words` (`Word { id, word }`). */
  datatype Which = Kinds | Words

  function TableOf(db: Db, w: Which): Table
  {
    match w
    case Kinds => db.kinds
    case Words => db.words
  }

  function Other(w: Which): Which
  {
    match w
    case Kinds => Words
    case Words => Kinds
  }

  /** The store with one named table replaced, everything else kept. */
  function WithTable(db: Db, w: Which, t: Table): (db': Db)
    ensures TableOf(db', w) == t
    ensures TableOf(db', Other(w)) == TableOf(db, Other(w))
    ensures db'.vectors == db.vectors && db'.calls == db.calls
  {
    match w
    case Kinds => db.(kinds := t)
    case Words => db.(words := t)
  }

  lemma ValidTables(db: Db, w: Which, t: Table)
    ensures Valid(db) ==> ValidTable(TableOf(db, w))
    ensures Valid(db) && ValidTable(t) ==> Valid(WithTable(db, w, t))
  {
  }

  lemma ValidTick(db: Db)
    ensures Valid(Tick(db)) == Valid(db)
  {
  }

  /** `get_kind` / `get_word`: the earliest row with the name, or `None`
      when there is none or the query fails. */
  function Get(db: Db, faults: Faults, w: Which, name: string): (r: Answer<Option<Row>>)
    ensures r.db == Tick(db)
    ensures r.value.Some? ==> !faults(db.calls) && r.value.value.name == name && r.value.value in TableOf(db, w).rows
    ensures r.value.None? <==> faults(db.calls) || forall i :: 0 <= i < |TableOf(db, w).rows| ==> TableOf(db, w).rows[i].name != name
    ensures !faults(db.calls) ==> r.value == First(TableOf(db, w).rows, name)
  {
    var rows := TableOf(db, w).rows;
    Answer(if faults(db.calls) then None else First(rows, name), Tick(db))
  }

  /** `create_kind` / `create_word`: insert (a failure is swallowed), then
      look up. The result is the pre-existing row if there was one, else the
      row just inserted; it is `None` only if the lookup failed, or if the
      insert failed and no row existed. At most one row is added, and only
      to the named table. */
  function Create(db: Db, faults: Faults, w: Which, name: string): (r: Answer<Option<Row>>)
    ensures r.value.Some? ==> r.value.value.name == name && r.value.value in TableOf(r.db, w).rows
    ensures r.value.Some? && First(TableOf(db, w).rows, name).Some? ==> r.value == First(TableOf(db, w).rows, name)
    ensures r.value.Some? && First(TableOf(db, w).rows, name).None? ==> r.value.value == Row(TableOf(db, w).nextId, name)
    ensures r.value.None? <==> faults(db.calls + 1) || (faults(db.calls) && First(TableOf(db, w).rows, name).None?)
    ensures TableOf(r.db, w).rows == TableOf(db, w).rows
         || TableOf(r.db, w).rows == TableOf(db, w).rows + [Row(TableOf(db, w).nextId, name)]
    ensures TableOf(r.db, w).unique == TableOf(db, w).unique
    ensures TableOf(r.db, Other(w)) == TableOf(db, Other(w)) && r.db.vectors == db.vectors
    ensures r.db.calls == db.calls + 2
    ensures Valid(db) ==> Valid(r.db)
    ensures Valid(db) && r.value.Some? ==> r.value.value.id > 0
  {
    CreateAnswer(db, faults, w, name);
    CreateEffect(db, faults, w, name);
    Get(Attempt(db, faults, w, name), faults, w, name)
  }

  /** The row a get-or-create returns. */
  lemma CreateAnswer(db: Db, faults: Faults, w: Which, name: string)
    ensures var r := Get(Attempt(db, faults, w, name), faults, w, name);
      && (r.value.Some? ==> r.value.value.name == name && r.value.value in TableOf(r.db, w).rows)
      && (r.value.Some? && First(TableOf(db, w).rows, name).Some? ==> r.value == First(TableOf(db, w).rows, name))
      && (r.value.Some? && First(TableOf(db, w).rows, name).None? ==> r.value.value == Row(TableOf(db, w).nextId, name))
      && (r.value.None? <==> faults(db.calls + 1) || (faults(db.calls) && First(TableOf(db, w).rows, name).None?))
      && (Valid(db) && r.value.Some? ==> r.value.value.id > 0)
  {
    var inserted := Attempt(db, faults, w, name);
    InsertThenFirst(TableOf(db, w), name, faults(db.calls));
    var r := Get(inserted, faults, w, name);
    if Valid(db) && r.value.Some? {
      var k :| 0 <= k < |TableOf(inserted, w).rows| && TableOf(inserted, w).rows[k] == r.value.value;
    }
  }

  /** What a get-or-create does to the store. */
  lemma CreateEffect(db: Db, faults: Faults, w: Which, name: string)
    ensures var r := Get(Attempt(db, faults, w, name), faults, w, name);
      && (TableOf(r.db, w).rows == TableOf(db, w).rows
          || TableOf(r.db, w).rows == TableOf(db, w).rows + [Row(TableOf(db, w).nextId, name)])
      && TableOf(r.db, w).unique == TableOf(db, w).unique
      && TableOf(r.db, Other(w)) == TableOf(db, Other(w)) && r.db.vectors == db.vectors
      && r.db.calls == db.calls + 2
      && (Valid(db) ==> Valid(r.db))
  {
    ValidTick(Attempt(db, faults, w, name));
  }

  /** The insert half of a get-or-create, as one call against the store:
      the named table goes through `Insert`, nothing else changes. */
  function Attempt(db: Db, faults: Faults, w: Which, name: string): (db': Db)
    ensures TableOf(db', w) == Insert(TableOf(db, w), name, faults(db.calls))
    ensures TableOf(db', Other(w)) == TableOf(db, Other(w)) && db'.vectors == db.vectors
    ensures db'.calls == db.calls + 1
    ensures Valid(db) ==> Valid(db') && ValidTable(TableOf(db', w))
  {
    var t' := Insert(TableOf(db, w), name, faults(db.calls));
    InsertValid(TableOf(db, w), name, faults(db.calls));
    ValidTables(db, w, t');
    ValidTick(WithTable(db, w, t'));
    Tick(WithTable(db, w, t'))
  }

  /** `kinds_list` / `words_list`: every row in insertion order, or `None`
      on error. */
  function List(db: Db, faults: Faults, w: Which): (r: Answer<Option<seq<Row>>>)
    ensures r.db == Tick(db)
    ensures r.value.None? <==> faults(db.calls)
    ensures r.value.Some? ==> r.value.value == TableOf(db, w).rows
  {
    Answer(if faults(db.calls) then None else Some(TableOf(db, w).rows), Tick(db))
  }

  /** Creating the same name twice returns the same row both times, since
      the lookup picks the first match; under a uniqueness constraint the
      second call adds no row. */
  lemma CreateTwice(db: Db, faults: Faults, w: Which, name: string)
    ensures var a := Create(db, faults, w, name);
      var b := Create(a.db, faults, w, name);
      && (a.value.Some? && b.value.Some? ==> a.value == b.value)
      && (a.value.Some? && !faults(a.db.calls + 1) ==> b.value == a.value)
      && (TableOf(db, w).unique && a.value.Some? ==> TableOf(b.db, w).rows == TableOf(a.db, w).rows)
  {
    var a := Create(db, faults, w, name);
    var t := TableOf(db, w);
    if a.value.Some? {
      if First(t.rows, name).Some? {
        if TableOf(a.db, w).rows != t.rows {
          FirstStable(t.rows, [Row(t.nextId, name)], name);
        }
      } else {
        InsertThenFirst(t, name, faults(db.calls));
      }
    }
  }

  /** A created row is found again by the lookup, with a positive id. */
  lemma CreatedIsFound(db: Db, faults: Faults, w: Which, name: string)
    requires Valid(db)
    ensures var a := Create(db, faults, w, name);
      a.value.Some? && !faults(a.db.calls) ==>
        && Get(a.db, faults, w, name).value == a.value
        && a.value.value.id > 0
  {
    var a := Create(db, faults, w, name);
    var t := TableOf(db, w);
    if a.value.Some? && First(t.rows, name).Some? && TableOf(a.db, w).rows != t.rows {
      FirstStable(t.rows, [Row(t.nextId, name)], name);
    } else if a.value.Some? && First(t.rows, name).None? {
      InsertThenFirst(t, name, faults(db.calls));
    }
  }

  /** The results of creating each name in turn, as the tests do. */
  function CreateAll(db: Db, faults: Faults, w: Which, names: seq<string>): Answer<seq<Option<Row>>>
    decreases |names|
  {
    if names == [] then Answer([], db)
    else
      var first := Create(db, faults, w, names[0]);
      var rest := CreateAll(first.db, faults, w, names[1..]);
      Answer([first.value] + rest.value, rest.db)
  }

  /** On a store where no call fails, creating a name not yet present
      returns the row appended for it. */
  lemma CreateNew(db: Db, faults: Faults, w: Which, name: string)
    requires Reliable(faults)
    requires First(TableOf(db, w).rows, name).None?
    ensures var a := Create(db, faults, w, name);
      && a.value == Some(Row(TableOf(db, w).nextId, name))
      && TableOf(a.db, w).rows == TableOf(db, w).rows + [Row(TableOf(db, w).nextId, name)]
  {
    assert !faults(db.calls) && !faults(db.calls + 1);
  }

  /** Distinct names none of which is in `rows`, and so none of which is
      in `rows` with the first of them appended. */
  lemma FreshTail(rows: seq<Row>, row: Row, names: seq<string>)
    requires names != [] && row.name == names[0]
    requires forall i, j :: 0 <= i < j < |names| ==> names[i] != names[j]
    requires forall i :: 0 <= i < |names| ==> First(rows, names[i]).None?
    ensures forall i :: 0 <= i < |names[1..]| ==> First(rows + [row], names[1..][i]).None?
  {
    forall i | 0 <= i < |names[1..]|
      ensures First(rows + [row], names[1..][i]).None?
    {
      assert names[1..][i] == names[i + 1];
      assert First(rows, names[i + 1]).None?;
      assert names[0] != names[i + 1];
    }
  }

  /** On a store where no call fails, creating distinct new names returns
      each as a row with that name and a positive id. */
  lemma {:induction false} CreateAllReturned(db: Db, faults: Faults, w: Which, names: seq<string>)
    requires Valid(db) && Reliable(faults)
    requires forall i, j :: 0 <= i < j < |names| ==> names[i] != names[j]
    requires forall i :: 0 <= i < |names| ==> First(TableOf(db, w).rows, names[i]).None?
    ensures var r := CreateAll(db, faults, w, names);
      && |r.value| == |names|
      && (forall i :: 0 <= i < |names| ==> r.value[i].Some? && r.value[i].value.name == names[i] && r.value[i].value.id > 0)
    decreases |names|
  {
    if names != [] {
      var t := TableOf(db, w);
      var first := Create(db, faults, w, names[0]);
      var tail := names[1..];
      var rest := CreateAll(first.db, faults, w, tail);
      var r := CreateAll(db, faults, w, names);
      assert r.value == [first.value] + rest.value;
      var row := Row(t.nextId, names[0]);
      assert Valid(first.db) && first.value == Some(row) && TableOf(first.db, w).rows == t.rows + [row] by {
        CreateNew(db, faults, w, names[0]);
      }
      assert row.id > 0 by {
        ValidTables(db, w, t);
      }
      assert forall i, j :: 0 <= i < j < |tail| ==> tail[i] != tail[j] by {
        DistinctTail(names);
      }
      assert forall i :: 0 <= i < |tail| ==> First(TableOf(first.db, w).rows, tail[i]).None? by {
        FreshTail(t.rows, row, names);
      }
      CreateAllReturned(first.db, faults, w, tail);
      CreatedCons(first.value, rest.value, names);
    }
  }

  lemma CreatedCons(first: Option<Row>, rest: seq<Option<Row>>, names: seq<string>)
    requires names != [] && |rest| == |names| - 1
    requires first.Some? && first.value.name == names[0] && first.value.id > 0
    requires forall i :: 0 <= i < |rest| ==> rest[i].Some? && rest[i].value.name == names[1..][i] && rest[i].value.id > 0
    ensures forall i :: 0 <= i < |names| ==>
      ([first] + rest)[i].Some? && ([first] + rest)[i].value.name == names[i] && ([first] + rest)[i].value.id > 0
  {
    forall i | 0 < i < |names|
      ensures ([first] + rest)[i].Some? && ([first] + rest)[i].value.name == names[i] && ([first] + rest)[i].value.id > 0
    {
      assert ([first] + rest)[i] == rest[i - 1] && names[i] == names[1..][i - 1];
    }
  }

  lemma DistinctTail(names: seq<string>)
    requires names != []
    requires forall i, j :: 0 <= i < j < |names| ==> names[i] != names[j]
    ensures forall i, j :: 0 <= i < j < |names[1..]| ==> names[1..][i] != names[1..][j]
  {
    forall i, j | 0 <= i < j < |names[1..]|
      ensures names[1..][i] != names[1..][j]
    {
      assert names[1..][i] == names[i + 1] && names[1..][j] == names[j + 1];
    }
  }

  /** On a store where no call fails, after creating distinct new names the
      listing shows the old rows and then exactly those names, in order. */
  lemma {:induction false} CreateAllListed(db: Db, faults: Faults, w: Which, names: seq<string>)
    requires Reliable(faults)
    requires forall i, j :: 0 <= i < j < |names| ==> names[i] != names[j]
    requires forall i :: 0 <= i < |names| ==> First(TableOf(db, w).rows, names[i]).None?
    ensures Names(TableOf(CreateAll(db, faults, w, names).db, w).rows) == Names(TableOf(db, w).rows) + names
    decreases |names|
  {
    var r := CreateAll(db, faults, w, names);
    var t := TableOf(db, w);
    if names == [] {
      assert Names(t.rows) + names == Names(t.rows);
    } else {
      var first := Create(db, faults, w, names[0]);
      var rest := CreateAll(first.db, faults, w, names[1..]);
      var rows' := t.rows + [Row(t.nextId, names[0])];
      assert Names(TableOf(rest.db, w).rows) == Names(rows') + names[1..] by {
        CreateNew(db, faults, w, names[0]);
        FreshTail(t.rows, Row(t.nextId, names[0]), names);
        CreateAllListed(first.db, faults, w, names[1..]);
      }
      assert r.db == rest.db;
      NamesAppend(t.rows, Row(t.nextId, names[0]));
      ConsSplit(Names(t.rows), names);
    }
  }

  lemma ConsSplit<T>(a: seq<T>, s: seq<T>)
    requires s != []
    ensures a + [s[0]] + s[1..] == a + s
  {
    assert [s[0]] + s[1..] == s;
  }
}
